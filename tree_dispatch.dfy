/** The decisions the enhancer takes on a parsed statement: which FROM declaration
    names the primary alias, which join aliases there are, how the projection text
    is cut out of the select clause's rendering, whether the select expression is a
    constructor, and the two operations that are not implemented. */
module TreeDispatch {
  import opened Results
  import opened Text
  import opened JpqlTree

  const DetectAliasNotSelect: string := "Cannot work with update delete statement"
  const CountQueryNotSelect: string := "Cannot work with update delete statement "
  const NotSelect: string := "Cannot work with updaet delete statemtn "
  const EmptyFromCollection: string := "Collection expression within the form clause cannot be empty!"
  const UnexpectedFromPrefix: string := "From clause contains object that we did not expect! "
  const NotImplemented: string := "Not implemented"

  // detectAlias

  /** The declaration `detectAlias` reads: the single declaration, or the first
      child of a declaration list downcast to a declaration. */
  function PickDeclaration(from: FromDeclaration): Result<IdentificationVariableDeclaration>
  {
    match from
    case Single(d) => Success(d)
    case List(cs) =>
      if |cs| == 0 then Failure(IllegalState(EmptyFromCollection))
      else if cs[0].Declaration? then Success(cs[0].decl)
      else Failure(ClassCast)
    case OtherDeclaration(bnf) => Failure(IllegalState(UnexpectedFromPrefix + bnf))
  }

  /** `detectAlias` on a parsed statement. It succeeds exactly when the FROM clause,
      read as a list, starts with a declaration over a range variable, and then gives
      that variable's text unchanged; every other shape is one of the source's
      exceptions. */
  function DetectAliasIn(statement: Statement): (r: Result<string>)
    ensures statement.OtherStatement? ==> r == Failure(IllegalArgument(DetectAliasNotSelect))
    ensures r.Success? <==>
      statement.SelectStatement? && |Children(statement.from)| > 0
      && Children(statement.from)[0].Declaration?
      && Children(statement.from)[0].decl.range.RangeVariableDeclaration?
    ensures r.Success? ==>
      r.value == Children(statement.from)[0].decl.range.identificationVariable
    ensures statement.SelectStatement? && statement.from == List([]) ==>
      r == Failure(IllegalState(EmptyFromCollection))
    ensures statement.SelectStatement? && statement.from.OtherDeclaration? ==>
      r == Failure(IllegalState(UnexpectedFromPrefix + statement.from.queryBnf))
    ensures statement.SelectStatement? && |Children(statement.from)| > 0 && r.Failure? ==>
      r.error == ClassCast
  {
    match statement
    case OtherStatement => Failure(IllegalArgument(DetectAliasNotSelect))
    case SelectStatement(_, from) =>
      match PickDeclaration(from)
      case Failure(e) => Failure(e)
      case Success(d) =>
        match d.range
        case RangeVariableDeclaration(v) => Success(v)
        case OtherRangeDeclaration => Failure(ClassCast)
  }

  // getJoinAliases and extractJoinsAliases

  /** The identification variables of a join collection, each child downcast to a
      Join. */
  function JoinListAliases(items: seq<JoinNode>): (r: Result<set<string>>)
    ensures r.Failure? <==> exists i :: 0 <= i < |items| && items[i].OtherJoinNode?
    ensures r.Failure? ==> r.error == ClassCast
    ensures r.Success? ==> |r.value| <= |items|
    ensures r.Success? ==>
      forall a :: a in r.value <==> exists i :: 0 <= i < |items| && items[i] == Join(a)
  {
    if items == [] then Success({})
    else
      match items[0]
      case OtherJoinNode => Failure(ClassCast)
      case Join(a) =>
        match JoinListAliases(items[1..])
        case Failure(e) =>
          ghost var i :| 0 <= i < |items[1..]| && items[1..][i].OtherJoinNode?;
          assert items[i + 1].OtherJoinNode?;
          Failure(e)
        case Success(s) =>
          assert forall b :: b in s ==> exists i :: 0 <= i < |items| && items[i] == Join(b) by {
            forall b | b in s ensures exists i :: 0 <= i < |items| && items[i] == Join(b) {
              ghost var i :| 0 <= i < |items[1..]| && items[1..][i] == Join(b);
              assert items[i + 1] == Join(b);
            }
          }
          assert forall i :: 1 <= i < |items| ==> items[i] == items[1..][i - 1];
          assert |{a} + s| <= |{a}| + |s|;
          Success({a} + s)
  }

  /** `extractJoinsAliases`: the identification variables of a declaration's joins;
      there are at most as many aliases as joins, and a collection holding a node
      that is not a Join fails at the downcast. */
  function ExtractJoinsAliases(decl: IdentificationVariableDeclaration): (r: Result<set<string>>)
    ensures r.Failure? <==>
      decl.joins.JoinList? && exists i :: 0 <= i < |decl.joins.items| && decl.joins.items[i].OtherJoinNode?
    ensures r.Failure? ==> r.error == ClassCast
    ensures r.Success? ==> |r.value| <= JoinCount(decl.joins)
    ensures r.Success? ==> forall a :: a in r.value <==> IsJoinAlias(decl.joins, a)
  {
    match decl.joins
    case JoinList(items) => JoinListAliases(items)
    case OneJoin(v) => Success({v})
    case NoJoins => Success({})
  }

  /** The union of the join aliases of the declarations in a FROM list; children
      that are not declarations are skipped. */
  function ListJoinAliases(children: seq<FromChild>): (r: Result<set<string>>)
    ensures r.Failure? <==>
      exists i :: 0 <= i < |children| && children[i].Declaration?
        && ExtractJoinsAliases(children[i].decl).Failure?
    ensures r.Failure? ==> r.error == ClassCast
    ensures r.Success? ==> forall a :: a in r.value <==>
      exists i :: 0 <= i < |children| && children[i].Declaration? && IsJoinAlias(children[i].decl.joins, a)
  {
    if children == [] then Success({})
    else
      var head: Result<set<string>> :=
        if children[0].Declaration? then ExtractJoinsAliases(children[0].decl) else Success({});
      var tail := ListJoinAliases(children[1..]);
      assert forall i :: 1 <= i < |children| ==> children[i] == children[1..][i - 1];
      if head.Failure? then head
      else if tail.Failure? then
        ghost var i :| 0 <= i < |children[1..]| && children[1..][i].Declaration?
          && ExtractJoinsAliases(children[1..][i].decl).Failure?;
        assert children[i + 1] == children[1..][i];
        tail
      else
        assert forall b :: b in tail.value ==>
          exists i :: 0 <= i < |children| && children[i].Declaration? && IsJoinAlias(children[i].decl.joins, b) by {
          forall b | b in tail.value
            ensures exists i :: 0 <= i < |children| && children[i].Declaration? && IsJoinAlias(children[i].decl.joins, b)
          {
            ghost var i :| 0 <= i < |children[1..]| && children[1..][i].Declaration?
              && IsJoinAlias(children[1..][i].decl.joins, b);
            assert children[i + 1] == children[1..][i];
          }
        }
        Success(head.value + tail.value)
  }

  /** `getJoinAliases` on a parsed statement: the identification variables of all the
      joins of all the declarations of the FROM clause, whether it holds one
      declaration or a list; any other FROM node has none. */
  function JoinAliasesIn(statement: Statement): (r: Result<set<string>>)
    ensures statement.OtherStatement? ==> r == Failure(IllegalArgument(NotSelect))
    ensures statement.SelectStatement? ==>
      (r.Failure? <==>
        exists i :: 0 <= i < |Children(statement.from)| && Children(statement.from)[i].Declaration?
          && ExtractJoinsAliases(Children(statement.from)[i].decl).Failure?)
    ensures statement.SelectStatement? && r.Failure? ==> r.error == ClassCast
    ensures r.Success? ==> forall a :: a in r.value <==>
      exists i :: 0 <= i < |Children(statement.from)| && Children(statement.from)[i].Declaration?
        && IsJoinAlias(Children(statement.from)[i].decl.joins, a)
  {
    match statement
    case OtherStatement => Failure(IllegalArgument(NotSelect))
    case SelectStatement(_, from) =>
      match from
      case List(cs) =>
        assert Children(from) == cs;
        ListJoinAliases(cs)
      case Single(d) =>
        assert Children(from)[0] == Declaration(d);
        ExtractJoinsAliases(d)
      case OtherDeclaration(_) => Success({})
  }

  // getProjection

  /** The projection text: the select clause's rendering with its first `[` and every
      `]` taken out. No `]` is left, one `[` fewer when there was one, every other
      character as often as before, and the characters before and after the removed
      `[` each keep their order. */
  function StripBrackets(text: string): (r: string)
    ensures ']' !in r
    ensures Count(r, '[') == Count(text, '[') - (if '[' in text then 1 else 0)
    ensures forall d :: d != '[' && d != ']' ==> Count(r, d) == Count(text, d)
    ensures '[' !in text ==> r == RemoveAll(text, ']')
    ensures '[' in text ==>
      var i := IndexOf(text, '[');
      r == RemoveAll(text[..i], ']') + RemoveAll(text[i + 1..], ']')
  {
    var i := IndexOf(text, '[');
    var r := RemoveAll(RemoveFirst(text, '['), ']');
    assert i >= 0 ==> r == RemoveAll(text[..i], ']') + RemoveAll(text[i + 1..], ']') by {
      if i >= 0 {
        RemoveAllAppend(text[..i], text[i + 1..], ']');
      }
    }
    r
  }

  /** `getProjection` on a parsed statement; a select clause node of another class
      fails at the downcast. */
  function ProjectionIn(statement: Statement): (r: Result<string>)
    ensures statement.OtherStatement? ==> r == Failure(IllegalArgument(NotSelect))
    ensures statement.SelectStatement? && statement.selectClause.OtherSelectClause? ==>
      r == Failure(ClassCast)
    ensures statement.SelectStatement? && statement.selectClause.SelectClause? ==>
      r == Success(StripBrackets(statement.selectClause.childrenText))
  {
    match statement
    case OtherStatement => Failure(IllegalArgument(NotSelect))
    case SelectStatement(select, _) =>
      match select
      case OtherSelectClause => Failure(ClassCast)
      case SelectClause(text, _) => Success(StripBrackets(text))
  }

  // hasConstructorExpression

  /** `hasConstructorExpression` on a parsed statement: true exactly for a
      constructor select expression; a select clause node of another class fails at
      the downcast. */
  function HasConstructorExpressionIn(statement: Statement): (r: Result<bool>)
    ensures statement.OtherStatement? ==> r == Failure(IllegalArgument(NotSelect))
    ensures statement.SelectStatement? && statement.selectClause.OtherSelectClause? ==>
      r == Failure(ClassCast)
    ensures statement.SelectStatement? && statement.selectClause.SelectClause? ==>
      r.Success? && (r.value <==> statement.selectClause.selectExpression == ConstructorExpression)
  {
    match statement
    case OtherStatement => Failure(IllegalArgument(NotSelect))
    case SelectStatement(select, _) =>
      match select
      case OtherSelectClause => Failure(ClassCast)
      case SelectClause(_, e) => Success(e.ConstructorExpression?)
  }

  // createCountQueryFor and applySorting

  /** `createCountQueryFor` as written: the cast to SelectStatement comes before the
      instanceof check, so an update or delete statement fails at the cast and the
      check can never fire. The operation is not implemented and never succeeds. */
  function CreateCountQueryAsWritten(statement: Statement): (r: Result<string>)
    ensures r.Failure?
    ensures statement.OtherStatement? ==> r.error == ClassCast
    ensures statement.SelectStatement? ==>
      r.error == if DetectAliasIn(statement).Failure? then DetectAliasIn(statement).error
                 else UnsupportedOperation(NotImplemented)
  {
    match statement
    case OtherStatement => Failure(ClassCast)
    case SelectStatement(_, _) =>
      match DetectAliasIn(statement)
      case Failure(e) => Failure(e)
      case Success(_) => Failure(UnsupportedOperation(NotImplemented))
  }

  /** `createCountQueryFor` with the statement check taking effect before the cast, as
      its IllegalArgumentException evidently intends: an update or delete statement
      is rejected like in the other tree operations. */
  function CreateCountQueryFor(statement: Statement): (r: Result<string>)
    ensures r.Failure?
    ensures statement.OtherStatement? ==> r.error == IllegalArgument(CountQueryNotSelect)
    ensures statement.SelectStatement? ==> r == CreateCountQueryAsWritten(statement)
  {
    match statement
    case OtherStatement => Failure(IllegalArgument(CountQueryNotSelect))
    case SelectStatement(_, _) =>
      match DetectAliasIn(statement)
      case Failure(e) => Failure(e)
      case Success(_) => Failure(UnsupportedOperation(NotImplemented))
  }

  /** The input on which the two readings of `createCountQueryFor` differ: an update
      or delete statement (on a select they agree, by `CreateCountQueryFor`'s own
      contract). */
  lemma CountQueryCastBeforeCheck()
    ensures CreateCountQueryAsWritten(OtherStatement) == Failure(ClassCast)
    ensures CreateCountQueryFor(OtherStatement) == Failure(IllegalArgument(CountQueryNotSelect))
  {
  }

  // Relations between the operations

  /** `detectAlias`, `getJoinAliases`, `getProjection` and `hasConstructorExpression`
      reject an update or delete statement with an IllegalArgumentException, and so
      does the intended `createCountQueryFor`; the code as written fails at the cast
      instead (`CountQueryCastBeforeCheck`). */
  lemma NonSelectRejected()
    ensures DetectAliasIn(OtherStatement).Failure? && DetectAliasIn(OtherStatement).error.IllegalArgument?
    ensures JoinAliasesIn(OtherStatement).Failure? && JoinAliasesIn(OtherStatement).error.IllegalArgument?
    ensures ProjectionIn(OtherStatement).Failure? && ProjectionIn(OtherStatement).error.IllegalArgument?
    ensures HasConstructorExpressionIn(OtherStatement).Failure?
      && HasConstructorExpressionIn(OtherStatement).error.IllegalArgument?
    ensures CreateCountQueryFor(OtherStatement).error.IllegalArgument?
    ensures CreateCountQueryAsWritten(OtherStatement).error == ClassCast
  {
  }

  /** A FROM clause with one declaration is treated as a list holding just that
      declaration, both for the primary alias and for the join aliases. */
  lemma SingleIsListOfOne(select: SelectClause, d: IdentificationVariableDeclaration)
    ensures DetectAliasIn(SelectStatement(select, Single(d)))
         == DetectAliasIn(SelectStatement(select, List([Declaration(d)])))
    ensures JoinAliasesIn(SelectStatement(select, Single(d)))
         == JoinAliasesIn(SelectStatement(select, List([Declaration(d)])))
  {
  }

  /** The primary alias depends only on the first child of a declaration list, and not
      on the select clause. */
  lemma AliasFromFirstChild(s1: SelectClause, s2: SelectClause, c: FromChild, rest: seq<FromChild>)
    ensures DetectAliasIn(SelectStatement(s1, List([c] + rest)))
         == DetectAliasIn(SelectStatement(s2, List([c])))
  {
  }

  /** The join aliases of a declaration list are gathered part by part: splitting the
      list anywhere, they are the union of the two parts' join aliases, and the list
      fails when either part does. */
  lemma {:induction false} ListJoinAliasesAppend(a: seq<FromChild>, b: seq<FromChild>)
    ensures ListJoinAliases(a + b).Failure? <==> ListJoinAliases(a).Failure? || ListJoinAliases(b).Failure?
    ensures ListJoinAliases(a + b).Success? ==>
      ListJoinAliases(a + b).value == ListJoinAliases(a).value + ListJoinAliases(b).value
  {
    if a == [] {
      assert a + b == b;
    } else {
      assert (a + b)[0] == a[0];
      assert (a + b)[1..] == a[1..] + b;
      ListJoinAliasesAppend(a[1..], b);
    }
  }

  /** A comma-separated FROM clause with joins on both declarations, as in
      "Select u from User u left join Sale s, Transaction t left join Cool c inner
      join Ko k": the primary alias is the first declaration's variable, and the join
      aliases are those of both declarations. */
  lemma TwoDeclarationsExample(select: SelectClause, u: string, s: string, t: string, c: string, k: string)
    ensures
      var from := List([
        Declaration(IdentificationVariableDeclaration(RangeVariableDeclaration(u), OneJoin(s))),
        Declaration(IdentificationVariableDeclaration(RangeVariableDeclaration(t),
          JoinList([Join(c), Join(k)])))]);
      DetectAliasIn(SelectStatement(select, from)) == Success(u)
      && JoinAliasesIn(SelectStatement(select, from)).Success?
      && forall a :: a in JoinAliasesIn(SelectStatement(select, from)).value <==> a == s || a == c || a == k
  {
    var items := [Join(c), Join(k)];
    var children := [
        Declaration(IdentificationVariableDeclaration(RangeVariableDeclaration(u), OneJoin(s))),
        Declaration(IdentificationVariableDeclaration(RangeVariableDeclaration(t), JoinList(items)))];
    assert items[0] == Join(c) && items[1] == Join(k);
    assert IsJoinAlias(children[1].decl.joins, c);
    assert IsJoinAlias(children[1].decl.joins, k);
    assert IsJoinAlias(children[0].decl.joins, s);
  }
}
