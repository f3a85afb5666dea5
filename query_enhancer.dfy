/** The enhancer object: the query it was built for, the EclipseLink grammar it
    parses with, and the one mutable field, the memoised root of the parse tree. */
module QueryEnhancer {
  import opened Results
  import opened Text
  import opened JpqlTree
  import opened ParseProblems
  import opened TreeDispatch

  /** One entry of a `Sort`: property, direction and case handling. */
  datatype SortOrder = SortOrder(property: string, ascending: bool, ignoreCase: bool)

  function ToOption<T>(r: Result<T>): Option<T>
  {
    match r
    case Success(v) => Some(v)
    case Failure(_) => None
  }

  class EclipseLinkQueryEnhancer {
    /** The text of the declared query; `getQuery` returns it. */
    const query: string
    /** Parsing and grammatically validating a text with the EclipseLink grammar. */
    const grammar: string -> ParseOutcome
    var memorizedRootExpression: Option<Statement>
    /** How many times the parser has been run on this object. */
    ghost var parserRuns: nat

    /** What parsing the query gives, whenever it is done. */
    function Parsed(): Result<Statement>
    {
      ParseResult(grammar(query))
    }

    /** A memoised root is the root a parse of the query yields. */
    ghost predicate Valid()
      reads this
    {
      memorizedRootExpression.Some? ==> Parsed() == Success(memorizedRootExpression.value)
    }

    constructor (query: string, grammar: string -> ParseOutcome)
      ensures this.query == query && this.grammar == grammar
      ensures memorizedRootExpression == None && parserRuns == 0
      ensures Valid()
    {
      this.query := query;
      this.grammar := grammar;
      memorizedRootExpression := None;
      parserRuns := 0;
    }

    /** `parseQuery`: returns the memoised root without running the parser when there
        is one; otherwise parses, drops the missing-parameter problems, fails on any
        other problem without memoising anything, and memoises the root on success. */
    method ParseQuery() returns (r: Result<Statement>)
      requires Valid()
      modifies this`memorizedRootExpression, this`parserRuns
      ensures Valid()
      ensures r == Parsed()
      ensures old(memorizedRootExpression).Some? ==>
        r == Success(old(memorizedRootExpression).value)
        && memorizedRootExpression == old(memorizedRootExpression)
        && parserRuns == old(parserRuns)
      ensures old(memorizedRootExpression).None? ==>
        parserRuns == old(parserRuns) + 1
        && memorizedRootExpression == ToOption(r)
    {
      if memorizedRootExpression.Some? {
        return Success(memorizedRootExpression.value);
      }
      var outcome := grammar(query);
      parserRuns := parserRuns + 1;
      var problems := outcome.problemKeys;
      problems := Remaining(problems);
      if problems != [] {
        return Failure(IllegalState(ParseFailurePrefix + JoinWith(problems, ',')));
      }
      memorizedRootExpression := Some(outcome.queryStatement);
      return Success(outcome.queryStatement);
    }

    method DetectAlias() returns (r: Result<string>)
      requires Valid()
      modifies this`memorizedRootExpression, this`parserRuns
      ensures Valid()
      ensures r == Then(Parsed(), DetectAliasIn)
      ensures memorizedRootExpression == ToOption(Parsed())
      ensures parserRuns == old(parserRuns) + (if old(memorizedRootExpression).None? then 1 else 0)
    {
      var parsed := ParseQuery();
      if parsed.Failure? {
        return Failure(parsed.error);
      }
      r := DetectAliasIn(parsed.value);
    }

    method GetProjection() returns (r: Result<string>)
      requires Valid()
      modifies this`memorizedRootExpression, this`parserRuns
      ensures Valid()
      ensures r == Then(Parsed(), ProjectionIn)
      ensures memorizedRootExpression == ToOption(Parsed())
      ensures parserRuns == old(parserRuns) + (if old(memorizedRootExpression).None? then 1 else 0)
    {
      var parsed := ParseQuery();
      if parsed.Failure? {
        return Failure(parsed.error);
      }
      r := ProjectionIn(parsed.value);
    }

    /** `getJoinAliases`: starts from an empty set and, for a single declaration, adds
        that declaration's join aliases to it. */
    method GetJoinAliases() returns (r: Result<set<string>>)
      requires Valid()
      modifies this`memorizedRootExpression, this`parserRuns
      ensures Valid()
      ensures r == Then(Parsed(), JoinAliasesIn)
      ensures memorizedRootExpression == ToOption(Parsed())
      ensures parserRuns == old(parserRuns) + (if old(memorizedRootExpression).None? then 1 else 0)
    {
      var joinAliases: set<string> := {};
      var parsed := ParseQuery();
      if parsed.Failure? {
        return Failure(parsed.error);
      }
      if parsed.value.OtherStatement? {
        return Failure(IllegalArgument(NotSelect));
      }
      match parsed.value.from {
        case List(children) =>
          r := ListJoinAliases(children);
          return;
        case Single(decl) =>
          var extracted := ExtractJoinsAliases(decl);
          if extracted.Failure? {
            return Failure(extracted.error);
          }
          joinAliases := joinAliases + extracted.value;
        case OtherDeclaration(_) =>
      }
      r := Success(joinAliases);
    }

    method HasConstructorExpression() returns (r: Result<bool>)
      requires Valid()
      modifies this`memorizedRootExpression, this`parserRuns
      ensures Valid()
      ensures r == Then(Parsed(), HasConstructorExpressionIn)
      ensures memorizedRootExpression == ToOption(Parsed())
      ensures parserRuns == old(parserRuns) + (if old(memorizedRootExpression).None? then 1 else 0)
    {
      var parsed := ParseQuery();
      if parsed.Failure? {
        return Failure(parsed.error);
      }
      r := HasConstructorExpressionIn(parsed.value);
    }

    /** `createCountQueryFor` as the source has it: the downcast to a select statement
        comes first, so an update or delete statement fails at the cast and the
        statement check after it never fires. The custom projection is never read:
        the operation is not implemented. It parses at most once, although it asks for
        the parse twice (directly and through `detectAlias`). */
    method CreateCountQueryFor(countProjection: Option<string>) returns (r: Result<string>)
      requires Valid()
      modifies this`memorizedRootExpression, this`parserRuns
      ensures Valid()
      ensures r == Then(Parsed(), CreateCountQueryAsWritten)
      ensures memorizedRootExpression == ToOption(Parsed())
      ensures parserRuns == old(parserRuns) + (if old(memorizedRootExpression).None? then 1 else 0)
    {
      var parsed := ParseQuery();
      if parsed.Failure? {
        return Failure(parsed.error);
      }
      if !parsed.value.SelectStatement? {
        return Failure(ClassCast);
      }
      var alias := DetectAlias();
      if alias.Failure? {
        return Failure(alias.error);
      }
      return Failure(UnsupportedOperation(NotImplemented));
    }

    /** `applySorting` is not implemented: it fails without parsing. */
    method ApplySorting(sort: seq<SortOrder>, alias: string) returns (r: Result<string>)
      ensures r == Failure(UnsupportedOperation(NotImplemented))
    {
      return Failure(UnsupportedOperation(NotImplemented));
    }
  }

  /** Two operations on one enhancer: the parser runs once when the first parse
      succeeds, and the second operation reads the memoised root; when the first
      parse fails, nothing is memoised and the second operation parses again. */
  method DetectAliasThenJoinAliases(query: string, grammar: string -> ParseOutcome)
    returns (alias: Result<string>, joinAliases: Result<set<string>>, ghost runs: nat)
    ensures alias == Then(ParseResult(grammar(query)), DetectAliasIn)
    ensures joinAliases == Then(ParseResult(grammar(query)), JoinAliasesIn)
    ensures ParseResult(grammar(query)).Success? ==> runs == 1
    ensures ParseResult(grammar(query)).Failure? ==> runs == 2
  {
    var enhancer := new EclipseLinkQueryEnhancer(query, grammar);
    alias := enhancer.DetectAlias();
    joinAliases := enhancer.GetJoinAliases();
    runs := enhancer.parserRuns;
  }
}
