/** The part of EclipseLink's JPQL parse tree the enhancer inspects. Every node
    class it tests with `instanceof` or downcasts to is a constructor here; every
    other node class it may meet in that position is one "other" constructor, and
    every `toActualText()` / `toString()` rendering it reads is a stored string.
    The one exception is the FROM clause: a select statement always holds one. */
module JpqlTree {

  /** The range part of a FROM declaration ("User u"): a RangeVariableDeclaration
      with the text of its identification variable, or any other node. */
  datatype RangeDeclaration =
    | RangeVariableDeclaration(identificationVariable: string)
    | OtherRangeDeclaration

  /** One child of a join collection: a Join with the text of its identification
      variable, or any other node. */
  datatype JoinNode = Join(identificationVariable: string) | OtherJoinNode

  /** What `IdentificationVariableDeclaration.getJoins()` returns: a collection of
      joins, a single Join, or anything else (no joins). */
  datatype Joins =
    | NoJoins
    | OneJoin(identificationVariable: string)
    | JoinList(items: seq<JoinNode>)

  datatype IdentificationVariableDeclaration =
    IdentificationVariableDeclaration(range: RangeDeclaration, joins: Joins)

  /** One child of a comma-separated FROM clause. */
  datatype FromChild =
    | Declaration(decl: IdentificationVariableDeclaration)
    | OtherChild

  /** What `FromClause.getDeclaration()` returns: one declaration, a collection of
      children, or any other node (with the text of its query BNF). */
  datatype FromDeclaration =
    | Single(decl: IdentificationVariableDeclaration)
    | List(children: seq<FromChild>)
    | OtherDeclaration(queryBnf: string)

  datatype SelectExpression = ConstructorExpression | OtherSelectExpression

  /** What `SelectStatement.getSelectClause()` returns: a SelectClause with the
      `toString()` of its children list and its select expression, or any other node. */
  datatype SelectClause =
    | SelectClause(childrenText: string, selectExpression: SelectExpression)
    | OtherSelectClause

  /** The root node of a parsed query: a select statement, or an update or delete
      statement. */
  datatype Statement =
    | SelectStatement(selectClause: SelectClause, from: FromDeclaration)
    | OtherStatement

  /** What parsing and grammatically validating a query text yields: the root
      node, and the message keys of the problems the validator reported, in the
      order it reported them. */
  datatype ParseOutcome = ParseOutcome(queryStatement: Statement, problemKeys: seq<string>)

  /** The FROM clause read as a list of children: a single declaration is a list of
      one, any other node a list of none. */
  function Children(from: FromDeclaration): seq<FromChild>
  {
    match from
    case Single(d) => [Declaration(d)]
    case List(cs) => cs
    case OtherDeclaration(_) => []
  }

  /** The number of join nodes a declaration carries. */
  function JoinCount(joins: Joins): nat
  {
    match joins
    case NoJoins => 0
    case OneJoin(_) => 1
    case JoinList(items) => |items|
  }

  /** `a` is the identification variable of one of the joins. */
  predicate IsJoinAlias(joins: Joins, a: string)
  {
    match joins
    case NoJoins => false
    case OneJoin(v) => a == v
    case JoinList(items) => exists i :: 0 <= i < |items| && items[i] == Join(a)
  }
}
