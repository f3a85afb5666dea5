# EclipseLink query enhancer, modelled in Dafny

This project models `EclipseLinkQueryEnhancer` of Spring Data JPA. The enhancer takes
a JPQL query, has EclipseLink parse and validate it, and then answers questions about
the parse tree:

- the primary alias of the FROM clause (`detectAlias`);
- the aliases introduced by joins (`getJoinAliases`, `extractJoinsAliases`);
- the projection text (`getProjection`);
- whether the projection is a constructor expression (`hasConstructorExpression`).

The parse is memoised in one mutable field, `memorizedRootExpression`. The count-query
and sorting operations are declared but not implemented: they always throw.

Files and modules:

- `results.dfy` (`Results`): `Option`, `Result`, and `Error`. `Error` names the Java
  exception class and carries the message the source builds.
- `text.dfy` (`Text`): the string operations the enhancer uses. These are
  `equalsIgnoreCase`, stream `joining`, and `replaceFirst` and `replace` of a single
  character. Helpers state their properties: `UpperCase` is the reference that
  states the `equalsIgnoreCase` filter, `IndexOf` locates the match that `replaceFirst`
  removes, `Split` reads a joined string back, and `Count` counts a character's
  occurrences.
- `jpql_tree.dfy` (`JpqlTree`): one datatype per group of EclipseLink node classes.
  Each `instanceof` test in the source becomes a constructor, and every other class in
  that position becomes one "other" constructor. Each rendering (`toActualText()`,
  `children().toString()`, `getQueryBNF().toString()`) is a stored string. A join
  contributes the `toActualText()` of its identification variable, whatever that text
  is (EclipseLinkQueryEnhancer.java lines 149 and 151). The parser
  result `ParseOutcome` is a root statement plus the validator's problem keys.
- `parse_problems.dfy` (`ParseProblems`): the problem filter and the parse failure.
- `tree_dispatch.dfy` (`TreeDispatch`): the tree operations as functions on a
  parsed statement, and the lemmas that relate them.
- `query_enhancer.dfy` (`QueryEnhancer`): the class `EclipseLinkQueryEnhancer`. It
  holds the query text, the grammar (the parser, passed to the constructor as a function
  from text to `ParseOutcome`), the memo field, and a ghost counter of parser runs. The
  counter makes "the parser is not run again" something a contract can state.

The model follows the code where it differs from what the unit tests expect:

- Join aliases are an unordered set. The code collects them into unordered sets
  (`HashSet` at EclipseLinkQueryEnhancer.java lines 116 and 143, `Collectors.toSet()`
  at line 132, `Set.of` at line 151), while the test at
  EclipseLinkQueryEnhancerUnitTests.java line 142 expects `containsExactly("s", "c", "k")`.
- The tests at EclipseLinkQueryEnhancerUnitTests.java lines 36-84 expect count queries,
  and later tests expect sorted queries. In the code, `createCountQueryFor` throws at
  line 97 and `applySorting` throws at line 48.

## Model

| member | source | states |
|---|---|---|
| `QueryEnhancer.EclipseLinkQueryEnhancer.constructor` | spring-data-jpa/src/main/java/org/springframework/data/jpa/repository/query/EclipseLinkQueryEnhancer.java:41-43 | A new enhancer holds the query, has nothing memoised, and has run the parser zero times. |
| `QueryEnhancer.EclipseLinkQueryEnhancer.ParseQuery` | spring-data-jpa/src/main/java/org/springframework/data/jpa/repository/query/EclipseLinkQueryEnhancer.java:184-216 | A memoised root is returned unchanged, without running the parser. Otherwise the parser runs once, and the root is memoised only if the parse succeeds. A failed parse memoises nothing. The result is always what a parse of the query yields. |
| `QueryEnhancer.EclipseLinkQueryEnhancer.DetectAlias` | spring-data-jpa/src/main/java/org/springframework/data/jpa/repository/query/EclipseLinkQueryEnhancer.java:51-80 | Parse failures come first. Otherwise the result is `DetectAliasIn` of the root. The root ends up memoised exactly when the parse succeeds, and the parser runs only if nothing was memoised. |
| `QueryEnhancer.EclipseLinkQueryEnhancer.GetProjection` | spring-data-jpa/src/main/java/org/springframework/data/jpa/repository/query/EclipseLinkQueryEnhancer.java:100-112 | Same as `DetectAlias`, with `ProjectionIn`. |
| `QueryEnhancer.EclipseLinkQueryEnhancer.GetJoinAliases` | spring-data-jpa/src/main/java/org/springframework/data/jpa/repository/query/EclipseLinkQueryEnhancer.java:114-140 | Starts from an empty set and, for a single declaration, adds that declaration's join aliases. The result is `JoinAliasesIn` of the parsed root, and the memo is updated as in `DetectAlias`. |
| `QueryEnhancer.EclipseLinkQueryEnhancer.HasConstructorExpression` | spring-data-jpa/src/main/java/org/springframework/data/jpa/repository/query/EclipseLinkQueryEnhancer.java:157-171 | Same as `DetectAlias`, with `HasConstructorExpressionIn`. |
| `QueryEnhancer.EclipseLinkQueryEnhancer.CreateCountQueryFor` | spring-data-jpa/src/main/java/org/springframework/data/jpa/repository/query/EclipseLinkQueryEnhancer.java:82-98 | Follows the code as written, `TreeDispatch.CreateCountQueryAsWritten`, so it never succeeds. A parsed update or delete statement fails at the cast with ClassCastException. It asks for the parse twice (directly and through `detectAlias`) but runs the parser at most once. |
| `QueryEnhancer.EclipseLinkQueryEnhancer.ApplySorting` | spring-data-jpa/src/main/java/org/springframework/data/jpa/repository/query/EclipseLinkQueryEnhancer.java:45-49 | Always fails with UnsupportedOperationException "Not implemented", whatever the sort and alias. |
| `QueryEnhancer.DetectAliasThenJoinAliases` | spring-data-jpa/src/main/java/org/springframework/data/jpa/repository/query/EclipseLinkQueryEnhancer.java:184-188 | Two operations on one enhancer give the same answers as two independent parses. The parser runs once when the first parse succeeds; after a failed parse nothing is memoised and it runs a second time. |
| `ParseProblems.Remaining` | spring-data-jpa/src/main/java/org/springframework/data/jpa/repository/query/EclipseLinkQueryEnhancer.java:202-205 | A key survives the filter exactly when it was reported and is not the missing-parameter key ignoring case. No more keys survive than were reported. |
| `ParseProblems.RemainingAppend` | spring-data-jpa/src/main/java/org/springframework/data/jpa/repository/query/EclipseLinkQueryEnhancer.java:202-205 | The filter works problem by problem, so the surviving keys keep the validator's order. |
| `ParseProblems.IgnoredKeys` | spring-data-jpa/src/main/java/org/springframework/data/jpa/repository/query/EclipseLinkQueryEnhancer.java:204 | A key is dropped exactly when upper-casing it gives the missing-parameter key. |
| `ParseProblems.ParseResult` | spring-data-jpa/src/main/java/org/springframework/data/jpa/repository/query/EclipseLinkQueryEnhancer.java:202-214 | The parse succeeds exactly when every reported problem is a missing-parameter problem, and then yields the root statement. Otherwise it fails with IllegalStateException, whose message is the fixed text followed by the surviving keys joined by `,`. |
| `ParseProblems.ProblemKeysInMessage` | spring-data-jpa/src/main/java/org/springframework/data/jpa/repository/query/EclipseLinkQueryEnhancer.java:207-211 | After the fixed prefix of a failure message, cutting at the commas gives back exactly the surviving keys, in order. This assumes keys contain no comma. |
| `Text.EqualsIgnoreCaseUpper` | spring-data-jpa/src/main/java/org/springframework/data/jpa/repository/query/EclipseLinkQueryEnhancer.java:204 | Comparing ignoring case against an upper-case constant is the same as upper-casing the other string and comparing exactly. |
| `Text.SplitJoin` | spring-data-jpa/src/main/java/org/springframework/data/jpa/repository/query/EclipseLinkQueryEnhancer.java:208 | Joining one or more comma-free keys with `,` loses nothing: splitting at `,` gives the keys back. |
| `Text.RemoveFirst` | spring-data-jpa/src/main/java/org/springframework/data/jpa/repository/query/EclipseLinkQueryEnhancer.java:111 | `replaceFirst` of one character: with no occurrence the text is unchanged. Otherwise the result is the text before the first occurrence followed by the text after it. So exactly one occurrence of that character goes, and every other character keeps its count and its order. |
| `Text.RemoveAll` | spring-data-jpa/src/main/java/org/springframework/data/jpa/repository/query/EclipseLinkQueryEnhancer.java:111 | `replace` of one character by nothing: no occurrence is left, and every other character's count is kept. |
| `Text.RemoveAllAppend` | spring-data-jpa/src/main/java/org/springframework/data/jpa/repository/query/EclipseLinkQueryEnhancer.java:111 | Removing a character works piece by piece, so the remaining characters keep their order. |
| `TreeDispatch.StripBrackets` | spring-data-jpa/src/main/java/org/springframework/data/jpa/repository/query/EclipseLinkQueryEnhancer.java:111 | The projection keeps no `]`, and has one `[` fewer exactly when the rendering had one. Every other character occurs as often as before. The result is the text before the first `[` followed by the text after it, each with its `]`s removed and its order kept. |
| `TreeDispatch.ProjectionIn` | spring-data-jpa/src/main/java/org/springframework/data/jpa/repository/query/EclipseLinkQueryEnhancer.java:101-112 | Fails with IllegalArgumentException on an update or delete statement. A select clause node of another class fails at the downcast with ClassCastException. Otherwise it succeeds with the bracket-stripped rendering of the select clause's children. |
| `TreeDispatch.DetectAliasIn` | spring-data-jpa/src/main/java/org/springframework/data/jpa/repository/query/EclipseLinkQueryEnhancer.java:52-80 | Succeeds exactly when the statement is a select, its FROM clause read as a list starts with a declaration, and that declaration's range is a range variable. It then returns that variable's text unchanged. Otherwise: IllegalArgumentException for update/delete, IllegalStateException for an empty list or an unexpected FROM node (with its BNF), and ClassCastException for a first child or range of the wrong kind. |
| `TreeDispatch.JoinListAliases` | spring-data-jpa/src/main/java/org/springframework/data/jpa/repository/query/EclipseLinkQueryEnhancer.java:147-149 | A join collection yields exactly the variables of its joins, no more aliases than children. It fails at the cast exactly when some child is not a Join. |
| `TreeDispatch.ExtractJoinsAliases` | spring-data-jpa/src/main/java/org/springframework/data/jpa/repository/query/EclipseLinkQueryEnhancer.java:142-155 | The aliases are exactly the identification variables of the declaration's joins: a collection gives all of them, a single Join gives one, anything else gives none. There are never more aliases than joins. |
| `TreeDispatch.ListJoinAliases` | spring-data-jpa/src/main/java/org/springframework/data/jpa/repository/query/EclipseLinkQueryEnhancer.java:127-132 | Over a FROM list, an alias is in the result exactly when it is a join alias of some child that is a declaration. Other children are skipped. The list fails exactly when some declaration's joins fail. |
| `TreeDispatch.ListJoinAliasesAppend` | spring-data-jpa/src/main/java/org/springframework/data/jpa/repository/query/EclipseLinkQueryEnhancer.java:127-132 | Splitting a FROM list anywhere, its join aliases are the union of the two parts' aliases. The list fails exactly when one of the parts fails. |
| `TreeDispatch.JoinAliasesIn` | spring-data-jpa/src/main/java/org/springframework/data/jpa/repository/query/EclipseLinkQueryEnhancer.java:115-140 | Fails with IllegalArgumentException on update/delete. Otherwise an alias is in the result exactly when it is a join alias of a declaration of the FROM clause, whether the clause holds one declaration or a list. Any other FROM node gives none. |
| `TreeDispatch.HasConstructorExpressionIn` | spring-data-jpa/src/main/java/org/springframework/data/jpa/repository/query/EclipseLinkQueryEnhancer.java:158-171 | Fails with IllegalArgumentException on update/delete, and with ClassCastException when the select clause node is of another class. Otherwise it is true exactly when the select expression is a constructor expression. |
| `TreeDispatch.CreateCountQueryAsWritten` | spring-data-jpa/src/main/java/org/springframework/data/jpa/repository/query/EclipseLinkQueryEnhancer.java:83-98 | Never succeeds. Update/delete fails at the cast with ClassCastException. A select fails with `detectAlias`'s error, or else with UnsupportedOperationException. |
| `TreeDispatch.CreateCountQueryFor` | spring-data-jpa/src/main/java/org/springframework/data/jpa/repository/query/EclipseLinkQueryEnhancer.java:88-91 | Never succeeds. Update/delete is rejected with IllegalArgumentException "Cannot work with update delete statement ". On a select it matches the code as written. |
| `TreeDispatch.CountQueryCastBeforeCheck` | spring-data-jpa/src/main/java/org/springframework/data/jpa/repository/query/EclipseLinkQueryEnhancer.java:85-91 | On an update or delete statement the code as written raises ClassCastException where IllegalArgumentException was meant. |
| `TreeDispatch.NonSelectRejected` | spring-data-jpa/src/main/java/org/springframework/data/jpa/repository/query/EclipseLinkQueryEnhancer.java:55-58 | `detectAlias` (lines 55-58), `getProjection` (104-107), `getJoinAliases` (120-123) and `hasConstructorExpression` (162-165) reject an update or delete statement with IllegalArgumentException. So does the intended `createCountQueryFor`. The code as written fails at the cast with ClassCastException instead (`CountQueryCastBeforeCheck`). |
| `TreeDispatch.SingleIsListOfOne` | spring-data-jpa/src/main/java/org/springframework/data/jpa/repository/query/EclipseLinkQueryEnhancer.java:64-70 | A single declaration gives the same primary alias and join aliases as a list holding only that declaration. |
| `TreeDispatch.AliasFromFirstChild` | spring-data-jpa/src/main/java/org/springframework/data/jpa/repository/query/EclipseLinkQueryEnhancer.java:66-70 | The primary alias of a list depends only on its first child, not on the later declarations or the select clause. |
| `TreeDispatch.TwoDeclarationsExample` | spring-data-jpa/src/test/java/org/springframework/data/jpa/repository/query/EclipseLinkQueryEnhancerUnitTests.java:135-143 | For the tree of "User u left join Sale s, Transaction t left join Cool c inner join Ko k", the alias is u and the join aliases are exactly s, c and k. |

## Left out

- The EclipseLink parser and grammar validator (`JPQLExpression`, `EclipseLinkGrammarValidator`, `DefaultEclipseLinkJPQLGrammar`) are library code and are not part of this model. They are one deterministic function, `grammar`, from query text to a root statement plus problem keys. It is given to the constructor, while the source takes the grammar's singleton inside `parseQuery`.
- The value of `JPQLQueryProblemMessages.InputParameter_MissingParameter` lives in the library. It is taken to be "INPUT_PARAMETER_MISSING_PARAMETER".
- Case-insensitive comparison covers ASCII letters only. Java's Unicode case mapping is not modelled.
- Node renderings (`toActualText()`, `children().toString()`, `getQueryBNF().toString()`) are opaque strings stored in the tree.
- The cast of `getFromClause()` to `FromClause` is taken to succeed: a select statement in the model always has a FROM declaration.
- Null values are not modelled: no null messages, children or projections.
- Join-alias order is not modelled, since the source collects into hash sets. The order a test expects for several declarations is not a property of the code.
- `getQuery` is the constant field `query` of the class.
- `DeclaredQuery` and `StringQuery` are reduced to the query text. The native flag plays no part in this class.
- `applySorting` and `createCountQueryFor` are stubs in the source. They are modelled as always failing, so their parameters (the sort, the alias, the custom count projection) are never read. The count and sort results the tests expect are not implemented in this code.
- Concurrent first use of one enhancer is not modelled; the source has no synchronisation.

## Findings

| source | as written | input that shows it | evidently intended | confidence | as-written member | corrected member |
|---|---|---|---|---|---|---|
| spring-data-jpa/src/main/java/org/springframework/data/jpa/repository/query/EclipseLinkQueryEnhancer.java:86-91 | the root is cast to `SelectStatement` before the `instanceof` check, so the check can never fail | an update or delete query that parses without problems: `createCountQueryFor` throws ClassCastException | reject it with IllegalArgumentException "Cannot work with update delete statement ", like the other operations | not executed; high | `TreeDispatch.CreateCountQueryAsWritten` | `TreeDispatch.CreateCountQueryFor` |
