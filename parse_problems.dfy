/** The decision `parseQuery` takes on the validator's problems: problems about a
    missing input parameter are dropped, since bind values are never available at
    this point, and any other problem makes the parse fail. */
module ParseProblems {
  import opened Results
  import opened Text
  import opened JpqlTree

  /** The message key of `JPQLQueryProblemMessages.InputParameter_MissingParameter`. */
  const MissingParameterKey: string := "INPUT_PARAMETER_MISSING_PARAMETER"

  const ParseFailurePrefix: string :=
    "The JPQL query you provided cannot be parse with EclipseLink since it is not valid JPQL! Detailed problem keys: "

  predicate IsIgnored(key: string)
  {
    EqualsIgnoreCase(MissingParameterKey, key)
  }

  /** A key is dropped exactly when it upper-cases to the missing-parameter key. */
  lemma IgnoredKeys(key: string)
    ensures IsIgnored(key) <==> UpperCase(key) == MissingParameterKey
  {
    assert IsUpperCase(MissingParameterKey);
    EqualsIgnoreCaseUpper(MissingParameterKey, key);
  }

  /** The problems that survive the filter, in their original order. */
  function Remaining(keys: seq<string>): (r: seq<string>)
    ensures |r| <= |keys|
    ensures forall k :: k in r <==> k in keys && !IsIgnored(k)
  {
    if keys == [] then []
    else if IsIgnored(keys[0]) then Remaining(keys[1..])
    else [keys[0]] + Remaining(keys[1..])
  }

  /** Filtering is done problem by problem, so the surviving keys keep the order
      in which the validator reported them. */
  lemma {:induction false} RemainingAppend(a: seq<string>, b: seq<string>)
    ensures Remaining(a + b) == Remaining(a) + Remaining(b)
  {
    if a == [] {
      assert a + b == b;
    } else {
      assert (a + b)[1..] == a[1..] + b;
      RemainingAppend(a[1..], b);
    }
  }

  /** The outcome of `parseQuery` once the validator has run: the root statement
      when no problem survives the filter, and otherwise an IllegalStateException
      that lists the surviving keys joined by commas. */
  function ParseResult(outcome: ParseOutcome): (r: Result<Statement>)
    ensures r.Success? <==> forall k :: k in outcome.problemKeys ==> IsIgnored(k)
    ensures r.Success? ==> r.value == outcome.queryStatement
    ensures r.Failure? ==>
      r.error == IllegalState(ParseFailurePrefix + JoinWith(Remaining(outcome.problemKeys), ','))
  {
    var remaining := Remaining(outcome.problemKeys);
    if remaining != [] then
      assert remaining[0] in remaining;
      Failure(IllegalState(ParseFailurePrefix + JoinWith(remaining, ',')))
    else
      Success(outcome.queryStatement)
  }

  /** The failure message names every surviving problem, in order: after the fixed
      prefix, cutting at the commas gives back exactly the surviving keys (message
      keys contain no comma). */
  lemma ProblemKeysInMessage(outcome: ParseOutcome)
    requires ParseResult(outcome).Failure?
    requires forall k :: k in outcome.problemKeys ==> ',' !in k
    ensures var m := ParseResult(outcome).error.message;
      |ParseFailurePrefix| <= |m| && m[..|ParseFailurePrefix|] == ParseFailurePrefix
      && Split(m[|ParseFailurePrefix|..], ',') == Remaining(outcome.problemKeys)
  {
    var remaining := Remaining(outcome.problemKeys);
    var m := ParseResult(outcome).error.message;
    assert m == ParseFailurePrefix + JoinWith(remaining, ',');
    assert m[|ParseFailurePrefix|..] == JoinWith(remaining, ',');
    assert forall i :: 0 <= i < |remaining| ==> remaining[i] in remaining;
    SplitJoin(remaining, ',');
  }
}
