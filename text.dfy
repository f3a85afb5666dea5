/** The few string operations of java.lang.String and java.util.stream the enhancer
    relies on, over `seq<char>`, with the helpers that state their properties. */
module Text {

  /** `Character.toUpperCase` restricted to ASCII letters. */
  function UpperAscii(c: char): char
  {
    if 'a' <= c <= 'z' then (c as int - 32) as char else c
  }

  /** `String.equalsIgnoreCase`: same length, and the characters agree after
      upper-casing. */
  predicate EqualsIgnoreCase(a: string, b: string)
  {
    |a| == |b| && forall i :: 0 <= i < |a| ==> UpperAscii(a[i]) == UpperAscii(b[i])
  }

  /** ASCII upper-casing of a whole string: the reference against which
      `IgnoredKeys` states the `equalsIgnoreCase` filter. */
  function UpperCase(s: string): (r: string)
    ensures |r| == |s|
    ensures forall i :: 0 <= i < |s| ==> r[i] == UpperAscii(s[i])
  {
    if s == [] then [] else [UpperAscii(s[0])] + UpperCase(s[1..])
  }

  predicate IsUpperCase(s: string)
  {
    forall i :: 0 <= i < |s| ==> UpperAscii(s[i]) == s[i]
  }

  /** Comparing against an upper-case constant ignoring case is the same as
      upper-casing the other string and comparing exactly. */
  lemma EqualsIgnoreCaseUpper(b: string, a: string)
    requires IsUpperCase(b)
    ensures EqualsIgnoreCase(b, a) <==> UpperCase(a) == b
  {
    if EqualsIgnoreCase(b, a) {
      assert forall i :: 0 <= i < |a| ==> UpperCase(a)[i] == b[i];
    }
  }

  /** `Collectors.joining(sep)` over a list of strings. */
  function JoinWith(parts: seq<string>, sep: char): string
  {
    if |parts| == 0 then []
    else if |parts| == 1 then parts[0]
    else parts[0] + [sep] + JoinWith(parts[1..], sep)
  }

  /** Cuts `s` at every `sep`, keeping empty pieces; the reference against which
      `JoinWith` is read back. */
  function Split(s: string, sep: char): (r: seq<string>)
    ensures |r| >= 1
  {
    if s == [] then [[]]
    else
      var rest := Split(s[1..], sep);
      if s[0] == sep then [[]] + rest else [[s[0]] + rest[0]] + rest[1..]
  }

  lemma {:induction false} SplitWithoutSeparator(s: string, sep: char)
    requires sep !in s
    ensures Split(s, sep) == [s]
  {
    if s != [] {
      assert s[0] != sep && sep !in s[1..];
      SplitWithoutSeparator(s[1..], sep);
      assert [s[0]] + s[1..] == s;
    }
  }

  lemma {:induction false} SplitAtSeparator(k: string, sep: char, t: string)
    requires sep !in k
    ensures Split(k + [sep] + t, sep) == [k] + Split(t, sep)
  {
    if k == [] {
      assert k + [sep] + t == [sep] + t;
      assert ([sep] + t)[1..] == t;
    } else {
      assert (k + [sep] + t)[1..] == k[1..] + [sep] + t;
      SplitAtSeparator(k[1..], sep, t);
      assert [k[0]] + k[1..] == k;
    }
  }

  /** Joining keys that do not contain the separator loses nothing: cutting the
      joined text at the separator gives back the keys, in order. */
  lemma {:induction false} SplitJoin(parts: seq<string>, sep: char)
    requires |parts| >= 1
    requires forall i :: 0 <= i < |parts| ==> sep !in parts[i]
    ensures Split(JoinWith(parts, sep), sep) == parts
  {
    if |parts| == 1 {
      SplitWithoutSeparator(parts[0], sep);
    } else {
      SplitJoin(parts[1..], sep);
      SplitAtSeparator(parts[0], sep, JoinWith(parts[1..], sep));
      assert [parts[0]] + parts[1..] == parts;
    }
  }

  /** Number of occurrences of `c` in `s`. */
  function Count(s: string, c: char): nat
  {
    if s == [] then 0 else (if s[0] == c then 1 else 0) + Count(s[1..], c)
  }

  lemma {:induction false} CountAppend(a: string, b: string, c: char)
    ensures Count(a + b, c) == Count(a, c) + Count(b, c)
  {
    if a == [] {
      assert a + b == b;
    } else {
      assert (a + b)[1..] == a[1..] + b;
      CountAppend(a[1..], b, c);
    }
  }

  /** The first position of `c`, or -1: where `RemoveFirst` finds the match it
      removes. */
  function IndexOf(s: string, c: char): (i: int)
    ensures -1 <= i < |s|
    ensures i >= 0 ==> s[i] == c && c !in s[..i]
    ensures i < 0 <==> c !in s
  {
    if s == [] then -1
    else if s[0] == c then 0
    else
      var j := IndexOf(s[1..], c);
      assert s[1..][..(if j >= 0 then j else 0)] == s[1..(if j >= 0 then j + 1 else 1)];
      if j < 0 then -1 else j + 1
  }

  /** Taking the character at `i` out of `s` lowers its count by one and leaves the
      other counts alone. */
  lemma CountAround(s: string, i: nat, d: char)
    requires i < |s|
    ensures Count(s, d) == Count(s[..i] + s[i + 1..], d) + (if s[i] == d then 1 else 0)
  {
    assert s == s[..i] + ([s[i]] + s[i + 1..]);
    CountAppend(s[..i], [s[i]] + s[i + 1..], d);
    CountAppend([s[i]], s[i + 1..], d);
    CountAppend(s[..i], s[i + 1..], d);
    assert [s[i]][1..] == [];
  }

  /** `String.replaceFirst` of a one-character literal by the empty string: the text
      around the first `c`, or the unchanged text when there is none. */
  function RemoveFirst(s: string, c: char): (r: string)
    ensures c !in s ==> r == s
    ensures c in s ==> r == s[..IndexOf(s, c)] + s[IndexOf(s, c) + 1..]
    ensures c in s ==> |r| == |s| - 1 && Count(r, c) == Count(s, c) - 1
    ensures forall d :: d != c ==> Count(r, d) == Count(s, d)
  {
    var i := IndexOf(s, c);
    if i < 0 then s
    else
      assert forall d :: Count(s, d) == Count(s[..i] + s[i + 1..], d) + (if s[i] == d then 1 else 0) by {
        forall d ensures Count(s, d) == Count(s[..i] + s[i + 1..], d) + (if s[i] == d then 1 else 0) {
          CountAround(s, i, d);
        }
      }
      s[..i] + s[i + 1..]
  }

  /** `String.replace` of a one-character literal by the empty string. */
  function RemoveAll(s: string, c: char): (r: string)
    ensures c !in r
    ensures forall d :: d != c ==> Count(r, d) == Count(s, d)
    ensures c !in s ==> r == s
  {
    if s == [] then []
    else if s[0] == c then RemoveAll(s[1..], c)
    else [s[0]] + RemoveAll(s[1..], c)
  }

  /** Removing every `c` works piece by piece, so the characters that remain keep
      their relative order. */
  lemma {:induction false} RemoveAllAppend(a: string, b: string, c: char)
    ensures RemoveAll(a + b, c) == RemoveAll(a, c) + RemoveAll(b, c)
  {
    if a == [] {
      assert a + b == b;
    } else {
      assert (a + b)[1..] == a[1..] + b;
      RemoveAllAppend(a[1..], b, c);
    }
  }
}
