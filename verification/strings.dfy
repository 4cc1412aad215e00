/**
  Character-level string operations the parser relies on, written for
  strings as sequences of characters:

  - `IndexOf` is `characters.indexOf(c) ?? endIndex`: the first position of
    `c`, or the length of the string when `c` does not occur;
  - `Split` is Foundation's `componentsSeparatedByString` for a one-character
    separator: `n` separators give `n + 1` pieces, empty pieces are kept and
    the empty string splits into `[""]`;
  - `Join` is its inverse, used to state what `Split` means.
 */
module Strings {

  /** Number of occurrences of `c` in `s`. */
  function Count(s: string, c: char): (n: nat)
    ensures n <= |s|
    ensures n == 0 <==> c !in s
  {
    if |s| == 0 then 0
    else (if s[0] == c then 1 else 0) + Count(s[1..], c)
  }

  /** Occurrences are additive over concatenation. */
  lemma {:induction false} CountConcat(a: string, b: string, c: char)
    ensures Count(a + b, c) == Count(a, c) + Count(b, c)
    decreases |a|
  {
    if |a| == 0 {
      assert a + b == b;
    } else {
      assert (a + b)[1..] == a[1..] + b;
      CountConcat(a[1..], b, c);
    }
  }

  /** A separator between two strings adds one occurrence. */
  lemma CountAround(a: string, b: string, c: char)
    ensures Count(a + [c] + b, c) == Count(a, c) + 1 + Count(b, c)
  {
    CountConcat(a + [c], b, c);
    CountConcat(a, [c], c);
  }

  /** The first position of `c` in `s`, or `|s|` when there is none. */
  function IndexOf(s: string, c: char): (i: nat)
    ensures i <= |s|
    ensures c !in s[..i]
    ensures i < |s| ==> s[i] == c
    ensures i == |s| <==> c !in s
  {
    if |s| == 0 then 0
    else if s[0] == c then 0
    else
      var j := IndexOf(s[1..], c);
      assert s[..1 + j] == [s[0]] + s[1..][..j];
      1 + j
  }

  /** The two properties of `IndexOf` determine it: a position holding `c`
      with no `c` before it is the first occurrence. */
  lemma IndexOfUnique(s: string, c: char, i: nat)
    requires i <= |s|
    requires c !in s[..i]
    requires i < |s| ==> s[i] == c
    ensures IndexOf(s, c) == i
  {
  }

  /** The first `c` lies at or after position `n` exactly when none of the
      first `n` characters is a `c`. */
  lemma IndexOfAtLeast(s: string, c: char, n: nat)
    requires n <= |s|
    ensures n <= IndexOf(s, c) <==> c !in s[..n]
  {
    var i := IndexOf(s, c);
    assert forall j :: 0 <= j < n ==> s[..n][j] == s[j];
    assert forall j :: 0 <= j < i ==> s[..i][j] == s[j];
  }

  /** The pieces of `s` between occurrences of `c`, empty pieces included. */
  function Split(s: string, c: char): (parts: seq<string>)
    ensures |parts| >= 1
    ensures forall k :: 0 <= k < |parts| ==> c !in parts[k]
    decreases |s|
  {
    var i := IndexOf(s, c);
    if i == |s| then [s]
    else [s[..i]] + Split(s[i + 1..], c)
  }

  /** A string is the text before its first `c`, that `c`, and the rest. */
  lemma AroundFirst(s: string, c: char)
    requires IndexOf(s, c) < |s|
    ensures s == s[..IndexOf(s, c)] + [c] + s[IndexOf(s, c) + 1..]
  {
  }

  /** `Split` unfolded once at the first separator. */
  lemma SplitUnfold(s: string, c: char)
    requires IndexOf(s, c) < |s|
    ensures Split(s, c) == [s[..IndexOf(s, c)]] + Split(s[IndexOf(s, c) + 1..], c)
  {
  }

  /** One step of `Split`: the text before the first separator, then the
      pieces of the text after it. */
  lemma SplitStep(s: string, c: char)
    requires IndexOf(s, c) < |s|
    ensures s == s[..IndexOf(s, c)] + [c] + s[IndexOf(s, c) + 1..]
    ensures Split(s, c) == [s[..IndexOf(s, c)]] + Split(s[IndexOf(s, c) + 1..], c)
  {
    AroundFirst(s, c);
    SplitUnfold(s, c);
  }

  /** There is one more piece than there are separators. */
  lemma {:induction false} SplitCount(s: string, c: char)
    ensures |Split(s, c)| == Count(s, c) + 1
    decreases |s|
  {
    var i := IndexOf(s, c);
    if i < |s| {
      var head, rest := s[..i], s[i + 1..];
      SplitStep(s, c);
      SplitCount(rest, c);
      CountAround(head, rest, c);
    }
  }

  /** The pieces put back together with `c` between consecutive ones. */
  function Join(parts: seq<string>, c: char): (s: string)
  {
    if |parts| == 0 then ""
    else if |parts| == 1 then parts[0]
    else parts[0] + [c] + Join(parts[1..], c)
  }

  /** Joining a first piece in front of at least one more puts one
      separator between them. */
  lemma JoinCons(first: string, parts: seq<string>, c: char)
    requires |parts| >= 1
    ensures Join([first] + parts, c) == first + [c] + Join(parts, c)
  {
  }

  /** Splitting loses nothing: joining the pieces gives back the string. */
  lemma {:induction false} JoinSplit(s: string, c: char)
    ensures Join(Split(s, c), c) == s
    decreases |s|
  {
    var i := IndexOf(s, c);
    if i < |s| {
      var head, rest := s[..i], s[i + 1..];
      SplitStep(s, c);
      JoinSplit(rest, c);
      JoinCons(head, Split(rest, c), c);
    }
  }

  /** Splitting at a first separator: the part before it is the first piece. */
  lemma SplitAtFirst(a: string, b: string, c: char)
    requires c !in a
    ensures Split(a + [c] + b, c) == [a] + Split(b, c)
  {
    var s := a + [c] + b;
    IndexOfUnique(s, c, |a|);
    assert s[..|a|] == a;
    assert s[|a| + 1..] == b;
  }

  /** A string without the separator is a single piece. */
  lemma SplitWithoutSeparator(s: string, c: char)
    requires c !in s
    ensures Split(s, c) == [s]
  {
  }

  /** Joining is undone by splitting, provided no piece holds the separator
      and there is at least one piece. */
  lemma {:induction false} SplitJoin(parts: seq<string>, c: char)
    requires |parts| >= 1
    requires forall k :: 0 <= k < |parts| ==> c !in parts[k]
    ensures Split(Join(parts, c), c) == parts
    decreases |parts|
  {
    if |parts| == 1 {
      SplitWithoutSeparator(parts[0], c);
    } else {
      var rest := parts[1..];
      assert forall k :: 0 <= k < |rest| ==> rest[k] == parts[k + 1];
      SplitJoin(rest, c);
      assert Join(parts, c) == parts[0] + [c] + Join(rest, c);
      SplitAtFirst(parts[0], Join(rest, c), c);
      assert parts == [parts[0]] + rest;
    }
  }
}
