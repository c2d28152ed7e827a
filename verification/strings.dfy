/** The ordinal string primitives of the .NET base library that the path code is
    built from: trimming a character at either end, searching for a character,
    splitting on a character and joining with a separator. A string is a plain
    sequence of characters; `StartsWith` is the sequence prefix `<=`. */
module Strings {

  /** `s.TrimEnd(c)`: `s` without its trailing run of `c`. */
  function TrimEnd(s: string, c: char): (r: string)
    ensures r <= s
    ensures r == [] || r[|r| - 1] != c
    ensures forall i :: |r| <= i < |s| ==> s[i] == c
  {
    if |s| > 0 && s[|s| - 1] == c then TrimEnd(s[..|s| - 1], c) else s
  }

  /** `s.TrimStart(c)`: `s` without its leading run of `c`. */
  function TrimStart(s: string, c: char): (r: string)
    ensures |r| <= |s| && r == s[|s| - |r|..]
    ensures r == [] || r[0] != c
    ensures forall i :: 0 <= i < |s| - |r| ==> s[i] == c
  {
    if |s| > 0 && s[0] == c then TrimStart(s[1..], c) else s
  }

  /** `s.IndexOf(c, from)`: the first index at or after `from` that holds `c`,
      or -1. .NET throws for a start index beyond the length, hence the
      precondition. */
  function IndexOf(s: string, c: char, from: nat): (r: int)
    requires from <= |s|
    ensures -1 <= r < |s|
    ensures r >= 0 ==> from <= r && s[r] == c
    ensures forall i :: from <= i < |s| && (r < 0 || i < r) ==> s[i] != c
    decreases |s| - from
  {
    if from == |s| then -1 else if s[from] == c then from else IndexOf(s, c, from + 1)
  }

  /** `s.LastIndexOf(c)`: the last index that holds `c`, or -1. */
  function LastIndexOf(s: string, c: char): (r: int)
    ensures -1 <= r < |s|
    ensures r >= 0 ==> s[r] == c
    ensures forall i :: r < i < |s| ==> s[i] != c
  {
    if |s| == 0 then -1 else if s[|s| - 1] == c then |s| - 1 else LastIndexOf(s[..|s| - 1], c)
  }

  /** All indices at or after `from` that hold `c`, in increasing order. */
  function Positions(s: string, c: char, from: nat): (r: seq<nat>)
    ensures forall k :: 0 <= k < |r| ==> from <= r[k] < |s| && s[r[k]] == c
    ensures forall k, l :: 0 <= k < l < |r| ==> r[k] < r[l]
    ensures forall i :: from <= i < |s| && s[i] == c ==> i in r
    decreases |s| - from
  {
    if from >= |s| then []
    else if s[from] == c then [from] + Positions(s, c, from + 1)
    else Positions(s, c, from + 1)
  }

  /** `s.Split(c)`: the pieces between the occurrences of `c`, none of which
      contains `c`; there is always at least one piece. */
  function Split(s: string, c: char): (r: seq<string>)
    ensures |r| >= 1
    ensures forall k :: 0 <= k < |r| ==> c !in r[k]
    decreases |s|
  {
    var i := IndexOf(s, c, 0);
    if i < 0 then [s] else [s[..i]] + Split(s[i + 1..], c)
  }

  /** The number of characters in all the strings of a list together. */
  function TotalLength(parts: seq<string>): nat {
    if |parts| == 0 then 0 else |parts[0]| + TotalLength(parts[1..])
  }

  /** `string.Join(sep, parts)`: the parts with `sep` between neighbours; the
      empty list joins to the empty string. */
  function Join(parts: seq<string>, sep: string): (r: string)
    ensures |parts| == 0 ==> r == []
    ensures |parts| > 0 ==> parts[0] <= r
    ensures |parts| > 0 ==> |r| == TotalLength(parts) + (|parts| - 1) * |sep|
  {
    if |parts| == 0 then []
    else if |parts| == 1 then parts[0]
    else parts[0] + sep + Join(parts[1..], sep)
  }

  /** `s.Split(c).Last()`: the text after the last `c`, or all of `s` when it
      holds no `c`. */
  function LastSegment(s: string, c: char): (r: string)
    ensures c !in r
    ensures |r| <= |s| && r == s[|s| - |r|..]
    ensures |r| == |s| || s[|s| - |r| - 1] == c
  {
    var parts := Split(s, c);
    LastPieceIsTail(s, c);
    parts[|parts| - 1]
  }

  /** `r` is the text of `s` after its last `c`: a suffix free of `c` that is
      all of `s` or follows a `c`. */
  predicate TailAfterLast(s: string, c: char, r: string) {
    c !in r && |r| <= |s| && r == s[|s| - |r|..] && (|r| == |s| || s[|s| - |r| - 1] == c)
  }

  /** The text after the last `c` is the text after `LastIndexOf`. */
  lemma {:induction false} AfterLastIndexOf(s: string, c: char)
    ensures TailAfterLast(s, c, s[LastIndexOf(s, c) + 1..])
  {
    var k := LastIndexOf(s, c);
    var r := s[k + 1..];
    assert |s| - |r| == k + 1;
    assert c !in r by {
      forall m | 0 <= m < |r|
        ensures r[m] != c
      {
        assert r[m] == s[k + 1 + m];
      }
    }
  }

  /** There is only one text after the last `c`. */
  lemma {:induction false} TailAfterLastUnique(s: string, c: char, r1: string, r2: string)
    requires TailAfterLast(s, c, r1) && TailAfterLast(s, c, r2)
    ensures r1 == r2
  {
  }

  /** Equal-character trimming leaves nothing more to trim. */
  lemma TrimEndIdempotent(s: string, c: char)
    ensures TrimEnd(TrimEnd(s, c), c) == TrimEnd(s, c)
  {
  }

  /** The contract of `TrimEnd` pins its result down: the longest prefix whose
      remainder is all `c` and that does not itself end in `c`. */
  lemma TrimEndUnique(s: string, c: char, k: nat)
    requires k <= |s|
    requires forall i :: k <= i < |s| ==> s[i] == c
    requires k == 0 || s[k - 1] != c
    ensures TrimEnd(s, c) == s[..k]
  {
  }

  /** Appending one `c` to a string that does not end in `c` is undone by `TrimEnd`. */
  lemma TrimEndOneSeparator(a: string, c: char)
    requires a == [] || a[|a| - 1] != c
    ensures TrimEnd(a + [c], c) == a
  {
    TrimEndUnique(a + [c], c, |a|);
    assert (a + [c])[..|a|] == a;
  }

  /** Prepending one `c` to a string that does not start with `c` is undone by
      `TrimStart`. */
  lemma TrimStartOneSeparator(a: string, c: char)
    requires a == [] || a[0] != c
    ensures TrimStart([c] + a, c) == a
  {
    assert ([c] + a)[1..] == a;
  }

  /** Trimming the start twice changes nothing more. */
  lemma TrimStartIdempotent(s: string, c: char)
    ensures TrimStart(TrimStart(s, c), c) == TrimStart(s, c)
  {
  }

  /** `IndexOf` is the only index at or after `from` that holds `c` with no `c`
      between `from` and it. */
  lemma IndexOfUnique(s: string, c: char, from: nat, k: nat)
    requires from <= k < |s| && s[k] == c
    requires forall i :: from <= i < k ==> s[i] != c
    ensures IndexOf(s, c, from) == k
  {
  }

  /** `LastIndexOf` is the only index that holds `c` with no `c` after it. */
  lemma LastIndexOfUnique(s: string, c: char, k: int)
    requires -1 <= k < |s|
    requires k >= 0 ==> s[k] == c
    requires forall i :: k < i < |s| ==> s[i] != c
    ensures LastIndexOf(s, c) == k
  {
  }

  /** `IndexOf` finds the first of the `Positions`. */
  lemma IndexOfIsFirstPosition(s: string, c: char, from: nat)
    requires from <= |s|
    ensures IndexOf(s, c, from) < 0 ==> Positions(s, c, from) == []
    ensures IndexOf(s, c, from) >= 0 ==>
      Positions(s, c, from) == [IndexOf(s, c, from)] + Positions(s, c, IndexOf(s, c, from) + 1)
  {
    var r := IndexOf(s, c, from);
    if r < 0 {
      PositionsSkip(s, c, from, |s|);
    } else {
      PositionsSkip(s, c, from, r);
    }
  }

  /** A stretch without `c` holds no position. */
  lemma {:induction false} PositionsSkip(s: string, c: char, from: nat, k: nat)
    requires from <= k <= |s|
    requires forall i :: from <= i < k ==> s[i] != c
    ensures Positions(s, c, from) == Positions(s, c, k)
    decreases k - from
  {
    if from < k {
      PositionsSkip(s, c, from + 1, k);
    }
  }

  /** The last piece of a split is the text after the last occurrence. */
  lemma {:induction false} LastOfSplit(s: string, c: char)
    ensures Split(s, c)[|Split(s, c)| - 1] == s[LastIndexOf(s, c) + 1..]
  {
    LastPieceIsTail(s, c);
    AfterLastIndexOf(s, c);
    TailAfterLastUnique(s, c, Split(s, c)[|Split(s, c)| - 1], s[LastIndexOf(s, c) + 1..]);
  }

  /** The last piece of a split is the text after the last `c`. */
  lemma {:induction false} LastPieceIsTail(s: string, c: char)
    ensures TailAfterLast(s, c, Split(s, c)[|Split(s, c)| - 1])
    decreases |s|
  {
    var i := IndexOf(s, c, 0);
    if i < 0 {
      assert Split(s, c) == [s];
      assert s[0..] == s;
    } else {
      var t := s[i + 1..];
      var rest := Split(t, c);
      LastPieceIsTail(t, c);
      SplitAtIndex(s, c, i);
      LastOfPrepend(s[..i], rest);
      TailAfterOccurrence(s, c, i, rest[|rest| - 1]);
    }
  }

  /** The text after the last `c` of what follows an occurrence at `i` is the
      text after the last `c` of all of `s`. */
  lemma {:induction false} TailAfterOccurrence(s: string, c: char, i: nat, r: string)
    requires i < |s| && s[i] == c
    requires TailAfterLast(s[i + 1..], c, r)
    ensures TailAfterLast(s, c, r)
  {
    var t := s[i + 1..];
    var n := |t| - |r|;
    assert |s| - |r| == i + 1 + n;
    assert r == s[|s| - |r|..] by {
      assert t[n..] == s[i + 1 + n..];
    }
    if n > 0 {
      assert s[i + n] == t[n - 1];
    }
  }

  /** A split past its first occurrence at `i`: the piece before it, then the
      split of the rest. */
  lemma SplitAtIndex(s: string, c: char, i: nat)
    requires i < |s| && i == IndexOf(s, c, 0)
    ensures Split(s, c) == [s[..i]] + Split(s[i + 1..], c)
  {
  }

  /** Putting an element in front does not change the last one. */
  lemma LastOfPrepend<T>(x: T, r: seq<T>)
    requires |r| > 0
    ensures ([x] + r)[|[x] + r| - 1] == r[|r| - 1]
  {
  }

  /** Joining one more part adds one separator and the part. */
  lemma {:induction false} JoinAppend(parts: seq<string>, x: string, sep: string)
    requires |parts| > 0
    ensures Join(parts + [x], sep) == Join(parts, sep) + sep + x
    decreases |parts|
  {
    if |parts| > 1 {
      assert (parts + [x])[1..] == parts[1..] + [x];
      JoinAppend(parts[1..], x, sep);
    }
  }

  /** Joining two non-empty lists puts one separator at the seam. */
  lemma {:induction false} JoinConcat(a: seq<string>, b: seq<string>, sep: string)
    requires |a| > 0 && |b| > 0
    ensures Join(a + b, sep) == Join(a, sep) + sep + Join(b, sep)
    decreases |a|
  {
    if |a| == 1 {
      assert (a + b)[1..] == b;
    } else {
      assert (a + b)[1..] == a[1..] + b;
      JoinConcat(a[1..], b, sep);
    }
  }

  /** Splitting then joining with the same character gives the string back. */
  lemma {:induction false} SplitThenJoin(s: string, c: char)
    ensures Join(Split(s, c), [c]) == s
    decreases |s|
  {
    var i := IndexOf(s, c, 0);
    if i >= 0 {
      SplitThenJoin(s[i + 1..], c);
      assert s == s[..i] + [c] + s[i + 1..];
    }
  }

  /** Joining separator-free parts and splitting again gives the parts back. */
  lemma {:induction false} JoinThenSplit(parts: seq<string>, c: char)
    requires |parts| > 0
    requires forall k :: 0 <= k < |parts| ==> c !in parts[k]
    ensures Split(Join(parts, [c]), c) == parts
    decreases |parts|
  {
    var s := Join(parts, [c]);
    if |parts| == 1 {
      assert IndexOf(s, c, 0) < 0;
    } else {
      var rest := Join(parts[1..], [c]);
      assert s == parts[0] + [c] + rest;
      SplitAtFirst(parts[0], rest, c);
      JoinThenSplit(parts[1..], c);
      assert parts == [parts[0]] + parts[1..];
    }
  }

  /** Before the first `c` lies the first piece. */
  lemma SplitAtFirst(head: string, rest: string, c: char)
    requires c !in head
    ensures Split(head + [c] + rest, c) == [head] + Split(rest, c)
  {
    var s := head + [c] + rest;
    assert forall i :: 0 <= i < |head| ==> s[i] == head[i];
    IndexOfUnique(s, c, 0, |head|);
    assert s[..|head|] == head;
    assert s[|head| + 1..] == rest;
  }

  /** A string is its text before index `k`, the character at `k`, and its
      text after. */
  lemma SliceAround(s: string, k: nat)
    requires k < |s|
    ensures s == s[..k] + [s[k]] + s[k + 1..]
  {
    assert s == s[..k] + s[k..];
    assert s[k..] == [s[k]] + s[k + 1..];
  }

  /** A separator splits its two sides independently. */
  lemma SplitConcat(a: string, b: string, c: char)
    ensures Split(a + [c] + b, c) == Split(a, c) + Split(b, c)
  {
    var pa, pb := Split(a, c), Split(b, c);
    SplitThenJoin(a, c);
    SplitThenJoin(b, c);
    JoinConcat(pa, pb, [c]);
    JoinThenSplit(pa + pb, c);
  }
}
