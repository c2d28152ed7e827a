/** LINQ's `Distinct` over a sequence: the first occurrence of every element, in
    the order the elements were first met. */
module Sequences {

  /** The index of the first occurrence of `x` in `s`. */
  function FirstIndex<T(==)>(s: seq<T>, x: T): (r: nat)
    requires x in s
    ensures r < |s| && s[r] == x
    ensures x !in s[..r]
  {
    if s[0] == x then 0 else 1 + FirstIndex(s[1..], x)
  }

  /** A non-empty sequence is its front followed by its last element. */
  lemma FrontAndLast<T>(s: seq<T>)
    requires |s| > 0
    ensures s == s[..|s| - 1] + [s[|s| - 1]]
  {
  }

  /** No element occurs twice. */
  predicate NoDuplicates<T(==)>(s: seq<T>) {
    forall i, j :: 0 <= i < j < |s| ==> s[i] != s[j]
  }

  /** `s.Distinct()`: keeps exactly the elements of `s`, each once, in the order
      they are first met (see `DistinctInFirstOrder`). */
  function Distinct<T(==)>(s: seq<T>): (r: seq<T>)
    ensures forall i :: 0 <= i < |r| ==> r[i] in s
    ensures forall i :: 0 <= i < |s| ==> s[i] in r
    ensures NoDuplicates(r)
  {
    if |s| == 0 then []
    else
      var prefix := s[..|s| - 1];
      var last := s[|s| - 1];
      var r := Distinct(prefix);
      if last in r then r else r + [last]
  }

  /** Every element of `r` occurs in `s`, and `r` lists them by where each
      first occurs in `s`. */
  predicate InFirstOrder<T(==)>(s: seq<T>, r: seq<T>) {
    forall i, j :: 0 <= i < j < |r| ==>
      r[i] in s && r[j] in s && FirstIndex(s, r[i]) < FirstIndex(s, r[j])
  }

  /** The kept elements are ordered by where each first occurs in `s`. */
  lemma {:induction false} DistinctInFirstOrder<T>(s: seq<T>)
    ensures InFirstOrder(s, Distinct(s))
  {
    if |s| > 0 {
      var prefix, last := s[..|s| - 1], s[|s| - 1];
      var r := Distinct(prefix);
      DistinctInFirstOrder(prefix);
      assert InFirstOrder(prefix, r);
      forall i, j | 0 <= i < j < |r|
        ensures FirstIndex(s, r[i]) < FirstIndex(s, r[j])
      {
        assert r[i] in prefix && r[j] in prefix;
        assert FirstIndex(prefix, r[i]) < FirstIndex(prefix, r[j]);
        FirstIndexInLonger(s, prefix, r[i]);
        FirstIndexInLonger(s, prefix, r[j]);
      }
      if last !in r {
        FirstIndexOfNew(s, last);
        forall i | 0 <= i < |r|
          ensures FirstIndex(s, r[i]) < FirstIndex(s, last)
        {
          FirstIndexInLonger(s, prefix, r[i]);
        }
        var d := r + [last];
        assert Distinct(s) == d;
        forall i, j | 0 <= i < j < |d|
          ensures FirstIndex(s, d[i]) < FirstIndex(s, d[j])
        {
          if j < |r| {
            assert d[i] == r[i] && d[j] == r[j];
          } else {
            assert d[i] == r[i] && d[j] == last;
          }
        }
      }
    }
  }

  /** Growing a sequence at the end does not move the first occurrence of an
      element already present. */
  lemma FirstIndexInLonger<T>(s: seq<T>, prefix: seq<T>, x: T)
    requires prefix <= s && x in prefix
    ensures x in s && FirstIndex(s, x) == FirstIndex(prefix, x)
  {
    var k := FirstIndex(prefix, x);
    assert s[k] == x;
    assert s[..k] == prefix[..k];
    FirstIndexUnique(s, x, k);
  }

  /** An element met for the first time at the end is first met there. */
  lemma FirstIndexOfNew<T>(s: seq<T>, x: T)
    requires |s| > 0 && s[|s| - 1] == x && x !in s[..|s| - 1]
    ensures FirstIndex(s, x) == |s| - 1
  {
    FirstIndexUnique(s, x, |s| - 1);
  }

  /** The contract of `FirstIndex` pins it down. */
  lemma FirstIndexUnique<T>(s: seq<T>, x: T, k: nat)
    requires k < |s| && s[k] == x && x !in s[..k]
    ensures FirstIndex(s, x) == k
  {
    var f := FirstIndex(s, x);
    assert forall i :: 0 <= i < k ==> s[..k][i] == s[i];
    assert forall i :: 0 <= i < f ==> s[..f][i] == s[i];
  }

  /** A sequence without duplicates is its own `Distinct`. */
  lemma {:induction false} DistinctOfNoDuplicates<T>(s: seq<T>)
    requires NoDuplicates(s)
    ensures Distinct(s) == s
  {
    if |s| > 0 {
      var front, last := s[..|s| - 1], s[|s| - 1];
      assert s == front + [last];
      assert NoDuplicates(front) by {
        assert forall i :: 0 <= i < |front| ==> front[i] == s[i];
      }
      assert last !in front by {
        assert forall i :: 0 <= i < |front| ==> front[i] == s[i];
      }
      DistinctOfNoDuplicates(front);
      DistinctAppend(front, last);
    }
  }

  /** Meeting one more element adds it at the end unless it was met before. */
  lemma DistinctAppend<T>(s: seq<T>, x: T)
    ensures Distinct(s + [x]) == if x in Distinct(s) then Distinct(s) else Distinct(s) + [x]
  {
    assert (s + [x])[..|s|] == s;
  }
}
