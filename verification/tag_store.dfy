/** The tag store shared by both tags repositories
    (`GFK.Image/Provider/TagsRepository.cs` and
    `GFK.Image.PowerShell/Provider/TagsRepository.cs`, which run the same
    algorithm). The store is the insertion-ordered list of full tag paths; the
    separator is the backslash, whatever separator the drive shows to the user.
    Every query first strips the trailing separators of its argument. */
module TagStore {
  import opened Wrappers
  import opened Strings
  import opened Sequences

  /** The separator of stored tag paths. */
  const Separator: char := '\\'

  /** `path.TrimEnd(Separator)`. */
  function Trim(path: string): string {
    TrimEnd(path, Separator)
  }

  /** What `AddTag` maintains: no stored path ends with a separator. */
  predicate Valid(tags: seq<string>) {
    forall i :: 0 <= i < |tags| ==> tags[i] == [] || tags[i][|tags[i]| - 1] != Separator
  }

  /** `AddTag` on the store: appends the trimmed path, even when it is already
      stored, and keeps every earlier entry where it was. */
  function Add(tags: seq<string>, path: string): (r: seq<string>)
    ensures |r| == |tags| + 1 && r[..|tags|] == tags
    ensures r[|tags|] <= path && Trim(r[|tags|]) == Trim(path)
    ensures r[|tags|] == [] || r[|tags|][|r[|tags|]| - 1] != Separator
    ensures Valid(tags) ==> Valid(r)
  {
    tags + [Trim(path)]
  }

  /** `GetTag` on the store: the trimmed path when it is stored verbatim. */
  function Get(tags: seq<string>, path: string): (r: Option<string>)
    ensures r.Some? <==> exists i :: 0 <= i < |tags| && tags[i] == Trim(path)
    ensures r.Some? ==> r.value == Trim(path)
  {
    if Trim(path) in tags then Some(Trim(path)) else None
  }

  /** A stored tag is the path itself or lies below it. */
  predicate Covers(tag: string, path: string) {
    tag == path || path + [Separator] <= tag
  }

  /** Whether some stored tag is the path itself or starts with the path and
      one separator. */
  function AnyCovers(tags: seq<string>, path: string): (r: bool)
    ensures r <==> exists i :: 0 <= i < |tags| && Covers(tags[i], path)
  {
    if |tags| == 0 then false
    else Covers(tags[0], path) || AnyCovers(tags[1..], path)
  }

  /** `IsPathValid` on the store. */
  function IsPathValid(tags: seq<string>, path: string): (r: bool)
    ensures r <==> exists i :: 0 <= i < |tags| && Covers(tags[i], Trim(path))
  {
    AnyCovers(tags, Trim(path))
  }

  /** The reference meaning of validity: the path's segments are a leading run
      of some stored tag's segments. */
  predicate SegmentAncestor(path: string, tag: string) {
    Split(path, Separator) <= Split(tag, Separator)
  }

  /** A tag that covers the path has the path's segments as a leading run. */
  lemma CoversGivesSegmentAncestor(tag: string, path: string)
    requires Covers(tag, path)
    ensures SegmentAncestor(path, tag)
  {
    if tag != path {
      var rest := tag[|path| + 1..];
      assert tag == path + [Separator] + rest;
      SplitConcat(path, rest, Separator);
    }
  }

  /** A tag whose segments start with the path's segments covers the path. */
  lemma SegmentAncestorGivesCovers(tag: string, path: string)
    requires SegmentAncestor(path, tag)
    ensures Covers(tag, path)
  {
    var ps, ts := Split(path, Separator), Split(tag, Separator);
    SplitThenJoin(path, Separator);
    SplitThenJoin(tag, Separator);
    if |ps| == |ts| {
      assert ps == ts;
    } else {
      var more := ts[|ps|..];
      assert ts == ps + more;
      JoinConcat(ps, more, [Separator]);
      assert tag == path + [Separator] + Join(more, [Separator]);
    }
  }

  /** `Covers` is the separator-bounded prefix relation on segments. */
  lemma CoversIsSegmentAncestor(tag: string, path: string)
    ensures Covers(tag, path) <==> SegmentAncestor(path, tag)
  {
    if Covers(tag, path) {
      CoversGivesSegmentAncestor(tag, path);
    }
    if SegmentAncestor(path, tag) {
      SegmentAncestorGivesCovers(tag, path);
    }
  }

  /** Validity in terms of segments: the trimmed path is a stored tag or a
      separator-bounded ancestor of one. */
  lemma IsPathValidBySegments(tags: seq<string>, path: string)
    ensures IsPathValid(tags, path) <==>
      exists i :: 0 <= i < |tags| && SegmentAncestor(Trim(path), tags[i])
  {
    forall i | 0 <= i < |tags| {
      CoversIsSegmentAncestor(tags[i], Trim(path));
    }
  }

  /** A stored tag is a valid path. */
  lemma GetImpliesValid(tags: seq<string>, path: string)
    ensures Get(tags, path).Some? ==> IsPathValid(tags, path)
  {
    if Get(tags, path).Some? {
      var i :| 0 <= i < |tags| && tags[i] == Trim(path);
      assert Covers(tags[i], Trim(path));
    }
  }

  /** After adding a path it can be got back, trimmed. */
  lemma GetAfterAdd(tags: seq<string>, path: string)
    ensures Get(Add(tags, path), path) == Some(Trim(path))
  {
    var r := Add(tags, path);
    assert r[|tags|] == Trim(path);
  }

  /** Adding never invalidates a path. */
  lemma AddKeepsValidPaths(tags: seq<string>, path: string, other: string)
    requires IsPathValid(tags, other)
    ensures IsPathValid(Add(tags, path), other)
  {
    var i :| 0 <= i < |tags| && Covers(tags[i], Trim(other));
    assert Add(tags, path)[i] == tags[i];
  }

  /** After adding a path, every ancestor of it, the root token included, is
      valid. */
  lemma AddMakesAncestorsValid(tags: seq<string>, path: string, ancestor: string)
    requires SegmentAncestor(Trim(ancestor), Trim(path))
    ensures IsPathValid(Add(tags, path), ancestor)
  {
    var r := Add(tags, path);
    assert r[|tags|] == Trim(path);
    IsPathValidBySegments(r, ancestor);
  }

  /** The prefix a child of `path` starts with: the trimmed path and one
      separator. */
  function ChildPrefix(path: string): (r: string)
    ensures |r| > 0 && r[|r| - 1] == Separator
  {
    Trim(path) + [Separator]
  }

  /** The stored tags that start with the prefix, in store order. */
  function Below(tags: seq<string>, prefix: string): (r: seq<string>)
    ensures forall i :: 0 <= i < |r| ==> r[i] in tags && prefix <= r[i]
    ensures forall i :: 0 <= i < |tags| && prefix <= tags[i] ==> tags[i] in r
  {
    if |tags| == 0 then []
    else
      var front, last := tags[..|tags| - 1], tags[|tags| - 1];
      assert forall i :: 0 <= i < |front| ==> front[i] == tags[i];
      Below(front, prefix) + if prefix <= last then [last] else []
  }

  /** `GetPartialPath`: from `position`, searches the next separator starting
      one character further on, and again as long as `depth` allows; the tag is
      cut just before the separator where the search stopped, or kept whole
      when the separators ran out. */
  function PartialPath(tag: string, position: nat, depth: nat): (r: string)
    requires position < |tag|
    ensures r <= tag && position < |r|
    ensures r == tag || tag[|r|] == Separator
    decreases depth
  {
    var next := IndexOf(tag, Separator, position + 1);
    if next >= 0 && depth > 0 then PartialPath(tag, next, depth - 1)
    else if next >= 0 then tag[..next]
    else tag
  }

  /** `PartialPath` cuts the tag just before the separator numbered `depth`
      (counting from 0) among those at index `position + 1` or later. */
  lemma {:induction false} PartialPathIsDepthCut(tag: string, position: nat, depth: nat)
    requires position < |tag|
    ensures var ps := Positions(tag, Separator, position + 1);
      PartialPath(tag, position, depth) == if depth < |ps| then tag[..ps[depth]] else tag
    decreases depth
  {
    var next := IndexOf(tag, Separator, position + 1);
    var ps := Positions(tag, Separator, position + 1);
    IndexOfIsFirstPosition(tag, Separator, position + 1);
    if next < 0 {
      assert ps == [];
    } else if depth == 0 {
      assert ps[0] == next;
    } else {
      var rest := Positions(tag, Separator, next + 1);
      assert ps == [next] + rest;
      PartialPathIsDepthCut(tag, next, depth - 1);
      assert depth < |ps| ==> ps[depth] == rest[depth - 1];
    }
  }

  /** With depth 0 the cut keeps no separator beyond the one ending the
      prefix, apart from the character right after `position`, which the
      search skips. */
  lemma ImmediatePartialPath(tag: string, position: nat)
    requires position < |tag|
    ensures var r := PartialPath(tag, position, 0);
      Separator !in r[position + 1..]
  {
    var r := PartialPath(tag, position, 0);
    var next := IndexOf(tag, Separator, position + 1);
    forall k | position + 1 <= k < |r|
      ensures r[k] != Separator
    {
      assert r[k] == tag[k];
    }
  }

  /** Every tag is longer than `n`. */
  predicate LongerThan(tags: seq<string>, n: nat) {
    forall i :: 0 <= i < |tags| ==> n < |tags[i]|
  }

  /** The tag as the listing shows it: whole without a depth, else cut. */
  function Shown(tag: string, n: nat, depth: Option<nat>): string
    requires n < |tag|
  {
    if depth.None? then tag else PartialPath(tag, n, depth.value)
  }

  /** Every tag as the listing shows it, position by position. */
  function Truncate(tags: seq<string>, n: nat, depth: Option<nat>): (r: seq<string>)
    requires LongerThan(tags, n)
    ensures |r| == |tags|
    ensures forall i :: 0 <= i < |r| ==> r[i] == Shown(tags[i], n, depth)
  {
    if |tags| == 0 then []
    else
      var front := tags[..|tags| - 1];
      Truncate(front, n, depth) + [Shown(tags[|tags| - 1], n, depth)]
  }

  /** The stored tags below a valid store's child prefix are longer than the
      prefix: they start with it and, unlike it, do not end in a separator. */
  lemma BelowIsLonger(tags: seq<string>, path: string)
    requires Valid(tags)
    ensures LongerThan(Below(tags, ChildPrefix(path)), |ChildPrefix(path)|)
  {
    var prefix := ChildPrefix(path);
    var below := Below(tags, prefix);
    forall i | 0 <= i < |below|
      ensures |prefix| < |below[i]|
    {
      var t := below[i];
      var j :| 0 <= j < |tags| && tags[j] == t;
      assert t[|prefix| - 1] == Separator;
    }
  }

  /** The truncated paths, one per stored tag below the prefix, before
      duplicates are removed. */
  function Candidates(tags: seq<string>, path: string, depth: Option<nat>): (r: seq<string>)
    requires Valid(tags)
    ensures forall i :: 0 <= i < |r| ==> ChildPrefix(path) <= r[i]
  {
    var prefix := ChildPrefix(path);
    BelowIsLonger(tags, path);
    var below := Below(tags, prefix);
    var r := Truncate(below, |prefix|, depth);
    assert forall i :: 0 <= i < |r| ==> prefix <= below[i] && r[i] <= below[i] && |prefix| <= |r[i]|;
    r
  }

  /** `GetChildTags` on the store, as paths: the distinct candidates in the order
      they are first met. The store must be valid, or the search would start
      beyond the end of a stored tag equal to the prefix. */
  function ChildPaths(tags: seq<string>, path: string, depth: Option<nat>): (r: seq<string>)
    requires Valid(tags)
    ensures forall i :: 0 <= i < |r| ==> ChildPrefix(path) <= r[i]
  {
    Distinct(Candidates(tags, path, depth))
  }

  /** The children are pairwise distinct and ordered by where each is first
      met among the candidates. */
  lemma ChildPathsDistinctInOrder(tags: seq<string>, path: string, depth: Option<nat>)
    requires Valid(tags)
    ensures var r := ChildPaths(tags, path, depth);
      && NoDuplicates(r)
      && forall i, j :: 0 <= i < j < |r| ==>
        var cs := Candidates(tags, path, depth);
        r[i] in cs && r[j] in cs && FirstIndex(cs, r[i]) < FirstIndex(cs, r[j])
  {
    DistinctInFirstOrder(Candidates(tags, path, depth));
  }

  /** Without a depth the children are exactly the stored tags below the prefix. */
  lemma ChildPathsUntruncated(tags: seq<string>, path: string, x: string)
    requires Valid(tags)
    ensures x in ChildPaths(tags, path, None) <==> x in tags && ChildPrefix(path) <= x
  {
    var cs := Candidates(tags, path, None);
    var below := Below(tags, ChildPrefix(path));
    assert cs == below;
  }

  /** The candidates are the stored tags below the prefix, as shown. */
  lemma CandidatesMembers(tags: seq<string>, path: string, depth: Option<nat>, x: string)
    requires Valid(tags)
    ensures x in Candidates(tags, path, depth) <==>
      exists i :: 0 <= i < |tags| && ChildPrefix(path) <= tags[i] && |ChildPrefix(path)| < |tags[i]| &&
        x == Shown(tags[i], |ChildPrefix(path)|, depth)
  {
    var prefix := ChildPrefix(path);
    var cs := Candidates(tags, path, depth);
    var below := Below(tags, prefix);
    BelowIsLonger(tags, path);
    if x in cs {
      var k :| 0 <= k < |cs| && cs[k] == x;
      var i :| 0 <= i < |tags| && tags[i] == below[k];
    }
    if exists i :: 0 <= i < |tags| && prefix <= tags[i] && |prefix| < |tags[i]| && x == Shown(tags[i], |prefix|, depth) {
      var i :| 0 <= i < |tags| && prefix <= tags[i] && |prefix| < |tags[i]| && x == Shown(tags[i], |prefix|, depth);
      var k :| 0 <= k < |below| && below[k] == tags[i];
      assert cs[k] == x;
    }
  }

  /** With a depth the children are exactly the stored tags below the prefix,
      each cut by `PartialPath`. */
  lemma ChildPathsAtDepth(tags: seq<string>, path: string, depth: nat, x: string)
    requires Valid(tags)
    ensures x in ChildPaths(tags, path, Some(depth)) <==>
      exists i :: 0 <= i < |tags| && ChildPrefix(path) <= tags[i] && |ChildPrefix(path)| < |tags[i]| &&
        x == PartialPath(tags[i], |ChildPrefix(path)|, depth)
  {
    CandidatesMembers(tags, path, Some(depth), x);
  }

  /** Depth 0 lists immediate children only: past the prefix and the character
      right after it, no child holds a separator. */
  lemma ChildPathsImmediate(tags: seq<string>, path: string, x: string)
    requires Valid(tags)
    requires x in ChildPaths(tags, path, Some(0))
    ensures Separator !in x[|ChildPrefix(path)| + 1..]
  {
    ChildPathsAtDepth(tags, path, 0, x);
    var i :| 0 <= i < |tags| && ChildPrefix(path) <= tags[i] &&
      x == PartialPath(tags[i], |ChildPrefix(path)|, 0);
    BelowIsLonger(tags, path);
    assert tags[i] in Below(tags, ChildPrefix(path));
    ImmediatePartialPath(tags[i], |ChildPrefix(path)|);
  }

  /** A prefix of a valid store is valid. */
  lemma ValidPrefix(tags: seq<string>, k: nat)
    requires Valid(tags) && k <= |tags|
    ensures Valid(tags[..k])
  {
    assert forall i :: 0 <= i < k ==> tags[..k][i] == tags[i];
  }

  /** No stored tag, no child. */
  lemma ChildPathsOfNone(tags: seq<string>, path: string, depth: Option<nat>)
    ensures Valid(tags[..0]) && ChildPaths(tags[..0], path, depth) == []
  {
    assert tags[..0] == [];
  }

  /** Storing one more tag adds at most one candidate, at the end. */
  lemma CandidatesAppend(tags: seq<string>, tag: string, path: string, depth: Option<nat>)
    requires Valid(tags + [tag])
    ensures Valid(tags)
    ensures ChildPrefix(path) <= tag ==> |ChildPrefix(path)| < |tag|
    ensures Candidates(tags + [tag], path, depth) == Candidates(tags, path, depth) +
      if ChildPrefix(path) <= tag then [Shown(tag, |ChildPrefix(path)|, depth)] else []
  {
    var all := tags + [tag];
    ValidPrefix(all, |tags|);
    assert all[..|tags|] == tags;
    var prefix := ChildPrefix(path);
    BelowIsLonger(all, path);
    BelowIsLonger(tags, path);
    if prefix <= tag {
      assert tag[|prefix| - 1] == Separator;
      assert all[|tags|] == tag;
    }
    BelowAppend(tags, tag, prefix);
    if prefix <= tag {
      TruncateAppend(Below(tags, prefix), tag, |prefix|, depth);
    }
  }

  /** Filtering one more tag adds it at the end when it lies below the prefix. */
  lemma BelowAppend(tags: seq<string>, tag: string, prefix: string)
    ensures Below(tags + [tag], prefix) == Below(tags, prefix) + if prefix <= tag then [tag] else []
  {
    assert (tags + [tag])[..|tags|] == tags;
  }

  /** Cutting one more tag adds its shown form at the end. */
  lemma TruncateAppend(tags: seq<string>, tag: string, n: nat, depth: Option<nat>)
    requires LongerThan(tags, n) && n < |tag|
    ensures LongerThan(tags + [tag], n)
    ensures Truncate(tags + [tag], n, depth) == Truncate(tags, n, depth) + [Shown(tag, n, depth)]
  {
    assert (tags + [tag])[..|tags|] == tags;
  }

  /** The candidates of the first `i + 1` stored tags extend those of the first
      `i` by at most the shown form of tag `i`. */
  lemma CandidatesStep(tags: seq<string>, i: nat, path: string, depth: Option<nat>)
    requires Valid(tags) && i < |tags|
    ensures Valid(tags[..i]) && Valid(tags[..i + 1])
    ensures ChildPrefix(path) <= tags[i] ==> |ChildPrefix(path)| < |tags[i]|
    ensures Candidates(tags[..i + 1], path, depth) == Candidates(tags[..i], path, depth) +
      if ChildPrefix(path) <= tags[i] then [Shown(tags[i], |ChildPrefix(path)|, depth)] else []
  {
    ValidPrefix(tags, i + 1);
    assert tags[..i + 1] == tags[..i] + [tags[i]];
    CandidatesAppend(tags[..i], tags[i], path, depth);
  }

  /** The children of the first `i + 1` stored tags: those of the first `i`,
      and the shown form of tag `i` when it lies below the prefix and is new. */
  lemma ChildPathsStep(tags: seq<string>, i: nat, path: string, depth: Option<nat>)
    requires Valid(tags) && i < |tags|
    ensures Valid(tags[..i]) && Valid(tags[..i + 1])
    ensures ChildPrefix(path) <= tags[i] ==> |ChildPrefix(path)| < |tags[i]|
    ensures var before := ChildPaths(tags[..i], path, depth);
      ChildPaths(tags[..i + 1], path, depth) ==
        if ChildPrefix(path) <= tags[i] && Shown(tags[i], |ChildPrefix(path)|, depth) !in before
        then before + [Shown(tags[i], |ChildPrefix(path)|, depth)]
        else before
  {
    CandidatesStep(tags, i, path, depth);
    var cs := Candidates(tags[..i], path, depth);
    if ChildPrefix(path) <= tags[i] {
      DistinctAppend(cs, Shown(tags[i], |ChildPrefix(path)|, depth));
    } else {
      assert Candidates(tags[..i + 1], path, depth) == cs;
    }
  }

  /** A stored tag below the child prefix is longer than the prefix. */
  lemma BelowIsLongerAt(tags: seq<string>, i: nat, path: string)
    requires Valid(tags) && i < |tags|
    ensures ChildPrefix(path) <= tags[i] ==> |ChildPrefix(path)| < |tags[i]|
  {
    var prefix := ChildPrefix(path);
    if prefix <= tags[i] {
      assert tags[i][|prefix| - 1] == Separator;
    }
  }

  /** `ChildPathsStep` for a listing that has gone from `before` to `after`
      while visiting tag `i`. */
  lemma ChildPathsNext(tags: seq<string>, i: nat, path: string, depth: Option<nat>,
                       before: seq<string>, after: seq<string>)
    requires Valid(tags) && i < |tags|
    requires Valid(tags[..i]) && before == ChildPaths(tags[..i], path, depth)
    requires ChildPrefix(path) <= tags[i] ==>
      && |ChildPrefix(path)| < |tags[i]|
      && var shown := Shown(tags[i], |ChildPrefix(path)|, depth);
        after == if shown in before then before else before + [shown]
    requires !(ChildPrefix(path) <= tags[i]) ==> after == before
    ensures Valid(tags[..i + 1]) && after == ChildPaths(tags[..i + 1], path, depth)
  {
    ChildPathsStep(tags, i, path, depth);
  }

  /** When every stored tag lies below the prefix, the candidates are all the
      stored tags, as shown. */
  lemma CandidatesAllBelow(tags: seq<string>, path: string, depth: Option<nat>)
    requires Valid(tags)
    requires forall i :: 0 <= i < |tags| ==> ChildPrefix(path) <= tags[i]
    ensures LongerThan(tags, |ChildPrefix(path)|)
    ensures Candidates(tags, path, depth) == Truncate(tags, |ChildPrefix(path)|, depth)
  {
    BelowAll(tags, ChildPrefix(path));
    BelowIsLonger(tags, path);
  }

  /** Filtering keeps every tag when all lie below the prefix. */
  lemma {:induction false} BelowAll(tags: seq<string>, prefix: string)
    requires forall i :: 0 <= i < |tags| ==> prefix <= tags[i]
    ensures Below(tags, prefix) == tags
  {
    if |tags| > 0 {
      BelowAll(tags[..|tags| - 1], prefix);
      FrontAndLast(tags);
    }
  }
}
