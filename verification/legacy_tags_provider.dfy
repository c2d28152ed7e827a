/** The path handling of the first PowerShell provider
    (`GFK.PowerShell/TagsProvider.cs`): paths are split on the backslash,
    empty and `.` segments are dropped, `..` drops the segment kept last, and
    the kept segments are joined again. Parent, child and joined paths are all
    read off the cleaned path. */
module LegacyTagsProvider {
  import opened Strings
  import opened Sequences

  /** `ItemSeparator` of the provider. */
  const ItemSeparator := '\\'

  /** A segment that names something: neither empty nor `.` nor `..`. */
  predicate IsName(chunk: string) {
    chunk != "" && chunk != "." && chunk != ".."
  }

  /** Every part is a name free of separators. */
  predicate Names(parts: seq<string>) {
    forall i :: 0 <= i < |parts| ==> IsName(parts[i]) && ItemSeparator !in parts[i]
  }

  /** One pass of the `switch` in `GetCleanPath` over the segments kept so far. */
  function Step(kept: seq<string>, chunk: string): (r: seq<string>)
    ensures IsName(chunk) ==> r == kept + [chunk]
    ensures !IsName(chunk) ==> r <= kept
    ensures chunk == ".." && kept != [] ==> r == kept[..|kept| - 1]
    ensures chunk != ".." ==> kept <= r
  {
    if chunk == "" || chunk == "." then kept
    else if chunk == ".." then (if |kept| > 0 then kept[..|kept| - 1] else kept)
    else kept + [chunk]
  }

  /** The `foreach` of `GetCleanPath`: the segments kept after meeting
      `chunks` in order, starting from `kept`. What is kept is made of the
      earlier segments and the names among `chunks`, never more of them. */
  function Resolve(kept: seq<string>, chunks: seq<string>): (r: seq<string>)
    ensures forall i :: 0 <= i < |r| ==> r[i] in kept || (r[i] in chunks && IsName(r[i]))
    ensures |r| <= |kept| + |chunks|
    decreases |chunks|
  {
    if |chunks| == 0 then kept
    else
      var next := Step(kept, chunks[0]);
      var r := Resolve(next, chunks[1..]);
      assert forall i :: 0 <= i < |r| ==> r[i] in next ==> r[i] in kept || r[i] == chunks[0];
      r
  }

  /** `GetCleanPath` as a function: the segments of `path` that survive,
      joined with the separator. */
  function CleanPath(path: string): string {
    Join(Segments(path), [ItemSeparator])
  }

  /** The segments that survive the cleaning of `path`: names, each free of
      separators. */
  function Segments(path: string): (r: seq<string>)
    ensures Names(r)
  {
    var chunks := Split(path, ItemSeparator);
    var r := Resolve([], chunks);
    assert forall i :: 0 <= i < |r| ==> r[i] in chunks;
    r
  }

  /** `GetCleanPath` as the source writes it: a loop over the chunks of the
      split path that keeps a list of segments. */
  method GetCleanPath(path: string) returns (r: string)
    ensures r == CleanPath(path)
    ensures Split(r, ItemSeparator) == if Segments(path) == [] then [""] else Segments(path)
  {
    var chunks := Split(path, ItemSeparator);
    var kept: seq<string> := [];
    var i := 0;
    while i < |chunks|
      invariant 0 <= i <= |chunks|
      invariant Resolve(kept, chunks[i..]) == Resolve([], chunks)
    {
      var chunk := chunks[i];
      assert chunks[i..][1..] == chunks[i + 1..];
      if chunk == "" || chunk == "." {
        i := i + 1;
        continue;
      } else if chunk == ".." {
        if |kept| > 0 {
          kept := kept[..|kept| - 1];
        }
      } else {
        kept := kept + [chunk];
      }
      i := i + 1;
    }
    assert chunks[i..] == [];
    r := Join(kept, [ItemSeparator]);
    SplitOfClean(path);
  }

  /** Splitting a cleaned path gives its segments back (one empty piece when
      nothing survived). */
  lemma SplitOfClean(path: string)
    ensures Split(CleanPath(path), ItemSeparator) ==
      if Segments(path) == [] then [""] else Segments(path)
  {
    var parts := Segments(path);
    if parts != [] {
      JoinThenSplit(parts, ItemSeparator);
    }
  }

  /** Names pass through the loop unchanged: they are appended as they are. */
  lemma {:induction false} ResolveNames(kept: seq<string>, chunks: seq<string>)
    requires forall i :: 0 <= i < |chunks| ==> IsName(chunks[i])
    ensures Resolve(kept, chunks) == kept + chunks
    decreases |chunks|
  {
    if |chunks| > 0 {
      ResolveNames(kept + [chunks[0]], chunks[1..]);
      assert kept + [chunks[0]] + chunks[1..] == kept + chunks;
    }
  }

  /** Meeting two runs of chunks one after the other is meeting their
      concatenation. */
  lemma {:induction false} ResolveConcat(kept: seq<string>, a: seq<string>, b: seq<string>)
    ensures Resolve(kept, a + b) == Resolve(Resolve(kept, a), b)
    decreases |a|
  {
    if |a| == 0 {
      assert a + b == b;
    } else {
      assert (a + b)[0] == a[0];
      assert (a + b)[1..] == a[1..] + b;
      ResolveConcat(Step(kept, a[0]), a[1..], b);
    }
  }

  /** A `..` with nothing kept is dropped: the cleaned path never climbs above
      where it started. */
  lemma DotDotAtTopIsDropped(rest: seq<string>)
    ensures Resolve([], [".."] + rest) == Resolve([], rest)
  {
    assert ([".."] + rest)[1..] == rest;
  }

  /** A name followed by `..` cancels out. */
  lemma NameThenDotDotCancels(kept: seq<string>, name: string, rest: seq<string>)
    requires IsName(name)
    ensures Resolve(kept, [name, ".."] + rest) == Resolve(kept, rest)
  {
    var s := [name, ".."] + rest;
    assert s[1..] == [".."] + rest;
    assert ([".."] + rest)[1..] == rest;
    assert (kept + [name])[..|kept|] == kept;
  }

  /** The cleaned path has no empty, `.` or `..` segment, hence no leading,
      trailing or doubled separator. */
  lemma CleanPathShape(path: string)
    ensures var r := CleanPath(path);
      && (r == [] || (r[0] != ItemSeparator && r[|r| - 1] != ItemSeparator))
      && forall i :: 0 <= i < |r| - 1 ==> !(r[i] == ItemSeparator && r[i + 1] == ItemSeparator)
  {
    JoinShape(Segments(path));
  }

  /** Joining non-empty separator-free parts gives no leading, trailing or
      doubled separator. */
  lemma {:induction false} JoinShape(parts: seq<string>)
    requires forall k :: 0 <= k < |parts| ==> parts[k] != [] && ItemSeparator !in parts[k]
    ensures var r := Join(parts, [ItemSeparator]);
      && (r == [] || (r[0] != ItemSeparator && r[|r| - 1] != ItemSeparator))
      && forall i :: 0 <= i < |r| - 1 ==> !(r[i] == ItemSeparator && r[i + 1] == ItemSeparator)
    decreases |parts|
  {
    if |parts| > 1 {
      var head, rest := parts[0], Join(parts[1..], [ItemSeparator]);
      JoinShape(parts[1..]);
      var r := head + [ItemSeparator] + rest;
      assert Join(parts, [ItemSeparator]) == r;
      JoinOfNonEmptyIsNonEmpty(parts[1..]);
      forall i | 0 <= i < |r| - 1
        ensures !(r[i] == ItemSeparator && r[i + 1] == ItemSeparator)
      {
        if i < |head| - 1 {
          assert r[i] == head[i];
        } else if i == |head| - 1 {
          assert r[i] == head[i];
        } else if i == |head| {
          assert r[i + 1] == rest[0];
        } else {
          assert r[i] == rest[i - |head| - 1] && r[i + 1] == rest[i - |head|];
        }
      }
      assert r[0] == head[0];
      assert r[|r| - 1] == rest[|rest| - 1];
    }
  }

  /** Joining a non-empty list of non-empty parts is not empty. */
  lemma JoinOfNonEmptyIsNonEmpty(parts: seq<string>)
    requires |parts| > 0 && forall k :: 0 <= k < |parts| ==> parts[k] != []
    ensures Join(parts, [ItemSeparator]) != []
  {
    if |parts| > 1 {
      assert |Join(parts, [ItemSeparator])| >= |parts[0]|;
    }
  }

  /** Cleaning twice changes nothing more. */
  lemma CleanPathIdempotent(path: string)
    ensures Segments(CleanPath(path)) == Segments(path)
    ensures CleanPath(CleanPath(path)) == CleanPath(path)
  {
    var parts := Segments(path);
    SplitOfClean(path);
    if parts == [] {
      assert Split(CleanPath(path), ItemSeparator) == [""];
      assert Resolve([], [""]) == [];
    } else {
      ResolveNames([], parts);
    }
  }

  /** `MakePath`: the parent and the child joined with one separator, then
      cleaned. */
  function MakePath(parent: string, child: string): (r: string)
    ensures Segments(r) == Resolve(Segments(parent), Split(child, ItemSeparator))
  {
    MakePathResolvesChild(parent, child);
    CleanPathIdempotent(parent + [ItemSeparator] + child);
    CleanPath(parent + [ItemSeparator] + child)
  }

  /** The child is resolved relative to the cleaned parent: its `..` segments
      climb out of the parent's segments. */
  lemma MakePathResolvesChild(parent: string, child: string)
    ensures Segments(parent + [ItemSeparator] + child) ==
      Resolve(Segments(parent), Split(child, ItemSeparator))
  {
    SplitConcat(parent, child, ItemSeparator);
    ResolveConcat([], Split(parent, ItemSeparator), Split(child, ItemSeparator));
  }

  /** Cleaning the parent first does not change the joined path. */
  lemma MakePathOfCleanParent(parent: string, child: string)
    ensures MakePath(CleanPath(parent), child) == MakePath(parent, child)
  {
    CleanPathIdempotent(parent);
    MakePathResolvesChild(parent, child);
    MakePathResolvesChild(CleanPath(parent), child);
  }

  /** A plain name appended to a path becomes its last segment. */
  lemma MakePathWithName(parent: string, name: string)
    requires IsName(name) && ItemSeparator !in name
    ensures Segments(MakePath(parent, name)) == Segments(parent) + [name]
  {
    MakePathResolvesChild(parent, name);
    assert Split(name, ItemSeparator) == [name] by {
      assert IndexOf(name, ItemSeparator, 0) < 0;
    }
    ResolveNames(Segments(parent), [name]);
    CleanPathIdempotent(parent + [ItemSeparator] + name);
  }

  /** `GetParentPath`: the cleaned path up to its last separator, or the empty
      string when it has none. */
  function GetParentPath(path: string): (r: string)
    ensures r <= CleanPath(path)
  {
    var cleanPath := CleanPath(path);
    var lastSeparatorIndex := LastIndexOf(cleanPath, ItemSeparator);
    if lastSeparatorIndex == -1 then [] else cleanPath[..lastSeparatorIndex]
  }

  /** `GetChildName`: the last segment of the cleaned path. */
  function GetChildName(path: string): (r: string)
    ensures ItemSeparator !in r
  {
    LastSegment(CleanPath(path), ItemSeparator)
  }

  /** The child name is the last surviving segment, or empty when none
      survived. */
  lemma ChildNameIsLastSegment(path: string)
    ensures var parts := Segments(path);
      GetChildName(path) == if parts == [] then [] else parts[|parts| - 1]
  {
    var pieces := Split(CleanPath(path), ItemSeparator);
    SplitOfClean(path);
    assert GetChildName(path) == pieces[|pieces| - 1];
  }

  /** The parent path is the path with one more `..`: all surviving segments
      but the last. */
  lemma ParentPathIsDotDot(path: string)
    ensures GetParentPath(path) == CleanPath(path + [ItemSeparator] + "..")
  {
    var parts := Segments(path);
    DotDotDropsLast(path);
    if parts != [] {
      JoinWithoutLast(parts);
    }
  }

  /** A trailing `..` drops the last surviving segment. */
  lemma DotDotDropsLast(path: string)
    ensures var parts := Segments(path);
      Segments(path + [ItemSeparator] + "..") == if parts == [] then [] else parts[..|parts| - 1]
  {
    MakePathResolvesChild(path, "..");
    assert Split("..", ItemSeparator) == [".."] by {
      assert IndexOf("..", ItemSeparator, 0) < 0;
    }
  }

  /** Cutting a join at its last separator leaves the join of all parts but the
      last, when the last part holds no separator. */
  lemma JoinWithoutLast(parts: seq<string>)
    requires |parts| > 0 && ItemSeparator !in parts[|parts| - 1]
    ensures var c := Join(parts, [ItemSeparator]);
      var k := LastIndexOf(c, ItemSeparator);
      (if k == -1 then [] else c[..k]) == Join(parts[..|parts| - 1], [ItemSeparator])
  {
    var front, last := parts[..|parts| - 1], parts[|parts| - 1];
    FrontAndLast(parts);
    if front == [] {
      assert Join(parts, [ItemSeparator]) == last;
      LastIndexOfUnique(last, ItemSeparator, -1);
    } else {
      JoinAppend(front, last, [ItemSeparator]);
      LastSeparatorAt(Join(front, [ItemSeparator]), last);
    }
  }

  /** The separator written before a separator-free last part is the last
      one. */
  lemma LastSeparatorAt(j: string, last: string)
    requires ItemSeparator !in last
    ensures var c := j + [ItemSeparator] + last;
      LastIndexOf(c, ItemSeparator) == |j| && c[..|j|] == j
  {
    var c := j + [ItemSeparator] + last;
    forall i | |j| < i < |c|
      ensures c[i] != ItemSeparator
    {
      assert c[i] == last[i - |j| - 1];
    }
    LastIndexOfUnique(c, ItemSeparator, |j|);
    assert c[..|j|] == j;
  }

  /** The parent path and the child name put back together give the cleaned
      path. */
  lemma ParentAndChildRecombine(path: string)
    requires ItemSeparator in CleanPath(path)
    ensures GetParentPath(path) + [ItemSeparator] + GetChildName(path) == CleanPath(path)
  {
    var c := CleanPath(path);
    var i :| 0 <= i < |c| && c[i] == ItemSeparator;
    SplitAtLastSeparator(c, i);
  }

  /** A string with a separator is the text before its last separator, the
      separator, and its last piece. */
  lemma SplitAtLastSeparator(c: string, i: nat)
    requires i < |c| && c[i] == ItemSeparator
    ensures var k := LastIndexOf(c, ItemSeparator);
      && 0 <= k
      && c == c[..k] + [ItemSeparator] + LastSegment(c, ItemSeparator)
  {
    var k := LastIndexOf(c, ItemSeparator);
    assert k >= i;
    ChildNameAfterLastSeparator(c);
    SliceAround(c, k);
  }

  /** The last piece is what follows the last separator. */
  lemma ChildNameAfterLastSeparator(c: string)
    ensures LastSegment(c, ItemSeparator) == c[LastIndexOf(c, ItemSeparator) + 1..]
  {
    LastOfSplit(c, ItemSeparator);
  }

  /** A cleaned path without separator is its own child name and has no
      parent. */
  lemma SingleSegmentHasNoParent(path: string)
    requires ItemSeparator !in CleanPath(path)
    ensures GetParentPath(path) == []
    ensures GetChildName(path) == CleanPath(path)
  {
    var c := CleanPath(path);
    LastIndexOfUnique(c, ItemSeparator, -1);
    LastOfSplit(c, ItemSeparator);
  }
}
