/** The tags repository of the PowerShell module
    (`GFK.Image.PowerShell/Provider/TagsRepository.cs`): the same store as the
    drive's repository, answered with plain path strings. The listing is
    written here the way the loops run; its results are those of the drive's
    repository with the names dropped. */
module PlainTagsRepository {
  import opened Wrappers
  import opened Strings
  import opened Sequences
  import TagStore
  import TagsRepository

  /** `AddTag`: stores the trimmed path and returns it. */
  function AddTag(tags: seq<string>, path: string): (r: (seq<string>, string))
    ensures r.0 == TagStore.Add(tags, path) && r.1 == r.0[|tags|]
    ensures r.1 <= path && (r.1 == [] || r.1[|r.1| - 1] != TagStore.Separator)
  {
    var stored := TagStore.Add(tags, path);
    (stored, TagStore.Trim(path))
  }

  /** `GetTag`: the trimmed path when it is stored verbatim, else `null`. */
  function GetTag(tags: seq<string>, path: string): (r: Option<string>)
    ensures r.Some? <==> TagStore.Trim(path) in tags
    ensures r.Some? ==> r.value == TagStore.Trim(path)
  {
    TagStore.Get(tags, path)
  }

  /** `IsPathValid`: the trimmed path is stored or lies above a stored tag. */
  function IsPathValid(tags: seq<string>, path: string): (r: bool)
    ensures r <==> exists i :: 0 <= i < |tags| && TagStore.SegmentAncestor(TagStore.Trim(path), tags[i])
  {
    TagStore.IsPathValidBySegments(tags, path);
    TagStore.IsPathValid(tags, path)
  }

  /** `GetPartialPath`, the do-while loop: each round searches the next
      separator one character past the current position; the loop goes on
      while a separator was found and the depth, counted down after each test,
      was still positive. */
  method GetPartialPath(tag: string, position: nat, depth: nat) returns (r: string)
    requires position < |tag|
    ensures r == TagStore.PartialPath(tag, position, depth)
    ensures var ps := Positions(tag, TagStore.Separator, position + 1);
      r == if depth < |ps| then tag[..ps[depth]] else tag
  {
    var from: nat := position;
    var left := depth;
    var found := IndexOf(tag, TagStore.Separator, from + 1);
    while found >= 0 && left > 0
      invariant from < |tag|
      invariant found == IndexOf(tag, TagStore.Separator, from + 1)
      invariant TagStore.PartialPath(tag, from, left) == TagStore.PartialPath(tag, position, depth)
      decreases left
    {
      from := found;
      left := left - 1;
      found := IndexOf(tag, TagStore.Separator, from + 1);
    }
    r := if found >= 0 then tag[..found] else tag;
    TagStore.PartialPathIsDepthCut(tag, position, depth);
  }

  /** The `Select` step of the listing: the whole tag without a depth, else
      the tag cut by `GetPartialPath`. */
  method Select(tag: string, position: nat, depth: Option<nat>) returns (shown: string)
    requires position < |tag|
    ensures depth.None? ==> shown == tag
    ensures depth.Some? ==> var ps := Positions(tag, TagStore.Separator, position + 1);
      shown == if depth.value < |ps| then tag[..ps[depth.value]] else tag
    ensures shown == TagStore.Shown(tag, position, depth)
  {
    shown := tag;
    if depth.Some? {
      shown := GetPartialPath(tag, position, depth.value);
    }
  }

  /** `GetChildTags`: walks the stored tags in order, keeps those under the
      prefix, cuts each to the depth and keeps the first copy of each result. */
  method GetChildTags(tags: seq<string>, path: string, depth: Option<nat>) returns (r: seq<string>)
    requires TagStore.Valid(tags)
    ensures r == TagStore.ChildPaths(tags, path, depth)
    ensures r == TagsRepository.Paths(TagsRepository.GetChildTags(tags, path, depth))
  {
    var prefix := TagStore.ChildPrefix(path);
    r := [];
    var i := 0;
    TagStore.ChildPathsOfNone(tags, path, depth);
    while i < |tags|
      invariant 0 <= i <= |tags|
      invariant TagStore.Valid(tags[..i])
      invariant r == TagStore.ChildPaths(tags[..i], path, depth)
    {
      ghost var before := r;
      TagStore.BelowIsLongerAt(tags, i, path);
      if prefix <= tags[i] {
        var shown := Select(tags[i], |prefix|, depth);
        if shown !in r {
          r := r + [shown];
        }
      }
      TagStore.ChildPathsNext(tags, i, path, depth, before, r);
      i := i + 1;
    }
    assert tags[..i] == tags;
  }

  /** On the same history the two repositories agree: every answer here is the
      drive repository's answer with the tags replaced by their paths. */
  lemma SameAnswersAsDriveRepository(tags: seq<string>, path: string)
    ensures AddTag(tags, path).0 == TagsRepository.AddTag(tags, path).0
    ensures AddTag(tags, path).1 == TagsRepository.AddTag(tags, path).1.path
    ensures GetTag(tags, path).Some? <==> TagsRepository.GetTag(tags, path).Some?
    ensures GetTag(tags, path).Some? ==> GetTag(tags, path).value == TagsRepository.GetTag(tags, path).value.path
    ensures IsPathValid(tags, path) == TagsRepository.IsPathValid(tags, path)
  {
    SameAdd(tags, path);
    SameGet(tags, path);
    SameValidity(tags, path);
  }

  /** The additions agree. */
  lemma SameAdd(tags: seq<string>, path: string)
    ensures AddTag(tags, path).0 == TagsRepository.AddTag(tags, path).0
    ensures AddTag(tags, path).1 == TagsRepository.AddTag(tags, path).1.path
  {
  }

  /** The lookups agree. */
  lemma SameGet(tags: seq<string>, path: string)
    ensures GetTag(tags, path).Some? <==> TagsRepository.GetTag(tags, path).Some?
    ensures GetTag(tags, path).Some? ==> GetTag(tags, path).value == TagsRepository.GetTag(tags, path).value.path
  {
  }

  /** The validity tests agree. */
  lemma SameValidity(tags: seq<string>, path: string)
    ensures IsPathValid(tags, path) == TagsRepository.IsPathValid(tags, path)
  {
  }
}
