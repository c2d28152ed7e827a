/** The tags repository of the drive (`GFK.Image/Provider/TagsRepository.cs`):
    the tag store answered with `Tag` records that carry the full path and
    the tag's own name. */
module TagsRepository {
  import opened Wrappers
  import opened Strings
  import opened Sequences
  import TagStore

  /** `Tag`: the full path and the value shown for it, its last segment. */
  datatype Tag = Tag(path: string, value: string)

  /** `BuildTag`: the value is the text after the path's last separator, or the
      whole path when it holds none. */
  function BuildTag(path: string): (t: Tag)
    ensures t.path == path
    ensures TagStore.Separator !in t.value
    ensures |t.value| <= |path| && t.value == path[|path| - |t.value|..]
    ensures |t.value| == |path| || path[|path| - |t.value| - 1] == TagStore.Separator
  {
    Tag(path, LastSegment(path, TagStore.Separator))
  }

  /** The value of a tag written under a parent is its own name. */
  lemma BuildTagOfChild(parent: string, name: string)
    requires TagStore.Separator !in name
    ensures BuildTag(parent + [TagStore.Separator] + name).value == name
  {
    var s := parent + [TagStore.Separator] + name;
    var v := BuildTag(s).value;
    assert forall k :: |s| - |v| <= k < |s| ==> s[k] == v[k - (|s| - |v|)];
    assert forall k :: |parent| < k < |s| ==> s[k] == name[k - |parent| - 1];
    assert s[|parent|] == TagStore.Separator;
    assert |v| == |name|;
    assert name == s[|s| - |name|..];
  }

  /** The value of a path without separator is the path itself. */
  lemma BuildTagOfName(name: string)
    requires TagStore.Separator !in name
    ensures BuildTag(name).value == name
  {
    var v := BuildTag(name).value;
    assert |v| == |name|;
  }

  /** `AddTag`: stores the trimmed path and returns its tag. */
  function AddTag(tags: seq<string>, path: string): (r: (seq<string>, Tag))
    ensures r.0 == TagStore.Add(tags, path)
    ensures r.1.path == r.0[|tags|] && r.1 == BuildTag(TagStore.Trim(path))
  {
    var stored := TagStore.Add(tags, path);
    (stored, BuildTag(TagStore.Trim(path)))
  }

  /** `GetTag`: the tag of the trimmed path when it is stored verbatim, else
      `null`. */
  function GetTag(tags: seq<string>, path: string): (r: Option<Tag>)
    ensures r.Some? <==> TagStore.Trim(path) in tags
    ensures r.Some? ==> r.value.path == TagStore.Trim(path) && r.value == BuildTag(r.value.path)
  {
    match TagStore.Get(tags, path)
    case None => None
    case Some(p) => Some(BuildTag(p))
  }

  /** `IsPathValid`: the trimmed path is stored or lies above a stored tag. */
  function IsPathValid(tags: seq<string>, path: string): (r: bool)
    ensures r <==> exists i :: 0 <= i < |tags| && TagStore.SegmentAncestor(TagStore.Trim(path), tags[i])
  {
    TagStore.IsPathValidBySegments(tags, path);
    TagStore.IsPathValid(tags, path)
  }

  /** The paths of a list of tags. */
  function Paths(ts: seq<Tag>): (r: seq<string>)
    ensures |r| == |ts| && forall i :: 0 <= i < |ts| ==> r[i] == ts[i].path
  {
    if |ts| == 0 then [] else [ts[0].path] + Paths(ts[1..])
  }

  /** `BuildTag` over a list of paths. */
  function BuildTags(paths: seq<string>): (r: seq<Tag>)
    ensures |r| == |paths| && forall i :: 0 <= i < |paths| ==> r[i] == BuildTag(paths[i])
  {
    seq(|paths|, i requires 0 <= i < |paths| => BuildTag(paths[i]))
  }

  /** `GetChildTags`: one tag per distinct child path, in the order the paths
      are first met. */
  function GetChildTags(tags: seq<string>, path: string, depth: Option<nat>): (r: seq<Tag>)
    requires TagStore.Valid(tags)
    ensures Paths(r) == TagStore.ChildPaths(tags, path, depth)
    ensures forall i :: 0 <= i < |r| ==> r[i] == BuildTag(r[i].path)
  {
    BuildTags(TagStore.ChildPaths(tags, path, depth))
  }

  /** A repository that has seen the given additions, in order, starting empty. */
  function History(added: seq<string>): (r: seq<string>)
    ensures |r| == |added|
    ensures forall i :: 0 <= i < |added| ==> r[i] == TagStore.Trim(added[i])
    ensures TagStore.Valid(r)
  {
    if |added| == 0 then []
    else
      var front := History(added[..|added| - 1]);
      var r := AddTag(front, added[|added| - 1]).0;
      assert r == front + [TagStore.Trim(added[|added| - 1])];
      assert forall i :: 0 <= i < |added| - 1 ==> added[..|added| - 1][i] == added[i];
      assert TagStore.Valid(front) ==> TagStore.Valid(r);
      r
  }

  /** The repository of the unit tests: four tags added in this order. */
  const Gordon := "Tags:\\Author\\Gordon Freeman"
  const Adrian := "Tags:\\Author\\Adrian Shephard"
  const Other := "Tags:\\Author\\Adrian Shephard\\Other"
  const GMan := "Tags:\\People\\The G-Man"

  /** A path that does not end with a separator is stored as written. */
  lemma StoredAsWritten(t: string)
    requires t == [] || t[|t| - 1] != TagStore.Separator
    ensures TagStore.Trim(t) == t
  {
  }

  /** Paths that need no trimming are stored exactly as added. */
  lemma HistoryOfTrimmed(added: seq<string>)
    requires forall i :: 0 <= i < |added| ==> TagStore.Trim(added[i]) == added[i]
    ensures History(added) == added
  {
  }

  /** The repository of the unit tests: the four tags, stored as written. */
  const TestTags: seq<string> := [Gordon, Adrian, Other, GMan]

  /** None of the test tags ends with a separator, so adding them stores them
      as written. */
  lemma TestRepository()
    ensures History(TestTags) == TestTags
  {
    StoredAsWritten(Gordon);
    StoredAsWritten(Adrian);
    StoredAsWritten(Other);
    StoredAsWritten(GMan);
    HistoryOfTrimmed(TestTags);
  }
}
