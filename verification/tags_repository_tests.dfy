/** The unit-test scenario of the drive's tags repository, stated about the
    model: four tags are added, then looked up, checked and listed. */
module TagsRepositoryTests {
  import opened Wrappers
  import opened Strings
  import TagStore
  import Sequences
  import opened TagsRepository

  /** A stored tag whose character `k` differs from the path followed by a
      separator neither equals the path nor lies below it. */
  lemma NotCoveredAt(tag: string, path: string, k: nat)
    requires k < |tag| && k <= |path|
    requires (path + [TagStore.Separator])[k] != tag[k]
    ensures !TagStore.Covers(tag, path)
  {
  }

  /** A stored tag is found, with its name as value. */
  lemma GetsExistingTag()
    ensures GetTag(TestTags, Gordon) == Some(Tag(Gordon, "Gordon Freeman"))
  {
    GordonSpellings();
    GetsStoredChild(TestTags, 0, "Tags:\\Author", "Gordon Freeman");
  }

  /** The ways of writing the first test tag used here. */
  lemma GordonSpellings()
    ensures Gordon == "Tags:\\Author" + [TagStore.Separator] + "Gordon Freeman"
    ensures Gordon == "Tags:" + [TagStore.Separator] + "Author\\Gordon Freeman"
  {
  }

  /** A stored tag written under a parent is found, with its name as value. */
  lemma GetsStoredChild(tags: seq<string>, k: nat, parent: string, name: string)
    requires k < |tags| && tags[k] == parent + [TagStore.Separator] + name
    requires name != [] && TagStore.Separator !in name
    ensures GetTag(tags, tags[k]) == Some(Tag(tags[k], name))
  {
    StoredAsWritten(tags[k]);
    BuildTagOfChild(parent, name);
  }

  /** A parent is not found as a tag. */
  lemma DoesNotGetParentTag()
    ensures GetTag(TestTags, "Tags:\\Author") == None
  {
    var p := "Tags:\\Author";
    StoredAsWritten(p);
    assert |p| < |Gordon| && |p| < |Adrian| && |p| < |Other| && |p| < |GMan|;
  }

  /** A name under the wrong parent is not found. */
  lemma DoesNotGetNonExistentTag()
    ensures GetTag(TestTags, "Tags:\\People\\Gordon Freeman") == None
  {
    var p := "Tags:\\People\\Gordon Freeman";
    StoredAsWritten(p);
    assert p != Gordon by {
      assert p[6] == 'P' && Gordon[6] == 'A';
    }
    assert |p| != |Adrian| && |p| != |Other| && |p| != |GMan|;
    assert p !in TestTags;
  }

  /** The beginning of a tag's name is not found. */
  lemma DoesNotGetPartialTag()
    ensures GetTag(TestTags, "Tags:\\Author\\Gordon") == None
  {
    var p := "Tags:\\Author\\Gordon";
    StoredAsWritten(p);
    assert |p| < |Gordon| && |p| < |Adrian| && |p| < |Other| && |p| != |GMan|;
  }

  /** A stored tag, its parent and the root token are valid paths. */
  lemma ValidPaths()
    ensures IsPathValid(TestTags, Gordon)
    ensures IsPathValid(TestTags, "Tags:\\Author")
    ensures IsPathValid(TestTags, "Tags:")
  {
    GordonSpellings();
    ValidIfCovered(TestTags, 0, Gordon);
    CoversChild("Tags:\\Author", "Gordon Freeman");
    ValidIfCovered(TestTags, 0, "Tags:\\Author");
    CoversChild("Tags:", "Author\\Gordon Freeman");
    ValidIfCovered(TestTags, 0, "Tags:");
  }

  /** A tag written under a parent lies below it. */
  lemma CoversChild(parent: string, name: string)
    ensures TagStore.Covers(parent + [TagStore.Separator] + name, parent)
  {
    assert parent + [TagStore.Separator] <= parent + [TagStore.Separator] + name;
  }

  /** A path without trailing separator that a stored tag covers is valid. */
  lemma ValidIfCovered(tags: seq<string>, k: nat, path: string)
    requires k < |tags| && TagStore.Covers(tags[k], path)
    requires path == [] || path[|path| - 1] != TagStore.Separator
    ensures IsPathValid(tags, path)
  {
    StoredAsWritten(path);
  }

  /** A name under the wrong parent is not a valid path. */
  lemma NonExistentPathIsInvalid()
    ensures !IsPathValid(TestTags, "Tags:\\Author\\The G-Man")
  {
    var p := "Tags:\\Author\\The G-Man";
    StoredAsWritten(p);
    NotCoveredAt(Gordon, p, 13);
    NotCoveredAt(Adrian, p, 13);
    NotCoveredAt(Other, p, 13);
    NotCoveredAt(GMan, p, 6);
    assert !TagStore.IsPathValid(TestTags, p);
  }

  /** The beginning of a tag's name is not a valid path: validity follows
      separators, not characters. */
  lemma PartialTagPathIsInvalid()
    ensures !IsPathValid(TestTags, "Tags:\\Author\\Gordon")
  {
    var p := "Tags:\\Author\\Gordon";
    StoredAsWritten(p);
    NotCoveredAt(Gordon, p, 19);
    NotCoveredAt(Adrian, p, 13);
    NotCoveredAt(Other, p, 13);
    NotCoveredAt(GMan, p, 6);
    assert !TagStore.IsPathValid(TestTags, p);
  }

  /** A search from past `q` stops at the separator that ends `x`. */
  lemma NextSeparator(x: string, y: string, q: nat)
    requires q < |x| && TagStore.Separator !in x[q + 1..]
    ensures IndexOf(x + [TagStore.Separator] + y, TagStore.Separator, q + 1) == |x|
  {
    var t := x + [TagStore.Separator] + y;
    forall i | q + 1 <= i < |x|
      ensures t[i] != TagStore.Separator
    {
      assert t[i] == x[q + 1..][i - q - 1];
    }
    IndexOfUnique(t, TagStore.Separator, q + 1, |x|);
  }

  /** Depth 0 cuts at the next separator past `q`. */
  lemma CutAt(x: string, y: string, q: nat)
    requires q < |x| && TagStore.Separator !in x[q + 1..]
    ensures TagStore.PartialPath(x + [TagStore.Separator] + y, q, 0) == x
  {
    NextSeparator(x, y, q);
    assert (x + [TagStore.Separator] + y)[..|x|] == x;
  }

  /** Depth 0 keeps a tag with no separator past `q` whole. */
  lemma WholeAt(x: string, q: nat)
    requires q < |x| && TagStore.Separator !in x[q + 1..]
    ensures TagStore.PartialPath(x, q, 0) == x
  {
    forall i | q + 1 <= i < |x|
      ensures x[i] != TagStore.Separator
    {
      assert x[i] == x[q + 1..][i - q - 1];
    }
    assert IndexOf(x, TagStore.Separator, q + 1) < 0;
  }

  /** Depth `d + 1` goes on from the next separator past `q` with depth `d`. */
  lemma DeeperAt(x: string, y: string, q: nat, d: nat)
    requires q < |x| && TagStore.Separator !in x[q + 1..]
    ensures TagStore.PartialPath(x + [TagStore.Separator] + y, q, d + 1) ==
      TagStore.PartialPath(x + [TagStore.Separator] + y, |x|, d)
  {
    NextSeparator(x, y, q);
  }

  /** A tag segment: not empty and free of separators. */
  predicate Segment(s: string) {
    s != [] && TagStore.Separator !in s
  }

  /** Paths whose first segments differ are different. */
  lemma FirstSegmentsDiffer(u: string, v: string, x: string, y: string)
    requires Segment(u) && Segment(v) && u != v
    ensures u + [TagStore.Separator] + x != v + [TagStore.Separator] + y
  {
    var s, t := u + [TagStore.Separator] + x, v + [TagStore.Separator] + y;
    if |u| == |v| {
      var k :| 0 <= k < |u| && u[k] != v[k];
      assert s[k] != t[k];
    } else if |u| < |v| {
      assert s[|u|] != t[|u|];
    } else {
      assert s[|v|] != t[|v|];
    }
  }

  /** The shape of the unit-test repository: under the root, two folders, the
      first holding two tags of which the second has a child, the other
      holding one tag. */
  function Scenario(root: string, author: string, people: string,
                    gordon: string, adrian: string, other: string, gman: string): seq<string>
  {
    var r := root + [TagStore.Separator];
    var a := r + author;
    var p := r + people;
    [a + [TagStore.Separator] + gordon,
     a + [TagStore.Separator] + adrian,
     a + [TagStore.Separator] + adrian + [TagStore.Separator] + other,
     p + [TagStore.Separator] + gman]
  }

  /** The conditions the unit-test names meet. */
  predicate ScenarioNames(root: string, author: string, people: string,
                          gordon: string, adrian: string, other: string, gman: string) {
    Segment(root) && Segment(author) && Segment(people) && Segment(gordon) &&
    Segment(adrian) && Segment(other) && Segment(gman) && author != people && gordon != adrian
  }

  /** The unit-test repository is the scenario with its names. */
  lemma TestTagsAreScenario()
    ensures TestTags == Scenario("Tags:", "Author", "People", "Gordon Freeman", "Adrian Shephard", "Other", "The G-Man")
    ensures ScenarioNames("Tags:", "Author", "People", "Gordon Freeman", "Adrian Shephard", "Other", "The G-Man")
  {
    TestTagSpellings();
    TestNames();
  }

  /** The test tags, written segment by segment. */
  lemma TestTagSpellings()
    ensures Gordon == "Tags:" + [TagStore.Separator] + "Author" + [TagStore.Separator] + "Gordon Freeman"
    ensures Adrian == "Tags:" + [TagStore.Separator] + "Author" + [TagStore.Separator] + "Adrian Shephard"
    ensures Other == "Tags:" + [TagStore.Separator] + "Author" + [TagStore.Separator] + "Adrian Shephard" + [TagStore.Separator] + "Other"
    ensures GMan == "Tags:" + [TagStore.Separator] + "People" + [TagStore.Separator] + "The G-Man"
  {
    GordonSpelling();
    AdrianSpelling();
    OtherSpelling();
    GManSpelling();
  }

  /** `Gordon`, segment by segment. */
  lemma GordonSpelling()
    ensures Gordon == "Tags:" + [TagStore.Separator] + "Author" + [TagStore.Separator] + "Gordon Freeman"
  {
  }

  /** `Adrian`, segment by segment. */
  lemma AdrianSpelling()
    ensures Adrian == "Tags:" + [TagStore.Separator] + "Author" + [TagStore.Separator] + "Adrian Shephard"
  {
  }

  /** `Other`, segment by segment. */
  lemma OtherSpelling()
    ensures Other == "Tags:" + [TagStore.Separator] + "Author" + [TagStore.Separator] + "Adrian Shephard" + [TagStore.Separator] + "Other"
  {
  }

  /** `GMan`, segment by segment. */
  lemma GManSpelling()
    ensures GMan == "Tags:" + [TagStore.Separator] + "People" + [TagStore.Separator] + "The G-Man"
  {
  }

  /** The names of the test tags meet the scenario's conditions. */
  lemma TestNames()
    ensures ScenarioNames("Tags:", "Author", "People", "Gordon Freeman", "Adrian Shephard", "Other", "The G-Man")
  {
    assert "Author"[0] != "People"[0];
    assert "Gordon Freeman"[0] != "Adrian Shephard"[0];
  }

  /** Paths with a common head differ when their tails differ. */
  lemma SameHeadDiffer(h: string, x: string, y: string)
    requires x != y
    ensures h + x != h + y
  {
    assert (h + x)[|h|..] == x && (h + y)[|h|..] == y;
  }

  /** The tags of the scenario, each written as the root prefix and the rest. */
  lemma ScenarioTails(root: string, author: string, people: string,
                      gordon: string, adrian: string, other: string, gman: string)
    ensures var tags := Scenario(root, author, people, gordon, adrian, other, gman);
      var r := root + [TagStore.Separator];
      && tags[0] == r + (author + [TagStore.Separator] + gordon)
      && tags[1] == r + (author + [TagStore.Separator] + adrian)
      && tags[2] == r + (author + [TagStore.Separator] + (adrian + [TagStore.Separator] + other))
      && tags[3] == r + (people + [TagStore.Separator] + gman)
  {
  }

  /** The four tags of the scenario are different. */
  lemma ScenarioDistinct(root: string, author: string, people: string,
                         gordon: string, adrian: string, other: string, gman: string)
    requires ScenarioNames(root, author, people, gordon, adrian, other, gman)
    ensures Sequences.NoDuplicates(Scenario(root, author, people, gordon, adrian, other, gman))
  {
    var tags := Scenario(root, author, people, gordon, adrian, other, gman);
    var r := root + [TagStore.Separator];
    var a := r + author + [TagStore.Separator];
    ScenarioTails(root, author, people, gordon, adrian, other, gman);
    SameHeadDiffer(r, author + [TagStore.Separator] + gordon, author + [TagStore.Separator] + adrian) by {
      SameHeadDiffer(author + [TagStore.Separator], gordon, adrian);
    }
    assert gordon != adrian + [TagStore.Separator] + other by {
      assert TagStore.Separator in adrian + [TagStore.Separator] + other;
    }
    SameHeadDiffer(r, author + [TagStore.Separator] + gordon, author + [TagStore.Separator] + (adrian + [TagStore.Separator] + other)) by {
      SameHeadDiffer(author + [TagStore.Separator], gordon, adrian + [TagStore.Separator] + other);
    }
    FirstSegmentsDiffer(author, people, gordon, gman);
    FirstSegmentsDiffer(author, people, adrian, gman);
    FirstSegmentsDiffer(author, people, adrian + [TagStore.Separator] + other, gman);
    SameHeadDiffer(r, author + [TagStore.Separator] + gordon, people + [TagStore.Separator] + gman);
    SameHeadDiffer(r, author + [TagStore.Separator] + adrian, people + [TagStore.Separator] + gman);
    SameHeadDiffer(r, author + [TagStore.Separator] + (adrian + [TagStore.Separator] + other), people + [TagStore.Separator] + gman);
    assert |tags[1]| < |tags[2]|;
  }

  /** The scenario repository is valid and its child prefix at the root is
      the root and one separator. */
  lemma ScenarioBasics(root: string, author: string, people: string,
                       gordon: string, adrian: string, other: string, gman: string)
    requires ScenarioNames(root, author, people, gordon, adrian, other, gman)
    ensures var tags := Scenario(root, author, people, gordon, adrian, other, gman);
      && TagStore.Valid(tags)
      && TagStore.ChildPrefix(root) == root + [TagStore.Separator]
      && forall i :: 0 <= i < |tags| ==> TagStore.ChildPrefix(root) <= tags[i]
  {
    StoredAsWritten(root);
    ScenarioTails(root, author, people, gordon, adrian, other, gman);
    var tags := Scenario(root, author, people, gordon, adrian, other, gman);
    assert tags[0][|tags[0]| - 1] == gordon[|gordon| - 1];
    assert tags[1][|tags[1]| - 1] == adrian[|adrian| - 1];
    assert tags[2][|tags[2]| - 1] == other[|other| - 1];
    assert tags[3][|tags[3]| - 1] == gman[|gman| - 1];
  }

  /** Without a depth every tag of the scenario is listed, in order. */
  lemma FindsAllTagsRecursively(root: string, author: string, people: string,
                                gordon: string, adrian: string, other: string, gman: string)
    requires ScenarioNames(root, author, people, gordon, adrian, other, gman)
    ensures var tags := Scenario(root, author, people, gordon, adrian, other, gman);
      Paths(GetChildTags(tags, root, None)) == tags
  {
    var tags := Scenario(root, author, people, gordon, adrian, other, gman);
    ScenarioBasics(root, author, people, gordon, adrian, other, gman);
    TagStore.CandidatesAllBelow(tags, root, None);
    var n := |TagStore.ChildPrefix(root)|;
    assert TagStore.Truncate(tags, n, None) == tags;
    ScenarioDistinct(root, author, people, gordon, adrian, other, gman);
    Sequences.DistinctOfNoDuplicates(tags);
    assert TagStore.ChildPaths(tags, root, None) == tags;
  }

  /** The root's children at depth 0, before duplicates are removed. */
  lemma ScenarioCutsAtDepthZero(root: string, author: string, people: string,
                                gordon: string, adrian: string, other: string, gman: string)
    requires ScenarioNames(root, author, people, gordon, adrian, other, gman)
    ensures var tags := Scenario(root, author, people, gordon, adrian, other, gman);
      var r := root + [TagStore.Separator];
      && TagStore.LongerThan(tags, |r|)
      && TagStore.Truncate(tags, |r|, Some(0)) == [r + author, r + author, r + author, r + people]
  {
    var tags := Scenario(root, author, people, gordon, adrian, other, gman);
    var r := root + [TagStore.Separator];
    var a, p := r + author, r + people;
    assert a[|r| + 1..] == author[1..];
    assert p[|r| + 1..] == people[1..];
    assert tags[2] == a + [TagStore.Separator] + (adrian + [TagStore.Separator] + other);
    CutAt(a, gordon, |r|);
    CutAt(a, adrian, |r|);
    CutAt(a, adrian + [TagStore.Separator] + other, |r|);
    CutAt(p, gman, |r|);
  }

  /** A run of one element collapses to that element. */
  lemma {:induction false} DistinctOfRun<T>(s: seq<T>, a: T)
    requires |s| > 0 && forall i :: 0 <= i < |s| ==> s[i] == a
    ensures Sequences.Distinct(s) == [a]
  {
    var front := s[..|s| - 1];
    assert s == front + [a];
    Sequences.DistinctAppend(front, a);
    if |front| > 0 {
      DistinctOfRun(front, a);
    }
  }

  /** Repeats of a first element are dropped, a different last one kept. */
  lemma DistinctThreeThenOne<T>(a: T, p: T)
    requires a != p
    ensures Sequences.Distinct([a, a, a, p]) == [a, p]
  {
    var run := [a, a, a];
    DistinctOfRun(run, a);
    assert [a, a, a, p] == run + [p];
    Sequences.DistinctAppend(run, p);
  }

  /** Depth 0 lists each folder under the root once. */
  lemma FindsAllTagsNonRecursively(root: string, author: string, people: string,
                                   gordon: string, adrian: string, other: string, gman: string)
    requires ScenarioNames(root, author, people, gordon, adrian, other, gman)
    ensures var tags := Scenario(root, author, people, gordon, adrian, other, gman);
      var r := root + [TagStore.Separator];
      Paths(GetChildTags(tags, root, Some(0))) == [r + author, r + people]
  {
    var tags := Scenario(root, author, people, gordon, adrian, other, gman);
    var r := root + [TagStore.Separator];
    ScenarioBasics(root, author, people, gordon, adrian, other, gman);
    TagStore.CandidatesAllBelow(tags, root, Some(0));
    ScenarioCutsAtDepthZero(root, author, people, gordon, adrian, other, gman);
    SameHeadDiffer(r, author, people);
    DistinctThreeThenOne(r + author, r + people);
  }

  /** A repeat right after its first occurrence is dropped. */
  lemma DistinctOfRepeatAfterPair<T>(x: T, y: T)
    requires x != y
    ensures Sequences.Distinct([x, y, y]) == [x, y]
  {
    var pair := [x, y];
    Sequences.DistinctOfNoDuplicates(pair);
    assert [x, y, y] == pair + [y];
    Sequences.DistinctAppend(pair, y);
  }

  /** A repeat in the middle is dropped, the different neighbours kept. */
  lemma DistinctOfRepeatInMiddle<T>(x: T, y: T, z: T)
    requires x != y && x != z && y != z
    ensures Sequences.Distinct([x, y, y, z]) == [x, y, z]
  {
    var triple := [x, y, y];
    DistinctOfRepeatAfterPair(x, y);
    assert [x, y, y, z] == triple + [z];
    Sequences.DistinctAppend(triple, z);
  }

  /** Depth 1 keeps a tag that ends one level below the next separator. */
  lemma WholeOneDeeper(x: string, name: string, q: nat)
    requires q < |x| && TagStore.Separator !in x[q + 1..] && TagStore.Separator !in name
    ensures TagStore.PartialPath(x + [TagStore.Separator] + name, q, 1) == x + [TagStore.Separator] + name
  {
    var t := x + [TagStore.Separator] + name;
    DeeperAt(x, name, q, 0);
    assert t[|x| + 1..] == name;
    WholeAt(t, |x|);
  }

  /** Depth 1 cuts a tag two levels below the next separator back by one. */
  lemma CutOneDeeper(x: string, name: string, rest: string, q: nat)
    requires q < |x| && TagStore.Separator !in x[q + 1..] && TagStore.Separator !in name
    ensures TagStore.PartialPath(x + [TagStore.Separator] + name + [TagStore.Separator] + rest, q, 1) ==
      x + [TagStore.Separator] + name
  {
    var y := x + [TagStore.Separator] + name;
    assert y + [TagStore.Separator] + rest == x + [TagStore.Separator] + (name + [TagStore.Separator] + rest);
    DeeperAt(x, name + [TagStore.Separator] + rest, q, 0);
    assert y[|x| + 1..] == name;
    CutAt(y, rest, |x|);
  }

  /** The root's children at depth 1, before duplicates are removed: the
      tag below the second level is cut back to its parent. */
  lemma ScenarioCutsAtDepthOne(root: string, author: string, people: string,
                               gordon: string, adrian: string, other: string, gman: string)
    requires ScenarioNames(root, author, people, gordon, adrian, other, gman)
    ensures var tags := Scenario(root, author, people, gordon, adrian, other, gman);
      var r := root + [TagStore.Separator];
      && TagStore.LongerThan(tags, |r|)
      && TagStore.Truncate(tags, |r|, Some(1)) == [tags[0], tags[1], tags[1], tags[3]]
  {
    var tags := Scenario(root, author, people, gordon, adrian, other, gman);
    var r := root + [TagStore.Separator];
    var a, p := r + author, r + people;
    assert a[|r| + 1..] == author[1..];
    assert p[|r| + 1..] == people[1..];
    WholeOneDeeper(a, gordon, |r|);
    WholeOneDeeper(a, adrian, |r|);
    CutOneDeeper(a, adrian, other, |r|);
    WholeOneDeeper(p, gman, |r|);
    var cut := TagStore.Truncate(tags, |r|, Some(1));
    assert cut[0] == tags[0] && cut[1] == tags[1] && cut[2] == tags[1] && cut[3] == tags[3];
  }

  /** The root's candidates at depth 1. */
  lemma ScenarioCandidatesAtDepthOne(root: string, author: string, people: string,
                                     gordon: string, adrian: string, other: string, gman: string)
    requires ScenarioNames(root, author, people, gordon, adrian, other, gman)
    ensures var tags := Scenario(root, author, people, gordon, adrian, other, gman);
      && TagStore.Valid(tags)
      && TagStore.Candidates(tags, root, Some(1)) == [tags[0], tags[1], tags[1], tags[3]]
  {
    var tags := Scenario(root, author, people, gordon, adrian, other, gman);
    ScenarioBasics(root, author, people, gordon, adrian, other, gman);
    TagStore.CandidatesAllBelow(tags, root, Some(1));
    ScenarioCutsAtDepthOne(root, author, people, gordon, adrian, other, gman);
  }

  /** Depth 1 lists the tags one level below the folders, each once. */
  lemma FindsTagsWithLimitedRecursion(root: string, author: string, people: string,
                                      gordon: string, adrian: string, other: string, gman: string)
    requires ScenarioNames(root, author, people, gordon, adrian, other, gman)
    ensures var tags := Scenario(root, author, people, gordon, adrian, other, gman);
      Paths(GetChildTags(tags, root, Some(1))) == [tags[0], tags[1], tags[3]]
  {
    var tags := Scenario(root, author, people, gordon, adrian, other, gman);
    ScenarioCandidatesAtDepthOne(root, author, people, gordon, adrian, other, gman);
    ScenarioDistinct(root, author, people, gordon, adrian, other, gman);
    var t0, t1, t3 := tags[0], tags[1], tags[3];
    assert t0 != t1 && t0 != t3 && t1 != t3;
    DistinctOfRepeatInMiddle(t0, t1, t3);
  }

  /** The tags of the scenario's first folder, cut at depth 0 below it. */
  lemma ScenarioCutsInSubfolder(root: string, author: string, people: string,
                                gordon: string, adrian: string, other: string, gman: string)
    requires ScenarioNames(root, author, people, gordon, adrian, other, gman)
    ensures var tags := Scenario(root, author, people, gordon, adrian, other, gman);
      var n := |root + [TagStore.Separator] + author| + 1;
      && TagStore.LongerThan(tags[..3], n)
      && TagStore.Truncate(tags[..3], n, Some(0)) == [tags[0], tags[1], tags[1]]
  {
    var tags := Scenario(root, author, people, gordon, adrian, other, gman);
    var a := root + [TagStore.Separator] + author;
    var ad := a + [TagStore.Separator] + adrian;
    var n := |a| + 1;
    assert tags[0][n + 1..] == gordon[1..];
    assert tags[1][n + 1..] == adrian[1..];
    assert ad[n + 1..] == adrian[1..];
    assert tags[2] == ad + [TagStore.Separator] + other;
    WholeAt(tags[0], n);
    WholeAt(tags[1], n);
    CutAt(ad, other, n);
    var cut := TagStore.Truncate(tags[..3], n, Some(0));
    assert cut[0] == tags[0] && cut[1] == tags[1] && cut[2] == tags[1];
  }

  /** The second folder lies outside the first. */
  lemma ScenarioOtherFolderNotBelow(root: string, author: string, people: string,
                                    gordon: string, adrian: string, other: string, gman: string)
    requires ScenarioNames(root, author, people, gordon, adrian, other, gman)
    ensures var tags := Scenario(root, author, people, gordon, adrian, other, gman);
      !(root + [TagStore.Separator] + author + [TagStore.Separator] <= tags[3])
  {
    var tags := Scenario(root, author, people, gordon, adrian, other, gman);
    var r := root + [TagStore.Separator];
    var prefix := r + author + [TagStore.Separator];
    if |prefix| <= |tags[3]| {
      var y := tags[3][|prefix|..];
      FirstSegmentsDiffer(author, people, y, gman);
      SameHeadDiffer(r, author + [TagStore.Separator] + y, people + [TagStore.Separator] + gman);
      assert tags[3] == r + (people + [TagStore.Separator] + gman);
      assert prefix + y == r + (author + [TagStore.Separator] + y);
      assert tags[3] == tags[3][..|prefix|] + y;
    }
  }

  /** The tags of the scenario's first folder, each written as the folder's
      child prefix and the rest. */
  lemma ScenarioFolderTails(root: string, author: string, people: string,
                            gordon: string, adrian: string, other: string, gman: string)
    ensures var tags := Scenario(root, author, people, gordon, adrian, other, gman);
      var prefix := root + [TagStore.Separator] + author + [TagStore.Separator];
      && tags[0] == prefix + gordon
      && tags[1] == prefix + adrian
      && tags[2] == prefix + (adrian + [TagStore.Separator] + other)
  {
  }

  /** Three stored tags that all lie below the prefix are all candidates. */
  lemma ThreeAllBelow(front: seq<string>, path: string, depth: Option<nat>)
    requires TagStore.Valid(front) && |front| == 3
    requires var prefix := TagStore.ChildPrefix(path);
      prefix <= front[0] && prefix <= front[1] && prefix <= front[2]
    ensures TagStore.LongerThan(front, |TagStore.ChildPrefix(path)|)
    ensures TagStore.Candidates(front, path, depth) == TagStore.Truncate(front, |TagStore.ChildPrefix(path)|, depth)
  {
    TagStore.CandidatesAllBelow(front, path, depth);
  }

  /** Below the scenario's first folder only its own three tags count. */
  lemma ScenarioSubfolderFront(root: string, author: string, people: string,
                               gordon: string, adrian: string, other: string, gman: string)
    requires ScenarioNames(root, author, people, gordon, adrian, other, gman)
    ensures var tags := Scenario(root, author, people, gordon, adrian, other, gman);
      var a := root + [TagStore.Separator] + author;
      && TagStore.Valid(tags) && TagStore.Valid(tags[..3])
      && TagStore.ChildPrefix(a) == a + [TagStore.Separator]
      && TagStore.Candidates(tags, a, Some(0)) == TagStore.Candidates(tags[..3], a, Some(0))
  {
    var tags := Scenario(root, author, people, gordon, adrian, other, gman);
    var a := root + [TagStore.Separator] + author;
    ScenarioBasics(root, author, people, gordon, adrian, other, gman);
    StoredAsWritten(a);
    ScenarioOtherFolderNotBelow(root, author, people, gordon, adrian, other, gman);
    var front := tags[..3];
    assert tags == front + [tags[3]];
    TagStore.CandidatesAppend(front, tags[3], a, Some(0));
  }

  /** The candidates below the scenario's first folder at depth 0. */
  lemma ScenarioSubfolderCandidates(root: string, author: string, people: string,
                                    gordon: string, adrian: string, other: string, gman: string)
    requires ScenarioNames(root, author, people, gordon, adrian, other, gman)
    ensures var tags := Scenario(root, author, people, gordon, adrian, other, gman);
      var a := root + [TagStore.Separator] + author;
      && TagStore.Valid(tags)
      && TagStore.Candidates(tags, a, Some(0)) == [tags[0], tags[1], tags[1]]
  {
    var tags := Scenario(root, author, people, gordon, adrian, other, gman);
    var a := root + [TagStore.Separator] + author;
    var n := |a| + 1;
    ScenarioSubfolderFront(root, author, people, gordon, adrian, other, gman);
    assert TagStore.LongerThan(tags[..3], n) && TagStore.Truncate(tags[..3], n, Some(0)) == [tags[0], tags[1], tags[1]] by {
      ScenarioCutsInSubfolder(root, author, people, gordon, adrian, other, gman);
    }
    assert TagStore.Candidates(tags[..3], a, Some(0)) == TagStore.Truncate(tags[..3], n, Some(0)) by {
      var prefix := a + [TagStore.Separator];
      ScenarioFolderTails(root, author, people, gordon, adrian, other, gman);
      assert prefix <= tags[..3][0] && prefix <= tags[..3][1] && prefix <= tags[..3][2];
      ThreeAllBelow(tags[..3], a, Some(0));
    }
  }

  /** Depth 0 below a folder lists its own children, each once. */
  lemma FindsTagsInSubfolder(root: string, author: string, people: string,
                             gordon: string, adrian: string, other: string, gman: string)
    requires ScenarioNames(root, author, people, gordon, adrian, other, gman)
    ensures var tags := Scenario(root, author, people, gordon, adrian, other, gman);
      Paths(GetChildTags(tags, root + [TagStore.Separator] + author, Some(0))) == [tags[0], tags[1]]
  {
    var tags := Scenario(root, author, people, gordon, adrian, other, gman);
    ScenarioSubfolderCandidates(root, author, people, gordon, adrian, other, gman);
    ScenarioDistinct(root, author, people, gordon, adrian, other, gman);
    assert tags[0] != tags[1];
    DistinctOfRepeatAfterPair(tags[0], tags[1]);
  }

  /** The unit-test listing without a depth, on the unit-test repository. */
  lemma UnitTestRecursiveListing()
    ensures Paths(GetChildTags(TestTags, "Tags:", None)) == TestTags
  {
    TestTagsAreScenario();
    FindsAllTagsRecursively("Tags:", "Author", "People", "Gordon Freeman", "Adrian Shephard", "Other", "The G-Man");
  }

  /** The two folders of the unit-test repository, spelled out. */
  lemma FolderSpellings()
    ensures "Tags:" + [TagStore.Separator] + "Author" == "Tags:\\Author"
    ensures "Tags:" + [TagStore.Separator] + "People" == "Tags:\\People"
  {
  }

  /** The unit-test listing at depth 0, on the unit-test repository. */
  lemma UnitTestNonRecursiveListing()
    ensures Paths(GetChildTags(TestTags, "Tags:", Some(0))) == ["Tags:\\Author", "Tags:\\People"]
  {
    TestTagsAreScenario();
    FindsAllTagsNonRecursively("Tags:", "Author", "People", "Gordon Freeman", "Adrian Shephard", "Other", "The G-Man");
    FolderSpellings();
  }

  /** The unit-test listing at depth 1, on the unit-test repository. */
  lemma UnitTestLimitedListing()
    ensures Paths(GetChildTags(TestTags, "Tags:", Some(1))) == [Gordon, Adrian, GMan]
  {
    TestTagsAreScenario();
    FindsTagsWithLimitedRecursion("Tags:", "Author", "People", "Gordon Freeman", "Adrian Shephard", "Other", "The G-Man");
  }

  /** The unit-test listing below a folder, on the unit-test repository. */
  lemma UnitTestSubfolderListing()
    ensures Paths(GetChildTags(TestTags, "Tags:\\Author", Some(0))) == [Gordon, Adrian]
  {
    TestTagsAreScenario();
    FindsTagsInSubfolder("Tags:", "Author", "People", "Gordon Freeman", "Adrian Shephard", "Other", "The G-Man");
    FolderSpellings();
  }
}
