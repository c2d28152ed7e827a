/** The path algebra of the tags drive (`GFK.Image/Provider/PathMaker.cs`).
    A path maker is configured by an item separator and a root token such as
    `Tags:`; the root may be given with or without its trailing separator and
    every operation only ever looks at it with trailing separators removed.
    A `null` argument is `None`. */
module PathMaker {
  import opened Wrappers
  import opened Strings

  /** The two constructor arguments of `PathMaker`. */
  datatype Config = Config(separator: char, root: string)

  /** The native directory separator that the host may write right after the
      root instead of the configured separator. */
  const NativeSeparator: char := '\\'

  /** `_root.TrimEnd(_separator)`. */
  function CleanRoot(c: Config): string {
    TrimEnd(c.root, c.separator)
  }

  /** `string.IsNullOrEmpty`. */
  predicate IsNullOrEmpty(s: Option<string>) {
    s.None? || s.value == []
  }

  /** The path names the root, whatever trailing separators it carries. */
  predicate IsRoot(c: Config, path: string) {
    TrimEnd(path, c.separator) == CleanRoot(c)
  }

  /** The path starts with the root token, so it is absolute. */
  predicate IsRooted(c: Config, path: string) {
    CleanRoot(c) <= path
  }

  /** The private `EnsureRootSeparator`: a path naming the root is written with
      exactly one trailing separator; any other path is left alone. */
  function EnsureRootSeparator(c: Config, path: Option<string>): (r: string)
    ensures path.None? ==> r == []
    ensures path.Some? ==> TrimEnd(r, c.separator) == TrimEnd(path.value, c.separator)
    ensures path.Some? && r != path.value ==> IsRoot(c, path.value)
    ensures path.Some? && IsRoot(c, path.value) ==>
      |r| > 0 && r[|r| - 1] == c.separator && TrimEnd(r, c.separator) == r[..|r| - 1]
  {
    if path.None? then []
    else
      var cleanPath := TrimEnd(path.value, c.separator);
      var cleanRoot := CleanRoot(c);
      if cleanPath == cleanRoot then
        TrimEndOneSeparator(cleanPath, c.separator);
        cleanPath + [c.separator]
      else path.value
  }

  /** `MakePath`: joins a child onto a parent. An empty child leaves the parent
      (root-normalised); an absolute child, or a missing parent, discards the
      parent; otherwise the two meet at exactly one separator and the child's
      trailing separators are kept. */
  function MakePath(c: Config, parent: Option<string>, child: Option<string>): (r: string)
    ensures IsNullOrEmpty(child) ==> r == EnsureRootSeparator(c, parent)
    ensures !IsNullOrEmpty(child) && (IsNullOrEmpty(parent) || IsRooted(c, child.value)) ==>
      r == EnsureRootSeparator(c, child)
    ensures !IsNullOrEmpty(child) && !IsNullOrEmpty(parent) && !IsRooted(c, child.value) ==>
      var head := TrimEnd(parent.value, c.separator);
      && |head| < |r|
      && head <= r
      && r[|head|] == c.separator
      && r[|head| + 1..] == TrimStart(child.value, c.separator)
      && (|r| == |head| + 1 || r[|head| + 1] != c.separator)
  {
    if IsNullOrEmpty(child) then EnsureRootSeparator(c, parent)
    else if IsNullOrEmpty(parent) || IsRooted(c, child.value) then EnsureRootSeparator(c, child)
    else TrimEnd(parent.value, c.separator) + [c.separator] + TrimStart(child.value, c.separator)
  }

  /** `GetParentPath`: cuts the path, trailing separators ignored, at its last
      separator. A separator at index 0 leaves the separator alone; a path
      without separator is its own parent (root-normalised); `null` gives "". */
  function GetParentPath(c: Config, path: Option<string>): (r: string)
    ensures path.None? ==> r == []
    ensures path.Some? ==> TrimEnd(r, c.separator) <= path.value
    ensures path.Some? && c.separator !in TrimEnd(path.value, c.separator) ==>
      r == EnsureRootSeparator(c, path)
  {
    if path.None? then []
    else
      var lastSeparator := LastIndexOf(TrimEnd(path.value, c.separator), c.separator);
      if lastSeparator == 0 then
        TrimEndOneSeparator([], c.separator);
        [c.separator]
      else
        EnsureRootSeparator(c, Some(if lastSeparator > 0 then path.value[..lastSeparator] else path.value))
  }

  /** `GetChildName`: the text after the last separator of the path, trailing
      separators ignored. An empty or all-separator path is returned as it is;
      a path without separator is its own child name (root-normalised). */
  function GetChildName(c: Config, path: Option<string>): (r: string)
    ensures path.None? ==> r == []
    ensures path.Some? && TrimEnd(path.value, c.separator) == [] ==> r == path.value
    ensures path.Some? && c.separator in TrimEnd(path.value, c.separator) ==>
      var trimmed := TrimEnd(path.value, c.separator);
      && r != []
      && c.separator !in r
      && |r| < |trimmed|
      && r == trimmed[|trimmed| - |r|..]
      && trimmed[|trimmed| - |r| - 1] == c.separator
    ensures path.Some? && TrimEnd(path.value, c.separator) != [] && c.separator !in TrimEnd(path.value, c.separator) ==>
      r == EnsureRootSeparator(c, Some(TrimEnd(path.value, c.separator)))
  {
    if path.None? then []
    else
      var cleanPath := TrimEnd(path.value, c.separator);
      if cleanPath == [] then path.value
      else
        var lastSeparator := LastIndexOf(cleanPath, c.separator);
        if lastSeparator >= 0 then cleanPath[lastSeparator + 1..]
        else EnsureRootSeparator(c, Some(cleanPath))
  }

  /** The root as the host may corrupt it: the clean root followed by the native
      directory separator. */
  function BrokenRoot(c: Config): string {
    CleanRoot(c) + [NativeSeparator]
  }

  /** `FixRoot`: a path that starts with the broken root gets the clean root, one
      configured separator and the rest of the path without its leading
      separators; every other path is returned unchanged, including any
      backslashes further in. The final `EnsureRootSeparator` never changes the
      repaired path. */
  function FixRoot(c: Config, path: Option<string>): (r: string)
    ensures path.None? ==> r == []
    ensures path.Some? && !(BrokenRoot(c) <= path.value) ==> r == path.value
    ensures path.Some? && BrokenRoot(c) <= path.value ==>
      r == CleanRoot(c) + [c.separator] + TrimStart(path.value[|BrokenRoot(c)|..], c.separator)
  {
    if path.None? then []
    else
      var cleanRoot := CleanRoot(c);
      var brokenRoot := cleanRoot + [NativeSeparator];
      if !(brokenRoot <= path.value) then path.value
      else
        var cleanPath := cleanRoot + [c.separator] + TrimStart(path.value[|brokenRoot|..], c.separator);
        RepairedRootIsNormal(c, TrimStart(path.value[|brokenRoot|..], c.separator));
        EnsureRootSeparator(c, Some(cleanPath))
  }

  /** The clean root, one separator and a rest that does not start with a
      separator is already root-normalised. */
  lemma RepairedRootIsNormal(c: Config, rest: string)
    requires rest == [] || rest[0] != c.separator
    ensures var p := CleanRoot(c) + [c.separator] + rest;
      EnsureRootSeparator(c, Some(p)) == p
  {
    var p := CleanRoot(c) + [c.separator] + rest;
    if rest == [] {
      TrimEndOneSeparator(CleanRoot(c), c.separator);
    } else {
      assert TrimEnd(p, c.separator) != CleanRoot(c) by {
        assert p[|CleanRoot(c)| + 1] == rest[0];
      }
    }
  }

  /** The parent is the path cut at the last separator that is not trailing; a
      cut at index 0 leaves the separator alone. */
  lemma ParentIsCutAtLastSeparator(c: Config, path: string, i: nat)
    requires var trimmed := TrimEnd(path, c.separator);
      i < |trimmed| && trimmed[i] == c.separator && c.separator !in trimmed[i + 1..]
    ensures GetParentPath(c, Some(path)) ==
      if i == 0 then [c.separator] else EnsureRootSeparator(c, Some(path[..i]))
  {
    var trimmed := TrimEnd(path, c.separator);
    LastIndexOfUnique(trimmed, c.separator, i);
  }

  /** Root normalisation is idempotent. */
  lemma EnsureRootSeparatorIdempotent(c: Config, path: string)
    ensures EnsureRootSeparator(c, Some(EnsureRootSeparator(c, Some(path)))) == EnsureRootSeparator(c, Some(path))
  {
    if IsRoot(c, path) {
      var r := EnsureRootSeparator(c, Some(path));
      assert r == CleanRoot(c) + [c.separator];
      TrimEndOneSeparator(CleanRoot(c), c.separator);
      assert IsRoot(c, r);
    }
  }

  /** Two configurations that agree on the separator and on the clean root. */
  predicate SameRoot(c1: Config, c2: Config) {
    c1.separator == c2.separator && CleanRoot(c1) == CleanRoot(c2)
  }

  /** Writing the root token with or without its trailing separator makes no
      difference to root normalisation ... */
  lemma RootSpellingIrrelevantToEnsureRootSeparator(c1: Config, c2: Config, path: Option<string>)
    requires SameRoot(c1, c2)
    ensures EnsureRootSeparator(c1, path) == EnsureRootSeparator(c2, path)
  {
  }

  /** ... nor to joining, ... */
  lemma RootSpellingIrrelevantToMakePath(c1: Config, c2: Config, parent: Option<string>, child: Option<string>)
    requires SameRoot(c1, c2)
    ensures MakePath(c1, parent, child) == MakePath(c2, parent, child)
  {
    RootSpellingIrrelevantToEnsureRootSeparator(c1, c2, parent);
    RootSpellingIrrelevantToEnsureRootSeparator(c1, c2, child);
  }

  /** ... taking the parent, ... */
  lemma RootSpellingIrrelevantToGetParentPath(c1: Config, c2: Config, path: Option<string>)
    requires SameRoot(c1, c2)
    ensures GetParentPath(c1, path) == GetParentPath(c2, path)
  {
    if path.Some? {
      var last := LastIndexOf(TrimEnd(path.value, c1.separator), c1.separator);
      RootSpellingIrrelevantToEnsureRootSeparator(c1, c2, Some(if last > 0 then path.value[..last] else path.value));
    }
  }

  /** ... taking the child name ... */
  lemma RootSpellingIrrelevantToGetChildName(c1: Config, c2: Config, path: Option<string>)
    requires SameRoot(c1, c2)
    ensures GetChildName(c1, path) == GetChildName(c2, path)
  {
    if path.Some? {
      RootSpellingIrrelevantToEnsureRootSeparator(c1, c2, Some(TrimEnd(path.value, c1.separator)));
    }
  }

  /** ... or repairing the root. */
  lemma RootSpellingIrrelevantToFixRoot(c1: Config, c2: Config, path: Option<string>)
    requires SameRoot(c1, c2)
    ensures FixRoot(c1, path) == FixRoot(c2, path)
  {
  }

  /** The text after the last separator of a string that holds one. */
  function AfterLastSeparator(s: string, sep: char): (r: string)
    requires sep in s
    ensures sep !in r && |r| < |s| && r == s[|s| - |r|..] && s[|s| - |r| - 1] == sep
  {
    s[LastIndexOf(s, sep) + 1..]
  }

  /** The child name of a path with a separator is the text after its last
      separator, trailing separators ignored. */
  lemma ChildNameIsAfterLastSeparator(c: Config, path: string)
    requires c.separator in TrimEnd(path, c.separator)
    ensures GetChildName(c, Some(path)) == AfterLastSeparator(TrimEnd(path, c.separator), c.separator)
  {
  }

  /** A tail that holds a separator decides what follows the last separator. */
  lemma AfterLastSeparatorInTail(a: string, b: string, sep: char)
    requires sep in b
    ensures sep in a + b && AfterLastSeparator(a + b, sep) == AfterLastSeparator(b, sep)
  {
    var s := a + b;
    var j := LastIndexOf(b, sep);
    assert s[|a| + j] == sep;
    forall m | |a| + j < m < |s|
      ensures s[m] != sep
    {
      assert s[m] == b[m - |a|];
    }
    LastIndexOfUnique(s, sep, |a| + j);
    assert s[|a| + j + 1..] == b[j + 1..];
  }

  /** After a separator, a separator-free tail is all that follows the last one. */
  lemma AfterLastSeparatorAtSeam(a: string, b: string, sep: char)
    requires a != [] && a[|a| - 1] == sep && sep !in b
    ensures sep in a + b && AfterLastSeparator(a + b, sep) == b
  {
    var s := a + b;
    assert s[|a| - 1] == sep;
    forall m | |a| - 1 < m < |s|
      ensures s[m] != sep
    {
      assert s[m] == b[m - |a|];
    }
    LastIndexOfUnique(s, sep, |a| - 1);
    assert s[|a|..] == b;
  }

  /** Trailing separators of a joined path come from its last part only. */
  lemma TrimEndOfConcat(a: string, b: string, sep: char)
    requires TrimEnd(b, sep) != []
    ensures TrimEnd(a + b, sep) == a + TrimEnd(b, sep)
  {
    var tb := TrimEnd(b, sep);
    TrimEndUnique(a + b, sep, |a| + |tb|);
    assert (a + b)[..|a| + |tb|] == a + tb;
  }

  /** A relative child with no leading separator is appended after exactly one
      separator. */
  lemma MakePathJoins(c: Config, parent: string, child: string)
    requires parent != [] && child != [] && child[0] != c.separator && !IsRooted(c, child)
    ensures MakePath(c, Some(parent), Some(child)) == TrimEnd(parent, c.separator) + [c.separator] + child
  {
  }

  /** In `head`, separator, `name` with a separator-free `name`, the separator
      after `head` is the last one. */
  lemma LastSeparatorBeforeName(head: string, name: string, sep: char)
    requires name != [] && sep !in name
    ensures var path := head + [sep] + name;
      && TrimEnd(path, sep) == path
      && path[|head|] == sep
      && sep !in path[|head| + 1..]
      && path[..|head|] == head
  {
    var path := head + [sep] + name;
    TrimEndOfConcat(head + [sep], name, sep);
    assert path[|head| + 1..] == name;
    assert path[..|head|] == head;
  }

  /** Joining an unrooted separator-free child onto a parent without trailing
      separator and taking the parent back gives the (root-normalised) parent. */
  lemma MakePathThenParent(c: Config, parent: string, child: string)
    requires parent != [] && TrimEnd(parent, c.separator) == parent
    requires child != [] && c.separator !in child && !IsRooted(c, child)
    ensures GetParentPath(c, Some(MakePath(c, Some(parent), Some(child)))) == EnsureRootSeparator(c, Some(parent))
  {
    MakePathJoins(c, parent, child);
    LastSeparatorBeforeName(parent, child, c.separator);
    ParentIsCutAtLastSeparator(c, parent + [c.separator] + child, |parent|);
  }

  /** A string is its leading run of `c` followed by `TrimStart`. */
  lemma LeadingRun(s: string, c: char)
    ensures var tail := TrimStart(s, c);
      var lead := s[..|s| - |tail|];
      && s == lead + tail
      && (lead == [] || lead[|lead| - 1] == c)
  {
  }

  /** An unrooted path does not name the root. */
  lemma UnrootedIsNotRoot(c: Config, path: string)
    requires !IsRooted(c, path)
    ensures !IsRoot(c, path) && EnsureRootSeparator(c, Some(path)) == path
  {
  }

  /** A join of a non-empty parent: the parent's text, one separator, the child
      without its leading separators. */
  lemma MakePathJoinsTrimmed(c: Config, parent: Option<string>, child: string)
    requires !IsNullOrEmpty(parent) && child != [] && !IsRooted(c, child)
    ensures MakePath(c, parent, Some(child)) ==
      TrimEnd(parent.value, c.separator) + [c.separator] + TrimStart(child, c.separator)
  {
  }

  /** Joining never changes the child name of a relative child. */
  lemma MakePathThenChildName(c: Config, parent: Option<string>, child: string)
    requires TrimEnd(child, c.separator) != [] && !IsRooted(c, child)
    ensures GetChildName(c, Some(MakePath(c, parent, Some(child)))) == GetChildName(c, Some(child))
  {
    if IsNullOrEmpty(parent) {
      UnrootedIsNotRoot(c, child);
    } else {
      MakePathJoinsTrimmed(c, parent, child);
      ChildNameAfterJoin(c, TrimEnd(parent.value, c.separator), child);
    }
  }

  /** `MakePathThenChildName` for a non-empty parent, on the joined text. */
  lemma ChildNameAfterJoin(c: Config, head: string, child: string)
    requires TrimEnd(child, c.separator) != [] && !IsRooted(c, child)
    ensures GetChildName(c, Some(head + [c.separator] + TrimStart(child, c.separator))) ==
      GetChildName(c, Some(child))
  {
    var sep := c.separator;
    var tail := TrimStart(child, sep);
    var lead := child[..|child| - |tail|];
    LeadingRun(child, sep);
    TrimEndAfterTrimStart(child, sep);
    TrimEndOfConcat(lead, tail, sep);
    TrimEndOfConcat(head + [sep], tail, sep);
    assert (head + [sep] + TrimEnd(tail, sep))[|head|] == sep;
    ChildNameIsAfterLastSeparator(c, head + [sep] + tail);
    ChildNameOfJoin(c, head, lead, TrimEnd(tail, sep), child);
  }

  /** Dropping the leading separators of a path that is not all separators
      leaves one that is not all separators either. */
  lemma TrimEndAfterTrimStart(s: string, sep: char)
    requires TrimEnd(s, sep) != []
    ensures TrimEnd(TrimStart(s, sep), sep) != []
  {
    var t := TrimStart(s, sep);
    var m := |TrimEnd(s, sep)| - 1;
    assert s[m] == TrimEnd(s, sep)[m] != sep;
    assert t[m - (|s| - |t|)] == s[m];
  }

  /** The case analysis behind `MakePathThenChildName`, on the trimmed texts. */
  lemma ChildNameOfJoin(c: Config, head: string, lead: string, tt: string, child: string)
    requires tt != [] && !IsRooted(c, child)
    requires lead == [] || lead[|lead| - 1] == c.separator
    requires TrimEnd(child, c.separator) == lead + tt
    ensures AfterLastSeparator(head + [c.separator] + tt, c.separator) == GetChildName(c, Some(child))
  {
    var sep := c.separator;
    if sep in tt {
      AfterLastSeparatorInTail(head + [sep], tt, sep);
      AfterLastSeparatorInTail(lead, tt, sep);
      ChildNameIsAfterLastSeparator(c, child);
    } else if lead != [] {
      AfterLastSeparatorAtSeam(head + [sep], tt, sep);
      AfterLastSeparatorAtSeam(lead, tt, sep);
      ChildNameIsAfterLastSeparator(c, child);
    } else {
      AfterLastSeparatorAtSeam(head + [sep], tt, sep);
      assert TrimEnd(child, sep) == tt;
      UnrootedIsNotRoot(c, tt);
    }
  }

  /** A path whose last segment is relative is rebuilt from its parent and its
      child name. */
  lemma ParentAndChildRebuildPath(c: Config, head: string, name: string)
    requires TrimEnd(head, c.separator) == head
    requires name != [] && c.separator !in name && !IsRooted(c, name)
    ensures var path := head + [c.separator] + name;
      MakePath(c, Some(GetParentPath(c, Some(path))), Some(GetChildName(c, Some(path)))) == path
  {
    var sep := c.separator;
    var path := head + [sep] + name;
    LastSeparatorBeforeName(head, name, sep);
    ParentIsCutAtLastSeparator(c, path, |head|);
    ChildNameIsAfterLastSeparator(c, path);
    AfterLastSeparatorAtSeam(head + [sep], name, sep);
    var parent := GetParentPath(c, Some(path));
    if head == [] {
      TrimEndOneSeparator([], sep);
      assert parent == [sep];
    } else {
      assert parent == EnsureRootSeparator(c, Some(head));
    }
    MakePathJoinsTrimmed(c, Some(parent), name);
  }

  /** Repairing a repaired path changes nothing. */
  lemma FixRootIdempotent(c: Config, path: Option<string>)
    ensures FixRoot(c, Some(FixRoot(c, path))) == FixRoot(c, path)
  {
    if path.Some? && BrokenRoot(c) <= path.value {
      var rest := TrimStart(path.value[|BrokenRoot(c)|..], c.separator);
      var r := CleanRoot(c) + [c.separator] + rest;
      if c.separator == NativeSeparator {
        assert r[|BrokenRoot(c)|..] == rest;
        TrimStartIdempotent(path.value[|BrokenRoot(c)|..], c.separator);
      } else {
        assert r[|CleanRoot(c)|] != BrokenRoot(c)[|CleanRoot(c)|];
      }
    }
  }

  /** Rows of the `PathMaker` test tables, root written `Tags:`: joining with
      an empty child or onto an empty parent. */
  lemma MakePathExamples()
    ensures var c := Config('/', "Tags:");
      && MakePath(c, None, None) == ""
      && MakePath(c, Some("Tags:"), Some("")) == "Tags:/"
      && MakePath(c, Some("Tag1/"), None) == "Tag1/"
      && MakePath(c, Some(""), Some("Tags:/Tag1")) == "Tags:/Tag1"
      && MakePath(c, Some("Tags:/Tag1"), Some("Tags:")) == "Tags:/"
  {
    var c := Config('/', "Tags:");
    assert CleanRoot(c) == "Tags:";
  }

  /** Joining a child written with one leading separator onto a parent written
      with one trailing separator. */
  lemma MakePathAcrossSeparators(c: Config, head: string, tail: string)
    requires head != [] && head[|head| - 1] != c.separator
    requires tail != [] && tail[0] != c.separator && !IsRooted(c, [c.separator] + tail)
    ensures MakePath(c, Some(head + [c.separator]), Some([c.separator] + tail)) == head + [c.separator] + tail
  {
    var sep := c.separator;
    TrimEndOneSeparator(head, sep);
    assert TrimStart([sep] + tail, sep) == tail by {
      assert ([sep] + tail)[1..] == tail;
    }
  }

  /** The spellings of the two joins below. */
  lemma JoinSpellings()
    ensures "Tag1" + ['/'] == "Tag1/" && ['/'] + "Tag2/" == "/Tag2/"
    ensures "Tag1" + ['/'] + "Tag2/" == "Tag1/Tag2/"
    ensures "Tags:/Tag1" + ['/'] == "Tags:/Tag1/" && ['/'] + "Tag2" == "/Tag2"
    ensures "Tags:/Tag1" + ['/'] + "Tag2" == "Tags:/Tag1/Tag2"
  {
  }

  /** Test-table row: joining a relative child onto a relative parent. */
  lemma MakePathJoinExample()
    ensures MakePath(Config('/', "Tags:"), Some("Tag1/"), Some("/Tag2/")) == "Tag1/Tag2/"
  {
    var c := Config('/', "Tags:");
    JoinSpellings();
    assert !IsRooted(c, "/Tag2/") by {
      assert "Tags:"[0] != "/Tag2/"[0];
    }
    MakePathAcrossSeparators(c, "Tag1", "Tag2/");
  }

  /** Test-table row: joining a relative child onto a rooted parent. */
  lemma MakePathRootedJoinExample()
    ensures MakePath(Config('/', "Tags:"), Some("Tags:/Tag1/"), Some("/Tag2")) == "Tags:/Tag1/Tag2"
  {
    var c := Config('/', "Tags:");
    JoinSpellings();
    assert !IsRooted(c, "/Tag2") by {
      assert "Tags:"[0] != "/Tag2"[0];
    }
    MakePathAcrossSeparators(c, "Tags:/Tag1", "Tag2");
  }

  /** The parent of `head`, separator, `name`, separator, for a separator-free
      `name` and a `head` without trailing separator. */
  lemma ParentOfSpelled(c: Config, head: string, name: string)
    requires head == [] || head[|head| - 1] != c.separator
    requires name != [] && c.separator !in name
    ensures GetParentPath(c, Some(head + [c.separator] + name + [c.separator])) ==
      if head == [] then [c.separator] else EnsureRootSeparator(c, Some(head))
  {
    var sep := c.separator;
    var path := head + [sep] + name;
    LastSeparatorBeforeName(head, name, sep);
    assert path[|path| - 1] == name[|name| - 1];
    TrimEndOneSeparator(path, sep);
    assert (path + [sep])[..|head|] == head;
    ParentIsCutAtLastSeparator(c, path + [sep], |head|);
  }

  /** The spellings of the parents below. */
  lemma ParentSpellings()
    ensures [] + ['/'] + "Tag1" + ['/'] == "/Tag1/"
    ensures "Tags:/Tag1" + ['/'] + "Tag2" + ['/'] == "Tags:/Tag1/Tag2/"
  {
  }

  /** Test-table rows: taking the parent. */
  lemma GetParentPathExamples()
    ensures var c := Config('/', "Tags:");
      && GetParentPath(c, None) == ""
      && GetParentPath(c, Some("/Tag1/")) == "/"
      && GetParentPath(c, Some("Tags:")) == "Tags:/"
      && GetParentPath(c, Some("Tags:/Tag1/Tag2/")) == "Tags:/Tag1"
  {
    ParentSpellings();
    ParentOfTopLevelExample();
    ParentOfRootExample();
    ParentOfNestedExample();
  }

  /** The parent of a tag right under a separator at index 0. */
  lemma ParentOfTopLevelExample()
    ensures GetParentPath(Config('/', "Tags:"), Some([] + ['/'] + "Tag1" + ['/'])) == "/"
  {
    ParentOfSpelled(Config('/', "Tags:"), [], "Tag1");
  }

  /** The root is its own parent, root-normalised. */
  lemma ParentOfRootExample()
    ensures GetParentPath(Config('/', "Tags:"), Some("Tags:")) == "Tags:/"
  {
    LastIndexOfUnique("Tags:", '/', -1);
  }

  /** The parent of a nested tag. */
  lemma ParentOfNestedExample()
    ensures GetParentPath(Config('/', "Tags:"), Some("Tags:/Tag1" + ['/'] + "Tag2" + ['/'])) == "Tags:/Tag1"
  {
    var c := Config('/', "Tags:");
    ParentOfSpelled(c, "Tags:/Tag1", "Tag2");
    assert !IsRoot(c, "Tags:/Tag1") by {
      assert TrimEnd("Tags:/Tag1", '/') == "Tags:/Tag1";
    }
  }

  /** Test-table rows: taking the child name. */
  lemma GetChildNameExamples()
    ensures var c := Config('/', "Tags:");
      && GetChildName(c, Some("")) == ""
      && GetChildName(c, Some("/")) == "/"
      && GetChildName(c, Some("Tags:")) == "Tags:/"
  {
    var c := Config('/', "Tags:");
    assert GetChildName(c, Some("")) == "";
    assert GetChildName(c, Some("/")) == "/";
    LastIndexOfUnique("Tags:", '/', -1);
  }

  /** Test-table row: the name of a nested tag written with a trailing separator. */
  lemma GetChildNameNestedExample()
    ensures GetChildName(Config('/', "Tags:"), Some("Tags:/Tag1/Tag2/")) == "Tag2"
  {
    var p := "Tags:/Tag1/Tag2/";
    var t := "Tags:/Tag1/Tag2";
    TrimEndUnique(p, '/', 15);
    assert p[..15] == t;
    LastIndexOfUnique(t, '/', 10);
    assert t[11..] == "Tag2";
  }

  /** Repairing the broken root followed by one separator and a rest that does
      not start with a separator. */
  lemma FixRootOfBrokenRoot(c: Config, rest: string)
    requires rest == [] || rest[0] != c.separator
    ensures FixRoot(c, Some(BrokenRoot(c) + [c.separator] + rest)) == CleanRoot(c) + [c.separator] + rest
  {
    var sep := c.separator;
    var p := BrokenRoot(c) + [sep] + rest;
    PrefixAndRest(BrokenRoot(c), [sep] + rest);
    assert p == BrokenRoot(c) + ([sep] + rest);
    TrimStartOneSeparator(rest, sep);
  }

  /** A concatenation starts with its first part, and the rest is its second. */
  lemma PrefixAndRest(a: string, b: string)
    ensures a <= a + b && (a + b)[|a|..] == b
  {
  }

  /** Test-table rows: repairing the root, including backslashes that are part
      of a tag name and must stay. */
  lemma FixRootExamples()
    ensures var c := Config('/', "Tags:");
      && FixRoot(c, None) == ""
      && FixRoot(c, Some("Tags:")) == "Tags:"
      && FixRoot(c, Some("Tags:\\/Tag1")) == "Tags:/Tag1"
      && FixRoot(c, Some("Tags:/Tag1\\/Tag2")) == "Tags:/Tag1\\/Tag2"
  {
    FixRootRepairExample();
    FixRootUnchangedExample();
  }

  /** The spellings of the repaired tag. */
  lemma RepairSpellings()
    ensures "Tags:" + [NativeSeparator] + ['/'] + "Tag1" == "Tags:\\/Tag1"
    ensures "Tags:" + ['/'] + "Tag1" == "Tags:/Tag1"
  {
  }

  /** Test-table row: the broken root of a tag is repaired. */
  lemma FixRootRepairExample()
    ensures FixRoot(Config('/', "Tags:"), Some("Tags:\\/Tag1")) == "Tags:/Tag1"
  {
    var c := Config('/', "Tags:");
    RepairSpellings();
    assert CleanRoot(c) == "Tags:";
    FixRootOfBrokenRoot(c, "Tag1");
  }

  /** Test-table row: a backslash inside a tag name is left alone. */
  lemma FixRootUnchangedExample()
    ensures FixRoot(Config('/', "Tags:"), Some("Tags:/Tag1\\/Tag2")) == "Tags:/Tag1\\/Tag2"
  {
    var c := Config('/', "Tags:");
    assert CleanRoot(c) == "Tags:";
    assert BrokenRoot(c)[5] != "Tags:/Tag1\\/Tag2"[5];
  }

  /** The test tables are run a second time with the root written `Tags:/`;
      by `RootSpellingIrrelevant` every row gives the same result. */
  lemma RootWithSeparatorExamples()
    ensures SameRoot(Config('/', "Tags:"), Config('/', "Tags:/"))
  {
  }

  /** Joining and taking the parent back needs a parent without trailing
      separator: `Tag1/` joined with `Tag2` has parent `Tag1`. */
  lemma MakePathThenParentNeedsTrimmedParent()
    ensures var c := Config('/', "Tags:");
      GetParentPath(c, Some(MakePath(c, Some("Tag1/"), Some("Tag2")))) == "Tag1"
      != EnsureRootSeparator(c, Some("Tag1/"))
  {
    var c := Config('/', "Tags:");
    assert CleanRoot(c) == "Tags:";
    assert !IsRooted(c, "Tag2");
    MakePathJoins(c, "Tag1/", "Tag2");
    assert TrimEnd("Tag1/", '/') == "Tag1";
    assert MakePath(c, Some("Tag1/"), Some("Tag2")) == "Tag1/Tag2";
    ParentIsCutAtLastSeparator(c, "Tag1/Tag2", 4);
  }
}
