/** The cleaning of paths at the boundary between the host shell and the tags
    drive (`GFK.Image/Provider/PathCleaner.cs`). Unlike `PathMaker`, the
    cleaner uses its root token exactly as given, without trimming trailing
    separators from it. A `null` argument is `None`. */
module PathCleaner {
  import opened Wrappers
  import opened Strings
  import PathMaker

  /** The two constructor arguments of `PathCleaner`. */
  datatype Config = Config(root: string, itemSeparator: char)

  /** The root as the host may corrupt it: the root token as given followed by
      the native directory separator. */
  function BrokenRoot(c: Config): string {
    c.root + [PathMaker.NativeSeparator]
  }

  /** `CleanInput`: a path that starts with the broken root is rewritten to the
      root, one item separator and the rest of the path with its leading item
      separators dropped; every other path passes through unchanged. */
  function CleanInput(c: Config, path: Option<string>): (r: string)
    ensures path.None? ==> r == []
    ensures path.Some? && !(BrokenRoot(c) <= path.value) ==> r == path.value
    ensures path.Some? && BrokenRoot(c) <= path.value ==>
      && |c.root| + 1 <= |r|
      && r[..|c.root| + 1] == c.root + [c.itemSeparator]
      && var rest := path.value[|BrokenRoot(c)|..];
      var tail := r[|c.root| + 1..];
      && |tail| <= |rest| && tail == rest[|rest| - |tail|..]
      && (forall i :: 0 <= i < |rest| - |tail| ==> rest[i] == c.itemSeparator)
      && (tail == [] || tail[0] != c.itemSeparator)
    ensures c.itemSeparator != PathMaker.NativeSeparator ==> !(BrokenRoot(c) <= r)
  {
    if path.None? then []
    else
      var brokenRoot := BrokenRoot(c);
      if brokenRoot <= path.value then
        var r := c.root + [c.itemSeparator] + TrimStart(path.value[|brokenRoot|..], c.itemSeparator);
        assert r[..|c.root| + 1] == c.root + [c.itemSeparator];
        assert r[|c.root|] == c.itemSeparator;
        r
      else path.value
  }

  /** `CleanOutput`: the bare root gets one item separator appended; any other
      path, including the root already followed by separators, is left alone.
      So the output never names the root without a separator. */
  function CleanOutput(c: Config, path: string): (r: string)
    ensures r == path || (path == c.root && r == path + [c.itemSeparator])
    ensures r != c.root
  {
    if path == c.root then c.root + [c.itemSeparator] else path
  }

  /** Cleaning an input twice changes nothing more, whatever the item
      separator, even when it is the native separator itself. */
  lemma CleanInputIdempotent(c: Config, path: Option<string>)
    ensures CleanInput(c, Some(CleanInput(c, path))) == CleanInput(c, path)
  {
    if path.Some? && BrokenRoot(c) <= path.value {
      var rest := path.value[|BrokenRoot(c)|..];
      var r := CleanInput(c, path);
      if c.itemSeparator == PathMaker.NativeSeparator {
        assert r == c.root + [c.itemSeparator] + TrimStart(rest, c.itemSeparator);
        assert r[|BrokenRoot(c)|..] == TrimStart(rest, c.itemSeparator);
        TrimStartIdempotent(rest, c.itemSeparator);
      }
    }
  }

  /** Cleaning an output twice changes nothing more. */
  lemma CleanOutputIdempotent(c: Config, path: string)
    ensures CleanOutput(c, CleanOutput(c, path)) == CleanOutput(c, path)
  {
  }

  /** The path maker configuration with the same root and separator. */
  function AsPathMaker(c: Config): (m: PathMaker.Config)
    ensures m.separator == c.itemSeparator && m.root == c.root
  {
    PathMaker.Config(c.itemSeparator, c.root)
  }

  /** For a root written without trailing separator, cleaning an input is the
      path maker's root repair. */
  lemma CleanInputIsFixRoot(c: Config, path: Option<string>)
    requires c.root == [] || c.root[|c.root| - 1] != c.itemSeparator
    ensures CleanInput(c, path) == PathMaker.FixRoot(AsPathMaker(c), path)
  {
    var m := AsPathMaker(c);
    TrimEndUnique(c.root, c.itemSeparator, |c.root|);
    assert PathMaker.CleanRoot(m) == c.root;
    assert PathMaker.BrokenRoot(m) == BrokenRoot(c);
  }

  /** For a root written without trailing separator, cleaning an output agrees
      with the path maker's root normalisation except on the root followed by
      two or more separators, which the cleaner leaves alone. */
  lemma CleanOutputVersusEnsureRootSeparator(c: Config, path: string)
    requires c.root == [] || c.root[|c.root| - 1] != c.itemSeparator
    ensures CleanOutput(c, path) == PathMaker.EnsureRootSeparator(AsPathMaker(c), Some(path)) <==>
      !(PathMaker.IsRoot(AsPathMaker(c), path) && |path| >= |c.root| + 2)
  {
    var m := AsPathMaker(c);
    var sep := c.itemSeparator;
    TrimEndUnique(c.root, sep, |c.root|);
    assert PathMaker.CleanRoot(m) == c.root;
    if PathMaker.IsRoot(m, path) {
      var trimmed := TrimEnd(path, sep);
      assert trimmed == c.root;
      if |path| == |c.root| + 1 {
        assert path == c.root + [sep] by {
          assert path[|c.root|] == sep;
          assert path[..|c.root|] == c.root;
        }
      } else if |path| == |c.root| {
        assert path == c.root;
      }
    } else {
      assert path != c.root by {
        assert TrimEnd(c.root, sep) == c.root;
      }
    }
  }

  /** The repair of a path written as the broken root and a rest. */
  lemma CleanInputOfBrokenRoot(c: Config, rest: string)
    ensures CleanInput(c, Some(BrokenRoot(c) + rest)) ==
      c.root + [c.itemSeparator] + TrimStart(rest, c.itemSeparator)
  {
    assert (BrokenRoot(c) + rest)[|BrokenRoot(c)|..] == rest;
  }

  /** A root written with its trailing separator defeats the repair: the host
      never writes `Tags:/` followed by a backslash, so `Tags:\/Tag1` is passed
      through ... */
  lemma RootWithSeparatorIsNotRepaired()
    ensures CleanInput(Config("Tags:/", '/'), Some("Tags:\\/Tag1")) == "Tags:\\/Tag1"
  {
    var c := Config("Tags:/", '/');
    var p := "Tags:\\/Tag1";
    assert !(BrokenRoot(c) <= p) by {
      assert BrokenRoot(c)[5] != p[5];
    }
  }

  /** ... while the path maker, which trims the root token, repairs it. */
  lemma RootWithSeparatorIsRepairedByPathMaker()
    ensures PathMaker.FixRoot(PathMaker.Config('/', "Tags:/"), Some("Tags:\\/Tag1")) == "Tags:/Tag1"
  {
    var m := PathMaker.Config('/', "Tags:/");
    RootSpellings();
    TrimEndOneSeparator("Tags:", '/');
    assert PathMaker.CleanRoot(m) == "Tags:";
    PathMaker.FixRootOfBrokenRoot(m, "Tag1");
  }

  /** The spellings of the repaired root. */
  lemma RootSpellings()
    ensures "Tags:" + ['/'] == "Tags:/"
    ensures "Tags:" + [PathMaker.NativeSeparator] + ['/'] + "Tag1" == "Tags:\\/Tag1"
    ensures "Tags:" + ['/'] + "Tag1" == "Tags:/Tag1"
  {
  }

  /** Rows of the cleaner's input test table that pass through unchanged. */
  lemma CleanInputUnchangedExamples()
    ensures var c := Config("Tags:", '/');
      && CleanInput(c, None) == ""
      && CleanInput(c, Some("")) == ""
      && CleanInput(c, Some("/")) == "/"
      && CleanInput(c, Some("Tags:/")) == "Tags:/"
      && CleanInput(c, Some("Tags:/\\")) == "Tags:/\\"
      && CleanInput(c, Some("Tags:/Tag1\\/Tag2")) == "Tags:/Tag1\\/Tag2"
  {
    var c := Config("Tags:", '/');
    assert BrokenRoot(c) == "Tags:\\";
    assert BrokenRoot(c)[5] != "Tags:/"[5];
    assert BrokenRoot(c)[5] != "Tags:/\\"[5];
    assert BrokenRoot(c)[5] != "Tags:/Tag1\\/Tag2"[5];
  }

  /** Row of the cleaner's input test table that repairs a bare broken root. */
  lemma CleanInputRepairRootExample()
    ensures CleanInput(Config("Tags:", '/'), Some("Tags:\\")) == "Tags:/"
  {
    var c := Config("Tags:", '/');
    var rest: string := [];
    assert BrokenRoot(c) + rest == "Tags:\\";
    assert c.root + ['/'] + TrimStart(rest, '/') == "Tags:/";
    CleanInputOfBrokenRoot(c, rest);
  }

  /** Row of the cleaner's input test table that repairs a broken root followed
      by the right separator. */
  lemma CleanInputRepairRootSeparatorExample()
    ensures CleanInput(Config("Tags:", '/'), Some("Tags:\\/")) == "Tags:/"
  {
    var c := Config("Tags:", '/');
    var p := "Tags:\\/";
    assert p == BrokenRoot(c) + "/";
    assert TrimStart("/", '/') == "";
    calc {
      CleanInput(c, Some(p));
      { CleanInputOfBrokenRoot(c, "/"); }
      c.root + ['/'] + TrimStart("/", '/');
      "Tags:/";
    }
  }

  /** Row of the cleaner's input test table that repairs the root of a tag. */
  lemma CleanInputRepairTagExample()
    ensures CleanInput(Config("Tags:", '/'), Some("Tags:\\/Tag1")) == "Tags:/Tag1"
  {
    var c := Config("Tags:", '/');
    var p := "Tags:\\/Tag1";
    assert p == BrokenRoot(c) + "/Tag1";
    assert TrimStart("/Tag1", '/') == "Tag1";
    calc {
      CleanInput(c, Some(p));
      { CleanInputOfBrokenRoot(c, "/Tag1"); }
      c.root + ['/'] + TrimStart("/Tag1", '/');
      "Tags:/Tag1";
    }
  }

  /** Rows of the cleaner's output test table. */
  lemma CleanOutputExamples()
    ensures var c := Config("Tags:", '/');
      && CleanOutput(c, "") == ""
      && CleanOutput(c, "/Tag1") == "/Tag1"
      && CleanOutput(c, "Tags:") == "Tags:/"
      && CleanOutput(c, "Tags:/") == "Tags:/"
      && CleanOutput(c, "Tags:/Tag1/") == "Tags:/Tag1/"
  {
  }
}
