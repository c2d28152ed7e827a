# gfk-image tags drive: path algebra and tag repository in Dafny

This project models the core of the `gfk-image` tags drive. The drive shows a
flat, append-only list of tag paths such as `Tags:\Author\Gordon Freeman` as
a navigable tree. The model covers:

- **`PathMaker`** (`GFK.Image/Provider/PathMaker.cs`). It joins paths and
  splits them into parent and child. It also keeps the root token (`Tags:`)
  written with exactly one separator, and repairs the backslash the host
  shell writes after the root.
- **`PathCleaner`** (`GFK.Image/Provider/PathCleaner.cs`). It does the same
  root repair and root normalisation at the boundary with the host. Unlike
  `PathMaker`, it uses the root token exactly as given.
- **The two `TagsRepository` classes** (`GFK.Image/Provider/TagsRepository.cs`
  and `GFK.Image.PowerShell/Provider/TagsRepository.cs`). Each stores the
  trimmed tag paths. Each answers exact lookups, validity checks (a path is
  valid when it is a stored tag or a segment-wise ancestor of one), and
  depth-bounded child listings. Listings are de-duplicated in first-seen
  order.
- **The path handling of the first PowerShell provider**
  (`GFK.PowerShell/TagsProvider.cs`). `GetCleanPath` resolves `.`, `..` and
  empty segments. `MakePath`, `GetParentPath` and `GetChildName` are read off
  the cleaned path.
- **`ScriptBuilder.GetScript`** (`cmd/ScriptBuilder.cs`). It turns an
  argument list into a script. A leading `/C` is dropped, and every `&`
  argument becomes a line break.

Modules, one per file:

| module | file | role |
|---|---|---|
| `Wrappers` | `wrappers.dfy` | `Option`, which models C# `null` |
| `Strings` | `strings.dfy` | .NET string primitives with ordinal semantics: `TrimEnd`, `TrimStart`, `IndexOf`, `LastIndexOf`, `Split`, `string.Join`, `Split(c).Last()` |
| `Sequences` | `sequences.dfy` | LINQ `Distinct` and first-occurrence order |
| `PathMaker` | `path_maker.dfy` | `PathMaker` and its unit-test rows |
| `PathCleaner` | `path_cleaner.dfy` | `PathCleaner` and its unit-test rows |
| `TagStore` | `tag_store.dfy` | the algorithm both repositories share, over a `seq<string>` store |
| `TagsRepository` | `tags_repository.dfy` | the drive's repository, which answers with `Tag` records |
| `PlainTagsRepository` | `plain_tags_repository.dfy` | the PowerShell module's repository, which answers with strings; its listing and `GetPartialPath` loops are written as methods |
| `TagsRepositoryTests` | `tags_repository_tests.dfy` | the repository unit tests, proved for the test data and for any names of the same shape |
| `LegacyTagsProvider` | `legacy_tags_provider.dfy` | `GetCleanPath`, `MakePath`, `GetParentPath` and `GetChildName` of the first provider |
| `ScriptBuilder` | `script_builder.dfy` | `GetScript`, with a reference description (lines grouped on `&`) and the proofs that link the two |

Each C# instance is modelled as a value: a `Config` for the path maker and the
cleaner, and the list of stored paths for a repository. A mutating call
returns the new list. C# `null` is `None`. `Environment.NewLine` is the
parameter `newLine`. `string.StartsWith` is modelled as an ordinal prefix
test (`<=` on sequences).

The source is followed where it differs from its prose description:

- `GetParentPath` of a path without a separator returns
  `EnsureRootSeparator(path)` (`GFK.Image/Provider/PathMaker.cs:41-44`). It
  does not return the path unchanged. So `GetParentPath("Tags:")` is
  `"Tags:/"`, as the unit tests expect.
- Both repositories hard-code the backslash as the separator of stored paths.
  It is not a configuration.
- Neither repository has `MakePath`, `GetParentPath` or `GetChildName`
  wrappers.

## Model

| member | source | states |
|---|---|---|
| Strings.TrimEnd | GFK.Image/Provider/PathMaker.cs:79 | `TrimEnd(c)` yields a prefix that does not end in `c`, and everything it removed is `c` |
| Strings.TrimStart | GFK.Image/Provider/PathMaker.cs:71 | `TrimStart(c)` yields a suffix that does not start with `c`, and everything it removed is `c` |
| Strings.IndexOf | GFK.Image/Provider/TagsRepository.cs:64 | the result is the first index at or after `from` that holds `c`; it is -1 exactly when there is none |
| Strings.LastIndexOf | GFK.Image/Provider/PathMaker.cs:37 | the result is the last index that holds `c`, or -1 when `c` does not occur |
| Strings.Split | GFK.PowerShell/TagsProvider.cs:376 | a split has at least one piece and no piece contains the separator |
| Strings.Join | GFK.PowerShell/TagsProvider.cs:394 | joining no pieces gives the empty string; otherwise the first piece starts the result, and its length is that of all pieces plus one separator between each two |
| Strings.LastSegment | GFK.Image/Provider/TagsRepository.cs:59 | `Split(c).Last()` is the separator-free suffix that is the whole string or follows a separator |
| Strings.SplitThenJoin | GFK.PowerShell/TagsProvider.cs:376-394 | joining the pieces of a split with the separator gives the string back |
| Strings.JoinThenSplit | GFK.PowerShell/TagsProvider.cs:376-394 | splitting a join of separator-free pieces gives the pieces back |
| Strings.LastOfSplit | GFK.PowerShell/TagsProvider.cs:193-220 | the last piece of a split is the text after `LastIndexOf`, so the child name and the parent cut agree |
| Strings.IndexOfIsFirstPosition | GFK.Image/Provider/TagsRepository.cs:64 | repeated `IndexOf` calls walk the occurrences in increasing order |
| Sequences.Distinct | GFK.Image/Provider/TagsRepository.cs:52 | `Distinct()` keeps exactly the elements of its input, each once |
| Sequences.DistinctInFirstOrder | GFK.Image/Provider/TagsRepository.cs:52 | `Distinct()` lists the elements in the order of their first occurrence |
| Sequences.DistinctOfNoDuplicates | GFK.Image/Provider/TagsRepository.cs:52 | `Distinct()` leaves a duplicate-free list unchanged |
| PathMaker.EnsureRootSeparator | GFK.Image/Provider/PathMaker.cs:75-84 | `null` gives the empty string; the path changes only when it names the root, and then it ends with exactly one separator; trailing separators aside, the path is unchanged |
| PathMaker.MakePath | GFK.Image/Provider/PathMaker.cs:22-31 | an empty child gives the normalised parent; an empty parent or a rooted child gives the normalised child; otherwise the trimmed parent, exactly one separator and the child without its leading separators |
| PathMaker.GetParentPath | GFK.Image/Provider/PathMaker.cs:33-45 | `null` gives the empty string; the parent without trailing separators is a prefix of the path; a path without an inner separator gives its normalised self |
| PathMaker.GetChildName | GFK.Image/Provider/PathMaker.cs:47-59 | `null` gives the empty string; an all-separator path is returned as is; otherwise the name is the non-empty separator-free text after the last separator, or the normalised trimmed path when there is no separator |
| PathMaker.FixRoot | GFK.Image/Provider/PathMaker.cs:61-73 | a path that starts with the clean root and a backslash becomes the clean root, one separator and the rest without leading separators; every other path is returned unchanged |
| PathMaker.RepairedRootIsNormal | GFK.Image/Provider/PathMaker.cs:71-72 | the final `EnsureRootSeparator` of `FixRoot` never changes a repaired path |
| PathMaker.ParentIsCutAtLastSeparator | GFK.Image/Provider/PathMaker.cs:37-44 | the parent is the path cut at the last separator before the trailing ones; a separator at index 0 gives the one-character separator path |
| PathMaker.EnsureRootSeparatorIdempotent | GFK.Image/Provider/PathMaker.cs:75-84 | normalising the root twice changes nothing more |
| PathMaker.UnrootedIsNotRoot | GFK.Image/Provider/PathMaker.cs:75-84 | a path that does not start with the clean root is left alone by root normalisation |
| PathMaker.RootSpellingIrrelevantToEnsureRootSeparator | GFK.Image/Provider/PathMaker.cs:80 | root normalisation is the same whether the root token is configured with or without trailing separators |
| PathMaker.RootSpellingIrrelevantToMakePath | GFK.Image/Provider/PathMaker.cs:22-31 | `MakePath` is the same for both spellings of the root token |
| PathMaker.RootSpellingIrrelevantToGetParentPath | GFK.Image/Provider/PathMaker.cs:33-45 | `GetParentPath` is the same for both spellings of the root token |
| PathMaker.RootSpellingIrrelevantToGetChildName | GFK.Image/Provider/PathMaker.cs:47-59 | `GetChildName` is the same for both spellings of the root token |
| PathMaker.RootSpellingIrrelevantToFixRoot | GFK.Image/Provider/PathMaker.cs:61-73 | `FixRoot` is the same for both spellings of the root token |
| PathMaker.ChildNameIsAfterLastSeparator | GFK.Image/Provider/PathMaker.cs:51-57 | when the trimmed path holds a separator, the child name is the text after its last separator |
| PathMaker.MakePathJoins | GFK.Image/Provider/PathMaker.cs:30 | a relative child without a leading separator is appended to the trimmed parent after one separator |
| PathMaker.MakePathJoinsTrimmed | GFK.Image/Provider/PathMaker.cs:27-30 | for a non-empty parent and an unrooted child, the join is the trimmed parent, one separator and the child without leading separators |
| PathMaker.MakePathAcrossSeparators | GFK.Image/Provider/PathMaker.cs:30 | one trailing separator on the parent and one leading separator on the child collapse to a single separator |
| PathMaker.MakePathThenParent | GFK.Image/Provider/PathMaker.cs:22-45 | the parent of a parent-and-name join is the normalised parent, for a parent without trailing separators |
| PathMaker.MakePathThenParentNeedsTrimmedParent | GFK.Image/Provider/PathMaker.cs:22-45 | with a trailing separator on the parent, the round trip gives `Tag1` back for `Tag1/`, so the condition above is needed |
| PathMaker.MakePathThenChildName | GFK.Image/Provider/PathMaker.cs:22-59 | the child name of a join is the child name of the child, whatever the parent |
| PathMaker.ParentAndChildRebuildPath | GFK.Image/Provider/PathMaker.cs:22-59 | joining the parent and child name of `head/name` rebuilds the path |
| PathMaker.ParentOfSpelled | GFK.Image/Provider/PathMaker.cs:33-45 | the parent of `head/name/` is `head` normalised, or the bare separator when `head` is empty |
| PathMaker.FixRootIdempotent | GFK.Image/Provider/PathMaker.cs:61-73 | repairing a repaired path changes nothing |
| PathMaker.FixRootOfBrokenRoot | GFK.Image/Provider/PathMaker.cs:66-72 | `root\` followed by separators and a rest becomes `root`, one separator and the rest |
| PathMaker.MakePathExamples | GFK.Image.UnitTests/PathMakerTests.cs:12-118 | rows of the join table: null arguments, a bare root parent, an empty child, a rooted child |
| PathMaker.MakePathJoinExample | GFK.Image.UnitTests/PathMakerTests.cs:60 | `MakePath("Tag1/", "/Tag2/")` is `"Tag1/Tag2/"` |
| PathMaker.MakePathRootedJoinExample | GFK.Image.UnitTests/PathMakerTests.cs:86 | `MakePath("Tags:/Tag1/", "/Tag2")` is `"Tags:/Tag1/Tag2"` |
| PathMaker.GetParentPathExamples | GFK.Image.UnitTests/PathMakerTests.cs:146-158 | rows of the parent table: null, a top-level tag, the bare root, a nested tag |
| PathMaker.GetChildNameExamples | GFK.Image.UnitTests/PathMakerTests.cs:184-190 | rows of the child-name table: empty, a lone separator, the bare root |
| PathMaker.GetChildNameNestedExample | GFK.Image.UnitTests/PathMakerTests.cs:195 | the child name of `Tags:/Tag1/Tag2/` is `Tag2` |
| PathMaker.FixRootExamples | GFK.Image.UnitTests/PathMakerTests.cs:220-233 | rows of the root-repair table: null, the bare root, a repaired tag, an inner backslash kept |
| PathMaker.RootWithSeparatorExamples | GFK.Image.UnitTests/PathMakerTests.cs:91-109 | the root configured as `Tags:` and as `Tags:/` is the same root, so both test fixtures have the same answers |
| PathCleaner.CleanInput | GFK.Image/Provider/PathCleaner.cs:40-49 | `null` gives the empty string; a path that starts with the root and a backslash becomes the root, one item separator and the rest without leading item separators; other paths are unchanged; with a non-backslash separator, the result no longer starts with the broken root |
| PathCleaner.CleanOutput | GFK.Image/Provider/PathCleaner.cs:57-60 | only the bare root changes, by gaining one item separator, so the output is never the bare root |
| PathCleaner.CleanInputIdempotent | GFK.Image/Provider/PathCleaner.cs:40-49 | cleaning an input twice changes nothing more, for every item separator |
| PathCleaner.CleanOutputIdempotent | GFK.Image/Provider/PathCleaner.cs:57-60 | cleaning an output twice changes nothing more |
| PathCleaner.CleanInputIsFixRoot | GFK.Image/Provider/PathCleaner.cs:45-48 | for a root token without trailing separator, input cleaning is the path maker's `FixRoot` |
| PathCleaner.CleanOutputVersusEnsureRootSeparator | GFK.Image/Provider/PathCleaner.cs:57-60 | output cleaning agrees with the path maker's root normalisation except on the root followed by two or more separators |
| PathCleaner.CleanInputOfBrokenRoot | GFK.Image/Provider/PathCleaner.cs:45-47 | `root\` followed by a rest becomes the root, one item separator and the rest without leading item separators |
| PathCleaner.RootWithSeparatorIsNotRepaired | GFK.Image/Provider/PathCleaner.cs:45-46 | with the root token written as `Tags:/`, `Tags:\/Tag1` is not repaired |
| PathCleaner.RootWithSeparatorIsRepairedByPathMaker | GFK.Image/Provider/PathMaker.cs:66-72 | the path maker trims the root token, so it repairs `Tags:\/Tag1` to `Tags:/Tag1` |
| PathCleaner.CleanInputUnchangedExamples | GFK.Image.UnitTests/PathCleanerTests.cs:20-33 | rows of the input table that pass through unchanged |
| PathCleaner.CleanInputRepairRootExample | GFK.Image.UnitTests/PathCleanerTests.cs:27 | `Tags:\` becomes `Tags:/` |
| PathCleaner.CleanInputRepairRootSeparatorExample | GFK.Image.UnitTests/PathCleanerTests.cs:28 | `Tags:\/` becomes `Tags:/` |
| PathCleaner.CleanInputRepairTagExample | GFK.Image.UnitTests/PathCleanerTests.cs:31 | `Tags:\/Tag1` becomes `Tags:/Tag1` |
| PathCleaner.CleanOutputExamples | GFK.Image.UnitTests/PathCleanerTests.cs:44-51 | rows of the output table |
| TagStore.Add | GFK.Image/Provider/TagsRepository.cs:25-30 | adding appends the trimmed path, even one already stored, and keeps earlier entries in place; a store free of trailing separators stays so |
| TagStore.Get | GFK.Image/Provider/TagsRepository.cs:32-38 | a lookup finds something exactly when the trimmed path is stored verbatim, and then returns that trimmed path |
| TagStore.AnyCovers | GFK.Image/Provider/TagsRepository.cs:43 | true exactly when some stored tag equals the path or starts with the path and a separator |
| TagStore.IsPathValid | GFK.Image/Provider/TagsRepository.cs:40-44 | a path is valid exactly when some stored tag covers the trimmed path |
| TagStore.CoversIsSegmentAncestor | GFK.Image/Provider/TagsRepository.cs:43 | a tag covers a path exactly when the path's segments are a leading run of the tag's segments, so `Tags:\Author\Gordon` does not cover a tag `...\Gordon Freeman` |
| TagStore.IsPathValidBySegments | GFK.Image/Provider/TagsRepository.cs:40-44 | a path is valid exactly when it is a segment-wise ancestor of, or equal to, a stored tag |
| TagStore.GetImpliesValid | GFK.Image/Provider/TagsRepository.cs:32-44 | a path the lookup finds is valid |
| TagStore.GetAfterAdd | GFK.Image/Provider/TagsRepository.cs:25-38 | after adding a path, the lookup finds it |
| TagStore.AddKeepsValidPaths | GFK.Image/Provider/TagsRepository.cs:25-44 | adding never makes a valid path invalid |
| TagStore.AddMakesAncestorsValid | GFK.Image/Provider/TagsRepository.cs:25-44 | after adding a path, every segment-wise ancestor of it is valid |
| TagStore.Below | GFK.Image/Provider/TagsRepository.cs:50 | the filter keeps exactly the stored tags that start with the prefix |
| TagStore.PartialPath | GFK.Image/Provider/TagsRepository.cs:62-67 | the cut is a prefix of the tag longer than the position, and either the whole tag or followed by a separator |
| TagStore.PartialPathIsDepthCut | GFK.Image/Provider/TagsRepository.cs:62-67 | depth `d` cuts the tag at its `d+1`-th separator after the position, or keeps it whole when there are fewer |
| TagStore.ImmediatePartialPath | GFK.Image/Provider/TagsRepository.cs:62-67 | at depth 0 the cut holds no separator after the position |
| TagStore.Truncate | GFK.Image/Provider/TagsRepository.cs:51 | the projection keeps the list length and shows each tag whole without a depth, or cut at the depth |
| TagStore.BelowIsLonger | GFK.Image/Provider/TagsRepository.cs:48-51 | in a store without trailing separators, every tag below the child prefix is longer than it, so `GetPartialPath` starts inside the tag |
| TagStore.Candidates | GFK.Image/Provider/TagsRepository.cs:48-51 | every listed candidate starts with the trimmed path and a separator |
| TagStore.ChildPaths | GFK.Image/Provider/TagsRepository.cs:46-55 | every listed child path starts with the trimmed path and a separator |
| TagStore.CandidatesMembers | GFK.Image/Provider/TagsRepository.cs:48-51 | a string is a candidate exactly when it is the shown form of a stored tag below the prefix |
| TagStore.ChildPathsDistinctInOrder | GFK.Image/Provider/TagsRepository.cs:52 | the listing has no duplicates and keeps the first-seen order of the candidates |
| TagStore.ChildPathsUntruncated | GFK.Image/Provider/TagsRepository.cs:46-55 | without a depth, the listing holds exactly the stored tags below the path |
| TagStore.ChildPathsAtDepth | GFK.Image/Provider/TagsRepository.cs:46-55 | with a depth, the listing holds exactly the depth cuts of the stored tags below the path |
| TagStore.ChildPathsImmediate | GFK.Image/Provider/TagsRepository.cs:46-67 | at depth 0 every listed path is an immediate child, holding no separator after the prefix |
| TagStore.CandidatesAppend | GFK.Image/Provider/TagsRepository.cs:49-51 | a tag added at the end of the store adds its shown form at the end of the candidates exactly when it is below the path |
| TagStore.ChildPathsStep | GFK.Image/Provider/TagsRepository.cs:49-52 | one more stored tag extends the listing by its shown form when that is below the path and new, and otherwise leaves it alone |
| TagStore.CandidatesAllBelow | GFK.Image/Provider/TagsRepository.cs:49-51 | when every tag is below the path, the candidates are the projection of the whole store |
| TagsRepository.BuildTag | GFK.Image/Provider/TagsRepository.cs:57-60 | a tag keeps its path, and its value is the separator-free text after the last separator |
| TagsRepository.BuildTagOfChild | GFK.Image/Provider/TagsRepository.cs:57-60 | the value of `parent\name` is `name` |
| TagsRepository.AddTag | GFK.Image/Provider/TagsRepository.cs:25-30 | adding stores the trimmed path and returns the tag built from it |
| TagsRepository.GetTag | GFK.Image/Provider/TagsRepository.cs:32-38 | the lookup returns a tag exactly when the trimmed path is stored, and that tag is built from the trimmed path |
| TagsRepository.IsPathValid | GFK.Image/Provider/TagsRepository.cs:40-44 | a path is valid exactly when it is a segment-wise ancestor of, or equal to, a stored tag |
| TagsRepository.GetChildTags | GFK.Image/Provider/TagsRepository.cs:46-55 | the listed tags are the tags built from the de-duplicated child paths, in order |
| TagsRepository.History | GFK.Image/Provider/TagsRepository.cs:25-28 | the store after a series of additions holds the trimmed added paths, in order |
| TagsRepository.HistoryOfTrimmed | GFK.Image/Provider/TagsRepository.cs:25-28 | adding paths without trailing separators stores them as written |
| TagsRepository.TestRepository | GFK.Image.UnitTests/TagsRepositoryTests.cs:10-19 | the test set-up stores its four paths as written |
| PlainTagsRepository.AddTag | GFK.Image.PowerShell/Provider/TagsRepository.cs:25-30 | adding stores the trimmed path and returns it |
| PlainTagsRepository.GetTag | GFK.Image.PowerShell/Provider/TagsRepository.cs:32-38 | the lookup returns the trimmed path exactly when it is stored |
| PlainTagsRepository.IsPathValid | GFK.Image.PowerShell/Provider/TagsRepository.cs:40-44 | a path is valid exactly when it is a segment-wise ancestor of, or equal to, a stored tag |
| PlainTagsRepository.GetPartialPath | GFK.Image.PowerShell/Provider/TagsRepository.cs:56-61 | the `do`/`while` loop cuts the tag at the `depth+1`-th separator after the position, or keeps it whole |
| PlainTagsRepository.Select | GFK.Image.PowerShell/Provider/TagsRepository.cs:51 | without a depth the tag is shown whole; with depth `d` it is cut before the `d+1`-th separator after the position, or shown whole when there are fewer |
| PlainTagsRepository.GetChildTags | GFK.Image.PowerShell/Provider/TagsRepository.cs:46-54 | the `Where`/`Select`/`Distinct` loop yields the child paths, the same paths as the drive repository's listing |
| PlainTagsRepository.SameAnswersAsDriveRepository | GFK.Image.PowerShell/Provider/TagsRepository.cs:25-44 | adding, lookup and validity give the same store, the same paths and the same answers as in the drive repository |
| TagsRepositoryTests.GetsExistingTag | GFK.Image.UnitTests/TagsRepositoryTests.cs:21-29 | the stored `Gordon Freeman` tag is found, with its name as value |
| TagsRepositoryTests.DoesNotGetParentTag | GFK.Image.UnitTests/TagsRepositoryTests.cs:31-39 | a folder that was never added is not found |
| TagsRepositoryTests.DoesNotGetNonExistentTag | GFK.Image.UnitTests/TagsRepositoryTests.cs:41-49 | a path under the wrong folder is not found |
| TagsRepositoryTests.DoesNotGetPartialTag | GFK.Image.UnitTests/TagsRepositoryTests.cs:51-59 | a prefix of a tag name is not found |
| TagsRepositoryTests.ValidPaths | GFK.Image.UnitTests/TagsRepositoryTests.cs:61-89 | a tag, its folder and the root are valid |
| TagsRepositoryTests.NonExistentPathIsInvalid | GFK.Image.UnitTests/TagsRepositoryTests.cs:91-99 | a name under the wrong folder is invalid |
| TagsRepositoryTests.PartialTagPathIsInvalid | GFK.Image.UnitTests/TagsRepositoryTests.cs:101-109 | a prefix of a tag name is invalid |
| TagsRepositoryTests.FindsAllTagsRecursively | GFK.Image.UnitTests/TagsRepositoryTests.cs:111-128 | for any names shaped like the test data, the listing without a depth is the whole store in order |
| TagsRepositoryTests.FindsAllTagsNonRecursively | GFK.Image.UnitTests/TagsRepositoryTests.cs:130-145 | for any such names, depth 0 lists the two folders once each |
| TagsRepositoryTests.FindsTagsWithLimitedRecursion | GFK.Image.UnitTests/TagsRepositoryTests.cs:147-163 | for any such names, depth 1 lists the three tags one level below the folders |
| TagsRepositoryTests.FindsTagsInSubfolder | GFK.Image.UnitTests/TagsRepositoryTests.cs:165-180 | for any such names, depth 0 under a folder lists its two immediate tags |
| TagsRepositoryTests.UnitTestRecursiveListing | GFK.Image.UnitTests/TagsRepositoryTests.cs:111-128 | the recursive listing of the test data |
| TagsRepositoryTests.UnitTestNonRecursiveListing | GFK.Image.UnitTests/TagsRepositoryTests.cs:130-145 | the non-recursive listing of the test data |
| TagsRepositoryTests.UnitTestLimitedListing | GFK.Image.UnitTests/TagsRepositoryTests.cs:147-163 | the depth-1 listing of the test data |
| TagsRepositoryTests.UnitTestSubfolderListing | GFK.Image.UnitTests/TagsRepositoryTests.cs:165-180 | the listing of the test data's `Author` folder |
| TagsRepositoryTests.TestTagsAreScenario | GFK.Image.UnitTests/TagsRepositoryTests.cs:15-18 | the test data is the general scenario instantiated with its names |
| LegacyTagsProvider.Step | GFK.PowerShell/TagsProvider.cs:381-391 | a name is appended; `""` and `.` leave the kept segments alone; `..` drops the last kept segment, if any |
| LegacyTagsProvider.Resolve | GFK.PowerShell/TagsProvider.cs:379-392 | every kept segment was kept before or is a name from the input |
| LegacyTagsProvider.Segments | GFK.PowerShell/TagsProvider.cs:376-392 | the surviving segments are names free of separators |
| LegacyTagsProvider.GetCleanPath | GFK.PowerShell/TagsProvider.cs:374-395 | the loop yields the joined surviving segments, and splitting the result gives those segments back |
| LegacyTagsProvider.SplitOfClean | GFK.PowerShell/TagsProvider.cs:374-395 | splitting a cleaned path gives its segments, or one empty piece when none survive |
| LegacyTagsProvider.ResolveNames | GFK.PowerShell/TagsProvider.cs:388-390 | plain names are kept as they are |
| LegacyTagsProvider.ResolveConcat | GFK.PowerShell/TagsProvider.cs:379-392 | resolving two runs of chunks is resolving the second from where the first left off |
| LegacyTagsProvider.DotDotAtTopIsDropped | GFK.PowerShell/TagsProvider.cs:385-386 | a leading `..` is ignored |
| LegacyTagsProvider.NameThenDotDotCancels | GFK.PowerShell/TagsProvider.cs:385-390 | a name followed by `..` cancels out |
| LegacyTagsProvider.CleanPathShape | GFK.PowerShell/TagsProvider.cs:374-395 | a cleaned path neither starts nor ends with a separator and holds no two separators in a row |
| LegacyTagsProvider.CleanPathIdempotent | GFK.PowerShell/TagsProvider.cs:374-395 | cleaning a cleaned path changes nothing |
| LegacyTagsProvider.MakePath | GFK.PowerShell/TagsProvider.cs:113-120 | the joined path's segments are the child's chunks resolved on top of the parent's segments |
| LegacyTagsProvider.MakePathResolvesChild | GFK.PowerShell/TagsProvider.cs:113-115 | the child's chunks are resolved on top of the parent's segments, so its `..` climbs out of the parent |
| LegacyTagsProvider.MakePathOfCleanParent | GFK.PowerShell/TagsProvider.cs:113-115 | joining onto a cleaned parent gives the same path as joining onto the raw parent |
| LegacyTagsProvider.MakePathWithName | GFK.PowerShell/TagsProvider.cs:113-115 | joining a plain name adds exactly that segment |
| LegacyTagsProvider.GetParentPath | GFK.PowerShell/TagsProvider.cs:210-220 | the parent is a prefix of the cleaned path |
| LegacyTagsProvider.GetChildName | GFK.PowerShell/TagsProvider.cs:193-201 | the child name holds no separator |
| LegacyTagsProvider.ChildNameIsLastSegment | GFK.PowerShell/TagsProvider.cs:193-201 | the child name is the last surviving segment, or empty when none survive |
| LegacyTagsProvider.ParentPathIsDotDot | GFK.PowerShell/TagsProvider.cs:210-215 | the parent of a path is the path followed by `..`, cleaned |
| LegacyTagsProvider.DotDotDropsLast | GFK.PowerShell/TagsProvider.cs:385-386 | appending `..` drops the last surviving segment |
| LegacyTagsProvider.ParentAndChildRecombine | GFK.PowerShell/TagsProvider.cs:193-220 | for a path with several segments, parent, separator and child name give the cleaned path back |
| LegacyTagsProvider.SingleSegmentHasNoParent | GFK.PowerShell/TagsProvider.cs:210-215 | a cleaned path without a separator has the empty parent and is its own child name |
| ScriptBuilder.Step | cmd/ScriptBuilder.cs:14-27 | a `/C` while the script is empty changes nothing; any other argument only extends the script |
| ScriptBuilder.GetScript | cmd/ScriptBuilder.cs:7-31 | the loop's script is the kept arguments, spaced within lines and one line per `&` |
| ScriptBuilder.RunRendersKept | cmd/ScriptBuilder.cs:11-27 | at every step, the builder's text and line-start flag are those of the reference description of the arguments kept so far |
| ScriptBuilder.RenderBreak | cmd/ScriptBuilder.cs:17-21 | an `&` ends the line with exactly one line break |
| ScriptBuilder.RenderToken | cmd/ScriptBuilder.cs:22-27 | any other argument extends the last line, after one space unless the line is empty |
| ScriptBuilder.EmptyArguments | cmd/ScriptBuilder.cs:9-30 | no arguments give the empty script |
| ScriptBuilder.LeadingSwitchIsDropped | cmd/ScriptBuilder.cs:14-15 | a leading `/C` or `/c` is dropped |
| ScriptBuilder.LaterSwitchIsWritten | cmd/ScriptBuilder.cs:14-27 | a `/C` after something was written is written like any other argument |
| ScriptBuilder.PlainArgumentsAreSpaced | cmd/ScriptBuilder.cs:22-27 | arguments without `&` and `/C` are all kept, in order |
| ScriptBuilder.SpacedScript | cmd/ScriptBuilder.cs:22-27 | arguments without `&` and `/C` give the arguments joined by single spaces |
| ScriptBuilder.KeptBreaks | cmd/ScriptBuilder.cs:14-21 | only `/C` arguments are dropped, so every `&` is kept |
| ScriptBuilder.KeptFromArguments | cmd/ScriptBuilder.cs:14-27 | every written argument is one of the input arguments |
| ScriptBuilder.GroupsHoldNoBreak | cmd/ScriptBuilder.cs:17-21 | no line holds an `&` argument, so `&` is never written as text |
| ScriptBuilder.GroupsCount | cmd/ScriptBuilder.cs:17-21 | there is one line per `&`, plus one |
| ScriptBuilder.LineBreakPerAmpersand | cmd/ScriptBuilder.cs:17-21 | with a one-character line break that no argument contains, the script splits into one line per `&`, plus one |
| ScriptBuilder.TwoCommandsExample | cmd/ScriptBuilder.cs:7-31 | `/c echo hi & dir` becomes `echo hi`, a line break and `dir` |

## Left out

- The integration with the host shell is not modelled. This covers the
  `TagsProvider` classes of `GFK.Image` and `GFK.Image.PowerShell` and the
  parts of `GFK.PowerShell/TagsProvider.cs` other than `GetCleanPath`,
  `MakePath`, `GetParentPath` and `GetChildName`. It is host glue: it passes
  paths through to the modelled code and writes items and warnings.
- `WriteWarning` calls are left out. They only log the result.
- `NormalizeRelativePath` of the first provider is left out. It delegates to
  the host's base class, which is not part of this model.
- `GetParentPath` of the first provider takes a `root` argument. The model
  leaves it out because the source reads it only for the warning text.
- The `TagsDrive` classes are left out, as are the tree-shaped `Tag` nodes of
  `GFK.PowerShell/Tag.cs`. The drive only owns a repository instance, and the
  nodes are not used by the modelled code.
- The date and time factories, the cmdlets, and the `Program` and `Logger`
  classes of both command-line tools are left out. They do time-zone
  arithmetic, I/O, process spawning and logging, and have no path or tag
  logic.
- `string.StartsWith(string)` is culture-sensitive in .NET. It is modelled as
  an ordinal prefix test. For the ASCII paths of the tests the two agree.
- `Environment.NewLine` is the parameter `newLine` and is not fixed to a
  platform value.
- `ScriptBuilder.IsCommandSwitch`: `OrdinalIgnoreCase` equality with `/C` is
  modelled as `/` followed by `C` or `c`. This is the only case folding that
  matters for that literal.
- `TagsRepository.GetChildTags`: the depth is a `uint?` in the source and a
  `nat` in the model. The post-decrement in the loop test of
  `GetPartialPath` also runs when the depth is 0, and then wraps to
  `uint.MaxValue`. The loop stops on that same test, so the wrapped value is
  never read.
- `TagStore.ChildPaths`, `TagStore.Candidates`, `TagsRepository.GetChildTags`,
  `PlainTagsRepository.GetChildTags`: these require that no stored path ends
  with a separator (`TagStore.Valid`). The source's `AddTag` maintains this,
  and `TagStore.Add` is proved to keep it. For a stored path equal to the
  listing prefix, the source's `IndexOf(Separator, path.Length + 1)` would
  throw. The model does not cover that state, because `AddTag` never creates
  it.
- `ScriptBuilder.LineBreakPerAmpersand`: stated for a one-character line
  break that no argument contains. With a longer line break, or arguments
  that contain it, counting lines by splitting is not meaningful.
  `GetScript` itself is proved for every line break.
- The PowerShell module's unit tests
  (`GFK.Image.PowerShell.UnitTests/TagsRepositoryTests.cs`) call the validity
  check `Exists`. They run the same scenario as the drive repository's tests.
  They are covered through `PlainTagsRepository.SameAnswersAsDriveRepository`
  and `PlainTagsRepository.GetChildTags`, not restated one by one.
- `GFK.Image.UnitTests/PathCleanerTests.cs` calls the cleaner's methods as
  `FixRoot` and `EnsureRootSeparator`. The class names them `CleanInput` and
  `CleanOutput`. The model follows the class.
- The drive repository's unit tests compare the returned `Tag` objects with
  path strings. The model compares the tags' paths.
