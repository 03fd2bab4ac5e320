# gridx2 core, modelled in Dafny

gridx2 is a GTK image gallery. It is started on a root directory. It walks
the tree below the root to a bounded depth, and groups the PNG and JPEG files
it finds into one record per parent folder. Thumbnails are loaded on demand
through a bounded cache that maps image paths to textures. Images are
presented in "natural" order, where digit runs compare by value. Clicking an
image opens it with a configurable external command.

This project models that core as follows:

- `wrappers.dfy` (`Wrappers`): `Option`, `Result` and a three-way `Ordering`,
  standing in for the Rust enums.
- `app_config.dfy` (`Config`): the settings record and its defaults: depth 2,
  a 200-pixel thumbnail box, and the command `xdg-open <path>`.
- `image_cache.dfy` (`Cache`): the cache as a class.
  - It has an `entries` field of type `map` and a fixed limit.
  - Eviction picks an arbitrary present key (`:|`) and reports it through a
    ghost out-parameter.
  - The map after an insertion is characterised by `AfterInsert`, and lemmas
    state what survives and how the size changes.
- `image_entry.dfy` (`ImageEntries`):
  - The thumbnail size computation, characterised as floor division.
  - `load_image`: an already loaded entry is left alone; otherwise the cache is
    consulted, and only then is the decode oracle called.
- `entry.rs`, modelled in `entry.dfy` (`Entry`):
  - The separator count, the extension test, and the walk filter.
  - The grouping loop, written as a `while` loop over the filtered walk.
  - That loop is proved to produce `Grouped`, a declarative description:
    - one record per distinct parent, in order of first appearance;
    - each record holds exactly that parent's images, in walk order.
- `natural_sort.dfy` (`NaturalSort`):
  - The segmentation into maximal digit and non-digit runs, proved to be the
    only such segmentation.
  - The comparison loop with its early return, proved equal to a recursive
    order.
  - Lemmas about that order: reflexivity, antisymmetry, digit runs comparing
    by value, overflow counting as zero, and fewer runs sorting first.
- `open_command.dfy` (`OpenCommand`): the argument vector built for the
  external viewer.
- `relative_path.dfy` (`RelativePaths`): the label of a folder relative to the
  root, computed on canonical component lists.

External facts enter as inputs:

- The filesystem walk is a sequence of `WalkItem`s. Each item carries its walk
  depth, its path, and its absolute form (`None` when `path::absolute` fails).
  It also says whether the item is a directory, and gives its parent as a
  string.
- Canonicalized paths are component lists, `None` when canonicalization
  fails.
- Decoding is a function from path and box size to an optional texture.

Where one might expect otherwise, the model follows the code:

- **Depth filter.** A walk entry passes when its absolute path has at most
  `bound + 1` separators, not `bound`, because the code subtracts one before
  comparing (`Entry.ShouldProcessIff`).
- **Re-inserting a present key.** This can shrink the cache: the evicted key
  is chosen before the insertion and need not be the key being inserted
  (`Cache.ReinsertCanShrink`, `Cache.InsertAtLimit`).
- **Zero limit.** The size bound only holds for a limit of at least one
  (`Cache.ZeroLimitOverflows`).

## Model

| member | source | states |
|---|---|---|
| Wrappers.CmpInt | src/main.rs:512 | `Ord::cmp` on integers: Less, Equal, Greater exactly when `<`, `==`, `>` |
| Config.Default | src/app_config.rs:8-14 | `AppConfig::default`: depth bound 2, a 200-pixel thumbnail box and the command `xdg-open <path>` |
| Config.DefaultScanParameters | src/app_config.rs:10-11 | the default depth bound is 2 and the default thumbnail box is 200 |
| Config.DefaultOpenCommand | src/app_config.rs:12 | the default open command is exactly `["xdg-open", "<path>"]` |
| OpenCommand.DefaultCommandShape | src/app_config.rs:12 | the default command's first placeholder is at index 1, its program is not a placeholder, and it holds exactly one placeholder |
| Cache.ImageCache.constructor | src/image_cache.rs:10-15 | a new cache is empty and keeps the given limit |
| Cache.ImageCache.Get | src/image_cache.rs:26-28 | a lookup finds a value exactly when the key is present, and returns the stored value |
| Cache.ImageCache.Insert | src/image_cache.rs:17-24 | nothing is evicted below the limit or from an empty map; otherwise one present key is evicted; then the value is stored; a lookup finds it; a limit of at least one is never exceeded |
| Cache.ImageCache.Remove | src/image_cache.rs:30-32 | returns the previous value of the key, if any; only that key is removed, and a lookup no longer finds it |
| Cache.ValidVictim | src/image_cache.rs:18-22 | which key `insert` may evict: none below the limit or from an empty map, otherwise one present key, whichever the map yields first |
| Cache.AfterInsert | src/image_cache.rs:18-23 | the map after removing the victim, if any, and then storing the value under its key |
| Cache.InsertThenGet | src/image_cache.rs:17-24 | after an insertion, the key is present and maps to the inserted value |
| Cache.InsertBelowLimit | src/image_cache.rs:18-23 | below the limit nothing is evicted: the keys gain the inserted path, other values are unchanged, and the size grows by one only for a new key |
| Cache.InsertAtLimit | src/image_cache.rs:18-23 | at or above the limit, exactly one present key is evicted first; other entries are unchanged; the size drops by one when a present key other than the victim is re-inserted |
| Cache.InsertKeepsBound | src/image_cache.rs:17-24 | with a limit of at least one, a cache within its limit stays within it after an insertion |
| Cache.AppCacheKeepsBound | src/main.rs:36-37 | the application's cache, created with limit 500, stays within 500 entries after an insertion |
| Cache.ZeroLimitOverflows | src/image_cache.rs:18-23 | with limit 0, nothing can be evicted from the empty map, so an insertion leaves one entry, over the limit |
| Cache.ReinsertCanShrink | src/image_cache.rs:18-23 | re-inserting a present key into a full two-entry cache can leave one entry |
| ImageEntries.CalculateSize | src/image_entry.rs:73-86 | the longer side (height on a tie) becomes `to`; the other is the floor of its scaled length: `r*long <= short*to < (r+1)*long` |
| ImageEntries.ThumbnailFitsBox | src/image_entry.rs:73-86 | both sides of the computed size are at most `to` |
| ImageEntries.CalculateSizeExamples | src/image_entry.rs:73-86 | 1600x900, 900x1600 and 200x200 in a 200 box give 200x112, 112x200 and 200x200 |
| ImageEntries.LoadImage | src/image_entry.rs:16-50 | a loaded entry: the cache is untouched. A cache hit: the entry takes the cached texture, the cache is untouched. A miss: the decode result is taken; on success it is inserted under the image path (bound kept); on failure the cache is untouched and the image stays unloaded |
| Entry.CountDepth | src/entry.rs:85-90 | the depth is the number of separator characters in the path |
| Entry.FileName | src/entry.rs:98 | the file name of a path is non-empty, holds no separator, and is neither `.` nor `..` |
| Entry.Extension | src/entry.rs:98 | an extension never contains a dot |
| Entry.FileNameOfJoin | src/entry.rs:98 | the file name of `dir/name` is `name`, and there is none for `..` |
| Entry.ExtensionOfSplit | src/entry.rs:98 | the extension of `stem.ext`, for a non-empty stem, is `ext` |
| Entry.IsImage | src/entry.rs:96-104 | `is_image`: the path has a file name whose extension is one of `png`, `jpg`, `jpeg` |
| Entry.IsImageByExtension | src/entry.rs:96-104 | `dir/stem.ext` is an image exactly when `ext` is `png`, `jpg` or `jpeg`, compared case-sensitively |
| Entry.IsImageExamples | src/entry.rs:96-104 | `photo.jpg` and `a.b.jpeg` are images |
| Entry.NotImageExamples | src/entry.rs:96-104 | `photo.PNG` and `readme.txt` are not images |
| Entry.NoExtensionNoImage | src/entry.rs:96-104 | `notes` (no dot) and `.png` (a leading dot only) are not images |
| Entry.DepthLessOne | src/entry.rs:37 | `count_depth(absolute) - 1` in u32: congruent to `d - 1` modulo 2^32, and within u32 for a u32 count, so a count of 0 wraps to `u32::MAX` |
| Entry.ShouldProcess | src/entry.rs:35-46 | the `should_process` closure: no absolute form or too deep is rejected, then directories pass and files pass when they are images |
| Entry.ShouldProcessIff | src/entry.rs:35-46 | an entry passes exactly when its absolute form exists, has between 1 and `bound + 1` separators, and it is a directory or an image |
| Entry.FilterEntries | src/entry.rs:33-48 | every kept item comes from the walk, and every kept entry passes the filter |
| Entry.FilterKeepsOrder | src/entry.rs:33-48 | the filter only drops items; what it keeps stays in walk order |
| Entry.PrunedShift | src/entry.rs:33-48 | an item lying below a rejected directory in the rest of the walk still does so in the whole walk |
| Entry.FilterReaches | src/entry.rs:33-48 | once the walk has come back up past a skipped directory, every entry that passes the filter and lies below no rejected directory is kept |
| Entry.ReachCarries | src/entry.rs:33-48 | once the walk has climbed back past the skipped depth before an item, it also has in the rest of the walk, in the skipping state the first item leaves |
| Entry.FilterKeepsReached | src/entry.rs:33-48 | every entry that passes the filter and lies below no rejected directory is kept |
| Entry.FilterSkips | src/entry.rs:33-48 | an item below a rejected directory, or below the directory being skipped, is dropped: the output is the same as for the walk without it |
| Entry.SkipCarries | src/entry.rs:33-48 | an item below a skipped or rejected directory still lies below one in the rest of the walk, in the skipping state the first item leaves |
| Entry.FilterDropsPruned | src/entry.rs:33-48 | an item below a rejected directory, occurring once in the walk, is not kept |
| Entry.Hits | src/entry.rs:48-63 | the only error the loop body raises is a file without a parent |
| Entry.HitsFromFiles | src/entry.rs:49-63 | every collected image is a non-directory entry of the walk, with that entry's path and parent |
| Entry.Files | src/entry.rs:49-52 | the file items are exactly the non-directory entries among the items, in their order |
| Entry.HitsComplete | src/entry.rs:48-63 | the loop body succeeds exactly when every file item has a parent, and then yields one hit per file item, in walk order, with that item's path and parent |
| Entry.FirstSeen | src/entry.rs:65-71 | the record paths are exactly the parents seen, each once |
| Entry.FirstSeenPrefix | src/entry.rs:65-71 | records are never reordered: the records of a walk prefix are a prefix of the records |
| Entry.ImagesUnder | src/entry.rs:73-76 | new image entries are not loaded |
| Entry.ImagesUnderContains | src/entry.rs:73-76 | every image lands in the list of its own parent |
| Entry.ImagesUnderSound | src/entry.rs:73-76 | every image in a parent's list comes from a hit with that parent |
| Entry.Grouped | src/entry.rs:58-76 | there is one record per distinct parent |
| Entry.GroupedSnocKnown | src/entry.rs:65-76 | a file whose parent already has a record extends that record only |
| Entry.GroupedSnocNew | src/entry.rs:65-76 | a file with a new parent adds one record at the end, holding just that image |
| Entry.GroupedDistinctDirs | src/entry.rs:65-71 | no two records have the same directory path |
| Entry.GroupedNonEmpty | src/entry.rs:69-79 | no record is empty and no image is loaded yet |
| Entry.GroupedPlacement | src/entry.rs:65-76 | every accepted file's image is in the record of its parent |
| Entry.GroupedTotal | src/entry.rs:73-76 | the records hold as many images as files were accepted |
| Entry.GroupedTwoSiblings | src/entry.rs:65-76 | two images of one folder make one record, holding both in walk order |
| Entry.RetainNonEmpty | src/entry.rs:79 | `retain` keeps only non-empty records, each taken from the input |
| Entry.RetainAllNonEmpty | src/entry.rs:79 | `retain` keeps every record when none is empty |
| Entry.HitsAreShallowImages | src/entry.rs:35-63 | every collected file is an image of the walk, at most one separator deeper than the bound |
| Entry.ScanSound | src/entry.rs:22-82 | a successful scan resolved the root; every image is unloaded, sits in its parent's record, and is an image file of the walk at most one separator deeper than the bound |
| Entry.ScanOutcome | src/entry.rs:22-82 | the scan fails on an unresolved root, or exactly when a kept file has no parent; a successful scan holds one image per kept file |
| Entry.ScanComplete | src/entry.rs:22-82 | every image file of the walk that passes the filter and lies below no rejected directory appears, unloaded, in its parent's record |
| Entry.KeptImageGrouped | src/entry.rs:33-79 | for any depth bound, every such image file of the walk is placed, unloaded, in its parent's record |
| Entry.FileGrouped | src/entry.rs:48-79 | every file item of a successful grouping lands, unloaded, in its parent's record |
| Entry.GroupHitsOutcome | src/entry.rs:48-79 | the grouping succeeds exactly when every file item has a parent, and then holds one image per file item |
| Entry.FindDir | src/entry.rs:66 | `position`: the first record with the parent's path, or none when no record has it |
| Entry.AddImage | src/entry.rs:65-76 | one loop step turns the grouping of the hits so far into the grouping with one more hit |
| Entry.GroupEntries | src/entry.rs:48-81 | the loop plus `retain` yields the grouping of the collected files, or the missing-parent error |
| Entry.Search | src/entry.rs:22-82 | `search` fails when the root has no absolute form. Otherwise it groups what the filter keeps, bounded by the root's depth plus the configured depth |
| NaturalSort.RunLength | src/main.rs:495-499 | a run is the longest prefix of one kind: digits or non-digits |
| NaturalSort.Segments | src/main.rs:495-499 | the runs concatenate to the input, are non-empty, each of one kind, and alternate in kind |
| NaturalSort.SegmentsUnique | src/main.rs:495-499 | any alternating run split of a string is the one `Segments` returns |
| NaturalSort.IsNumber | src/main.rs:496 | `^\d+$`: a non-empty run of ASCII digits |
| NaturalSort.ParseIsize | src/main.rs:510-511 | a digit run parses to its value, or to 0 when that exceeds `isize::MAX` |
| NaturalSort.LexCmp | src/main.rs:518 | `str::cmp`: characters in order, the first difference decides, a proper prefix first |
| NaturalSort.PartOrder | src/main.rs:509-519 | two digit runs by parsed value, a digit run before text, text after a digit run, text by `str::cmp` |
| NaturalSort.CompareSegments | src/main.rs:501-526 | runs pairwise: equal runs are skipped, the first non-tied pair decides, and otherwise the shorter list is first |
| NaturalSort.NaturalOrder | src/main.rs:494-527 | the natural order of two strings: their run lists compared |
| NaturalSort.Compare | src/main.rs:494-527 | the loop with `continue` and early return computes the natural order |
| NaturalSort.CompareSegmentsReflexive | src/main.rs:501-526 | equal run lists compare Equal |
| NaturalSort.NaturalOrderReflexive | src/main.rs:498-526 | every string compares Equal to itself |
| NaturalSort.LexCmpAntisymmetric | src/main.rs:518 | swapping the arguments of the character comparison reverses it |
| NaturalSort.PartOrderAntisymmetric | src/main.rs:509-519 | swapping two runs reverses their order |
| NaturalSort.CompareSegmentsAntisymmetric | src/main.rs:501-526 | swapping two run lists reverses their order |
| NaturalSort.PartOrderReflexive | src/main.rs:509-519 | every run ties with itself |
| NaturalSort.LexCmpTransitive | src/main.rs:518 | the character comparison is transitive |
| NaturalSort.PartOrderTransitive | src/main.rs:509-519 | the order of runs is transitive |
| NaturalSort.CompareSegmentsTransitive | src/main.rs:501-526 | the run-list comparison is transitive |
| NaturalSort.NaturalOrderTransitive | src/main.rs:494-527 | if `a` is not after `b` and `b` is not after `c`, then `a` is not after `c`; with reflexivity and antisymmetry this is the total order the `sort_by` at src/main.rs:393-396 relies on |
| NaturalSort.NaturalOrderAntisymmetric | src/main.rs:494-527 | swapping the two strings reverses the result |
| NaturalSort.FirstDifferenceDecides | src/main.rs:501-523 | after a common prefix, the first differing pair of runs decides unless it ties, and then the rest decides |
| NaturalSort.LexCmpEqual | src/main.rs:518 | the character comparison says Equal exactly for the same string |
| NaturalSort.FirstDifferingRuns | src/main.rs:501-523 | at the first differing runs of two names, a digit run sorts before text, text after a digit run, two text runs decide by characters and never tie, and two digit runs of different values decide by value |
| NaturalSort.NumberBeforeTextExample | src/main.rs:513-514 | `9` sorts before `!`, although `!` comes first by character |
| NaturalSort.FewerSegmentsFirst | src/main.rs:501-526 | a shorter run list that ties run by run with the start of a longer one sorts first. Runs tie when equal or when they are numbers of equal value |
| NaturalSort.SegmentsOfNumber | src/main.rs:495-499 | a digit run is one segment |
| NaturalSort.SegmentsOfTextNumber | src/main.rs:495-499 | text then a digit run is two segments |
| NaturalSort.TiedPrefixShorterFirst | src/main.rs:501-526 | text and a number sort before the same text, a number of equal value and more text |
| NaturalSort.TiedPrefixExample | src/main.rs:501-526 | `a01` sorts before `a1b` |
| NaturalSort.NumbersCompareByValue | src/main.rs:509-512 | names that differ only in a digit run between the same texts compare as the parsed numbers |
| NaturalSort.NumberedNamesExample | src/main.rs:509-512 | `img2.png` sorts before `img10.png` |
| NaturalSort.TextExample | src/main.rs:517-518 | `b.png` sorts after `a10.png` (text runs compare by characters) |
| NaturalSort.TiedNumbersFallThrough | src/main.rs:509-523 | equal numbers spelled differently tie, and the following text runs decide |
| NaturalSort.LeadingZerosFallThrough | src/main.rs:509-523 | `a01b` sorts before `a1c` |
| NaturalSort.LeadingZerosTie | src/main.rs:510-512 | `a01.png` and `a1.png` compare Equal |
| NaturalSort.OverflowExample | src/main.rs:510-511 | a 20-digit run counts as 0: it sorts before `5` and ties with `0` |
| OpenCommand.FirstIndexOf | src/main.rs:466 | `position`: the first index holding the placeholder, or none exactly when it is absent |
| OpenCommand.Launch | src/main.rs:466-483 | with a placeholder, the argument vector keeps the command's length and contains the image path. Without one, it is the default command as it stands |
| OpenCommand.LaunchSubstitutesFirstPlaceholder | src/main.rs:466-474 | only the first placeholder is replaced by the image path. Element 0 is the program, and every other element is kept in order |
| OpenCommand.LaunchFallsBackToDefault | src/main.rs:476-481 | without a placeholder (the empty command included), the program is `xdg-open` and the argument is the literal `<path>` |
| OpenCommand.EmptyCommandLosesImage | src/main.rs:476-481 | as written, an empty command puts no image path on the command line |
| OpenCommand.LaunchFixed | src/main.rs:466-483 | corrected: the image path is always on the command line |
| OpenCommand.LaunchFixedPassesImage | src/main.rs:466-483 | corrected: it agrees with the code when a placeholder is present; otherwise it runs `xdg-open <image>` |
| RelativePaths.StripPrefix | src/main.rs:444 | succeeds exactly when the base is a prefix of the path, and the base followed by the result is the path |
| RelativePaths.RelativePath | src/main.rs:441-457 | a failed canonicalization is an error. Otherwise it succeeds exactly when the base is a prefix, fails only with NotAPrefix, and never returns the empty string |
| RelativePaths.SplitJoin | src/main.rs:445-456 | splitting the printed relative path at separators gives back its components |
| RelativePaths.RelativePathMeaning | src/main.rs:441-457 | for canonical paths under the base: the result is `.` exactly when the paths coincide. Otherwise the base followed by the result's components is the path |

## Left out

- Locks on the settings and the cache are not modelled: the `Mutex` on `APP_CONFIG` and `IMAGE_CACHE` is never taken, so it cannot fail. The settings are passed as a value and the cache as an object. Therefore `load_image`, whose only other outcome is `Ok(())`, has no result value in the model.
- The walk itself is an input sequence, not a computation: `WalkDir` traversal, directory reading, `path::absolute`, `Path::parent` and `to_string_lossy`.
  - `Entry.FilterEntries`: the pruning of a rejected directory is modelled by walk depth. The items after it that are deeper are skipped.
- Entry.ShouldProcessIff: it holds for bounds below `u32::MAX`.
  - `count_depth(...) - 1` wraps as in a release build (0 becomes `u32::MAX`). A debug build would panic instead.
  - The `as u32` truncation of the separator count is not modelled.
  - The u32 overflow of `count_depth(root) + max_depth` is not modelled, since depths are unbounded naturals.
- Entry.FileName and Entry.Extension model the Unix behaviour of `Path::file_name` and `Path::extension`. Byte-level `OsStr` handling and non-UTF-8 names are not modelled.
- ImageEntries.CalculateSize: it requires that the divisor is non-zero and that `short * to` fits in u32. A zero divisor panics in every build. An overflowing product panics in debug builds and wraps in release builds. Neither kind of input is modelled.
- `load_and_resize_image` is not modelled: image decoding, resizing and building the GDK texture are a library matter. `decode` stands for them. A texture is a plain value, so reference counting and texture identity are not modelled.
- Cache.ImageCache.Insert: the victim is any present key. The hash map's actual iteration order is not modelled.
- ImageEntries.LoadImage: the entry is a value inside the folder records, not an object. Rust's `&mut self` is passed in and the updated entry is returned, so in-place update through aliases of the entry is not modelled.
- ImageEntries.LoadImage: a failed cache lock at insertion time is silently skipped by the code. Since locks are not modelled, that path does not appear.
- NaturalSort.IsDigit: `\d` in the `regex` crate also matches non-ASCII Unicode digits. The model takes digits to be `0`-`9`.
- NaturalSort.LexCmp: Rust compares `str` by UTF-8 bytes, and the model compares by character. UTF-8 preserves code point order, so the results agree.
- NaturalSort.ParseIsize: `isize` is taken to be 64 bits wide.
- NaturalSort.Compare: the `Regex::new` failures are not modelled; the two patterns are constants that always compile. The `anyhow::Result` wrapper is therefore dropped.
- The thumbnail pipeline is outside this model: the threads that load a folder's images in parallel and progress reporting.
- The two `sort_by` calls are outside it. The one at src/main.rs:393-396 orders a folder's loaded entries by `natural_sort` of their full image paths, falling back to Equal on error (`unwrap_or(Equal)`). The one at src/main.rs:212-214 orders the folder records by plain string order of `dir_path`.
- The GTK widgets, the settings window, CSS loading and the global `LazyLock` state are also outside it.
- Spawning the viewer process is not modelled, nor redirecting its standard streams; only the program and arguments are.
- RelativePaths.RelativePath: `canonicalize` is an input.
  - A canonical path is given as its components below the root, so the root itself is the empty list.
  - The `to_str` failure is not modelled, because model strings are always valid text.

## Findings

| source | as written | input that shows it | evidently intended | confidence | as-written member | corrected member |
|---|---|---|---|---|---|---|
| src/main.rs:476-481 | a configured command without a `<path>` element (the empty one included) is replaced by the default command unsubstituted, so `xdg-open` is asked to open a file literally named `<path>` | open command `[]` (or `["eog"]`) with any image path other than `xdg-open` and `<path>` | the fallback default command carries the image path in place of its placeholder, as the comment on the default states | medium, not executed | OpenCommand.EmptyCommandLosesImage | OpenCommand.LaunchFixed |
