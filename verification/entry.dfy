/**
 * The directory scan (src/entry.rs): which walk entries are kept, and how the
 * kept image files are grouped into one record per parent directory.
 *
 * The filesystem walk is an input: the sequence of entries WalkDir yields in
 * pre-order, each with its walk depth, its path, the absolute form of that
 * path (None when `path::absolute` fails), whether it is a directory, and the
 * string of its parent path (None when it has none).
 */
module Entry {
  import opened Wrappers
  import opened Config
  import opened ImageEntries

  /** `std::path::MAIN_SEPARATOR` on the Unix targets the application runs on. */
  const MainSeparator: char := '/'

  /** The file extensions accepted as images, compared case-sensitively. */
  const SupportedExtensions: seq<string> := ["png", "jpg", "jpeg"]

  /** `count_depth`: the number of separator characters in the path. */
  function CountDepth(p: string): (n: nat)
    ensures n == multiset(p)[MainSeparator]
  {
    if p == [] then 0
    else
      assert p == p[..|p| - 1] + [p[|p| - 1]];
      CountDepth(p[..|p| - 1]) + (if p[|p| - 1] == MainSeparator then 1 else 0)
  }

  /** The position of the last `c` in `s`, if any. */
  function LastIndexOf(s: string, c: char): (r: Option<nat>)
    ensures r.Some? ==> r.value < |s| && s[r.value] == c && c !in s[r.value + 1..]
    ensures r.None? ==> c !in s
  {
    if s == [] then None
    else if s[|s| - 1] == c then Some(|s| - 1)
    else
      var r := LastIndexOf(s[..|s| - 1], c);
      assert r.Some? ==> s[r.value + 1..] == s[..|s| - 1][r.value + 1..] + [s[|s| - 1]];
      assert s == s[..|s| - 1] + [s[|s| - 1]];
      r
  }

  /**
   * `Path::file_name` on a Unix path: the last component, ignoring trailing
   * separators and `.` components; none for an empty path, the root, a lone
   * `.` or a path ending in `..`.
   */
  function FileName(p: string): (name: Option<string>)
    decreases |p|
    ensures name.Some? ==> name.value != "" && MainSeparator !in name.value && name.value != "." && name.value != ".."
  {
    if p == [] then None
    else if p[|p| - 1] == MainSeparator then FileName(p[..|p| - 1])
    else
      var start := match LastIndexOf(p, MainSeparator) case Some(i) => i + 1 case None => 0;
      var last := p[start..];
      if last == "." then (if start == 0 then None else FileName(p[..start - 1]))
      else if last == ".." then None
      else Some(last)
  }

  /**
   * `Path::extension` of a file name: what follows its last dot; none when
   * there is no dot, when the only dot leads the name, or for `..`.
   */
  function Extension(name: string): (ext: Option<string>)
    ensures ext.Some? ==> '.' !in ext.value
  {
    if name == ".." then None
    else match LastIndexOf(name, '.')
      case None => None
      case Some(i) => if i == 0 then None else Some(name[i + 1..])
  }

  /** `is_image`: the path's extension is exactly one of the supported ones. */
  predicate IsImage(p: string) {
    match FileName(p)
    case None => false
    case Some(name) =>
      match Extension(name)
      case None => false
      case Some(ext) => ext in SupportedExtensions
  }

  lemma {:induction false} LastIndexOfSplit(s: string, c: char, t: string)
    requires c !in t
    ensures LastIndexOf(s + [c] + t, c) == Some(|s|)
    decreases |t|
  {
    var u := s + [c] + t;
    if t != [] {
      assert u[..|u| - 1] == s + [c] + t[..|t| - 1];
      LastIndexOfSplit(s, c, t[..|t| - 1]);
    }
  }

  /** The file name of `dir/name`, for a name without separators that is not `.`. */
  lemma FileNameOfJoin(dir: string, name: string)
    requires name != [] && MainSeparator !in name && name != "."
    ensures FileName(dir + [MainSeparator] + name) == if name == ".." then None else Some(name)
  {
    var p := dir + [MainSeparator] + name;
    assert p[|p| - 1] == name[|name| - 1];
    LastIndexOfSplit(dir, MainSeparator, name);
    assert p[|dir| + 1..] == name;
  }

  /** The extension of `stem.ext`, for a non-empty stem and a dot-free `ext`. */
  lemma ExtensionOfSplit(stem: string, ext: string)
    requires stem != [] && '.' !in ext && stem + "." + ext != ".."
    ensures Extension(stem + "." + ext) == Some(ext)
  {
    var name := stem + "." + ext;
    LastIndexOfSplit(stem, '.', ext);
    assert name == stem + ['.'] + ext;
    assert name[|stem| + 1..] == ext;
  }

  /**
   * A path whose last component is `stem.ext` (a non-empty stem, no dot in
   * `ext`) is an image exactly when `ext` is one of the supported extensions.
   */
  lemma {:induction false} IsImageByExtension(dir: string, stem: string, ext: string)
    requires stem != [] && MainSeparator !in stem && MainSeparator !in ext && '.' !in ext
    ensures IsImage(dir + [MainSeparator] + stem + "." + ext) <==> ext in SupportedExtensions
  {
    var name := stem + "." + ext;
    assert MainSeparator !in name;
    assert dir + [MainSeparator] + stem + "." + ext == dir + [MainSeparator] + name;
    FileNameOfJoin(dir, name);
    if name == ".." {
      assert ext == [];
    } else {
      ExtensionOfSplit(stem, ext);
    }
  }

  /** In any directory, lower-case `jpg` and `jpeg` files are images, whatever dots the stem holds. */
  lemma IsImageExamples(dir: string)
    ensures IsImage(dir + "/photo.jpg")
    ensures IsImage(dir + "/a.b.jpeg")
  {
    assert IsImage(dir + "/photo.jpg") by {
      var p := dir + [MainSeparator] + "photo" + "." + "jpg";
      assert p == dir + "/photo.jpg";
      IsImageByExtension(dir, "photo", "jpg");
    }
    assert IsImage(dir + "/a.b.jpeg") by {
      var p := dir + [MainSeparator] + "a.b" + "." + "jpeg";
      assert p == dir + "/a.b.jpeg";
      IsImageByExtension(dir, "a.b", "jpeg");
    }
  }

  /** Upper-case and unsupported extensions are not images. */
  lemma NotImageExamples(dir: string)
    ensures !IsImage(dir + "/photo.PNG")
    ensures !IsImage(dir + "/readme.txt")
  {
    assert !IsImage(dir + "/photo.PNG") by {
      var p := dir + [MainSeparator] + "photo" + "." + "PNG";
      assert p == dir + "/photo.PNG";
      IsImageByExtension(dir, "photo", "PNG");
    }
    assert !IsImage(dir + "/readme.txt") by {
      var p := dir + [MainSeparator] + "readme" + "." + "txt";
      assert p == dir + "/readme.txt";
      IsImageByExtension(dir, "readme", "txt");
    }
  }

  /** A name without a dot, or whose only dot leads it, has no extension, so it is no image. */
  lemma NoExtensionNoImage(dir: string)
    ensures !IsImage(dir + "/notes")
    ensures !IsImage(dir + "/.png")
  {
    assert !IsImage(dir + "/notes") by {
      var p := dir + [MainSeparator] + "notes";
      assert p == dir + "/notes";
      FileNameOfJoin(dir, "notes");
      assert FileName(p) == Some("notes");
      assert '.' !in "notes";
      assert LastIndexOf("notes", '.') == None;
      assert Extension("notes") == None;
    }
    assert !IsImage(dir + "/.png") by {
      var p := dir + [MainSeparator] + ".png";
      assert p == dir + "/.png";
      FileNameOfJoin(dir, ".png");
      assert FileName(p) == Some(".png");
      assert ".png" == "" + ['.'] + "png";
      LastIndexOfSplit("", '.', "png");
      assert LastIndexOf(".png", '.') == Some(0);
      assert Extension(".png") == None;
    }
  }

  /** One item of the walk. */
  datatype WalkItem =
    | Failed(depth: nat)
    | Item(depth: nat, path: string, absolute: Option<string>, isDir: bool, parent: Option<string>)

  /** `count_depth(absolute) - 1` in u32 arithmetic, wrapping below zero as a release build does. */
  function DepthLessOne(d: nat): (r: nat)
    ensures r % (U32Max + 1) == (d + U32Max) % (U32Max + 1)
    ensures d <= U32Max ==> r <= U32Max
  {
    if d == 0 then U32Max else d - 1
  }

  /**
   * `should_process`: the entry's absolute form exists and is at most one
   * separator deeper than `bound`, and it is a directory or an image.
   */
  predicate ShouldProcess(e: WalkItem, bound: nat)
    requires e.Item?
  {
    match e.absolute
    case None => false
    case Some(absolute) =>
      if DepthLessOne(CountDepth(absolute)) > bound then false
      else if e.isDir then true
      else IsImage(e.path)
  }

  /**
   * The filter, restated: an entry is kept iff its absolute form has between
   * one and `bound + 1` separators and it is a directory or an image file.
   */
  lemma ShouldProcessIff(e: WalkItem, bound: nat)
    requires e.Item? && bound < U32Max
    ensures ShouldProcess(e, bound) <==>
      e.absolute.Some? && 1 <= CountDepth(e.absolute.value) <= bound + 1 && (e.isDir || IsImage(e.path))
  {
  }

  /**
   * `WalkDir::filter_entry(should_process)`: walk errors pass through; an
   * entry failing the predicate is dropped, and when it is a directory the
   * items below it (deeper than it, until the walk comes back up) are not
   * visited. `skipBelow` is the depth of the directory being skipped.
   */
  function FilterEntries(walk: seq<WalkItem>, bound: nat, skipBelow: Option<nat>): (kept: seq<WalkItem>)
    ensures forall i :: 0 <= i < |kept| ==> kept[i] in walk
    ensures forall i :: 0 <= i < |kept| && kept[i].Item? ==> ShouldProcess(kept[i], bound)
  {
    if walk == [] then []
    else
      var e, rest := walk[0], walk[1..];
      assert forall x :: x in rest ==> x in walk;
      if skipBelow.Some? && e.depth > skipBelow.value then FilterEntries(rest, bound, skipBelow)
      else if e.Failed? then [e] + FilterEntries(rest, bound, None)
      else if ShouldProcess(e, bound) then [e] + FilterEntries(rest, bound, None)
      else if e.isDir then FilterEntries(rest, bound, Some(e.depth))
      else FilterEntries(rest, bound, None)
  }

  /** `xs` is `ys` with some items left out, the rest in their order. */
  predicate SubsequenceOf<T(==)>(xs: seq<T>, ys: seq<T>)
    decreases |ys|
  {
    if xs == [] then true
    else if ys == [] then false
    else (xs[0] == ys[0] && SubsequenceOf(xs[1..], ys[1..])) || SubsequenceOf(xs, ys[1..])
  }

  /** The filter only drops items: what it keeps comes in walk order. */
  lemma {:induction false} FilterKeepsOrder(walk: seq<WalkItem>, bound: nat, skipBelow: Option<nat>)
    ensures SubsequenceOf(FilterEntries(walk, bound, skipBelow), walk)
  {
    if walk != [] {
      var e, rest := walk[0], walk[1..];
      var next := if skipBelow.Some? && e.depth > skipBelow.value then skipBelow
        else if e.Item? && e.isDir && !ShouldProcess(e, bound) then Some(e.depth) else None;
      FilterKeepsOrder(rest, bound, next);
      var tail := FilterEntries(rest, bound, next);
      if FilterEntries(walk, bound, skipBelow) == [e] + tail {
        assert ([e] + tail)[1..] == tail;
      }
    }
  }

  /**
   * Item `i` lies below a directory the filter rejected earlier: every item
   * from that directory up to `i` is deeper than it, so the walk never
   * comes back up before reaching `i`.
   */
  predicate Pruned(walk: seq<WalkItem>, bound: nat, i: nat)
    requires i < |walk|
  {
    exists j :: 0 <= j < i && walk[j].Item? && walk[j].isDir && !ShouldProcess(walk[j], bound) &&
      forall k :: j < k <= i ==> walk[k].depth > walk[j].depth
  }

  lemma PrunedShift(walk: seq<WalkItem>, bound: nat, i: nat)
    requires 0 < i < |walk|
    ensures Pruned(walk[1..], bound, i - 1) ==> Pruned(walk, bound, i)
  {
    var rest := walk[1..];
    if Pruned(rest, bound, i - 1) {
      var j :| 0 <= j < i - 1 && rest[j].Item? && rest[j].isDir && !ShouldProcess(rest[j], bound) &&
        forall k :: j < k <= i - 1 ==> rest[k].depth > rest[j].depth;
      assert walk[j + 1] == rest[j];
      forall k | j + 1 < k <= i
        ensures walk[k].depth > walk[j + 1].depth
      {
        assert walk[k] == rest[k - 1];
      }
    }
  }

  /**
   * Completeness of the filter, from any skipping state: an entry passing
   * `should_process` that lies below no rejected directory is kept, provided
   * the walk has come back up to the skipped depth by the time it reaches it.
   */
  lemma {:induction false} FilterReaches(walk: seq<WalkItem>, bound: nat, skipBelow: Option<nat>, i: nat)
    requires i < |walk| && walk[i].Item? && ShouldProcess(walk[i], bound) && !Pruned(walk, bound, i)
    requires skipBelow.Some? ==> exists k :: 0 <= k <= i && walk[k].depth <= skipBelow.value
    ensures walk[i] in FilterEntries(walk, bound, skipBelow)
    decreases i
  {
    FilterStep(walk, bound, skipBelow);
    if i > 0 {
      PrunedShift(walk, bound, i);
      ReachCarries(walk, bound, skipBelow, i);
      FilterReaches(walk[1..], bound, NextSkip(walk[0], bound, skipBelow), i - 1);
    }
  }

  /** The walk comes back up past the skipped depth before `i` in the rest too, in the state the first item leaves. */
  lemma ReachCarries(walk: seq<WalkItem>, bound: nat, skipBelow: Option<nat>, i: nat)
    requires 0 < i < |walk| && !Pruned(walk, bound, i)
    requires skipBelow.Some? ==> exists k :: 0 <= k <= i && walk[k].depth <= skipBelow.value
    ensures var next, rest := NextSkip(walk[0], bound, skipBelow), walk[1..];
      next.Some? ==> exists k :: 0 <= k <= i - 1 && rest[k].depth <= next.value
  {
    var e, rest := walk[0], walk[1..];
    if skipBelow.Some? && e.depth > skipBelow.value {
      var k :| 0 <= k <= i && walk[k].depth <= skipBelow.value;
      assert rest[k - 1] == walk[k];
    } else if e.Item? && e.isDir && !ShouldProcess(e, bound) {
      if exists k :: 1 <= k <= i && walk[k].depth <= e.depth {
        var k :| 1 <= k <= i && walk[k].depth <= e.depth;
        assert rest[k - 1] == walk[k];
      } else {
        assert false;
      }
    }
  }

  /** Every entry passing `should_process` that lies below no rejected directory survives the filter. */
  lemma FilterKeepsReached(walk: seq<WalkItem>, bound: nat, i: nat)
    requires i < |walk| && walk[i].Item? && ShouldProcess(walk[i], bound) && !Pruned(walk, bound, i)
    ensures walk[i] in FilterEntries(walk, bound, None)
  {
    FilterReaches(walk, bound, None, i);
  }

  /** The skipping state once the filter has looked at `e`. */
  function NextSkip(e: WalkItem, bound: nat, skipBelow: Option<nat>): Option<nat> {
    if skipBelow.Some? && e.depth > skipBelow.value then skipBelow
    else if e.Item? && e.isDir && !ShouldProcess(e, bound) then Some(e.depth)
    else None
  }

  /** What the filter passes on when it looks at `e`. */
  function Emitted(e: WalkItem, bound: nat, skipBelow: Option<nat>): seq<WalkItem> {
    if skipBelow.Some? && e.depth > skipBelow.value then []
    else if e.Failed? || ShouldProcess(e, bound) then [e]
    else []
  }

  lemma FilterStep(walk: seq<WalkItem>, bound: nat, skipBelow: Option<nat>)
    requires walk != []
    ensures FilterEntries(walk, bound, skipBelow) ==
      Emitted(walk[0], bound, skipBelow) + FilterEntries(walk[1..], bound, NextSkip(walk[0], bound, skipBelow))
  {
    if Emitted(walk[0], bound, skipBelow) == [] {
      assert [] + FilterEntries(walk[1..], bound, NextSkip(walk[0], bound, skipBelow)) ==
        FilterEntries(walk[1..], bound, NextSkip(walk[0], bound, skipBelow));
    }
  }

  /**
   * The filter drops an item lying below a rejected directory, or below the
   * directory being skipped: its output is the same as for the walk without
   * that item.
   */
  lemma {:induction false} FilterSkips(walk: seq<WalkItem>, bound: nat, skipBelow: Option<nat>, i: nat)
    requires i < |walk|
    requires Pruned(walk, bound, i) || (skipBelow.Some? && forall k :: 0 <= k <= i ==> walk[k].depth > skipBelow.value)
    ensures FilterEntries(walk, bound, skipBelow) == FilterEntries(walk[..i] + walk[i + 1..], bound, skipBelow)
    decreases i
  {
    var w := walk[..i] + walk[i + 1..];
    if i == 0 {
      assert w == walk[1..];
    } else {
      var rest := walk[1..];
      assert w[0] == walk[0];
      assert w[1..] == rest[..i - 1] + rest[i..];
      FilterStep(walk, bound, skipBelow);
      FilterStep(w, bound, skipBelow);
      SkipCarries(walk, bound, skipBelow, i);
      FilterSkips(rest, bound, NextSkip(walk[0], bound, skipBelow), i - 1);
    }
  }

  /** Lying below a skipped or rejected directory carries over to the rest of the walk, in the state the first item leaves. */
  lemma SkipCarries(walk: seq<WalkItem>, bound: nat, skipBelow: Option<nat>, i: nat)
    requires 0 < i < |walk|
    requires Pruned(walk, bound, i) || (skipBelow.Some? && forall k :: 0 <= k <= i ==> walk[k].depth > skipBelow.value)
    ensures var next, rest := NextSkip(walk[0], bound, skipBelow), walk[1..];
      Pruned(rest, bound, i - 1) || (next.Some? && forall k :: 0 <= k <= i - 1 ==> rest[k].depth > next.value)
  {
    var e, rest := walk[0], walk[1..];
    if skipBelow.Some? && forall k :: 0 <= k <= i ==> walk[k].depth > skipBelow.value {
      forall k | 0 <= k <= i - 1
        ensures rest[k].depth > skipBelow.value
      {
        assert rest[k] == walk[k + 1];
      }
    } else {
      var j :| 0 <= j < i && walk[j].Item? && walk[j].isDir && !ShouldProcess(walk[j], bound) &&
        forall k :: j < k <= i ==> walk[k].depth > walk[j].depth;
      if j > 0 {
        assert rest[j - 1] == walk[j];
        forall k | j - 1 < k <= i - 1
          ensures rest[k].depth > rest[j - 1].depth
        {
          assert rest[k] == walk[k + 1];
        }
        assert Pruned(rest, bound, i - 1);
      } else {
        forall k | 0 <= k <= i - 1
          ensures rest[k].depth > e.depth
        {
          assert rest[k] == walk[k + 1];
        }
      }
    }
  }

  /** An item below a rejected directory, occurring once in the walk, is not kept. */
  lemma FilterDropsPruned(walk: seq<WalkItem>, bound: nat, i: nat)
    requires i < |walk| && Pruned(walk, bound, i) && walk[i] !in walk[..i] + walk[i + 1..]
    ensures walk[i] !in FilterEntries(walk, bound, None)
  {
    FilterSkips(walk, bound, None, i);
  }

  /** An image file the scan accepted: its path and the string of its parent. */
  datatype Hit = Hit(path: string, parent: string)

  datatype ScanError = RootUnresolved | NoParent

  /**
   * What the body of the scan loop collects from the filtered walk: errors
   * and directories are skipped; a file without a parent ends the scan with
   * an error.
   */
  function Hits(items: seq<WalkItem>): (r: Result<seq<Hit>, ScanError>)
    ensures r.Err? ==> r.error == NoParent
  {
    if items == [] then Ok([])
    else
      var e := items[0];
      if e.Failed? || e.isDir then Hits(items[1..])
      else if e.parent.None? then Err(NoParent)
      else
        match Hits(items[1..])
        case Err(x) => Err(x)
        case Ok(hs) => Ok([Hit(e.path, e.parent.value)] + hs)
  }

  /** Every hit comes from a file item of the walk, with the parent that item carries. */
  lemma {:induction false} HitsFromFiles(items: seq<WalkItem>)
    requires Hits(items).Ok?
    ensures forall h :: h in Hits(items).value ==>
      exists e :: e in items && e.Item? && !e.isDir && e.path == h.path && e.parent == Some(h.parent)
  {
    if items != [] {
      HitsFromFiles(items[1..]);
      assert forall x :: x in items[1..] ==> x in items;
    }
  }

  predicate IsFile(e: WalkItem) {
    e.Item? && !e.isDir
  }

  /** The file entries among the items, in walk order. */
  function Files(items: seq<WalkItem>): (fs: seq<WalkItem>)
    ensures forall e :: e in fs <==> e in items && IsFile(e)
    ensures SubsequenceOf(fs, items)
  {
    if items == [] then []
    else
      var rest := Files(items[1..]);
      assert items == [items[0]] + items[1..];
      if IsFile(items[0]) then
        assert ([items[0]] + rest)[1..] == rest;
        [items[0]] + rest
      else
        assert rest != [] ==> SubsequenceOf(rest, items[1..]);
        rest
  }

  /**
   * Completeness of the loop body: it succeeds exactly when every file item
   * has a parent, and then yields one hit per file item, in walk order.
   */
  lemma {:induction false} HitsComplete(items: seq<WalkItem>)
    ensures Hits(items).Ok? <==> forall e :: e in Files(items) ==> e.parent.Some?
    ensures Hits(items).Ok? ==>
      |Hits(items).value| == |Files(items)| &&
      forall n :: 0 <= n < |Files(items)| ==>
        Files(items)[n].Item? && Files(items)[n].parent.Some? &&
        Hits(items).value[n] == Hit(Files(items)[n].path, Files(items)[n].parent.value)
  {
    if items != [] {
      var e, rest := items[0], items[1..];
      HitsComplete(rest);
      if IsFile(e) {
        assert Files(items) == [e] + Files(rest);
      } else {
        assert Files(items) == Files(rest);
      }
    }
  }

  /** Hits already collected, followed by what the rest of the walk yields. */
  function Prepend(hs: seq<Hit>, r: Result<seq<Hit>, ScanError>): Result<seq<Hit>, ScanError> {
    match r
    case Err(x) => Err(x)
    case Ok(more) => Ok(hs + more)
  }

  lemma PrependAssociative(hs: seq<Hit>, h: Hit, r: Result<seq<Hit>, ScanError>)
    ensures Prepend(hs, Prepend([h], r)) == Prepend(hs + [h], r)
  {
    match r {
      case Ok(more) => assert hs + ([h] + more) == hs + [h] + more;
      case Err(_) =>
    }
  }

  /** The parent of every hit, in walk order. */
  function Parents(hs: seq<Hit>): (ps: seq<string>)
    ensures |ps| == |hs| && forall i :: 0 <= i < |hs| ==> ps[i] == hs[i].parent
  {
    seq(|hs|, i requires 0 <= i < |hs| => hs[i].parent)
  }

  /** The distinct elements of `xs`, each where it first occurs. */
  function FirstSeen(xs: seq<string>): (ds: seq<string>)
    ensures forall x :: x in ds <==> x in xs
    ensures forall i, j :: 0 <= i < j < |ds| ==> ds[i] != ds[j]
  {
    if xs == [] then []
    else
      var ds := FirstSeen(xs[..|xs| - 1]);
      assert xs == xs[..|xs| - 1] + [xs[|xs| - 1]];
      if xs[|xs| - 1] in ds then ds else ds + [xs[|xs| - 1]]
  }

  /** The images of the hits whose parent is `dir`, in walk order, none loaded yet. */
  function ImagesUnder(hs: seq<Hit>, dir: string): (images: seq<ImageEntry>)
    ensures forall im :: im in images ==> im.image == None
  {
    if hs == [] then []
    else
      var last := hs[|hs| - 1];
      ImagesUnder(hs[..|hs| - 1], dir) + (if last.parent == dir then [ImageEntry(last.path, None)] else [])
  }

  /**
   * The grouping the scan is meant to produce, stated directly: one record
   * per distinct parent, in order of first appearance, holding exactly the
   * images of that parent in walk order.
   */
  function Grouped(hs: seq<Hit>): (g: seq<DirEntry>)
    ensures |g| == |FirstSeen(Parents(hs))|
  {
    var ds := FirstSeen(Parents(hs));
    seq(|ds|, i requires 0 <= i < |ds| => DirEntry(ds[i], ImagesUnder(hs, ds[i])))
  }

  /** `DirEntry`: a directory path and the images found directly in it. */
  datatype DirEntry = DirEntry(dirPath: string, imageEntries: seq<ImageEntry>)

  /** `Vec::retain` keeping the records that hold at least one image. */
  function RetainNonEmpty(es: seq<DirEntry>): (r: seq<DirEntry>)
    ensures forall i :: 0 <= i < |r| ==> r[i].imageEntries != []
    ensures forall i :: 0 <= i < |r| ==> r[i] in es
  {
    if es == [] then []
    else (if es[0].imageEntries == [] then [] else [es[0]]) + RetainNonEmpty(es[1..])
  }

  /** The records the grouping loop builds from the filtered walk. */
  ghost function GroupHits(items: seq<WalkItem>): Result<seq<DirEntry>, ScanError> {
    match Hits(items)
    case Err(x) => Err(x)
    case Ok(hs) => Ok(Grouped(hs))
  }

  /** The whole scan as a function of its inputs. */
  ghost function Scan(rootAbsolute: Option<string>, maxDepth: nat, walk: seq<WalkItem>): Result<seq<DirEntry>, ScanError> {
    match rootAbsolute
    case None => Err(RootUnresolved)
    case Some(root) => GroupHits(FilterEntries(walk, CountDepth(root) + maxDepth, None))
  }

  lemma ParentsPrefix(hs: seq<Hit>, n: nat)
    requires n <= |hs|
    ensures Parents(hs[..n]) == Parents(hs)[..n]
  {
  }

  /** A directory that is no hit's parent has no images. */
  lemma {:induction false} ImagesUnderAbsent(hs: seq<Hit>, dir: string)
    requires dir !in Parents(hs)
    ensures ImagesUnder(hs, dir) == []
  {
    if hs != [] {
      ParentsPrefix(hs, |hs| - 1);
      ImagesUnderAbsent(hs[..|hs| - 1], dir);
    }
  }

  /** A directory that is some hit's parent has at least one image. */
  lemma {:induction false} ImagesUnderPresent(hs: seq<Hit>, dir: string)
    requires dir in Parents(hs)
    ensures ImagesUnder(hs, dir) != []
  {
    var last := hs[|hs| - 1];
    if last.parent != dir {
      ParentsPrefix(hs, |hs| - 1);
      assert Parents(hs) == Parents(hs[..|hs| - 1]) + [last.parent];
      ImagesUnderPresent(hs[..|hs| - 1], dir);
    }
  }

  /** Each hit's image is among the images of its parent. */
  lemma {:induction false} ImagesUnderContains(hs: seq<Hit>, j: nat)
    requires j < |hs|
    ensures ImageEntry(hs[j].path, None) in ImagesUnder(hs, hs[j].parent)
  {
    if j < |hs| - 1 {
      ImagesUnderContains(hs[..|hs| - 1], j);
    }
  }

  /** Each image of a directory comes from a hit with that parent and path. */
  lemma {:induction false} ImagesUnderSound(hs: seq<Hit>, dir: string)
    ensures forall im :: im in ImagesUnder(hs, dir) ==>
      exists j :: 0 <= j < |hs| && hs[j].parent == dir && hs[j].path == im.imagePath
  {
    if hs != [] {
      var init := hs[..|hs| - 1];
      ImagesUnderSound(init, dir);
      forall im | im in ImagesUnder(hs, dir)
        ensures exists j :: 0 <= j < |hs| && hs[j].parent == dir && hs[j].path == im.imagePath
      {
        if im in ImagesUnder(init, dir) {
          var j :| 0 <= j < |init| && init[j].parent == dir && init[j].path == im.imagePath;
          assert hs[j] == init[j];
        } else {
          assert hs[|hs| - 1].parent == dir && hs[|hs| - 1].path == im.imagePath;
        }
      }
    }
  }

  /** The grouping gains the new hit's image at the end of the record of its (known) parent. */
  lemma {:induction false} GroupedSnocKnown(hs: seq<Hit>, h: Hit, k: nat)
    requires k < |Grouped(hs)| && Grouped(hs)[k].dirPath == h.parent
    ensures var g := Grouped(hs);
      Grouped(hs + [h]) == g[k := DirEntry(h.parent, g[k].imageEntries + [ImageEntry(h.path, None)])]
  {
    var hs' := hs + [h];
    var g, g' := Grouped(hs), Grouped(hs');
    var ps, ds := Parents(hs), FirstSeen(Parents(hs));
    assert hs'[..|hs|] == hs;
    assert Parents(hs') == ps + [h.parent];
    assert (ps + [h.parent])[..|ps|] == ps;
    assert h.parent in ds;
    assert FirstSeen(Parents(hs')) == ds;
    var image := ImageEntry(h.path, None);
    assert |g'| == |g|;
    forall i | 0 <= i < |g|
      ensures g'[i] == g[k := DirEntry(h.parent, g[k].imageEntries + [image])][i]
    {
      assert ImagesUnder(hs', ds[i]) == ImagesUnder(hs, ds[i]) + (if h.parent == ds[i] then [image] else []);
    }
  }

  /** The grouping gains a new last record for a parent not seen before. */
  lemma {:induction false} GroupedSnocNew(hs: seq<Hit>, h: Hit)
    requires forall k :: 0 <= k < |Grouped(hs)| ==> Grouped(hs)[k].dirPath != h.parent
    ensures Grouped(hs + [h]) == Grouped(hs) + [DirEntry(h.parent, [ImageEntry(h.path, None)])]
  {
    var hs' := hs + [h];
    var g, g' := Grouped(hs), Grouped(hs');
    var ps, ds := Parents(hs), FirstSeen(Parents(hs));
    assert hs'[..|hs|] == hs;
    assert Parents(hs') == ps + [h.parent];
    assert (ps + [h.parent])[..|ps|] == ps;
    assert h.parent !in ds by {
      forall k | 0 <= k < |ds|
        ensures ds[k] != h.parent
      {
        assert g[k].dirPath == ds[k];
      }
    }
    assert FirstSeen(Parents(hs')) == ds + [h.parent];
    ImagesUnderAbsent(hs, h.parent);
    var image := ImageEntry(h.path, None);
    assert |g'| == |g| + 1;
    forall i | 0 <= i < |g'|
      ensures g'[i] == (g + [DirEntry(h.parent, [image])])[i]
    {
      assert ImagesUnder(hs', g'[i].dirPath) == ImagesUnder(hs, g'[i].dirPath) + (if h.parent == g'[i].dirPath then [image] else []);
    }
  }

  /** Record paths are pairwise distinct. */
  lemma GroupedDistinctDirs(hs: seq<Hit>)
    ensures forall i, j :: 0 <= i < j < |Grouped(hs)| ==> Grouped(hs)[i].dirPath != Grouped(hs)[j].dirPath
  {
  }

  /** No record is empty, and no image is loaded yet. */
  lemma GroupedNonEmpty(hs: seq<Hit>)
    ensures forall i :: 0 <= i < |Grouped(hs)| ==> Grouped(hs)[i].imageEntries != []
    ensures forall i, im :: 0 <= i < |Grouped(hs)| && im in Grouped(hs)[i].imageEntries ==> im.image == None
  {
    var ds := FirstSeen(Parents(hs));
    forall i | 0 <= i < |ds|
      ensures Grouped(hs)[i].imageEntries != []
    {
      ImagesUnderPresent(hs, ds[i]);
    }
  }

  /** Every hit's image is in the record of its parent. */
  lemma GroupedPlacement(hs: seq<Hit>)
    ensures forall j :: 0 <= j < |hs| ==>
      exists i :: (0 <= i < |Grouped(hs)| && Grouped(hs)[i].dirPath == hs[j].parent &&
        ImageEntry(hs[j].path, None) in Grouped(hs)[i].imageEntries)
  {
    var ds := FirstSeen(Parents(hs));
    forall j | 0 <= j < |hs|
      ensures exists i :: (0 <= i < |Grouped(hs)| && Grouped(hs)[i].dirPath == hs[j].parent &&
        ImageEntry(hs[j].path, None) in Grouped(hs)[i].imageEntries)
    {
      assert Parents(hs)[j] == hs[j].parent;
      assert hs[j].parent in Parents(hs);
      var i :| 0 <= i < |ds| && ds[i] == hs[j].parent;
      ImagesUnderContains(hs, j);
      assert Grouped(hs)[i].dirPath == hs[j].parent;
    }
  }

  /** The number of images over all records. */
  function TotalImages(es: seq<DirEntry>): nat {
    if es == [] then 0 else TotalImages(es[..|es| - 1]) + |es[|es| - 1].imageEntries|
  }

  lemma {:induction false} TotalImagesUpdate(es: seq<DirEntry>, k: nat, e: DirEntry)
    requires k < |es|
    ensures TotalImages(es[k := e]) == TotalImages(es) - |es[k].imageEntries| + |e.imageEntries|
  {
    var es' := es[k := e];
    if k == |es| - 1 {
      assert es'[..|es'| - 1] == es[..|es| - 1];
    } else {
      assert es'[..|es'| - 1] == es[..|es| - 1][k := e];
      TotalImagesUpdate(es[..|es| - 1], k, e);
    }
  }

  /** The records hold as many images as there were hits: each hit lands in exactly one record, once. */
  lemma {:induction false} GroupedTotal(hs: seq<Hit>)
    ensures TotalImages(Grouped(hs)) == |hs|
    decreases |hs|
  {
    if hs != [] {
      var init, h := hs[..|hs| - 1], hs[|hs| - 1];
      assert hs == init + [h];
      GroupedTotal(init);
      var g := Grouped(init);
      if k :| 0 <= k < |g| && g[k].dirPath == h.parent {
        GroupedSnocKnown(init, h, k);
        TotalImagesUpdate(g, k, DirEntry(h.parent, g[k].imageEntries + [ImageEntry(h.path, None)]));
      } else {
        GroupedSnocNew(init, h);
        var g' := g + [DirEntry(h.parent, [ImageEntry(h.path, None)])];
        assert g'[..|g'| - 1] == g;
      }
    }
  }

  /** The records of a walk prefix are a prefix of the records: records keep first-seen order. */
  lemma {:induction false} FirstSeenPrefix(xs: seq<string>, n: nat)
    requires n <= |xs|
    ensures FirstSeen(xs[..n]) <= FirstSeen(xs)
    decreases |xs| - n
  {
    if n < |xs| {
      var ys := xs[..n + 1];
      assert ys[..n] == xs[..n];
      assert ys[..|ys| - 1] == xs[..n];
      assert FirstSeen(xs[..n]) <= FirstSeen(ys);
      FirstSeenPrefix(xs, n + 1);
      assert xs[..|xs|] == xs;
    } else {
      assert xs[..n] == xs;
    }
  }

  /** Every retained record is kept when none is empty. */
  lemma {:induction false} RetainAllNonEmpty(es: seq<DirEntry>)
    requires forall i :: 0 <= i < |es| ==> es[i].imageEntries != []
    ensures RetainNonEmpty(es) == es
  {
    if es != [] {
      RetainAllNonEmpty(es[1..]);
      assert es == [es[0]] + es[1..];
    }
  }

  /**
   * Every hit of the filtered walk is an image file of the walk that passed
   * the filter: its absolute form is at most one separator deeper than the bound.
   */
  lemma HitsAreShallowImages(walk: seq<WalkItem>, bound: nat)
    requires Hits(FilterEntries(walk, bound, None)).Ok?
    ensures forall h :: h in Hits(FilterEntries(walk, bound, None)).value ==>
      exists e :: (e in walk && e.Item? && !e.isDir && e.path == h.path && e.parent == Some(h.parent) &&
        IsImage(e.path) && e.absolute.Some? && DepthLessOne(CountDepth(e.absolute.value)) <= bound)
  {
    var items := FilterEntries(walk, bound, None);
    HitsFromFiles(items);
    forall h | h in Hits(items).value
      ensures exists e :: (e in walk && e.Item? && !e.isDir && e.path == h.path && e.parent == Some(h.parent) &&
        IsImage(e.path) && e.absolute.Some? && DepthLessOne(CountDepth(e.absolute.value)) <= bound)
    {
      var e :| e in items && e.Item? && !e.isDir && e.path == h.path && e.parent == Some(h.parent);
      var n :| 0 <= n < |items| && items[n] == e;
      assert ShouldProcess(e, bound);
    }
  }

  /**
   * Every image of a successful scan is an unloaded image file of the walk:
   * it passed the filter (so its absolute form is at most one separator
   * deeper than the bound) and sits in the record of its parent.
   */
  lemma ScanSound(rootAbsolute: Option<string>, maxDepth: nat, walk: seq<WalkItem>)
    requires Scan(rootAbsolute, maxDepth, walk).Ok?
    ensures rootAbsolute.Some?
    ensures forall rec, im :: rec in Scan(rootAbsolute, maxDepth, walk).value && im in rec.imageEntries ==>
      im.image == None &&
      exists e :: (e in walk && e.Item? && !e.isDir && e.path == im.imagePath && e.parent == Some(rec.dirPath) &&
        IsImage(e.path) && e.absolute.Some? &&
        DepthLessOne(CountDepth(e.absolute.value)) <= CountDepth(rootAbsolute.value) + maxDepth)
  {
    var bound := CountDepth(rootAbsolute.value) + maxDepth;
    var hs := Hits(FilterEntries(walk, bound, None)).value;
    var g := Grouped(hs);
    HitsAreShallowImages(walk, bound);
    GroupedNonEmpty(hs);
    forall rec, im | rec in g && im in rec.imageEntries
      ensures exists e :: (e in walk && e.Item? && !e.isDir && e.path == im.imagePath && e.parent == Some(rec.dirPath) &&
        IsImage(e.path) && e.absolute.Some? && DepthLessOne(CountDepth(e.absolute.value)) <= bound)
    {
      var i :| 0 <= i < |g| && g[i] == rec;
      ImagesUnderSound(hs, rec.dirPath);
      var j :| 0 <= j < |hs| && hs[j].parent == rec.dirPath && hs[j].path == im.imagePath;
      assert hs[j] in hs;
    }
  }

  /**
   * The scan fails only for an unresolved root, or when a file the filter
   * kept has no parent; a successful scan holds one image per kept file.
   */
  lemma ScanOutcome(rootAbsolute: Option<string>, maxDepth: nat, walk: seq<WalkItem>)
    ensures rootAbsolute.None? ==> Scan(rootAbsolute, maxDepth, walk) == Err(RootUnresolved)
    ensures rootAbsolute.Some? ==>
      var kept := FilterEntries(walk, CountDepth(rootAbsolute.value) + maxDepth, None);
      (Scan(rootAbsolute, maxDepth, walk).Ok? <==> forall e :: e in Files(kept) ==> e.parent.Some?) &&
      (Scan(rootAbsolute, maxDepth, walk).Ok? ==> TotalImages(Scan(rootAbsolute, maxDepth, walk).value) == |Files(kept)|)
  {
    if rootAbsolute.Some? {
      var kept := FilterEntries(walk, CountDepth(rootAbsolute.value) + maxDepth, None);
      assert Scan(rootAbsolute, maxDepth, walk) == GroupHits(kept);
      GroupHitsOutcome(kept);
    }
  }

  lemma GroupHitsOutcome(items: seq<WalkItem>)
    ensures GroupHits(items).Ok? <==> forall e :: e in Files(items) ==> e.parent.Some?
    ensures GroupHits(items).Ok? ==> TotalImages(GroupHits(items).value) == |Files(items)|
  {
    HitsComplete(items);
    if Hits(items).Ok? {
      GroupedTotal(Hits(items).value);
    }
  }

  /**
   * Completeness of the scan: every image file of the walk that passes
   * `should_process` and lies below no rejected directory appears, unloaded,
   * in the record of its parent.
   */
  lemma ScanComplete(rootAbsolute: Option<string>, maxDepth: nat, walk: seq<WalkItem>, i: nat)
    requires rootAbsolute.Some? && Scan(rootAbsolute, maxDepth, walk).Ok?
    requires i < |walk| && walk[i].Item? && !walk[i].isDir
    requires ShouldProcess(walk[i], CountDepth(rootAbsolute.value) + maxDepth)
    requires !Pruned(walk, CountDepth(rootAbsolute.value) + maxDepth, i)
    ensures walk[i].parent.Some?
    ensures exists rec :: (rec in Scan(rootAbsolute, maxDepth, walk).value && rec.dirPath == walk[i].parent.value &&
      ImageEntry(walk[i].path, None) in rec.imageEntries)
  {
    KeptImageGrouped(walk, CountDepth(rootAbsolute.value) + maxDepth, i);
  }

  lemma KeptImageGrouped(walk: seq<WalkItem>, bound: nat, i: nat)
    requires i < |walk| && walk[i].Item? && !walk[i].isDir
    requires ShouldProcess(walk[i], bound) && !Pruned(walk, bound, i)
    requires GroupHits(FilterEntries(walk, bound, None)).Ok?
    ensures walk[i].parent.Some?
    ensures exists rec :: (rec in GroupHits(FilterEntries(walk, bound, None)).value && rec.dirPath == walk[i].parent.value &&
      ImageEntry(walk[i].path, None) in rec.imageEntries)
  {
    FilterKeepsReached(walk, bound, i);
    FileGrouped(FilterEntries(walk, bound, None), walk[i]);
  }

  /** A file item of a successful grouping lands, unloaded, in the record of its parent. */
  lemma FileGrouped(items: seq<WalkItem>, f: WalkItem)
    requires f in items && IsFile(f) && GroupHits(items).Ok?
    ensures f.parent.Some?
    ensures exists rec :: (rec in GroupHits(items).value && rec.dirPath == f.parent.value &&
      ImageEntry(f.path, None) in rec.imageEntries)
  {
    HitsComplete(items);
    var fs := Files(items);
    var n :| 0 <= n < |fs| && fs[n] == f;
    var hs := Hits(items).value;
    GroupedPlacement(hs);
    var g := Grouped(hs);
    var k :| 0 <= k < |g| && g[k].dirPath == hs[n].parent && ImageEntry(hs[n].path, None) in g[k].imageEntries;
    assert g[k] in g;
  }

  /**
   * `find` half of the grouping loop (`position` over the records): the first
   * record whose path is `parent`, if any.
   */
  method FindDir(entries: seq<DirEntry>, parent: string) returns (index: Option<nat>)
    ensures index.Some? ==> (index.value < |entries| && entries[index.value].dirPath == parent &&
      forall j :: 0 <= j < index.value ==> entries[j].dirPath != parent)
    ensures index.None? ==> forall j :: 0 <= j < |entries| ==> entries[j].dirPath != parent
  {
    var i := 0;
    while i < |entries|
      invariant 0 <= i <= |entries|
      invariant forall j :: 0 <= j < i ==> entries[j].dirPath != parent
    {
      if entries[i].dirPath == parent {
        return Some(i);
      }
      i := i + 1;
    }
    return None;
  }

  /**
   * The body of the grouping loop for one accepted file: append its image to
   * the record of its parent, pushing a new record the first time the parent
   * is seen.
   */
  method AddImage(entries: seq<DirEntry>, ghost hs: seq<Hit>, path: string, parent: string)
    returns (entries': seq<DirEntry>)
    requires entries == Grouped(hs)
    ensures entries' == Grouped(hs + [Hit(path, parent)])
  {
    var index := FindDir(entries, parent);
    var k: nat;
    entries' := entries;
    if index.Some? {
      k := index.value;
      GroupedSnocKnown(hs, Hit(path, parent), k);
    } else {
      GroupedSnocNew(hs, Hit(path, parent));
      entries' := entries' + [DirEntry(parent, [])];
      k := |entries'| - 1;
    }
    entries' := entries'[k := entries'[k].(imageEntries := entries'[k].imageEntries + [ImageEntry(path, None)])];
  }

  /** One step of `Hits` from position `i` of the filtered walk. */
  lemma HitsStep(items: seq<WalkItem>, i: nat)
    requires i < |items|
    ensures var e := items[i];
      Hits(items[i..]) ==
        if e.Failed? || e.isDir then Hits(items[i + 1..])
        else if e.parent.None? then Err(NoParent)
        else Prepend([Hit(e.path, e.parent.value)], Hits(items[i + 1..]))
  {
    assert items[i..][1..] == items[i + 1..];
  }

  /**
   * The loop of `DirEntry::search` over the filtered walk, followed by the
   * `retain` of non-empty records.
   */
  method GroupEntries(items: seq<WalkItem>) returns (r: Result<seq<DirEntry>, ScanError>)
    ensures r == GroupHits(items)
  {
    var entries: seq<DirEntry> := [];
    ghost var hs: seq<Hit> := [];
    var i := 0;
    assert items[i..] == items;
    match Hits(items) {
      case Ok(all) => assert [] + all == all;
      case Err(_) =>
    }
    while i < |items|
      invariant 0 <= i <= |items|
      invariant Hits(items) == Prepend(hs, Hits(items[i..]))
      invariant entries == Grouped(hs)
    {
      var e := items[i];
      HitsStep(items, i);
      if e.Item? && !e.isDir {
        if e.parent.None? {
          assert Hits(items) == Err(NoParent);
          return Err(NoParent);
        }
        entries := AddImage(entries, hs, e.path, e.parent.value);
        PrependAssociative(hs, Hit(e.path, e.parent.value), Hits(items[i + 1..]));
        hs := hs + [Hit(e.path, e.parent.value)];
      }
      i := i + 1;
    }
    assert items[i..] == [];
    assert hs + [] == hs;
    assert Hits(items) == Ok(hs);
    GroupedNonEmpty(hs);
    RetainAllNonEmpty(entries);
    entries := RetainNonEmpty(entries);
    return Ok(entries);
  }

  /**
   * `DirEntry::search`. `rootAbsolute` is `to_absolute(root)` (None when it
   * fails); `walk` is what WalkDir yields from the root. The records are
   * exactly the grouping of the accepted image files.
   */
  method Search(rootAbsolute: Option<string>, config: AppConfig, walk: seq<WalkItem>)
    returns (r: Result<seq<DirEntry>, ScanError>)
    ensures r == Scan(rootAbsolute, config.maxDepth, walk)
  {
    if rootAbsolute.None? {
      return Err(RootUnresolved);
    }
    var maxDepth := CountDepth(rootAbsolute.value) + config.maxDepth;
    r := GroupEntries(FilterEntries(walk, maxDepth, None));
  }

  /** Two images with the same parent make one record, in order. */
  lemma GroupedTwoSiblings(a: string, p1: string, p2: string)
    ensures Grouped([Hit(p1, a), Hit(p2, a)]) == [DirEntry(a, [ImageEntry(p1, None), ImageEntry(p2, None)])]
  {
    var h1, h2 := Hit(p1, a), Hit(p2, a);
    var hs := [h1, h2];
    assert hs[..1] == [h1] && [h1][..0] == [];
    assert Parents(hs) == [a, a];
    assert [a, a][..1] == [a] && [a][..0] == [];
    assert FirstSeen([a]) == [a];
    assert FirstSeen([a, a]) == [a];
    assert ImagesUnder([h1], a) == [ImageEntry(p1, None)];
    assert ImagesUnder(hs, a) == [ImageEntry(p1, None), ImageEntry(p2, None)];
  }
}
