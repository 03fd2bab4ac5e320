/**
 * `natural_sort` (src/main.rs): strings are cut into maximal runs of digits
 * and of non-digits and compared run by run, digit runs by their numeric
 * value. Digits are the ASCII digits.
 */
module NaturalSort {
  import opened Wrappers

  predicate IsDigit(c: char) {
    '0' <= c <= '9'
  }

  /** `^\d+$`: a non-empty run of digits. */
  predicate IsNumber(s: string) {
    |s| > 0 && forall i :: 0 <= i < |s| ==> IsDigit(s[i])
  }

  /** All characters of `s` are digits, or none is. */
  predicate SameKind(s: string) {
    forall i :: 0 <= i < |s| ==> IsDigit(s[i]) == IsDigit(s[0])
  }

  /** The length of the longest prefix of `s` whose characters are of the kind of `s[0]`. */
  function RunLength(s: string): (n: nat)
    requires s != []
    ensures 1 <= n <= |s|
    ensures forall i :: 0 <= i < n ==> IsDigit(s[i]) == IsDigit(s[0])
    ensures n < |s| ==> IsDigit(s[n]) != IsDigit(s[0])
  {
    if |s| == 1 || IsDigit(s[1]) != IsDigit(s[0]) then 1 else 1 + RunLength(s[1..])
  }

  function Concat(parts: seq<string>): string {
    if parts == [] then [] else parts[0] + Concat(parts[1..])
  }

  /** Non-empty runs, each of one kind and of the other kind than the run before it. */
  predicate AlternatingRuns(parts: seq<string>) {
    && (forall i :: 0 <= i < |parts| ==> parts[i] != [] && SameKind(parts[i]))
    && (forall i :: 0 < i < |parts| ==> IsDigit(parts[i - 1][0]) != IsDigit(parts[i][0]))
  }

  /**
   * The matches of `(\d+)|(\D+)` over `s`, in order: alternating runs that
   * together spell `s`.
   */
  function Segments(s: string): (parts: seq<string>)
    decreases |s|
    ensures Concat(parts) == s
    ensures AlternatingRuns(parts)
  {
    if s == [] then []
    else
      var n := RunLength(s);
      var rest := Segments(s[n..]);
      assert s == s[..n] + s[n..];
      assert rest != [] ==> rest[0][0] == s[n];
      [s[..n]] + rest
  }

  /** A prefix of length `k` is the maximal run when it is of one kind and the next character is not. */
  lemma {:induction false} RunLengthIs(s: string, k: nat)
    requires 1 <= k <= |s|
    requires forall i :: 0 <= i < k ==> IsDigit(s[i]) == IsDigit(s[0])
    requires k < |s| ==> IsDigit(s[k]) != IsDigit(s[0])
    ensures RunLength(s) == k
  {
    if k > 1 {
      RunLengthIs(s[1..], k - 1);
    }
  }

  lemma AlternatingRunsTail(parts: seq<string>)
    requires parts != [] && AlternatingRuns(parts)
    ensures AlternatingRuns(parts[1..])
  {
    var rest := parts[1..];
    forall i | 0 < i < |rest|
      ensures IsDigit(rest[i - 1][0]) != IsDigit(rest[i][0])
    {
      assert rest[i - 1] == parts[i] && rest[i] == parts[i + 1];
    }
  }

  /** The first of several alternating runs that spell `s` is the maximal run at the start of `s`. */
  lemma FirstRunIsMaximal(s: string, parts: seq<string>)
    requires parts != [] && Concat(parts) == s && AlternatingRuns(parts)
    ensures |parts[0]| == RunLength(s) && s[..|parts[0]|] == parts[0] && s[|parts[0]|..] == Concat(parts[1..])
  {
    var p, rest := parts[0], parts[1..];
    assert s == p + Concat(rest);
    assert p != [] && SameKind(p);
    if |p| < |s| {
      assert rest != [];
      assert Concat(rest) == rest[0] + Concat(rest[1..]);
      assert s[|p|] == rest[0][0] && rest[0] == parts[1];
    }
    RunLengthIs(s, |p|);
  }

  /** Only the maximal runs spell `s` as alternating runs: `Segments` is the one segmentation. */
  lemma {:induction false} SegmentsUnique(s: string, parts: seq<string>)
    requires Concat(parts) == s && AlternatingRuns(parts)
    ensures parts == Segments(s)
    decreases |s|
  {
    if parts != [] {
      FirstRunIsMaximal(s, parts);
      AlternatingRunsTail(parts);
      var n := |parts[0]|;
      assert s == parts[0] + Concat(parts[1..]);
      assert s[n..] == Concat(parts[1..]);
      SegmentsUnique(s[n..], parts[1..]);
      assert parts == [parts[0]] + parts[1..];
    }
  }

  /** `isize::MAX` on the 64-bit targets. */
  const IsizeMax: int := 0x7FFF_FFFF_FFFF_FFFF

  /** The decimal value of a string of digits. */
  function Value(s: string): nat
    requires forall i :: 0 <= i < |s| ==> IsDigit(s[i])
  {
    if s == [] then 0
    else
      var last := s[|s| - 1];
      assert IsDigit(last);
      10 * Value(s[..|s| - 1]) + ((last as int) - ('0' as int))
  }

  /** `parse::<isize>().unwrap_or(0)` on a digit run: its value, or 0 when that overflows. */
  function ParseIsize(s: string): (v: int)
    requires IsNumber(s)
    ensures 0 <= v <= IsizeMax
    ensures v == Value(s) || (v == 0 && Value(s) > IsizeMax)
  {
    if Value(s) <= IsizeMax then Value(s) else 0
  }

  /** `str::cmp`: lexicographic by character, a proper prefix first. */
  function LexCmp(a: string, b: string): Ordering {
    if a == [] || b == [] then CmpInt(|a|, |b|)
    else if a[0] != b[0] then CmpInt(a[0] as int, b[0] as int)
    else LexCmp(a[1..], b[1..])
  }

  /** The order of two differing runs: numbers by value, a number before text, text by characters. */
  function PartOrder(a: string, b: string): Ordering {
    if IsNumber(a) && IsNumber(b) then CmpInt(ParseIsize(a), ParseIsize(b))
    else if IsNumber(a) then Less
    else if IsNumber(b) then Greater
    else LexCmp(a, b)
  }

  /** Run-by-run comparison: the first pair of runs that differ and do not tie decides; otherwise fewer runs first. */
  function CompareSegments(xs: seq<string>, ys: seq<string>): Ordering {
    if xs == [] || ys == [] then CmpInt(|xs|, |ys|)
    else if xs[0] == ys[0] then CompareSegments(xs[1..], ys[1..])
    else
      var order := PartOrder(xs[0], ys[0]);
      if order != Equal then order else CompareSegments(xs[1..], ys[1..])
  }

  /** The order `natural_sort` computes. */
  function NaturalOrder(a: string, b: string): Ordering {
    CompareSegments(Segments(a), Segments(b))
  }

  /** `natural_sort`: the loop over the shared runs with its early return. */
  method Compare(a: string, b: string) returns (order: Ordering)
    ensures order == NaturalOrder(a, b)
  {
    var aParts := Segments(a);
    var bParts := Segments(b);
    var n := if |aParts| < |bParts| then |aParts| else |bParts|;
    for i := 0 to n
      invariant CompareSegments(aParts, bParts) == CompareSegments(aParts[i..], bParts[i..])
    {
      var aPart, bPart := aParts[i], bParts[i];
      assert aParts[i..][1..] == aParts[i + 1..];
      assert bParts[i..][1..] == bParts[i + 1..];
      if aPart == bPart {
        continue;
      }
      var partOrder := PartOrder(aPart, bPart);
      if partOrder != Equal {
        return partOrder;
      }
    }
    assert aParts[n..] == [] || bParts[n..] == [];
    return CmpInt(|aParts|, |bParts|);
  }

  /** Every string is equal to itself. */
  lemma {:induction false} CompareSegmentsReflexive(xs: seq<string>)
    ensures CompareSegments(xs, xs) == Equal
  {
    if xs != [] {
      CompareSegmentsReflexive(xs[1..]);
    }
  }

  lemma NaturalOrderReflexive(s: string)
    ensures NaturalOrder(s, s) == Equal
  {
    CompareSegmentsReflexive(Segments(s));
  }

  lemma {:induction false} LexCmpAntisymmetric(a: string, b: string)
    ensures LexCmp(b, a) == LexCmp(a, b).Reverse()
  {
    if a != [] && b != [] && a[0] == b[0] {
      LexCmpAntisymmetric(a[1..], b[1..]);
    }
  }

  lemma PartOrderAntisymmetric(a: string, b: string)
    ensures PartOrder(b, a) == PartOrder(a, b).Reverse()
  {
    LexCmpAntisymmetric(a, b);
  }

  lemma {:induction false} CompareSegmentsAntisymmetric(xs: seq<string>, ys: seq<string>)
    ensures CompareSegments(ys, xs) == CompareSegments(xs, ys).Reverse()
  {
    if xs != [] && ys != [] {
      CompareSegmentsAntisymmetric(xs[1..], ys[1..]);
      PartOrderAntisymmetric(xs[0], ys[0]);
    }
  }

  /** Swapping the arguments reverses the order. */
  lemma NaturalOrderAntisymmetric(a: string, b: string)
    ensures NaturalOrder(b, a) == NaturalOrder(a, b).Reverse()
  {
    CompareSegmentsAntisymmetric(Segments(a), Segments(b));
  }

  /**
   * After a common prefix of runs, the first differing pair decides unless
   * it ties (equal numbers written differently), and then the rest decides.
   */
  lemma {:induction false} FirstDifferenceDecides(prefix: seq<string>, x: string, y: string, xs: seq<string>, ys: seq<string>)
    requires x != y
    ensures CompareSegments(prefix + [x] + xs, prefix + [y] + ys) ==
      if PartOrder(x, y) != Equal then PartOrder(x, y) else CompareSegments(xs, ys)
  {
    if prefix != [] {
      assert (prefix + [x] + xs)[1..] == prefix[1..] + [x] + xs;
      assert (prefix + [y] + ys)[1..] == prefix[1..] + [y] + ys;
      FirstDifferenceDecides(prefix[1..], x, y, xs, ys);
    } else {
      assert ([x] + xs)[1..] == xs;
      assert ([y] + ys)[1..] == ys;
    }
  }

  /** `str::cmp` calls two strings equal only when they are the same string. */
  lemma {:induction false} LexCmpEqual(a: string, b: string)
    ensures LexCmp(a, b) == Equal <==> a == b
  {
    if a != [] && b != [] && a[0] == b[0] {
      LexCmpEqual(a[1..], b[1..]);
      assert a == [a[0]] + a[1..] && b == [b[0]] + b[1..];
    }
  }

  /** Every run ties with itself. */
  lemma PartOrderReflexive(x: string)
    ensures PartOrder(x, x) == Equal
  {
    LexCmpEqual(x, x);
  }

  /** `str::cmp` is transitive: not after and not after gives not after. */
  lemma {:induction false} LexCmpTransitive(a: string, b: string, c: string)
    requires LexCmp(a, b) != Greater && LexCmp(b, c) != Greater
    ensures LexCmp(a, c) != Greater
  {
    if a != [] && b != [] && c != [] && a[0] == b[0] && b[0] == c[0] {
      LexCmpTransitive(a[1..], b[1..], c[1..]);
    }
  }

  /** The order of runs is transitive. */
  lemma PartOrderTransitive(x: string, y: string, z: string)
    requires PartOrder(x, y) != Greater && PartOrder(y, z) != Greater
    ensures PartOrder(x, z) != Greater
  {
    if !IsNumber(x) && !IsNumber(y) && !IsNumber(z) {
      LexCmpTransitive(x, y, z);
    }
  }

  lemma {:induction false} CompareSegmentsTransitive(xs: seq<string>, ys: seq<string>, zs: seq<string>)
    requires CompareSegments(xs, ys) != Greater && CompareSegments(ys, zs) != Greater
    ensures CompareSegments(xs, zs) != Greater
  {
    if xs != [] && ys != [] && zs != [] {
      var x, y, z := xs[0], ys[0], zs[0];
      PartOrderReflexive(x);
      PartOrderReflexive(y);
      assert PartOrder(x, y) != Greater && PartOrder(y, z) != Greater;
      PartOrderTransitive(x, y, z);
      if PartOrder(x, z) == Equal {
        PartOrderAntisymmetric(x, z);
        PartOrderAntisymmetric(x, y);
        PartOrderAntisymmetric(y, z);
        PartOrderTransitive(y, z, x);
        PartOrderTransitive(z, x, y);
        assert PartOrder(x, y) == Equal && PartOrder(y, z) == Equal;
        CompareSegmentsTransitive(xs[1..], ys[1..], zs[1..]);
      }
    }
  }

  /**
   * The natural order is transitive, so together with reflexivity and
   * antisymmetry it is a total preorder, as `sort_by` needs.
   */
  lemma NaturalOrderTransitive(a: string, b: string, c: string)
    requires NaturalOrder(a, b) != Greater && NaturalOrder(b, c) != Greater
    ensures NaturalOrder(a, c) != Greater
  {
    CompareSegmentsTransitive(Segments(a), Segments(b), Segments(c));
  }

  /**
   * The first differing runs of two names decide by their kinds: a digit run
   * sorts before a text run, two text runs by their characters (never a
   * tie), two digit runs by value when the values differ.
   */
  lemma FirstDifferingRuns(a: string, b: string, prefix: seq<string>, x: string, y: string, xs: seq<string>, ys: seq<string>)
    requires Segments(a) == prefix + [x] + xs && Segments(b) == prefix + [y] + ys && x != y
    ensures IsNumber(x) && !IsNumber(y) ==> NaturalOrder(a, b) == Less
    ensures !IsNumber(x) && IsNumber(y) ==> NaturalOrder(a, b) == Greater
    ensures !IsNumber(x) && !IsNumber(y) ==> NaturalOrder(a, b) == LexCmp(x, y) != Equal
    ensures IsNumber(x) && IsNumber(y) && ParseIsize(x) != ParseIsize(y) ==>
      NaturalOrder(a, b) == CmpInt(ParseIsize(x), ParseIsize(y))
  {
    FirstDifferenceDecides(prefix, x, y, xs, ys);
    LexCmpEqual(x, y);
  }

  /**
   * When the shorter run list ties with the start of the longer one, run by
   * run (equal runs, or numbers of equal value), the shorter sorts first.
   */
  lemma {:induction false} FewerSegmentsFirst(xs: seq<string>, ys: seq<string>)
    requires |xs| < |ys| && forall i :: 0 <= i < |xs| ==> PartOrder(xs[i], ys[i]) == Equal
    ensures CompareSegments(xs, ys) == Less
  {
    if xs != [] {
      assert forall i :: 0 <= i < |xs| - 1 ==> xs[1..][i] == xs[i + 1] && ys[1..][i] == ys[i + 1];
      FewerSegmentsFirst(xs[1..], ys[1..]);
    }
  }

  /** A non-empty run without digits. */
  predicate IsText(s: string) {
    |s| > 0 && forall i :: 0 <= i < |s| ==> !IsDigit(s[i])
  }

  /** Text, then a number, then text: three runs. */
  lemma SegmentsOfTextNumberText(a: string, d: string, b: string)
    requires IsText(a) && IsNumber(d) && IsText(b)
    ensures Segments(a + d + b) == [a, d, b]
  {
    assert Concat([a, d, b]) == a + d + b by {
      assert [a, d, b][1..] == [d, b] && [d, b][1..] == [b] && [b][1..] == [];
      assert Concat([b]) == b + Concat([]) == b;
      assert Concat([d, b]) == d + b;
      assert Concat([a, d, b]) == a + (d + b);
    }
    SegmentsUnique(a + d + b, [a, d, b]);
  }

  /**
   * Names that differ only in a number between the same text compare by the
   * numbers' values (as parsed, so an overflowing number counts as 0).
   */
  lemma NumbersCompareByValue(a: string, m: string, n: string, b: string)
    requires IsText(a) && IsNumber(m) && IsNumber(n) && IsText(b)
    ensures NaturalOrder(a + m + b, a + n + b) == CmpInt(ParseIsize(m), ParseIsize(n))
  {
    SegmentsOfTextNumberText(a, m, b);
    SegmentsOfTextNumberText(a, n, b);
    assert [a, m, b][1..] == [m, b] && [m, b][1..] == [b];
    assert [a, n, b][1..] == [n, b] && [n, b][1..] == [b];
    CompareSegmentsReflexive([b]);
    assert CompareSegments([a, m, b], [a, n, b]) == CompareSegments([m, b], [n, b]);
    if m != n {
      assert PartOrder(m, n) == CmpInt(ParseIsize(m), ParseIsize(n));
    }
  }

  /** `img2.png` sorts before `img10.png`, though plain string order puts it after. */
  lemma NumberedNamesExample(s: string, t: string)
    requires s == "img2.png" && t == "img10.png"
    ensures NaturalOrder(s, t) == Less
  {
    assert s == "img" + "2" + ".png" && t == "img" + "10" + ".png";
    NumbersCompareByValue("img", "2", "10", ".png");
  }

  /** A single run of text is one segment. */
  lemma SegmentsOfText(a: string)
    requires IsText(a)
    ensures Segments(a) == [a]
  {
    assert Concat([a]) == a + Concat([]) == a;
    SegmentsUnique(a, [a]);
  }

  /** Text runs compare by characters: `b.png` sorts after `a10.png`. */
  lemma TextExample(s: string, t: string)
    requires s == "b.png" && t == "a10.png"
    ensures NaturalOrder(s, t) == Greater
  {
    SegmentsOfText(s);
    assert t == "a" + "10" + ".png";
    SegmentsOfTextNumberText("a", "10", ".png");
    assert LexCmp(s, "a") == Greater;
  }

  /**
   * Two digit runs with the same value but different spelling tie, and the
   * text runs after them decide.
   */
  lemma TiedNumbersFallThrough(a: string, m: string, n: string, b: string, c: string)
    requires IsText(a) && IsNumber(m) && IsNumber(n) && IsText(b) && IsText(c)
    requires m != n && ParseIsize(m) == ParseIsize(n)
    ensures NaturalOrder(a + m + b, a + n + c) == LexCmp(b, c)
  {
    SegmentsOfTextNumberText(a, m, b);
    SegmentsOfTextNumberText(a, n, c);
    FirstDifferenceDecides([a], m, n, [b], [c]);
    assert [a] + [m] + [b] == [a, m, b];
    assert [a] + [n] + [c] == [a, n, c];
    assert PartOrder(m, n) == Equal;
    assert NaturalOrder(a + m + b, a + n + c) == CompareSegments([b], [c]);
    assert [b][1..] == [] && [c][1..] == [];
    if b == c {
      LexCmpAntisymmetric(b, b);
    } else {
      assert CompareSegments([b], [c]) == PartOrder(b, c);
    }
  }

  /** `a01b` sorts before `a1c`: the numbers tie at 1 and `b` precedes `c`. */
  lemma LeadingZerosFallThrough(s: string, t: string)
    requires s == "a01b" && t == "a1c"
    ensures NaturalOrder(s, t) == Less
  {
    assert s == "a" + "01" + "b" && t == "a" + "1" + "c";
    assert Value("0") == 0;
    assert Value("01") == 1 && Value("1") == 1;
    TiedNumbersFallThrough("a", "01", "1", "b", "c");
  }

  /** `a01.png` and `a1.png` compare equal. */
  lemma LeadingZerosTie(u: string, v: string)
    requires u == "a01.png" && v == "a1.png"
    ensures NaturalOrder(u, v) == Equal
  {
    assert u == "a" + "01" + ".png" && v == "a" + "1" + ".png";
    NumbersCompareByValue("a", "01", "1", ".png");
    assert Value("0") == 0;
    assert Value("01") == 1 && Value("1") == 1;
  }

  /** A single digit run is one segment. */
  lemma SegmentsOfNumber(d: string)
    requires IsNumber(d)
    ensures Segments(d) == [d]
  {
    assert Concat([d]) == d + Concat([]) == d;
    SegmentsUnique(d, [d]);
  }

  /** Text, then a number: two runs. */
  lemma SegmentsOfTextNumber(a: string, d: string)
    requires IsText(a) && IsNumber(d)
    ensures Segments(a + d) == [a, d]
  {
    assert Concat([a, d]) == a + d by {
      assert [a, d][1..] == [d] && [d][1..] == [];
      assert Concat([d]) == d + Concat([]) == d;
      assert Concat([a, d]) == a + Concat([d]);
    }
    SegmentsUnique(a + d, [a, d]);
  }

  /** `9` sorts before `!`, though `!` comes first by character: a digit run precedes text. */
  lemma NumberBeforeTextExample(s: string, t: string)
    requires s == "9" && t == "!"
    ensures NaturalOrder(s, t) == Less && LexCmp(s, t) == Greater
  {
    SegmentsOfNumber(s);
    SegmentsOfText(t);
    FirstDifferingRuns(s, t, [], s, t, [], []);
  }

  /**
   * Text and a number sort before the same text, a number of equal value and
   * more text: the runs tie and the shorter list comes first.
   */
  lemma TiedPrefixShorterFirst(a: string, m: string, n: string, b: string)
    requires IsText(a) && IsNumber(m) && IsNumber(n) && IsText(b) && ParseIsize(m) == ParseIsize(n)
    ensures NaturalOrder(a + m, a + n + b) == Less
  {
    SegmentsOfTextNumber(a, m);
    SegmentsOfTextNumberText(a, n, b);
    PartOrderReflexive(a);
    FewerSegmentsFirst([a, m], [a, n, b]);
  }

  /** `a01` sorts before `a1b`: its runs tie with the first two of `a1b`, and it has fewer. */
  lemma TiedPrefixExample(s: string, t: string)
    requires s == "a01" && t == "a1b"
    ensures NaturalOrder(s, t) == Less
  {
    assert s == "a" + "01" && t == "a" + "1" + "b";
    assert Value("0") == 0;
    assert Value("01") == 1 && Value("1") == 1;
    TiedPrefixShorterFirst("a", "01", "1", "b");
  }

  function Pow10(k: nat): (p: nat)
    ensures p >= 1
  {
    if k == 0 then 1 else 10 * Pow10(k - 1)
  }

  lemma {:induction false} Pow10Add(j: nat, k: nat)
    ensures Pow10(j + k) == Pow10(j) * Pow10(k)
  {
    if k > 0 {
      Pow10Add(j, k - 1);
    }
  }

  /** A run of `k` nines has the value 10^k - 1. */
  lemma {:induction false} ValueOfNines(s: string)
    requires forall i :: 0 <= i < |s| ==> s[i] == '9'
    ensures Value(s) + 1 == Pow10(|s|)
  {
    if s != [] {
      ValueOfNines(s[..|s| - 1]);
    }
  }

  /** A digit run too large for `isize` counts as 0, so it sorts before 5 and ties with 0. */
  lemma OverflowExample(big: string, s: string, t: string, u: string)
    requires big == "99999999999999999999"
    requires s == "n" + big + ".png" && t == "n5.png" && u == "n0.png"
    ensures NaturalOrder(s, t) == Less
    ensures NaturalOrder(s, u) == Equal
  {
    ValueOfNines(big);
    Pow10Add(10, 10);
    Pow10Add(5, 5);
    assert Pow10(5) == 100000;
    assert ParseIsize(big) == 0;
    assert t == "n" + "5" + ".png" && u == "n" + "0" + ".png";
    assert Value("5") == 5 && Value("0") == 0;
    NumbersCompareByValue("n", big, "5", ".png");
    NumbersCompareByValue("n", big, "0", ".png");
  }
}
