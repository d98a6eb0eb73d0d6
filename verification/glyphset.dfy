/**
 * The GlyphSet of ttf2c: three passes over the font's glyph metrics that
 * fix a shared maximum width, baseline, kerning and maximum height, one
 * boolean canvas per glyph, and the flip, inverse and pack operations on
 * those canvases.
 *
 * FreeType is replaced by a Font value that hands out a Metrics record per
 * code point; the record holds exactly the fields the passes read.
 */
module GlyphSets {
  import opened Wrappers
  import opened Bits
  import opened Grids

  // ---------------------------------------------------------------------------
  // Font and glyph metrics
  // ---------------------------------------------------------------------------

  /** One glyph as FreeType loads it in monochrome mode. */
  datatype Metrics = Metrics(
    outlineWidth: int,    // slot.metrics.width, 26.6 fixed point
    outlineHeight: int,   // slot.metrics.height, 26.6 fixed point
    width: nat,           // bitmap.width, pixels
    rows: nat,            // bitmap.rows, pixels
    pitch: nat,           // bytes per bitmap row
    top: int,             // slot.bitmap_top, pixels above the baseline
    advanceX: int,        // slot.advance.x, 26.6 fixed point
    horiBearingX: int,    // slot.metrics.horiBearingX, 26.6 fixed point
    buffer: seq<Byte>)    // rows * pitch bytes, MSB-first pixels

  /**
   * A face at the requested pixel size: its own list of code points, the
   * glyph of every mapped code point, and the glyph an unmapped code point
   * loads (glyph index 0).
   */
  datatype Font = Font(codePoints: seq<int>, glyphs: map<int, Metrics>, notdef: Metrics)

  function Load(font: Font, c: int): Metrics
  {
    if c in font.glyphs then font.glyphs[c] else font.notdef
  }

  /** A glyph with an empty outline box is dropped from the glyph set. */
  predicate Degenerate(m: Metrics)
  {
    m.outlineWidth == 0 || m.outlineHeight == 0
  }

  /** Python's x // 64: floor division, also for negative x. */
  function FloorDiv64(x: int): (q: int)
    ensures 64 * q <= x < 64 * q + 64
  {
    x / 64
  }

  /** Horizontal space the glyph leaves beside its bitmap, in pixels. */
  function Kerning(m: Metrics): (k: int)
    ensures 64 * (k + m.width) <= m.advanceX + m.horiBearingX < 64 * (k + m.width) + 128
  {
    FloorDiv64(m.advanceX) - m.width + FloorDiv64(m.horiBearingX)
  }

  /** How far the bitmap reaches below the baseline, never negative. */
  function Overhang(m: Metrics): nat
  {
    if m.rows - m.top > 0 then m.rows - m.top else 0
  }

  /** Width of the space character: the advance of code point 32 in whole pixels. */
  function SpaceWidth(font: Font): (w: int)
    ensures 64 * w <= Load(font, 32).advanceX < 64 * w + 64
  {
    FloorDiv64(Load(font, 32).advanceX)
  }

  // ---------------------------------------------------------------------------
  // Pass 1: drop degenerate glyphs, measure width, baseline and kerning
  // ---------------------------------------------------------------------------

  /** Python's list.remove: the first occurrence of x goes. */
  function RemoveFirst(s: seq<int>, x: int): (r: seq<int>)
    requires x in s
    ensures |r| == |s| - 1
  {
    var p := FirstIndex(s, x);
    s[..p] + s[p + 1..]
  }

  /** The state pass 1 works on: the glyph list, the kerning list and two running maxima. */
  datatype Scan = Scan(charSet: seq<int>, kerning: seq<int>, maxWidth: nat, baseline: nat)

  /**
   * Pass 1 from list index i on, stepping as Python's list iterator does:
   * a degenerate glyph is removed from the list being iterated, yet the
   * index still advances, so the code point that moved into its place is
   * not looked at.
   */
  function ScanFrom(font: Font, s: Scan, i: nat): (r: Scan)
    ensures |r.charSet| <= |s.charSet|
    ensures r.maxWidth >= s.maxWidth && r.baseline >= s.baseline
    ensures s.kerning <= r.kerning
    decreases |s.charSet| + 1 - i
  {
    if i >= |s.charSet| then s
    else
      var m := Load(font, s.charSet[i]);
      if Degenerate(m) then
        ScanFrom(font, s.(charSet := RemoveFirst(s.charSet, s.charSet[i])), i + 1)
      else
        ScanFrom(font, Scan(s.charSet, s.kerning + [Kerning(m)], Max(s.maxWidth, m.width),
                            Max(s.baseline, Overhang(m))), i + 1)
  }

  predicate Distinct(s: seq<int>)
  {
    forall i, j :: 0 <= i < j < |s| ==> s[i] != s[j]
  }

  /**
   * Reference description of the glyph list pass 1 leaves, read off the
   * original list: a degenerate glyph is dropped and its successor is kept
   * unexamined.
   */
  function Kept(font: Font, cs: seq<int>): (r: seq<int>)
    ensures |r| <= |cs|
  {
    if |cs| == 0 then []
    else if Degenerate(Load(font, cs[0])) then
      if |cs| == 1 then [] else [cs[1]] + Kept(font, cs[2..])
    else [cs[0]] + Kept(font, cs[1..])
  }

  /** Reference description of the glyphs pass 1 measures, in order. */
  function Measured(font: Font, cs: seq<int>): (r: seq<int>)
    ensures |r| <= |cs|
  {
    if |cs| == 0 then []
    else if Degenerate(Load(font, cs[0])) then
      if |cs| == 1 then [] else Measured(font, cs[2..])
    else [cs[0]] + Measured(font, cs[1..])
  }

  function Kernings(font: Font, ms: seq<int>): (k: seq<int>)
    ensures |k| == |ms|
    ensures forall i :: 0 <= i < |ms| ==> k[i] == Kerning(Load(font, ms[i]))
  {
    if |ms| == 0 then [] else [Kerning(Load(font, ms[0]))] + Kernings(font, ms[1..])
  }

  /** The largest bitmap width among ms, or w0 if that is larger. */
  function WidestFrom(font: Font, ms: seq<int>, w0: nat): (w: nat)
    ensures w >= w0
  {
    if |ms| == 0 then w0
    else WidestFrom(font, ms[1..], Max(w0, Load(font, ms[0]).width))
  }

  /** WidestFrom is the maximum: no measured glyph is wider, and it is w0 or some glyph's width. */
  lemma {:induction false} WidestIsMaximum(font: Font, ms: seq<int>, w0: nat)
    ensures forall c :: c in ms ==> Load(font, c).width <= WidestFrom(font, ms, w0)
    ensures WidestFrom(font, ms, w0) == w0 || exists c :: c in ms && WidestFrom(font, ms, w0) == Load(font, c).width
  {
    if |ms| > 0 {
      WidestIsMaximum(font, ms[1..], Max(w0, Load(font, ms[0]).width));
      assert forall c :: c in ms ==> c == ms[0] || c in ms[1..];
    }
  }

  /** The largest overhang among ms, or b0 if that is larger. */
  function DeepestFrom(font: Font, ms: seq<int>, b0: nat): (b: nat)
    ensures b >= b0
  {
    if |ms| == 0 then b0
    else DeepestFrom(font, ms[1..], Max(b0, Overhang(Load(font, ms[0]))))
  }

  /** DeepestFrom is the maximum overhang of the measured glyphs, or b0. */
  lemma {:induction false} DeepestIsMaximum(font: Font, ms: seq<int>, b0: nat)
    ensures forall c :: c in ms ==> Overhang(Load(font, c)) <= DeepestFrom(font, ms, b0)
    ensures DeepestFrom(font, ms, b0) == b0 || exists c :: c in ms && DeepestFrom(font, ms, b0) == Overhang(Load(font, c))
  {
    if |ms| > 0 {
      DeepestIsMaximum(font, ms[1..], Max(b0, Overhang(Load(font, ms[0]))));
      assert forall c :: c in ms ==> c == ms[0] || c in ms[1..];
    }
  }

  /** Only degenerate glyphs leave the list, and only glyphs with an outline are measured. */
  lemma {:induction false} KeptAndMeasured(font: Font, cs: seq<int>)
    ensures forall c :: c in Kept(font, cs) ==> c in cs
    ensures forall c :: c in cs ==> c in Kept(font, cs) || Degenerate(Load(font, c))
    ensures forall c :: c in Measured(font, cs) ==> c in Kept(font, cs) && !Degenerate(Load(font, c))
    decreases |cs|
  {
    if |cs| == 1 {
      assert forall c :: c in cs ==> c == cs[0];
    } else if |cs| >= 2 {
      if Degenerate(Load(font, cs[0])) {
        KeptAndMeasured(font, cs[2..]);
        assert forall c :: c in cs ==> c == cs[0] || c == cs[1] || c in cs[2..];
      } else {
        KeptAndMeasured(font, cs[1..]);
        assert forall c :: c in cs ==> c == cs[0] || c in cs[1..];
      }
    }
  }

  lemma DistinctTail(prefix: seq<int>, x: int, rest: seq<int>)
    requires Distinct(prefix + [x] + rest)
    ensures Distinct(prefix + rest)
  {
    var a := prefix + [x] + rest;
    var b := prefix + rest;
    forall i, j | 0 <= i < j < |b|
      ensures b[i] != b[j]
    {
      var i' := if i < |prefix| then i else i + 1;
      var j' := if j < |prefix| then j else j + 1;
      assert b[i] == a[i'] && b[j] == a[j'];
    }
  }

  lemma RemoveAt(prefix: seq<int>, rest: seq<int>)
    requires |rest| > 0 && Distinct(prefix + rest)
    ensures RemoveFirst(prefix + rest, rest[0]) == prefix + rest[1..]
  {
    var cs := prefix + rest;
    assert cs[|prefix|] == rest[0];
    var p := FirstIndex(cs, rest[0]);
    assert forall i :: 0 <= i < p ==> cs[..p][i] == cs[i];
    assert p == |prefix|;
    assert cs[..p] == prefix && cs[p + 1..] == rest[1..];
  }

  lemma ScanDropStep(font: Font, prefix: seq<int>, rest: seq<int>, k: seq<int>, w: nat, b: nat)
    requires |rest| > 0 && Distinct(prefix + rest) && Degenerate(Load(font, rest[0]))
    ensures ScanFrom(font, Scan(prefix + rest, k, w, b), |prefix|) ==
            ScanFrom(font, Scan(prefix + rest[1..], k, w, b), |prefix| + 1)
  {
    assert (prefix + rest)[|prefix|] == rest[0];
    RemoveAt(prefix, rest);
  }

  lemma ScanMeasureStep(font: Font, prefix: seq<int>, rest: seq<int>, k: seq<int>, w: nat, b: nat)
    requires |rest| > 0 && !Degenerate(Load(font, rest[0]))
    ensures var m := Load(font, rest[0]);
      ScanFrom(font, Scan(prefix + rest, k, w, b), |prefix|) ==
      ScanFrom(font, Scan(prefix + rest, k + [Kerning(m)], Max(w, m.width), Max(b, Overhang(m))), |prefix| + 1)
  {
    assert (prefix + rest)[|prefix|] == rest[0];
  }

  /** Pass 1 from the start of rest equals the reference description on rest. */
  lemma {:induction false} ScanMatchesReference(font: Font, prefix: seq<int>, rest: seq<int>,
                                               k: seq<int>, w: nat, b: nat)
    requires Distinct(prefix + rest)
    ensures ScanFrom(font, Scan(prefix + rest, k, w, b), |prefix|) ==
      Scan(prefix + Kept(font, rest), k + Kernings(font, Measured(font, rest)),
           WidestFrom(font, Measured(font, rest), w), DeepestFrom(font, Measured(font, rest), b))
    decreases |rest|, 2
  {
    if |rest| == 0 {
      assert prefix + rest == prefix && k + [] == k;
    } else if Degenerate(Load(font, rest[0])) {
      ScanMatchesDrop(font, prefix, rest, k, w, b);
    } else {
      ScanMatchesMeasure(font, prefix, rest, k, w, b);
    }
  }

  lemma {:induction false} ScanMatchesDrop(font: Font, prefix: seq<int>, rest: seq<int>,
                                          k: seq<int>, w: nat, b: nat)
    requires Distinct(prefix + rest) && |rest| > 0 && Degenerate(Load(font, rest[0]))
    ensures ScanFrom(font, Scan(prefix + rest, k, w, b), |prefix|) ==
      Scan(prefix + Kept(font, rest), k + Kernings(font, Measured(font, rest)),
           WidestFrom(font, Measured(font, rest), w), DeepestFrom(font, Measured(font, rest), b))
    decreases |rest|, 1
  {
    ScanDropStep(font, prefix, rest, k, w, b);
    if |rest| == 1 {
      assert prefix + rest[1..] == prefix && k + [] == k;
    } else {
      ScanMatchesSkip(font, prefix, rest, k, w, b);
    }
  }

  /** After a dropped glyph pass 1 skips the next one, which stays in the list. */
  lemma {:induction false} ScanMatchesSkip(font: Font, prefix: seq<int>, rest: seq<int>,
                                          k: seq<int>, w: nat, b: nat)
    requires Distinct(prefix + rest) && |rest| >= 2 && Degenerate(Load(font, rest[0]))
    ensures ScanFrom(font, Scan(prefix + rest[1..], k, w, b), |prefix| + 1) ==
      Scan(prefix + Kept(font, rest), k + Kernings(font, Measured(font, rest)),
           WidestFrom(font, Measured(font, rest), w), DeepestFrom(font, Measured(font, rest), b))
    decreases |rest|, 0
  {
    DropMoreShapes(prefix, rest);
    ScanMatchesReference(font, prefix + [rest[1]], rest[2..], k, w, b);
    ReferenceSkip(font, prefix, rest, k, w, b);
  }

  /** The reference description past a dropped glyph and the one it makes pass 1 skip. */
  lemma ReferenceSkip(font: Font, prefix: seq<int>, rest: seq<int>, k: seq<int>, w: nat, b: nat)
    requires |rest| >= 2 && Degenerate(Load(font, rest[0]))
    ensures Scan(prefix + Kept(font, rest), k + Kernings(font, Measured(font, rest)),
                 WidestFrom(font, Measured(font, rest), w), DeepestFrom(font, Measured(font, rest), b)) ==
            Scan((prefix + [rest[1]]) + Kept(font, rest[2..]), k + Kernings(font, Measured(font, rest[2..])),
                 WidestFrom(font, Measured(font, rest[2..]), w), DeepestFrom(font, Measured(font, rest[2..]), b))
  {
    ReferenceDropStep(font, rest);
    assert prefix + Kept(font, rest) == (prefix + [rest[1]]) + Kept(font, rest[2..]);
  }

  lemma DropMoreShapes(prefix: seq<int>, rest: seq<int>)
    requires Distinct(prefix + rest) && |rest| >= 2
    ensures prefix + rest[1..] == (prefix + [rest[1]]) + rest[2..]
    ensures Distinct((prefix + [rest[1]]) + rest[2..])
  {
    assert prefix + [rest[0]] + rest[1..] == prefix + rest;
    DistinctTail(prefix, rest[0], rest[1..]);
    assert prefix + rest[1..] == (prefix + [rest[1]]) + rest[2..];
  }

  lemma {:induction false} ScanMatchesMeasure(font: Font, prefix: seq<int>, rest: seq<int>,
                                             k: seq<int>, w: nat, b: nat)
    requires Distinct(prefix + rest) && |rest| > 0 && !Degenerate(Load(font, rest[0]))
    ensures ScanFrom(font, Scan(prefix + rest, k, w, b), |prefix|) ==
      Scan(prefix + Kept(font, rest), k + Kernings(font, Measured(font, rest)),
           WidestFrom(font, Measured(font, rest), w), DeepestFrom(font, Measured(font, rest), b))
    decreases |rest|, 0
  {
    var m := Load(font, rest[0]);
    var prefix' := prefix + [rest[0]];
    ScanMeasureStep(font, prefix, rest, k, w, b);
    assert prefix + rest == prefix' + rest[1..];
    ScanMatchesReference(font, prefix', rest[1..], k + [Kerning(m)], Max(w, m.width), Max(b, Overhang(m)));
    ReferenceMeasureStep(font, rest, k, w, b);
    assert prefix' + Kept(font, rest[1..]) == prefix + Kept(font, rest);
  }

  /** One step of the reference description past a dropped glyph. */
  lemma ReferenceDropStep(font: Font, rest: seq<int>)
    requires |rest| >= 2 && Degenerate(Load(font, rest[0]))
    ensures Kept(font, rest) == [rest[1]] + Kept(font, rest[2..])
    ensures Measured(font, rest) == Measured(font, rest[2..])
  {
  }

  /** The reference lists past a measured glyph. */
  lemma ReferenceListsStep(font: Font, rest: seq<int>)
    requires |rest| > 0 && !Degenerate(Load(font, rest[0]))
    ensures Kept(font, rest) == [rest[0]] + Kept(font, rest[1..])
    ensures Measured(font, rest) == [rest[0]] + Measured(font, rest[1..])
  {
  }

  /** One step of the reference description past a measured glyph. */
  lemma ReferenceMeasureStep(font: Font, rest: seq<int>, k: seq<int>, w: nat, b: nat)
    requires |rest| > 0 && !Degenerate(Load(font, rest[0]))
    ensures Kept(font, rest) == [rest[0]] + Kept(font, rest[1..])
    ensures k + Kernings(font, Measured(font, rest)) ==
            (k + [Kerning(Load(font, rest[0]))]) + Kernings(font, Measured(font, rest[1..]))
    ensures WidestFrom(font, Measured(font, rest), w) ==
            WidestFrom(font, Measured(font, rest[1..]), Max(w, Load(font, rest[0]).width))
    ensures DeepestFrom(font, Measured(font, rest), b) ==
            DeepestFrom(font, Measured(font, rest[1..]), Max(b, Overhang(Load(font, rest[0]))))
  {
    var m := Load(font, rest[0]);
    var ms := Measured(font, rest[1..]);
    ReferenceListsStep(font, rest);
    var all := [rest[0]] + ms;
    assert all[1..] == ms && all[0] == rest[0] && |all| > 0;
    assert Kernings(font, all) == [Kerning(m)] + Kernings(font, ms);
    assert k + ([Kerning(m)] + Kernings(font, ms)) == (k + [Kerning(m)]) + Kernings(font, ms);
  }

  /**
   * Pass 1 over a list of distinct code points: the list left behind is
   * Kept, the kerning list has one entry per Measured glyph, and the width
   * and baseline are the maxima over the measured glyphs, starting from 0.
   */
  lemma PassOneReference(font: Font, cs: seq<int>)
    requires Distinct(cs)
    ensures ScanFrom(font, Scan(cs, [], 0, 0), 0) ==
      Scan(Kept(font, cs), Kernings(font, Measured(font, cs)),
           WidestFrom(font, Measured(font, cs), 0), DeepestFrom(font, Measured(font, cs), 0))
  {
    assert [] + cs == cs;
    ScanMatchesReference(font, [], cs, [], 0, 0);
    assert [] + Kept(font, cs) == Kept(font, cs);
    assert [] + Kernings(font, Measured(font, cs)) == Kernings(font, Measured(font, cs));
  }

  /** The glyph after a dropped one stays in the list whatever its metrics, and is not measured. */
  lemma DroppedGlyphHidesNext(font: Font, a: int, b: int, rest: seq<int>)
    requires Degenerate(Load(font, a))
    ensures Kept(font, [a, b] + rest) == [b] + Kept(font, rest)
    ensures Measured(font, [a, b] + rest) == Measured(font, rest)
  {
    var cs := [a, b] + rest;
    assert cs[0] == a && cs[1] == b && cs[2..] == rest;
  }

  /** Without degenerate glyphs pass 1 keeps and measures every glyph. */
  lemma {:induction false} NothingDropped(font: Font, cs: seq<int>)
    requires forall c :: c in cs ==> !Degenerate(Load(font, c))
    ensures Kept(font, cs) == cs && Measured(font, cs) == cs
  {
    if |cs| > 0 {
      assert cs == [cs[0]] + cs[1..];
      NothingDropped(font, cs[1..]);
    }
  }

  // ---------------------------------------------------------------------------
  // Median of the kerning list
  // ---------------------------------------------------------------------------

  predicate SortedInts(s: seq<int>)
  {
    forall i, j :: 0 <= i < j < |s| ==> s[i] <= s[j]
  }

  function InsertInt(s: seq<int>, x: int): (r: seq<int>)
    requires SortedInts(s)
    ensures |r| == |s| + 1
    ensures r[0] == x || (|s| > 0 && r[0] == s[0])
    ensures SortedInts(r) && multiset(r) == multiset(s) + multiset{x}
  {
    if |s| == 0 then [x]
    else if x <= s[0] then
      PrependSorted(x, s);
      [x] + s
    else
      assert s == [s[0]] + s[1..];
      var r := InsertInt(s[1..], x);
      PrependSorted(s[0], r);
      assert multiset([s[0]] + r) == multiset{s[0]} + multiset(r);
      [s[0]] + r
  }

  lemma PrependSorted(h: int, r: seq<int>)
    requires SortedInts(r) && |r| > 0 && h <= r[0]
    ensures SortedInts([h] + r)
  {
    forall i, j | 0 <= i < j < |r| + 1
      ensures ([h] + r)[i] <= ([h] + r)[j]
    {
      assert ([h] + r)[j] == r[j - 1];
    }
  }

  /** sorted(l): the ordered permutation of l. */
  function SortInts(l: seq<int>): (r: seq<int>)
    ensures |r| == |l|
    ensures SortedInts(r) && multiset(r) == multiset(l)
  {
    if |l| == 0 then []
    else
      assert l == l[..|l| - 1] + [l[|l| - 1]];
      InsertInt(SortInts(l[..|l| - 1]), l[|l| - 1])
  }

  lemma SortedHeads(a: seq<int>, b: seq<int>)
    requires SortedInts(a) && SortedInts(b) && multiset(a) == multiset(b) && |a| > 0 && |b| > 0
    ensures a[0] == b[0]
  {
    assert a[0] in multiset(b) && b[0] in multiset(a);
    var j :| 0 <= j < |b| && b[j] == a[0];
    var i :| 0 <= i < |a| && a[i] == b[0];
    assert b[0] <= b[j] && a[0] <= a[i];
  }

  /** There is only one ordered arrangement of a multiset. */
  lemma {:induction false} SortedPermutationUnique(a: seq<int>, b: seq<int>)
    requires SortedInts(a) && SortedInts(b) && multiset(a) == multiset(b)
    ensures a == b
  {
    assert |a| == |multiset(a)| && |b| == |multiset(b)|;
    if |a| > 0 {
      SortedHeads(a, b);
      SortedTail(a);
      SortedTail(b);
      SortedPermutationUnique(a[1..], b[1..]);
    }
  }

  /** Dropping the head of a sorted sequence leaves a sorted sequence holding the rest. */
  lemma SortedTail(a: seq<int>)
    requires SortedInts(a) && |a| > 0
    ensures a == [a[0]] + a[1..] && SortedInts(a[1..])
    ensures multiset(a[1..]) == multiset(a) - multiset{a[0]}
  {
    assert a == [a[0]] + a[1..];
  }

  /** int() of a float: halving truncated toward zero. */
  function HalfTowardZero(x: int): (h: int)
    ensures x >= 0 ==> 2 * h <= x < 2 * h + 2
    ensures x < 0 ==> 2 * h - 2 < x <= 2 * h
  {
    if x >= 0 then x / 2 else -((-x) / 2)
  }

  /**
   * v is the median of the sorted, non-empty list s: its middle element for
   * an odd count, the sum of its two middle elements halved toward zero for
   * an even count, and in both cases between the two middle elements.
   */
  predicate IsMiddle(s: seq<int>, v: int)
    requires |s| > 0
  {
    && s[(|s| - 1) / 2] <= v <= s[|s| / 2]
    && (|s| % 2 == 1 ==> v == s[|s| / 2])
    && (|s| % 2 == 0 ==> v == HalfTowardZero(s[|s| / 2 - 1] + s[|s| / 2]))
  }

  /** The middle value of a sorted list, or the mean of its two middle values truncated toward zero. */
  function Middle(s: seq<int>): (r: int)
    requires SortedInts(s) && |s| > 0
    ensures IsMiddle(s, r)
  {
    var n := |s|;
    if n % 2 == 1 then
      assert (n - 1) / 2 == n / 2;
      s[n / 2]
    else
      assert (n - 1) / 2 == n / 2 - 1;
      HalfBetween(s[n / 2 - 1], s[n / 2]);
      HalfTowardZero(s[n / 2 - 1] + s[n / 2])
  }

  lemma HalfBetween(a: int, b: int)
    requires a <= b
    ensures a <= HalfTowardZero(a + b) <= b
  {
  }

  /**
   * int(statistics.median(l)): the middle value of the sorted list, or the
   * mean of the two middle values truncated toward zero; the median of an
   * empty list is an error.
   */
  function Median(l: seq<int>): (r: Option<int>)
    ensures r.None? <==> |l| == 0
    ensures r.Some? ==> IsMiddle(SortInts(l), r.value)
  {
    if |l| == 0 then None else Some(Middle(SortInts(l)))
  }

  /** The median depends on the values only, not on their order. */
  lemma MedianIgnoresOrder(l: seq<int>, l': seq<int>)
    requires multiset(l) == multiset(l')
    ensures Median(l) == Median(l')
  {
    assert |l| == |multiset(l)| == |l'|;
    SortedPermutationUnique(SortInts(l), SortInts(l'));
  }

  /** The mean of -3 and 0 is -1.5, which becomes -1, not -2. */
  lemma MedianTruncatesTowardZero()
    ensures Median([0, -3]) == Some(-1)
  {
    var s := SortInts([0, -3]);
    SortedPermutationUnique(s, [-3, 0]);
  }

  // ---------------------------------------------------------------------------
  // Pass 2: shared height
  // ---------------------------------------------------------------------------

  /** max(h0, baseline + top) over every code point of cs. */
  function HeightFrom(font: Font, cs: seq<int>, baseline: nat, h0: nat): (h: nat)
    ensures h >= h0
    ensures forall c :: c in cs ==> baseline + Load(font, c).top <= h
    ensures h == h0 || exists c :: c in cs && h == baseline + Load(font, c).top
  {
    if |cs| == 0 then h0
    else
      var last := cs[|cs| - 1];
      assert cs == cs[..|cs| - 1] + [last];
      var h := HeightFrom(font, cs[..|cs| - 1], baseline, h0);
      if h >= baseline + Load(font, last).top then h else baseline + Load(font, last).top
  }

  // ---------------------------------------------------------------------------
  // Pass 3: one canvas per glyph
  // ---------------------------------------------------------------------------

  datatype InitError =
    | NoMeasuredGlyph     // statistics.median of an empty kerning list
    | BadBuffer(c: int)   // the buffer does not reshape to rows x pitch
    | Misplaced(c: int)   // the bitmap does not fit the canvas where it is put

  lemma RowEnd(r: nat, rows: nat, pitch: nat)
    requires r < rows
    ensures r * pitch + pitch <= rows * pitch
  {
    assert r * pitch + pitch == (r + 1) * pitch;
  }

  /** Row r of the buffer: the pitch bytes from r * pitch on. */
  function BufferRow(m: Metrics, r: nat): (row: seq<Byte>)
    requires |m.buffer| == m.rows * m.pitch && r < m.rows
    ensures |row| == m.pitch
  {
    RowEnd(r, m.rows, m.pitch);
    m.buffer[r * m.pitch .. r * m.pitch + m.pitch]
  }

  /** Byte k of row r is byte r * pitch + k of the buffer. */
  lemma BufferRowBytes(m: Metrics, r: nat, k: nat)
    requires |m.buffer| == m.rows * m.pitch && r < m.rows && k < m.pitch
    ensures r * m.pitch + k < |m.buffer| && BufferRow(m, r)[k] == m.buffer[r * m.pitch + k]
  {
    RowEnd(r, m.rows, m.pitch);
  }

  /** The buffer reshaped to rows x pitch. */
  function BufferGrid(m: Metrics): (g: Grid<Byte>)
    requires |m.buffer| == m.rows * m.pitch
    ensures WellFormed(g) && g.height == m.rows && g.width == m.pitch
  {
    Grid(m.rows, m.pitch, seq(m.rows, r requires 0 <= r < m.rows => BufferRow(m, r)))
  }

  /** Pixel (r, c) of the glyph bitmap: bit 7 - c % 8 of byte c / 8 of row r, unset past the pitch. */
  function BufferBit(m: Metrics, r: nat, c: nat): bool
    requires |m.buffer| == m.rows * m.pitch && r < m.rows
  {
    c / 8 < m.pitch && BitOf(BufferRow(m, r)[c / 8], 7 - c % 8)
  }

  /** The glyph's own pixels: the buffer unpacked MSB-first, limited to the bitmap width. */
  function Pixels(m: Metrics): (p: Grid<bool>)
    requires |m.buffer| == m.rows * m.pitch
    ensures WellFormed(p) && p.height == m.rows && p.width == m.width
  {
    Unpack(BufferGrid(m), Cols, Big, m.width)
  }

  /** numpy.unpackbits of the reshaped buffer, limited to the bitmap width, reads BufferBit. */
  lemma UnpackedPixel(m: Metrics, r: nat, c: nat)
    requires |m.buffer| == m.rows * m.pitch && r < m.rows && c < m.width
    ensures Pixels(m).cells[r][c] == BufferBit(m, r, c)
  {
    assert BufferGrid(m).cells[r] == BufferRow(m, r);
  }

  /** Width of the canvas of a glyph. */
  function CanvasWidth(m: Metrics, maxWidth: nat, mono: bool): nat
  {
    if mono then maxWidth else m.width
  }

  /** Left edge of the glyph on its canvas: centred in mono mode, else flush left. */
  function LeftEdge(m: Metrics, maxWidth: nat, mono: bool): int
  {
    if mono then (maxWidth - m.width) / 2 else 0
  }

  /** Top edge of the glyph on its canvas, so that its baseline sits on the shared one. */
  function TopEdge(m: Metrics, maxHeight: nat, baseline: nat): int
  {
    maxHeight - baseline - m.top
  }

  /** An empty canvas. */
  function Blank(m: Metrics, maxHeight: nat, maxWidth: nat, mono: bool): (g: Grid<bool>)
    ensures WellFormed(g) && g.height == maxHeight && g.width == CanvasWidth(m, maxWidth, mono)
    ensures forall r, c :: 0 <= r < maxHeight && 0 <= c < g.width ==> !g.cells[r][c]
  {
    Full(maxHeight, CanvasWidth(m, maxWidth, mono), false)
  }

  /**
   * The canvas of one glyph: maxHeight rows, all unset, with the glyph's
   * pixels (unpacked MSB-first from the buffer) assigned to the slice
   * [TopEdge : TopEdge + rows, LeftEdge : LeftEdge + width] the way numpy
   * assigns to a slice: bounds are clamped, and a one-row or one-column
   * bitmap is broadcast over the window, even an empty one.
   */
  function Canvas(c: int, m: Metrics, maxHeight: nat, maxWidth: nat, baseline: nat, mono: bool)
    : (r: Result<Grid<bool>, InitError>)
    ensures r.Ok? ==> WellFormed(r.value) && r.value.height == maxHeight
                      && r.value.width == CanvasWidth(m, maxWidth, mono)
  {
    if |m.buffer| != m.rows * m.pitch then Err(BadBuffer(c))
    else
      var pixels := Pixels(m);
      var blank := Blank(m, maxHeight, maxWidth, mono);
      var y := TopEdge(m, maxHeight, baseline);
      var x := LeftEdge(m, maxWidth, mono);
      if Assignable(blank, pixels, y, x) then Ok(Assign(blank, pixels, y, x))
      else Err(Misplaced(c))
  }

  /**
   * A canvas is only made from a buffer of rows x pitch bytes, and it is the
   * blank canvas with the unpacked glyph assigned at (TopEdge, LeftEdge).
   */
  lemma CanvasBuffer(c: int, m: Metrics, maxHeight: nat, maxWidth: nat, baseline: nat, mono: bool)
    requires Canvas(c, m, maxHeight, maxWidth, baseline, mono).Ok?
    ensures |m.buffer| == m.rows * m.pitch
    ensures var y, x := TopEdge(m, maxHeight, baseline), LeftEdge(m, maxWidth, mono);
            Assignable(Blank(m, maxHeight, maxWidth, mono), Pixels(m), y, x) &&
            Canvas(c, m, maxHeight, maxWidth, baseline, mono).value ==
              Assign(Blank(m, maxHeight, maxWidth, mono), Pixels(m), y, x)
  {
  }

  /**
   * Whether canvas pixel (r, col) is set: it lies in the window the slice
   * selects and the glyph pixel that numpy puts there is set.
   */
  predicate GlyphPixel(m: Metrics, maxHeight: nat, maxWidth: nat, baseline: nat, mono: bool, r: nat, col: nat)
    requires |m.buffer| == m.rows * m.pitch
  {
    var y := TopEdge(m, maxHeight, baseline);
    var x := LeftEdge(m, maxWidth, mono);
    InSlice(Blank(m, maxHeight, maxWidth, mono), Pixels(m), y, x, r, col) &&
    var pr := Source(r - SliceBound(y, maxHeight), m.rows);
    var pc := Source(col - SliceBound(x, CanvasWidth(m, maxWidth, mono)), m.width);
    pr < m.rows && BufferBit(m, pr, pc)
  }

  /** The glyph lies wholly on its canvas. */
  predicate OnCanvas(m: Metrics, maxHeight: nat, maxWidth: nat, baseline: nat, mono: bool)
  {
    var y := TopEdge(m, maxHeight, baseline);
    var x := LeftEdge(m, maxWidth, mono);
    0 <= y && y + m.rows <= maxHeight && 0 <= x && x + m.width <= CanvasWidth(m, maxWidth, mono)
  }

  /**
   * For a glyph that lies wholly on its canvas, a pixel is set exactly when
   * it lies in the rows x width window at (TopEdge, LeftEdge) and the
   * buffer bit at the same offset inside the window is set.
   */
  lemma GlyphPixelWindow(m: Metrics, maxHeight: nat, maxWidth: nat, baseline: nat, mono: bool, r: nat, col: nat)
    requires |m.buffer| == m.rows * m.pitch && OnCanvas(m, maxHeight, maxWidth, baseline, mono)
    requires r < maxHeight && col < CanvasWidth(m, maxWidth, mono)
    ensures GlyphPixel(m, maxHeight, maxWidth, baseline, mono, r, col) ==
              (var y := TopEdge(m, maxHeight, baseline);
               var x := LeftEdge(m, maxWidth, mono);
               y <= r < y + m.rows && x <= col < x + m.width && BufferBit(m, r - y, col - x))
  {
    var y := TopEdge(m, maxHeight, baseline);
    var x := LeftEdge(m, maxWidth, mono);
    FitsAssignable(Blank(m, maxHeight, maxWidth, mono), Pixels(m), y, x);
    assert SliceBound(y, maxHeight) == y && SliceBound(x, CanvasWidth(m, maxWidth, mono)) == x;
    if y <= r < y + m.rows && x <= col < x + m.width {
      assert Source(r - y, m.rows) == r - y && Source(col - x, m.width) == col - x;
    }
  }

  /** Assigning the unpacked glyph onto the blank canvas sets exactly the GlyphPixel cells. */
  lemma AssignedPixel(m: Metrics, maxHeight: nat, maxWidth: nat, baseline: nat, mono: bool, r: nat, col: nat)
    requires |m.buffer| == m.rows * m.pitch
    requires Assignable(Blank(m, maxHeight, maxWidth, mono), Pixels(m), TopEdge(m, maxHeight, baseline),
                        LeftEdge(m, maxWidth, mono))
    requires r < maxHeight && col < CanvasWidth(m, maxWidth, mono)
    ensures Assign(Blank(m, maxHeight, maxWidth, mono), Pixels(m), TopEdge(m, maxHeight, baseline),
                   LeftEdge(m, maxWidth, mono)).cells[r][col]
            == GlyphPixel(m, maxHeight, maxWidth, baseline, mono, r, col)
  {
    if InSlice(Blank(m, maxHeight, maxWidth, mono), Pixels(m), TopEdge(m, maxHeight, baseline),
               LeftEdge(m, maxWidth, mono), r, col) {
      AssignedInside(m, Blank(m, maxHeight, maxWidth, mono), TopEdge(m, maxHeight, baseline),
                     LeftEdge(m, maxWidth, mono), r, col);
    } else {
      AssignCells(Blank(m, maxHeight, maxWidth, mono), Pixels(m), TopEdge(m, maxHeight, baseline),
                  LeftEdge(m, maxWidth, mono), r, col);
    }
  }

  /** Inside the selected window, the assigned cell is the glyph pixel numpy broadcasts there. */
  lemma AssignedInside(m: Metrics, blank: Grid<bool>, y: int, x: int, r: nat, col: nat)
    requires |m.buffer| == m.rows * m.pitch && WellFormed(blank)
    requires Assignable(blank, Pixels(m), y, x) && InSlice(blank, Pixels(m), y, x, r, col)
    requires r < blank.height && col < blank.width
    ensures Source(r - SliceBound(y, blank.height), m.rows) < m.rows
    ensures Assign(blank, Pixels(m), y, x).cells[r][col] ==
              BufferBit(m, Source(r - SliceBound(y, blank.height), m.rows),
                        Source(col - SliceBound(x, blank.width), m.width))
  {
    AssignCells(blank, Pixels(m), y, x, r, col);
    UnpackedPixel(m, Source(r - SliceBound(y, blank.height), m.rows),
                  Source(col - SliceBound(x, blank.width), m.width));
  }

  /** The canvas holds the glyph's pixels inside the selected window and nothing outside. */
  lemma CanvasPixels(c: int, m: Metrics, maxHeight: nat, maxWidth: nat, baseline: nat, mono: bool,
                     g: Grid<bool>, r: nat, col: nat)
    requires Canvas(c, m, maxHeight, maxWidth, baseline, mono) == Ok(g)
    requires r < g.height && col < g.width
    ensures |m.buffer| == m.rows * m.pitch
    ensures g.cells[r][col] == GlyphPixel(m, maxHeight, maxWidth, baseline, mono, r, col)
  {
    CanvasBuffer(c, m, maxHeight, maxWidth, baseline, mono);
    AssignedPixel(m, maxHeight, maxWidth, baseline, mono, r, col);
  }

  /** A glyph no wider than maxWidth, with its overhang and height inside the shared box, lies on its canvas. */
  lemma CanvasFits(c: int, m: Metrics, maxHeight: nat, maxWidth: nat, baseline: nat, mono: bool)
    requires |m.buffer| == m.rows * m.pitch
    requires m.width <= maxWidth && Overhang(m) <= baseline && baseline + m.top <= maxHeight
    ensures OnCanvas(m, maxHeight, maxWidth, baseline, mono)
    ensures Canvas(c, m, maxHeight, maxWidth, baseline, mono).Ok?
  {
    assert Fits(Blank(m, maxHeight, maxWidth, mono), Pixels(m), TopEdge(m, maxHeight, baseline), LeftEdge(m, maxWidth, mono));
    FitsAssignable(Blank(m, maxHeight, maxWidth, mono), Pixels(m), TopEdge(m, maxHeight, baseline),
                   LeftEdge(m, maxWidth, mono));
  }

  /**
   * A one-row bitmap placed at or below the bottom edge selects no rows;
   * numpy broadcasts its single row over the empty window, so the canvas
   * stays blank rather than failing.
   */
  lemma OneRowBelowCanvas(c: int, m: Metrics, maxHeight: nat, maxWidth: nat, baseline: nat)
    requires |m.buffer| == m.rows * m.pitch && m.rows == 1
    requires TopEdge(m, maxHeight, baseline) >= maxHeight
    ensures Canvas(c, m, maxHeight, maxWidth, baseline, false) == Ok(Blank(m, maxHeight, maxWidth, false))
  {
    var y := TopEdge(m, maxHeight, baseline);
    assert SliceLength(y, y + 1, maxHeight) == 0;
    AssignEmptyWindow(Blank(m, maxHeight, maxWidth, false), Pixels(m), y, 0);
  }

  /** A bitmap of two or more rows whose window is cut short by the bottom edge fails. */
  lemma CutRowsFail(c: int, m: Metrics, maxHeight: nat, maxWidth: nat, baseline: nat, mono: bool)
    requires |m.buffer| == m.rows * m.pitch && m.rows >= 2
    requires 0 <= TopEdge(m, maxHeight, baseline) && TopEdge(m, maxHeight, baseline) + m.rows > maxHeight
    ensures Canvas(c, m, maxHeight, maxWidth, baseline, mono) == Err(Misplaced(c))
  {
  }

  /** The canvases of cs in order; the first glyph that fails stops the pass. */
  function RenderAll(font: Font, cs: seq<int>, maxHeight: nat, maxWidth: nat, baseline: nat, mono: bool)
    : (r: Result<seq<Grid<bool>>, InitError>)
    ensures r.Ok? ==> |r.value| == |cs|
  {
    if |cs| == 0 then Ok([])
    else
      var last := cs[|cs| - 1];
      var front := cs[..|cs| - 1];
      match RenderAll(font, front, maxHeight, maxWidth, baseline, mono)
      case Err(e) => Err(e)
      case Ok(l) =>
        match Canvas(last, Load(font, last), maxHeight, maxWidth, baseline, mono)
        case Err(e) => Err(e)
        case Ok(g) => Ok(l + [g])
  }

  /** A successful rendering holds, at index i, the canvas of the i-th code point. */
  lemma {:induction false} RenderAllValues(font: Font, cs: seq<int>, maxHeight: nat, maxWidth: nat,
                                          baseline: nat, mono: bool)
    ensures var r := RenderAll(font, cs, maxHeight, maxWidth, baseline, mono);
      r.Ok? ==> forall i :: 0 <= i < |cs| ==>
                  Canvas(cs[i], Load(font, cs[i]), maxHeight, maxWidth, baseline, mono) == Ok(r.value[i])
  {
    var r := RenderAll(font, cs, maxHeight, maxWidth, baseline, mono);
    if |cs| > 0 && r.Ok? {
      var front := cs[..|cs| - 1];
      RenderAllValues(font, front, maxHeight, maxWidth, baseline, mono);
      var rf := RenderAll(font, front, maxHeight, maxWidth, baseline, mono);
      var g := Canvas(cs[|cs| - 1], Load(font, cs[|cs| - 1]), maxHeight, maxWidth, baseline, mono);
      assert rf.Ok? && g.Ok? && r.value == rf.value + [g.value];
      forall i | 0 <= i < |cs|
        ensures Canvas(cs[i], Load(font, cs[i]), maxHeight, maxWidth, baseline, mono) == Ok(r.value[i])
      {
        if i < |front| {
          assert front[i] == cs[i] && r.value[i] == rf.value[i];
        }
      }
    }
  }

  /** A failed rendering fails with the error of the canvas of some code point. */
  lemma {:induction false} RenderAllError(font: Font, cs: seq<int>, maxHeight: nat, maxWidth: nat,
                                         baseline: nat, mono: bool)
    ensures var r := RenderAll(font, cs, maxHeight, maxWidth, baseline, mono);
      r.Err? ==> exists i :: 0 <= i < |cs| &&
                   Canvas(cs[i], Load(font, cs[i]), maxHeight, maxWidth, baseline, mono) == Err(r.error)
  {
    var r := RenderAll(font, cs, maxHeight, maxWidth, baseline, mono);
    if |cs| > 0 && r.Err? {
      var front := cs[..|cs| - 1];
      var rf := RenderAll(font, front, maxHeight, maxWidth, baseline, mono);
      if rf.Err? {
        RenderAllError(font, front, maxHeight, maxWidth, baseline, mono);
        assert r == rf;
        var i :| 0 <= i < |front| && Canvas(front[i], Load(font, front[i]), maxHeight, maxWidth, baseline, mono) == Err(rf.error);
        assert front[i] == cs[i];
      } else {
        var last := |cs| - 1;
        assert Canvas(cs[last], Load(font, cs[last]), maxHeight, maxWidth, baseline, mono) == Err(r.error);
      }
    }
  }

  /**
   * The pass succeeds exactly when every glyph has a canvas, and then holds
   * those canvases in order; otherwise it fails with the error of some glyph.
   */
  lemma RenderAllMeaning(font: Font, cs: seq<int>, maxHeight: nat, maxWidth: nat, baseline: nat, mono: bool)
    ensures var r := RenderAll(font, cs, maxHeight, maxWidth, baseline, mono);
      (r.Ok? <==> forall i :: 0 <= i < |cs| ==> Canvas(cs[i], Load(font, cs[i]), maxHeight, maxWidth, baseline, mono).Ok?) &&
      (r.Ok? ==> forall i :: 0 <= i < |cs| ==>
                   Canvas(cs[i], Load(font, cs[i]), maxHeight, maxWidth, baseline, mono) == Ok(r.value[i])) &&
      (r.Err? ==> exists i :: 0 <= i < |cs| &&
                    Canvas(cs[i], Load(font, cs[i]), maxHeight, maxWidth, baseline, mono) == Err(r.error))
  {
    RenderAllValues(font, cs, maxHeight, maxWidth, baseline, mono);
    RenderAllError(font, cs, maxHeight, maxWidth, baseline, mono);
  }


  // ---------------------------------------------------------------------------
  // The whole construction
  // ---------------------------------------------------------------------------

  /** Every field of a GlyphSet the rest of the program reads. */
  datatype GlyphSetState = GlyphSetState(
    charSet: seq<int>, mono: bool, maxHeight: nat, maxWidth: nat, baseline: nat,
    kerningPx: int, spaceWidthPx: int, bitmaps: seq<Grid<bool>>)

  /** One canvas per glyph, maxHeight rows each, as wide as the glyph or maxWidth in mono mode. */
  predicate ValidState(font: Font, st: GlyphSetState)
  {
    |st.bitmaps| == |st.charSet| &&
    forall i :: 0 <= i < |st.bitmaps| ==>
      WellFormed(st.bitmaps[i]) && st.bitmaps[i].height == st.maxHeight &&
      st.bitmaps[i].width == CanvasWidth(Load(font, st.charSet[i]), st.maxWidth, st.mono)
  }

  /** The glyph list the object starts from: the given one, or every code point of the font. */
  function InitialCharSet(font: Font, charSet: Option<seq<int>>): seq<int>
  {
    if charSet.None? then font.codePoints else charSet.value
  }

  /** What the GlyphSet constructor computes, or the error it stops with. */
  function Initialise(font: Font, charSet: Option<seq<int>>, mono: bool): (r: Result<GlyphSetState, InitError>)
    ensures r.Ok? ==> ValidState(font, r.value)
  {
    AfterMeasuring(font, ScanFrom(font, Scan(InitialCharSet(font, charSet), [], 0, 0), 0), mono)
  }

  /** The kerning median, the height pass and the rendering pass after pass 1 left s. */
  function AfterMeasuring(font: Font, s: Scan, mono: bool): (r: Result<GlyphSetState, InitError>)
    ensures r.Ok? ==> ValidState(font, r.value)
  {
    match Median(s.kerning)
    case None => Err(NoMeasuredGlyph)
    case Some(k) => AfterHeight(font, s, k, HeightFrom(font, s.charSet, s.baseline, 0), mono)
  }

  /** The rendering pass once kerning k and height h are known. */
  function AfterHeight(font: Font, s: Scan, k: int, h: nat, mono: bool): (r: Result<GlyphSetState, InitError>)
    ensures r.Ok? ==> ValidState(font, r.value)
  {
    match RenderAll(font, s.charSet, h, s.maxWidth, s.baseline, mono)
    case Err(e) => Err(e)
    case Ok(bs) =>
      RenderAllMeaning(font, s.charSet, h, s.maxWidth, s.baseline, mono);
      Ok(GlyphSetState(s.charSet, mono, h, s.maxWidth, s.baseline, k, SpaceWidth(font), bs))
  }

  /** When every canvas can be built, the rendering pass yields the state holding them. */
  lemma AfterHeightOk(font: Font, s: Scan, k: int, h: nat, mono: bool)
    requires RenderAll(font, s.charSet, h, s.maxWidth, s.baseline, mono).Ok?
    ensures AfterHeight(font, s, k, h, mono) ==
            Ok(GlyphSetState(s.charSet, mono, h, s.maxWidth, s.baseline, k, SpaceWidth(font),
                             RenderAll(font, s.charSet, h, s.maxWidth, s.baseline, mono).value))
  {
  }

  /**
   * With distinct code points, none of them degenerate and every buffer of
   * the right length, construction succeeds and keeps every glyph.
   */
  lemma WellBehavedFontSucceeds(font: Font, cs: seq<int>, mono: bool)
    requires Distinct(cs) && |cs| > 0
    requires forall c :: c in cs ==> !Degenerate(Load(font, c))
    requires forall c :: c in cs ==> |Load(font, c).buffer| == Load(font, c).rows * Load(font, c).pitch
    ensures Initialise(font, Some(cs), mono).Ok?
    ensures Initialise(font, Some(cs), mono).value.charSet == cs
  {
    var s := ScanFrom(font, Scan(cs, [], 0, 0), 0);
    assert s.charSet == cs && |s.kerning| == |cs| by {
      PassOneReference(font, cs);
      NothingDropped(font, cs);
    }
    assert forall c :: c in cs ==> Load(font, c).width <= s.maxWidth && Overhang(Load(font, c)) <= s.baseline by {
      PassOneReference(font, cs);
      NothingDropped(font, cs);
      WidestIsMaximum(font, cs, 0);
      DeepestIsMaximum(font, cs, 0);
    }
    var k := Median(s.kerning).value;
    var h := HeightFrom(font, cs, s.baseline, 0);
    AllCanvasesFit(font, cs, h, s.maxWidth, s.baseline, mono);
    assert Initialise(font, Some(cs), mono) == AfterHeight(font, s, k, h, mono);
  }

  /** When every glyph fits the shared box, the rendering pass succeeds. */
  lemma AllCanvasesFit(font: Font, cs: seq<int>, h: nat, w: nat, b: nat, mono: bool)
    requires forall c :: c in cs ==> |Load(font, c).buffer| == Load(font, c).rows * Load(font, c).pitch
    requires forall c :: c in cs ==> Load(font, c).width <= w && Overhang(Load(font, c)) <= b
    requires forall c :: c in cs ==> b + Load(font, c).top <= h
    ensures RenderAll(font, cs, h, w, b, mono).Ok?
  {
    forall i | 0 <= i < |cs|
      ensures Canvas(cs[i], Load(font, cs[i]), h, w, b, mono).Ok?
    {
      assert cs[i] in cs;
      CanvasFits(cs[i], Load(font, cs[i]), h, w, b, mono);
    }
    RenderAllMeaning(font, cs, h, w, b, mono);
  }

  /** Three glyphs, the first two empty: the second survives pass 1 unmeasured, the third is measured. */
  lemma SkippedGlyphSurvives(font: Font, a: int, b: int, c: int)
    requires a != b && b != c && a != c
    requires Degenerate(Load(font, a)) && Degenerate(Load(font, b)) && !Degenerate(Load(font, c))
    ensures ScanFrom(font, Scan([a, b, c], [], 0, 0), 0).charSet == [b, c]
    ensures ScanFrom(font, Scan([a, b, c], [], 0, 0), 0).kerning == [Kerning(Load(font, c))]
  {
    PassOneReference(font, [a, b, c]);
    DroppedGlyphHidesNext(font, a, b, [c]);
    assert [a, b, c] == [a, b] + [c];
    assert Kept(font, [c]) == [c] && Measured(font, [c]) == [c];
  }

  // ---------------------------------------------------------------------------
  // Operations on the whole list of canvases
  // ---------------------------------------------------------------------------

  predicate AllWellFormed<T>(bs: seq<Grid<T>>)
  {
    forall i :: 0 <= i < |bs| ==> WellFormed(bs[i])
  }

  function FlipAll(bs: seq<Grid<bool>>, axis: Axis): (r: seq<Grid<bool>>)
    requires AllWellFormed(bs)
    ensures |r| == |bs| && AllWellFormed(r)
  {
    seq(|bs|, i requires 0 <= i < |bs| => Flip(bs[i], axis))
  }

  function InvertAll(bs: seq<Grid<bool>>): (r: seq<Grid<bool>>)
    requires AllWellFormed(bs)
    ensures |r| == |bs| && AllWellFormed(r)
  {
    seq(|bs|, i requires 0 <= i < |bs| => Invert(bs[i]))
  }

  function PackAll(bs: seq<Grid<bool>>, axis: Axis, order: BitOrder): (r: seq<Grid<Byte>>)
    requires AllWellFormed(bs)
    ensures |r| == |bs|
  {
    seq(|bs|, i requires 0 <= i < |bs| => Pack(bs[i], axis, order))
  }

  /** Flipping keeps every shape, so it keeps the GlyphSet invariant. */
  lemma FlipAllKeepsShapes(font: Font, st: GlyphSetState, axis: Axis)
    requires ValidState(font, st)
    ensures ValidState(font, st.(bitmaps := FlipAll(st.bitmaps, axis)))
  {
  }

  lemma InvertAllKeepsShapes(font: Font, st: GlyphSetState)
    requires ValidState(font, st)
    ensures ValidState(font, st.(bitmaps := InvertAll(st.bitmaps)))
  {
  }

  lemma FlipAllTwice(bs: seq<Grid<bool>>, axis: Axis)
    requires AllWellFormed(bs)
    ensures FlipAll(FlipAll(bs, axis), axis) == bs
  {
    forall i | 0 <= i < |bs|
      ensures FlipAll(FlipAll(bs, axis), axis)[i] == bs[i]
    {
      FlipTwice(bs[i], axis);
    }
  }

  lemma InvertAllTwice(bs: seq<Grid<bool>>)
    requires AllWellFormed(bs)
    ensures InvertAll(InvertAll(bs)) == bs
  {
    forall i | 0 <= i < |bs|
      ensures InvertAll(InvertAll(bs))[i] == bs[i]
    {
      InvertTwice(bs[i]);
    }
  }

  /** Every packed glyph unpacks to its canvas, so packing loses nothing. */
  lemma PackAllRoundTrip(bs: seq<Grid<bool>>, axis: Axis, order: BitOrder, i: nat)
    requires AllWellFormed(bs) && i < |bs|
    ensures WellFormed(PackAll(bs, axis, order)[i])
    ensures Unpack(PackAll(bs, axis, order)[i], axis, order,
                   if axis == Cols then bs[i].width else bs[i].height) == bs[i]
  {
    UnpackPack(bs[i], axis, order);
  }

  // ---------------------------------------------------------------------------
  // The object
  // ---------------------------------------------------------------------------

  class GlyphSet {
    const font: Font
    const mono: bool
    var charSet: seq<int>
    var maxHeight: nat
    var maxWidth: nat
    var baseline: nat
    var kerningPx: int
    var spaceWidthPx: int
    var bitmaps: seq<Grid<bool>>

    function State(): GlyphSetState
      reads this
    {
      GlyphSetState(charSet, mono, maxHeight, maxWidth, baseline, kerningPx, spaceWidthPx, bitmaps)
    }

    predicate Valid()
      reads this
    {
      ValidState(font, State())
    }

    /** The field set-up before the passes, and the width of the space character. */
    constructor Init(font: Font, charSet: Option<seq<int>>, mono: bool)
      ensures this.font == font && this.mono == mono
      ensures State() == GlyphSetState(InitialCharSet(font, charSet), mono, 0, 0, 0, 0, SpaceWidth(font), [])
    {
      this.font := font;
      this.mono := mono;
      this.charSet := InitialCharSet(font, charSet);
      maxHeight := 0;
      maxWidth := 0;
      baseline := 0;
      kerningPx := 0;
      spaceWidthPx := SpaceWidth(font);
      bitmaps := [];
    }

    /** Pass 1: walks charSet by index, removing degenerate glyphs as it goes. */
    method MeasurePass() returns (kerning: seq<int>)
      modifies this
      ensures Scan(charSet, kerning, maxWidth, baseline) ==
              ScanFrom(font, Scan(old(charSet), [], old(maxWidth), old(baseline)), 0)
      ensures maxHeight == old(maxHeight) && kerningPx == old(kerningPx)
      ensures spaceWidthPx == old(spaceWidthPx) && bitmaps == old(bitmaps)
    {
      kerning := [];
      var i := 0;
      while i < |charSet|
        invariant ScanFrom(font, Scan(charSet, kerning, maxWidth, baseline), i) ==
                  ScanFrom(font, Scan(old(charSet), [], old(maxWidth), old(baseline)), 0)
        invariant maxHeight == old(maxHeight) && kerningPx == old(kerningPx)
        invariant spaceWidthPx == old(spaceWidthPx) && bitmaps == old(bitmaps)
        decreases |charSet| + 1 - i
      {
        var c := charSet[i];
        var m := Load(font, c);
        if Degenerate(m) {
          charSet := RemoveFirst(charSet, c);
        } else {
          kerning := kerning + [Kerning(m)];
          maxWidth := Max(maxWidth, m.width);
          baseline := Max(baseline, Overhang(m));
        }
        i := i + 1;
      }
    }

    /** Pass 2: the shared height over every glyph still in charSet. */
    method HeightPass()
      modifies this
      ensures maxHeight == HeightFrom(font, charSet, baseline, old(maxHeight))
      ensures charSet == old(charSet) && maxWidth == old(maxWidth) && baseline == old(baseline)
      ensures kerningPx == old(kerningPx) && spaceWidthPx == old(spaceWidthPx) && bitmaps == old(bitmaps)
    {
      var h0 := maxHeight;
      var cs := charSet;
      for i := 0 to |cs|
        invariant maxHeight == HeightFrom(font, cs[..i], baseline, h0)
        invariant charSet == cs
        invariant charSet == old(charSet) && maxWidth == old(maxWidth) && baseline == old(baseline)
        invariant kerningPx == old(kerningPx) && spaceWidthPx == old(spaceWidthPx) && bitmaps == old(bitmaps)
      {
        var top := Load(font, cs[i]).top;
        assert cs[..i + 1][..i] == cs[..i];
        if baseline + top > maxHeight {
          maxHeight := baseline + top;
        }
      }
      assert cs[..|cs|] == cs;
    }

    /** Pass 3: appends the canvas of every glyph, stopping at the first that fails. */
    method RenderPass() returns (err: Option<InitError>)
      modifies this
      ensures var all := RenderAll(font, charSet, maxHeight, maxWidth, baseline, mono);
        (all.Ok? ==> err.None? && bitmaps == old(bitmaps) + all.value) &&
        (all.Err? ==> err == Some(all.error))
      ensures charSet == old(charSet) && maxHeight == old(maxHeight) && maxWidth == old(maxWidth)
      ensures baseline == old(baseline) && kerningPx == old(kerningPx) && spaceWidthPx == old(spaceWidthPx)
    {
      var cs := charSet;
      for i := 0 to |cs|
        invariant charSet == cs
        invariant RenderAll(font, cs[..i], maxHeight, maxWidth, baseline, mono).Ok?
        invariant bitmaps == old(bitmaps) + RenderAll(font, cs[..i], maxHeight, maxWidth, baseline, mono).value
        invariant charSet == old(charSet) && maxHeight == old(maxHeight) && maxWidth == old(maxWidth)
        invariant baseline == old(baseline) && kerningPx == old(kerningPx) && spaceWidthPx == old(spaceWidthPx)
      {
        var c := cs[i];
        assert cs[..i + 1][..i] == cs[..i];
        var canvas := Canvas(c, Load(font, c), maxHeight, maxWidth, baseline, mono);
        if canvas.Err? {
          ErrorPersists(font, cs, i + 1, maxHeight, maxWidth, baseline, mono);
          return Some(RenderAll(font, cs, maxHeight, maxWidth, baseline, mono).error);
        }
        bitmaps := bitmaps + [canvas.value];
      }
      assert cs[..|cs|] == cs;
      err := None;
    }

    /** The constructor after pass 1 left s: the kerning median k, pass 2 and pass 3. */
    method Finish(ghost s: Scan, k: int) returns (err: Option<InitError>)
      requires charSet == s.charSet && maxWidth == s.maxWidth && baseline == s.baseline
      requires maxHeight == 0 && bitmaps == [] && spaceWidthPx == SpaceWidth(font)
      modifies this
      ensures var a := AfterHeight(font, s, k, HeightFrom(font, s.charSet, s.baseline, 0), mono);
        (err.None? <==> a.Ok?) && (a.Ok? ==> State() == a.value) && (a.Err? ==> err == Some(a.error))
    {
      kerningPx := k;
      HeightPass();
      ghost var all := RenderAll(font, s.charSet, maxHeight, s.maxWidth, s.baseline, mono);
      err := RenderPass();
      if err.None? {
        assert all.Ok? && bitmaps == all.value;
        AfterHeightOk(font, s, k, maxHeight, mono);
      }
    }

    /** The constructor: the three passes, or the error the first failing step raises. */
    static method Create(font: Font, charSet: Option<seq<int>>, mono: bool) returns (r: Result<GlyphSet, InitError>)
      ensures r.Ok? <==> Initialise(font, charSet, mono).Ok?
      ensures r.Ok? ==> fresh(r.value) && r.value.font == font && r.value.Valid()
                        && r.value.State() == Initialise(font, charSet, mono).value
      ensures r.Err? ==> r.error == Initialise(font, charSet, mono).error
    {
      var g := new GlyphSet.Init(font, charSet, mono);
      var kerning := g.MeasurePass();
      ghost var s := Scan(g.charSet, kerning, g.maxWidth, g.baseline);
      assert s == ScanFrom(font, Scan(InitialCharSet(font, charSet), [], 0, 0), 0);
      assert Initialise(font, charSet, mono) == AfterMeasuring(font, s, mono);
      var median := Median(kerning);
      if median.None? {
        r := Err(NoMeasuredGlyph);
      } else {
        var err := g.Finish(s, median.value);
        if err.Some? {
          r := Err(err.value);
        } else {
          r := Ok(g);
        }
      }
    }

    /** flip(axis): every canvas reversed along the axis; nothing else changes. */
    method Flip(axis: Axis)
      requires Valid()
      modifies this
      ensures State() == old(State()).(bitmaps := FlipAll(old(bitmaps), axis))
      ensures Valid()
    {
      ghost var bs := bitmaps;
      for i := 0 to |bitmaps|
        invariant |bitmaps| == |bs| && AllWellFormed(bitmaps)
        invariant forall j :: 0 <= j < i ==> bitmaps[j] == Grids.Flip(bs[j], axis)
        invariant forall j :: i <= j < |bs| ==> bitmaps[j] == bs[j]
        invariant State() == old(State()).(bitmaps := bitmaps)
      {
        bitmaps := bitmaps[i := Grids.Flip(bitmaps[i], axis)];
      }
      FlipAllKeepsShapes(font, old(State()), axis);
    }

    /** inverse(): every pixel of every canvas negated; nothing else changes. */
    method Inverse()
      requires Valid()
      modifies this
      ensures State() == old(State()).(bitmaps := InvertAll(old(bitmaps)))
      ensures Valid()
    {
      ghost var bs := bitmaps;
      for i := 0 to |bitmaps|
        invariant |bitmaps| == |bs| && AllWellFormed(bitmaps)
        invariant forall j :: 0 <= j < i ==> bitmaps[j] == Invert(bs[j])
        invariant forall j :: i <= j < |bs| ==> bitmaps[j] == bs[j]
        invariant State() == old(State()).(bitmaps := bitmaps)
      {
        bitmaps := bitmaps[i := Invert(bitmaps[i])];
      }
      InvertAllKeepsShapes(font, old(State()));
    }

    /** pack(axis, bit_order): one packed matrix per canvas, in order; the canvases stay as they are. */
    method Pack(axis: Axis, order: BitOrder) returns (packed: seq<Grid<Byte>>)
      requires Valid()
      ensures packed == PackAll(bitmaps, axis, order)
    {
      packed := [];
      for i := 0 to |bitmaps|
        invariant packed == PackAll(bitmaps[..i], axis, order)
      {
        packed := packed + [Grids.Pack(bitmaps[i], axis, order)];
      }
      assert bitmaps[..|bitmaps|] == bitmaps;
    }
  }

  /** An error on a prefix is the error of the whole pass. */
  lemma {:induction false} ErrorPersists(font: Font, cs: seq<int>, n: nat, maxHeight: nat, maxWidth: nat,
                                         baseline: nat, mono: bool)
    requires n <= |cs|
    requires RenderAll(font, cs[..n], maxHeight, maxWidth, baseline, mono).Err?
    ensures RenderAll(font, cs, maxHeight, maxWidth, baseline, mono) ==
            RenderAll(font, cs[..n], maxHeight, maxWidth, baseline, mono)
    decreases |cs| - n
  {
    if n < |cs| {
      assert cs[..n + 1][..n] == cs[..n];
      ErrorPersists(font, cs, n + 1, maxHeight, maxWidth, baseline, mono);
    } else {
      assert cs[..n] == cs;
    }
  }
}
