/** Rectangle selection after contour fitting: the all-pairs overlap filter
    over the fitted rotated rectangles, then the draw decision for each
    survivor. Floating-point values are modelled as reals (no rounding). */
module Rects {

  import opened Arguments

  /** A fitted rotated rectangle: centre and size in pixels (the angle takes
      no part in any decision). */
  datatype RotatedRect = RotatedRect(cx: real, cy: real, width: real, height: real)

  /** `size.area()` on the floating-point size. */
  function Area(r: RotatedRect): real
  {
    r.width * r.height
  }

  /** `norm(a.center - b.center) < margin`, stated on squared distances. A
      norm is never negative, so a margin of 0 or less admits no pair. */
  predicate Close(a: RotatedRect, b: RotatedRect, margin: int)
  {
    var dx, dy := a.cx - b.cx, a.cy - b.cy;
    margin > 0 && dx * dx + dy * dy < (margin as real) * (margin as real)
  }

  /** Candidate `l` suppresses candidate `k`: close centres, `l` strictly
      larger, and `area(l) / area(k)` below the ratio threshold. For
      `area(k) == 0` the quotient is +infinity in floating point and the
      test fails, which the guard states. */
  predicate Suppresses(l: RotatedRect, k: RotatedRect, margin: int, ratio: real)
  {
    Close(k, l, margin) && Area(l) > Area(k) && Area(k) != 0.0 && Area(l) / Area(k) < ratio
  }

  /** Candidate `k` is saved iff no candidate at all, saved or not,
      suppresses it. */
  predicate Kept(rects: seq<RotatedRect>, k: int, margin: int, ratio: real)
    requires 0 <= k < |rects|
  {
    forall l :: 0 <= l < |rects| ==> !Suppresses(rects[l], rects[k], margin, ratio)
  }

  /** The indices among the first `n` candidates that are saved, in order. */
  function KeptIndices(rects: seq<RotatedRect>, n: int, margin: int, ratio: real): (ks: seq<int>)
    requires 0 <= n <= |rects|
    ensures forall t :: 0 <= t < |ks| ==> 0 <= ks[t] < n
    ensures forall a, b :: 0 <= a < b < |ks| ==> ks[a] < ks[b]
    ensures forall k :: k in ks <==> 0 <= k < n && Kept(rects, k, margin, ratio)
  {
    if n == 0 then []
    else
      var prev := KeptIndices(rects, n - 1, margin, ratio);
      if Kept(rects, n - 1, margin, ratio) then prev + [n - 1] else prev
  }

  /** The saved rectangles among the first `n` candidates, in input order. */
  function SavedUpTo(rects: seq<RotatedRect>, n: int, margin: int, ratio: real): seq<RotatedRect>
    requires 0 <= n <= |rects|
  {
    var ks := KeptIndices(rects, n, margin, ratio);
    seq(|ks|, t requires 0 <= t < |ks| => rects[ks[t]])
  }

  function Saved(rects: seq<RotatedRect>, margin: int, ratio: real): seq<RotatedRect>
  {
    SavedUpTo(rects, |rects|, margin, ratio)
  }

  /** The deduplication loop: for each candidate, scan all candidates and
      stop at the first that suppresses it; save it when none does. */
  method Deduplicate(minRects: seq<RotatedRect>, margin: int, ratio: real) returns (savedRects: seq<RotatedRect>)
    ensures savedRects == Saved(minRects, margin, ratio)
  {
    savedRects := [];
    var k := 0;
    while k < |minRects|
      invariant 0 <= k <= |minRects|
      invariant savedRects == SavedUpTo(minRects, k, margin, ratio)
    {
      var flagSave := true;
      var l := 0;
      while l < |minRects|
        invariant 0 <= l <= |minRects|
        invariant flagSave
        invariant forall l' :: 0 <= l' < l ==> !Suppresses(minRects[l'], minRects[k], margin, ratio)
      {
        if Suppresses(minRects[l], minRects[k], margin, ratio) {
          flagSave := false;
          break;
        }
        l := l + 1;
      }
      assert flagSave <==> Kept(minRects, k, margin, ratio);
      if flagSave {
        savedRects := savedRects + [minRects[k]];
      }
      k := k + 1;
    }
  }

  /** Membership in the saved list: exactly the candidates nobody suppresses. */
  lemma SavedMembers(rects: seq<RotatedRect>, margin: int, ratio: real, r: RotatedRect)
    ensures r in Saved(rects, margin, ratio) <==>
      exists k :: 0 <= k < |rects| && rects[k] == r && Kept(rects, k, margin, ratio)
  {
    var ks := KeptIndices(rects, |rects|, margin, ratio);
    var saved := Saved(rects, margin, ratio);
    if r in saved {
      var t :| 0 <= t < |saved| && saved[t] == r;
      assert ks[t] in ks;
    }
    if exists k :: 0 <= k < |rects| && rects[k] == r && Kept(rects, k, margin, ratio) {
      var k :| 0 <= k < |rects| && rects[k] == r && Kept(rects, k, margin, ratio);
      assert k in ks;
      var t :| 0 <= t < |ks| && ks[t] == k;
      assert saved[t] == r;
    }
  }

  /** Suppression needs a strictly larger area: no rectangle suppresses
      itself, and equal areas never suppress each other. */
  lemma SuppressionNeedsLargerArea(l: RotatedRect, k: RotatedRect, margin: int, ratio: real)
    ensures Suppresses(l, k, margin, ratio) ==> Area(l) > Area(k)
    ensures !Suppresses(k, k, margin, ratio)
    ensures Area(l) == Area(k) ==> !Suppresses(l, k, margin, ratio) && !Suppresses(k, l, margin, ratio)
  {
  }

  /** For a non-negative area of `k` the quotient test is the product test
      `area(l) < ratio * area(k)`; for a zero area both fail. */
  lemma SuppressesAsProduct(l: RotatedRect, k: RotatedRect, margin: int, ratio: real)
    requires Area(k) >= 0.0
    ensures Suppresses(l, k, margin, ratio) <==>
      Close(k, l, margin) && Area(l) > Area(k) && Area(l) < ratio * Area(k)
  {
    var a, b := Area(l), Area(k);
    if b > 0.0 {
      assert a == (a / b) * b;
      if a / b < ratio {
        assert (a / b) * b < ratio * b;
      }
      if a < ratio * b {
        assert (a / b) * b < ratio * b;
      }
    }
  }

  /** Closeness does not depend on which centre is subtracted from which. */
  lemma CloseSymmetric(a: RotatedRect, b: RotatedRect, margin: int)
    ensures Close(a, b, margin) <==> Close(b, a, margin)
  {
    var dx, dy := a.cx - b.cx, a.cy - b.cy;
    assert (-dx) * (-dx) == dx * dx && (-dy) * (-dy) == dy * dy;
  }

  /** The index of a candidate of maximal area among the first `n`. */
  function LargestIndex(rects: seq<RotatedRect>, n: int): (m: int)
    requires 0 < n <= |rects|
    ensures 0 <= m < n
    ensures forall l :: 0 <= l < n ==> Area(rects[l]) <= Area(rects[m])
  {
    if n == 1 then 0
    else
      var m := LargestIndex(rects, n - 1);
      if Area(rects[n - 1]) > Area(rects[m]) then n - 1 else m
  }

  /** A candidate of maximal area is always saved. */
  lemma LargestIsSaved(rects: seq<RotatedRect>, k: int, margin: int, ratio: real)
    requires 0 <= k < |rects|
    requires forall l :: 0 <= l < |rects| ==> Area(rects[l]) <= Area(rects[k])
    ensures rects[k] in Saved(rects, margin, ratio)
  {
    assert Kept(rects, k, margin, ratio);
    SavedMembers(rects, margin, ratio, rects[k]);
  }

  /** A non-empty candidate list never loses all its rectangles. */
  lemma SavedNonEmpty(rects: seq<RotatedRect>, margin: int, ratio: real)
    requires |rects| > 0
    ensures |Saved(rects, margin, ratio)| > 0
  {
    LargestIsSaved(rects, LargestIndex(rects, |rects|), margin, ratio);
  }

  /** Judging one more candidate appends it when it is kept. */
  lemma SavedUpToStep(rs: seq<RotatedRect>, n: int, margin: int, ratio: real)
    requires 0 <= n < |rs|
    ensures SavedUpTo(rs, n + 1, margin, ratio) ==
      SavedUpTo(rs, n, margin, ratio) + (if Kept(rs, n, margin, ratio) then [rs[n]] else [])
  {
  }

  /** The saved list of a two-candidate input, from the two verdicts. */
  lemma SavedOfTwo(rs: seq<RotatedRect>, margin: int, ratio: real)
    requires |rs| == 2
    ensures Saved(rs, margin, ratio) ==
      (if Kept(rs, 0, margin, ratio) then [rs[0]] else []) + (if Kept(rs, 1, margin, ratio) then [rs[1]] else [])
  {
    SavedUpToStep(rs, 0, margin, ratio);
    SavedUpToStep(rs, 1, margin, ratio);
  }

  /** The saved list of a three-candidate input, from the three verdicts. */
  lemma SavedOfThree(rs: seq<RotatedRect>, margin: int, ratio: real)
    requires |rs| == 3
    ensures Saved(rs, margin, ratio) ==
      (if Kept(rs, 0, margin, ratio) then [rs[0]] else []) + (if Kept(rs, 1, margin, ratio) then [rs[1]] else [])
      + (if Kept(rs, 2, margin, ratio) then [rs[2]] else [])
  {
    var p0 := if Kept(rs, 0, margin, ratio) then [rs[0]] else [];
    var p1 := if Kept(rs, 1, margin, ratio) then [rs[1]] else [];
    var p2 := if Kept(rs, 2, margin, ratio) then [rs[2]] else [];
    SavedUpToStep(rs, 0, margin, ratio);
    assert SavedUpTo(rs, 1, margin, ratio) == p0;
    SavedUpToStep(rs, 1, margin, ratio);
    assert SavedUpTo(rs, 2, margin, ratio) == p0 + p1;
    SavedUpToStep(rs, 2, margin, ratio);
  }

  /** Two close candidates whose areas differ by less than the ratio: the
      larger one is the only one saved, in either input order. */
  lemma ClosePairKeepsLarger(a: RotatedRect, b: RotatedRect, margin: int, ratio: real)
    requires Close(a, b, margin)
    requires 0.0 < Area(a) < Area(b) && Area(b) < ratio * Area(a)
    ensures Saved([a, b], margin, ratio) == [b]
    ensures Saved([b, a], margin, ratio) == [b]
  {
    SuppressesAsProduct(b, a, margin, ratio);
    SuppressionNeedsLargerArea(a, b, margin, ratio);
    SuppressionNeedsLargerArea(b, b, margin, ratio);
    assert !Kept([a, b], 0, margin, ratio) by { assert [a, b][1] == b; }
    assert Kept([a, b], 1, margin, ratio) by { assert [a, b][0] == a && [a, b][1] == b; }
    assert !Kept([b, a], 1, margin, ratio) by { assert [b, a][0] == b; }
    assert Kept([b, a], 0, margin, ratio) by { assert [b, a][0] == b && [b, a][1] == a; }
    SavedOfTwo([a, b], margin, ratio);
    SavedOfTwo([b, a], margin, ratio);
  }

  /** Suppression is judged against every candidate, including candidates
      that are themselves dropped: when `b` suppresses `a` and `c`
      suppresses `b`, only `c` is saved, so the close pair `a`, `b` loses
      both members. */
  lemma ChainDropsSuppressedSuppressor(a: RotatedRect, b: RotatedRect, c: RotatedRect, margin: int, ratio: real)
    requires Suppresses(b, a, margin, ratio) && Suppresses(c, b, margin, ratio)
    ensures Saved([a, b, c], margin, ratio) == [c]
  {
    var rs := [a, b, c];
    SuppressionNeedsLargerArea(b, a, margin, ratio);
    SuppressionNeedsLargerArea(c, b, margin, ratio);
    SuppressionNeedsLargerArea(a, c, margin, ratio);
    SuppressionNeedsLargerArea(b, c, margin, ratio);
    SuppressionNeedsLargerArea(c, c, margin, ratio);
    assert !Kept(rs, 0, margin, ratio) by { assert rs[1] == b; }
    assert !Kept(rs, 1, margin, ratio) by { assert rs[2] == c; }
    assert Kept(rs, 2, margin, ratio) by { assert rs[0] == a && rs[1] == b && rs[2] == c; }
    SavedOfThree(rs, margin, ratio);
  }

  // ---------------------------------------------------------------------
  // Draw decision

  const BandLow: int := 300000
  const BandHigh: int := 9000000
  const BorderLow: int := 200000

  /** Float to `int` conversion of a centre coordinate (rounds toward zero). */
  function TruncateTowardZero(x: real): (n: int)
    ensures 0.0 <= x ==> n as real <= x < n as real + 1.0
    ensures x < 0.0 ==> n as real - 1.0 < x <= n as real
  {
    if x >= 0.0 then x.Floor else -((-x).Floor)
  }

  /** Float to `int` conversion of a size component (`cvRound`: nearest,
      halves to even). */
  function RoundHalfEven(x: real): (n: int)
    ensures -0.5 <= n as real - x <= 0.5
    ensures (n as real - x == 0.5 || x - n as real == 0.5) ==> n % 2 == 0
  {
    var f := x.Floor;
    var d := x - f as real;
    if d < 0.5 then f
    else if d > 0.5 then f + 1
    else if f % 2 == 0 then f
    else f + 1
  }

  /** The area of the integer `Size` taken from the rectangle. */
  function PixelArea(r: RotatedRect): int
  {
    RoundHalfEven(r.width) * RoundHalfEven(r.height)
  }

  /** The draw rule on the integer area and the truncated centre: inside
      the size band always; otherwise above the lower bound when the centre
      is near a row edge and near a column edge. The centre's `x` is compared
      with the row count and `y` with the column count, as the tool does. */
  predicate Drawn(area: int, x: int, y: int, rows: int, cols: int, margin: int)
  {
    (BandLow < area < BandHigh) ||
    (area > BorderLow && (x < margin || x > rows - margin) && (y < margin || y > cols - margin))
  }

  predicate RectDrawn(r: RotatedRect, rows: int, cols: int, margin: int)
  {
    Drawn(PixelArea(r), TruncateTowardZero(r.cx), TruncateTowardZero(r.cy), rows, cols, margin)
  }

  /** Consequences of the draw rule: inside the size band the position is
      never consulted; at or below the lower bound nothing is drawn; at or
      above the band's top only the position decides. */
  lemma DrawRules(area: int, x: int, y: int, rows: int, cols: int, margin: int)
    ensures BandLow < area < BandHigh ==> Drawn(area, x, y, rows, cols, margin)
    ensures area <= BorderLow ==> !Drawn(area, x, y, rows, cols, margin)
    ensures area >= BandHigh ==>
      (Drawn(area, x, y, rows, cols, margin) <==> (x < margin || x > rows - margin) && (y < margin || y > cols - margin))
  {
  }

  /** The draw decision for one saved rectangle, in the tool's order: the
      size band first, the position test only when the band test fails. */
  method DrawDecision(r: RotatedRect, rows: int, cols: int, margin: int) returns (draw: bool)
    ensures draw == RectDrawn(r, rows, cols, margin)
  {
    var rectSize := PixelArea(r);
    draw := false;
    if BandLow < rectSize < BandHigh {
      draw := true;
    } else if rectSize > BorderLow {
      var rectX, rectY := TruncateTowardZero(r.cx), TruncateTowardZero(r.cy);
      if (rectX < margin || rectX > rows - margin) && (rectY < margin || rectY > cols - margin) {
        draw := true;
      }
    }
  }

  /** The rectangles outlined from the first `n` saved ones, in order. */
  function OutlinedUpTo(saved: seq<RotatedRect>, n: int, rows: int, cols: int, margin: int): (out: seq<RotatedRect>)
    requires 0 <= n <= |saved|
    ensures |out| <= n
    ensures forall r :: r in out <==> (exists k :: 0 <= k < n && saved[k] == r) && RectDrawn(r, rows, cols, margin)
  {
    if n == 0 then []
    else
      var prev := OutlinedUpTo(saved, n - 1, rows, cols, margin);
      if RectDrawn(saved[n - 1], rows, cols, margin) then prev + [saved[n - 1]] else prev
  }

  /** The rectangles outlined from a saved list, in order. */
  function Outlined(saved: seq<RotatedRect>, rows: int, cols: int, margin: int): (out: seq<RotatedRect>)
    ensures |out| <= |saved|
    ensures forall r :: r in out <==> r in saved && RectDrawn(r, rows, cols, margin)
  {
    OutlinedUpTo(saved, |saved|, rows, cols, margin)
  }

  /** The drawing loop over the saved rectangles; drawing the four edges is
      abstracted to recording the rectangle. */
  method DrawSaved(savedRects: seq<RotatedRect>, rows: int, cols: int, margin: int) returns (outlined: seq<RotatedRect>)
    ensures outlined == Outlined(savedRects, rows, cols, margin)
  {
    outlined := [];
    var i := 0;
    while i < |savedRects|
      invariant 0 <= i <= |savedRects|
      invariant outlined == OutlinedUpTo(savedRects, i, rows, cols, margin)
    {
      var draw := DrawDecision(savedRects[i], rows, cols, margin);
      if draw {
        outlined := outlined + [savedRects[i]];
      }
      i := i + 1;
    }
  }

  /** Selection for one image, from the fitted rectangles to the outlined
      ones, with the tool's margin and ratio: deduplicate first, then apply
      the draw decision (against the padded image's rows and columns). */
  method SelectRects(minRects: seq<RotatedRect>, rows: int, cols: int) returns (outlined: seq<RotatedRect>)
    ensures outlined == Outlined(Saved(minRects, Margin, AreaRatioThreshold), rows, cols, Margin)
    ensures forall r :: r in outlined <==>
      RectDrawn(r, rows, cols, Margin) &&
      exists k :: 0 <= k < |minRects| && minRects[k] == r && Kept(minRects, k, Margin, AreaRatioThreshold)
  {
    var savedRects := Deduplicate(minRects, Margin, AreaRatioThreshold);
    outlined := DrawSaved(savedRects, rows, cols, Margin);
    forall r {
      SavedMembers(minRects, Margin, AreaRatioThreshold, r);
    }
  }
}
