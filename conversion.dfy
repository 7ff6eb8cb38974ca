/**
 * Position <-> value conversion of the slider (setThumbPosition and the
 * thumb percentage of setOption). Pixel positions and values are exact
 * reals; Math.round is floor(x + 0.5) and parseInt of a pixel length
 * truncates toward zero.
 */
module Conversion {
  import opened Wrappers

  function Min(a: real, b: real): real { if a <= b then a else b }

  function Max(a: real, b: real): real { if a >= b then a else b }

  /** Math.max(0, Math.min(p, len)): the position brought onto the track. */
  function Clamp(p: real, len: real): (c: real)
    ensures 0.0 <= len ==> 0.0 <= c <= len
    ensures 0.0 <= p <= len ==> c == p
    ensures 0.0 <= len <= p ==> c == len
    ensures p <= 0.0 ==> c == 0.0
  {
    Max(0.0, Min(p, len))
  }

  /** Math.round: the nearest integer, halves rounded up. */
  function Round(x: real): (r: int)
    ensures x - 0.5 < r as real <= x + 0.5
  {
    (x + 0.5).Floor
  }

  /** parseInt of a pixel length such as "37.5px": the integer part, toward zero. */
  function ParseInt(x: real): (r: int)
    ensures 0.0 <= x ==> 0 <= r && r as real <= x < r as real + 1.0
    ensures x < 0.0 ==> r <= 0 && r as real - 1.0 < x <= r as real
  {
    if x >= 0.0 then x.Floor else -((-x).Floor)
  }

  /** The option value that a (clamped) pixel position stands for, before rounding.
      The range max - min scales the value but min is never added back. */
  function RawValue(c: real, len: real, lo: real, hi: real, vertical: bool): real
    requires len > 0.0
  {
    if vertical then (1.0 - c / len) * (hi - lo) else (c / len) * (hi - lo)
  }

  /** The pixel position that a value stands for: the inverse of RawValue,
      used by setThumbPosition to snap the thumb onto a rounded value. */
  function PositionFor(value: real, len: real, lo: real, hi: real, vertical: bool): real
    requires hi != lo
  {
    if vertical then len - value * len / (hi - lo) else value * len / (hi - lo)
  }

  /** The thumb's css percentage that setOption writes for a value
      (left for a horizontal slider, top for a vertical one). */
  function PercentFor(value: real, lo: real, hi: real, vertical: bool): real
    requires hi != lo
  {
    var pos := value * 100.0 / (hi - lo);
    if vertical then 100.0 - pos else pos
  }

  /** What setThumbPosition computes: the new option value and the thumb's css percentage. */
  datatype Placement = Placement(value: real, percent: real)

  /** setThumbPosition(position, trackLength) on the options (min, max, smooth, vertical). */
  function Place(p: real, len: real, lo: real, hi: real, smooth: bool, vertical: bool): Placement
    requires len > 0.0
    requires smooth || hi != lo
  {
    var c := Clamp(p, len);
    var raw := RawValue(c, len, lo, hi, vertical);
    if smooth then Placement(raw, 100.0 * c / len)
    else
      var v := Round(raw) as real;
      Placement(v, 100.0 * PositionFor(v, len, lo, hi, vertical) / len)
  }

  /** The position a drag step passes to setThumbPosition, if any: the pointer must be at or
      past the captured track start, and the position is capped at the captured track length. */
  function DragPosition(page: real, trackPage: real, delta: real, len: real): (r: Option<real>)
    ensures r.Some? <==> page >= trackPage
    ensures r.Some? && delta == trackPage && 0.0 <= len ==> 0.0 <= r.value <= len
    ensures r.Some? && page - delta <= len ==> r.value == page - delta
    ensures r.Some? && len <= page - delta ==> r.value == len
  {
    if page >= trackPage then Some(Min(page - delta, len)) else None
  }

  // ---------------------------------------------------------------------------
  // Lemmas

  /** A quotient is determined by the product it inverts. */
  lemma DivEq(x: real, d: real, y: real)
    requires d != 0.0 && x == y * d
    ensures x / d == y
  {
  }

  lemma DivMul(x: real, d: real)
    requires d != 0.0
    ensures (x / d) * d == x
  {
  }

  /** A share of the track is a fraction in [0, 1], and scales a positive range into [0, range]. */
  lemma ShareBounds(c: real, len: real)
    requires len > 0.0 && 0.0 <= c <= len
    ensures 0.0 <= c / len <= 1.0
  {
    DivMul(c, len);
  }

  lemma ScaleBounds(f: real, range: real)
    requires 0.0 <= f <= 1.0 && range > 0.0
    ensures 0.0 <= f * range <= range
  {
  }

  lemma FractionBounds(c: real, len: real, range: real)
    requires len > 0.0 && 0.0 <= c <= len && range > 0.0
    ensures 0.0 <= (c / len) * range <= range
    ensures 0.0 <= (1.0 - c / len) * range <= range
  {
    ShareBounds(c, len);
    ScaleBounds(c / len, range);
    ScaleBounds(1.0 - c / len, range);
  }

  /** The position only matters once clamped onto the track. */
  lemma {:induction false} PlaceOnlySeesClamped(p: real, len: real, lo: real, hi: real, smooth: bool, vertical: bool)
    requires len > 0.0 && (smooth || hi != lo)
    ensures Place(p, len, lo, hi, smooth, vertical) == Place(Clamp(p, len), len, lo, hi, smooth, vertical)
  {
    assert Clamp(Clamp(p, len), len) == Clamp(p, len);
  }

  /** Smooth slider: the value lies in [0, max - min] and the thumb's percentage
      is the clamped position's share of the track. */
  lemma SmoothPlacement(p: real, len: real, lo: real, hi: real, vertical: bool)
    requires len > 0.0 && lo < hi
    ensures var r := Place(p, len, lo, hi, true, vertical);
      && 0.0 <= r.value <= hi - lo
      && r.percent == 100.0 * Clamp(p, len) / len
      && 0.0 <= r.percent <= 100.0
  {
    var c := Clamp(p, len);
    RawValueBounds(c, len, lo, hi, vertical);
    PercentBounds(c, len);
    assert Place(p, len, lo, hi, true, vertical) == Placement(RawValue(c, len, lo, hi, vertical), 100.0 * c / len);
  }

  lemma RawValueBounds(c: real, len: real, lo: real, hi: real, vertical: bool)
    requires len > 0.0 && lo < hi && 0.0 <= c <= len
    ensures 0.0 <= RawValue(c, len, lo, hi, vertical) <= hi - lo
  {
    FractionBounds(c, len, hi - lo);
  }

  lemma PercentBounds(c: real, len: real)
    requires len > 0.0 && 0.0 <= c <= len
    ensures 0.0 <= 100.0 * c / len <= 100.0
  {
    FractionBounds(c, len, 100.0);
    HundredShare(c, len);
  }

  /** 100 * c / len is the share c / len as a percentage. */
  lemma HundredShare(c: real, len: real)
    requires len != 0.0
    ensures 100.0 * c / len == (c / len) * 100.0
  {
    DivMul(c, len);
    DivEq(100.0 * c, len, (c / len) * 100.0);
  }

  /** Non-smooth slider: the value is the raw value rounded to an integer. When
      max - min is a positive integer it stays in [0, max - min] and the thumb in [0, 100]. */
  lemma SnappedPlacement(p: real, len: real, lo: real, hi: real, vertical: bool)
    requires len > 0.0 && lo < hi
    ensures var r := Place(p, len, lo, hi, false, vertical);
      var raw := RawValue(Clamp(p, len), len, lo, hi, vertical);
      && r.value == r.value.Floor as real
      && raw - 0.5 < r.value <= raw + 0.5
      && ((hi - lo).Floor as real == hi - lo ==>
            0.0 <= r.value <= hi - lo && 0.0 <= r.percent <= 100.0)
  {
    var c := Clamp(p, len);
    var raw := RawValue(c, len, lo, hi, vertical);
    var r := Place(p, len, lo, hi, false, vertical);
    FractionBounds(c, len, hi - lo);
    if (hi - lo).Floor as real == hi - lo {
      var n := (hi - lo).Floor;
      assert Round(raw) <= n;
      assert 0 <= Round(raw);
      PlaceMatchesPercent(p, len, lo, hi, false, vertical);
      PercentInRange(r.value, lo, hi, vertical);
    }
  }

  /** setOption's percentage stays on the track for values in [0, max - min]. */
  lemma PercentInRange(value: real, lo: real, hi: real, vertical: bool)
    requires lo < hi && 0.0 <= value <= hi - lo
    ensures 0.0 <= PercentFor(value, lo, hi, vertical) <= 100.0
  {
    var range := hi - lo;
    var f := value / range;
    ShareBounds(value, range);
    DivMul(value, range);
    DivEq(value * 100.0, range, 100.0 * f);
  }

  lemma SmoothMatchesPercent(c: real, len: real, lo: real, hi: real, vertical: bool)
    requires len > 0.0 && hi != lo
    ensures 100.0 * c / len == PercentFor(RawValue(c, len, lo, hi, vertical), lo, hi, vertical)
  {
    var range := hi - lo;
    var f := c / len;
    DivMul(c, len);
    DivEq(100.0 * c, len, 100.0 * f);
    var share := if vertical then 1.0 - f else f;
    var v := RawValue(c, len, lo, hi, vertical);
    assert v == share * range;
    DivEq(v * 100.0, range, 100.0 * share);
  }

  lemma SnappedMatchesPercent(v: real, len: real, lo: real, hi: real, vertical: bool)
    requires len > 0.0 && hi != lo
    ensures 100.0 * PositionFor(v, len, lo, hi, vertical) / len == PercentFor(v, lo, hi, vertical)
  {
    var range := hi - lo;
    var g := v / range;
    DivMul(v, range);
    DivEq(v * len, range, g * len);
    var q := PositionFor(v, len, lo, hi, vertical);
    var share := if vertical then 1.0 - g else g;
    assert q == share * len;
    DivEq(100.0 * q, len, 100.0 * share);
    DivEq(v * 100.0, range, 100.0 * g);
  }

  /** setThumbPosition and setOption agree: the thumb is drawn at the percentage
      that setOption would write for the value just computed. */
  lemma PlaceMatchesPercent(p: real, len: real, lo: real, hi: real, smooth: bool, vertical: bool)
    requires len > 0.0 && hi != lo
    ensures var r := Place(p, len, lo, hi, smooth, vertical);
      r.percent == PercentFor(r.value, lo, hi, vertical)
  {
    var c := Clamp(p, len);
    if smooth {
      SmoothMatchesPercent(c, len, lo, hi, vertical);
    } else {
      var v := Round(RawValue(c, len, lo, hi, vertical)) as real;
      SnappedMatchesPercent(v, len, lo, hi, vertical);
    }
  }

  /** Smooth slider, value -> position -> value: a value in [0, max - min] is recovered
      from the position that stands for it. */
  lemma ValueRoundTrip(v: real, len: real, lo: real, hi: real, vertical: bool)
    requires len > 0.0 && lo < hi && 0.0 <= v <= hi - lo
    ensures Place(PositionFor(v, len, lo, hi, vertical), len, lo, hi, true, vertical).value == v
  {
    var range := hi - lo;
    var f := v / range;
    var q := PositionFor(v, len, lo, hi, vertical);
    PositionShare(v, len, lo, hi, vertical);
    OnTrack(q, len);
    var share := q / len;
    var back := if vertical then 1.0 - share else share;
    assert back == f;
    assert RawValue(q, len, lo, hi, vertical) == back * range;
    DivMul(v, range);
  }

  /** A position on the track is left as it is by the clamp. */
  lemma OnTrack(p: real, len: real)
    requires 0.0 <= p <= len
    ensures Clamp(p, len) == p
  {
  }

  /** The position that stands for a value in [0, max - min] lies on the track, at the
      value's share of it (counted from the far end on the vertical axis). */
  lemma PositionShare(v: real, len: real, lo: real, hi: real, vertical: bool)
    requires len > 0.0 && lo < hi && 0.0 <= v <= hi - lo
    ensures var q := PositionFor(v, len, lo, hi, vertical);
      && 0.0 <= q <= len
      && q / len == (if vertical then 1.0 - v / (hi - lo) else v / (hi - lo))
  {
    var range := hi - lo;
    var f := v / range;
    ShareBounds(v, range);
    DivMul(v, range);
    DivEq(v * len, range, f * len);
    var share := if vertical then 1.0 - f else f;
    var q := PositionFor(v, len, lo, hi, vertical);
    assert q == share * len;
    ScaleBounds(share, len);
    DivEq(q, len, share);
  }

  /** Smooth slider, position -> value -> position: the clamped position is recovered
      from the value it produced. */
  lemma PositionRoundTrip(p: real, len: real, lo: real, hi: real, vertical: bool)
    requires len > 0.0 && hi != lo
    ensures PositionFor(Place(p, len, lo, hi, true, vertical).value, len, lo, hi, vertical) == Clamp(p, len)
  {
    var c := Clamp(p, len);
    var range := hi - lo;
    var f := c / len;
    DivMul(c, len);
    var share := if vertical then 1.0 - f else f;
    var v := share * range;
    assert Place(p, len, lo, hi, true, vertical).value == v;
    DivEq(v * len, range, share * len);
  }

  /** Non-smooth slider with an integer range: dragging to the position the thumb snapped to
      gives the same value and the same thumb percentage again (no oscillation). */
  lemma SnapIsStable(p: real, len: real, lo: real, hi: real, vertical: bool)
    requires len > 0.0 && lo < hi && (hi - lo).Floor as real == hi - lo
    ensures var r := Place(p, len, lo, hi, false, vertical);
      Place(PositionFor(r.value, len, lo, hi, vertical), len, lo, hi, false, vertical) == r
  {
    var r := Place(p, len, lo, hi, false, vertical);
    SnappedPlacement(p, len, lo, hi, vertical);
    var v := r.value;
    var q := PositionFor(v, len, lo, hi, vertical);
    ValueRoundTrip(v, len, lo, hi, vertical);
    assert RawValue(Clamp(q, len), len, lo, hi, vertical) == v;
    var n := v.Floor;
    assert (n as real + 0.5).Floor == n;
    assert Round(v) as real == v;
  }

  /** The ends of the track give 0 and max - min, not min and max: the value is never
      offset by min (the vertical axis is inverted). */
  lemma EndValues(len: real, lo: real, hi: real, smooth: bool)
    requires len > 0.0 && lo < hi && (smooth || (hi - lo).Floor as real == hi - lo)
    ensures Place(0.0, len, lo, hi, smooth, false).value == 0.0
    ensures Place(len, len, lo, hi, smooth, false).value == hi - lo
    ensures Place(0.0, len, lo, hi, smooth, true).value == hi - lo
    ensures Place(len, len, lo, hi, smooth, true).value == 0.0
  {
    assert len / len == 1.0;
    assert Round(0.0) == 0;
    var n := (hi - lo).Floor;
    assert (n as real + 0.5).Floor == n;
  }

  /** With a non-integer range the rounding can carry the value past max - min and the
      thumb past the end of the track: min = 0, max = 2.5, thumb at the end. */
  lemma SnapCanOvershoot()
    ensures Place(10.0, 10.0, 0.0, 2.5, false, false) == Placement(3.0, 120.0)
  {
    assert Round(2.5) == 3;
  }

  // ---------------------------------------------------------------------------
  // The value counted from min

  /** setThumbPosition with the value offset by min, so that it runs from min to max. */
  function PlaceFromMin(p: real, len: real, lo: real, hi: real, smooth: bool, vertical: bool): Placement
    requires len > 0.0
    requires smooth || hi != lo
  {
    var pl := Place(p, len, lo, hi, smooth, vertical);
    Placement(lo + pl.value, pl.percent)
  }

  /** setOption's thumb percentage for a value counted from min. */
  function PercentFromMin(value: real, lo: real, hi: real, vertical: bool): real
    requires hi != lo
  {
    PercentFor(value - lo, lo, hi, vertical)
  }

  /** Counted from min, the value stays within [min, max] and setOption puts the thumb back
      where setThumbPosition left it. */
  lemma FromMinInRange(p: real, len: real, lo: real, hi: real, smooth: bool, vertical: bool)
    requires len > 0.0 && lo < hi && (smooth || (hi - lo).Floor as real == hi - lo)
    ensures var r := PlaceFromMin(p, len, lo, hi, smooth, vertical);
      && lo <= r.value <= hi
      && r.percent == PercentFromMin(r.value, lo, hi, vertical)
      && 0.0 <= r.percent <= 100.0
  {
    if smooth {
      SmoothPlacement(p, len, lo, hi, vertical);
    } else {
      SnappedPlacement(p, len, lo, hi, vertical);
    }
    PlaceMatchesPercent(p, len, lo, hi, smooth, vertical);
    var r := PlaceFromMin(p, len, lo, hi, smooth, vertical);
    assert r.value - lo == Place(p, len, lo, hi, smooth, vertical).value;
  }
}
