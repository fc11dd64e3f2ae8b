/**
 * The crop rectangle. The window keeps it twice: as `bbox` (left edge, top
 * edge, width, height in video pixels) and as the four "bounding" spin boxes,
 * which hold how many pixels are trimmed from each side of the frame. A spin
 * box keeps its minimum at 0 and has the video's width (or height) as its
 * maximum, and `setValue` clamps whatever it is given into that range.
 */
module Crop {
  import opened Common

  datatype BBox = BBox(x: int, y: int, w: int, h: int)

  /** What the left, right, top and bottom spin boxes show. */
  datatype Margins = Margins(left: int, right: int, top: int, bottom: int)

  /** `QSpinBox.setValue(v)` with minimum 0 and maximum `max`. */
  function Clamp(v: int, max: nat): (r: int)
    ensures 0 <= r <= max
    ensures r == v <==> 0 <= v <= max
    ensures v < 0 ==> r == 0
    ensures v > max ==> r == max
  {
    if v < 0 then 0 else if v > max then max else v
  }

  /** Every spin box holds a value its range admits. */
  predicate MarginsInRange(m: Margins, maxW: nat, maxH: nat)
  {
    0 <= m.left <= maxW && 0 <= m.right <= maxW && 0 <= m.top <= maxH && 0 <= m.bottom <= maxH
  }

  /**
   * `update_bounding_box`: the rectangle left over once the margins are cut
   * from a `vidW` by `vidH` frame.
   */
  function BBoxFromMargins(m: Margins, vidW: int, vidH: int): (b: BBox)
    ensures b.x == m.left && b.y == m.top
    ensures m.left + b.w + m.right == vidW
    ensures m.top + b.h + m.bottom == vidH
  {
    BBox(m.left, m.top, vidW - (m.left + m.right), vidH - (m.top + m.bottom))
  }

  /**
   * `update_from_bbox`, spin-box half: each margin is the distance from the
   * rectangle's side to the frame's side, as the clamping spin box stores it.
   */
  function MarginsFromBBox(b: BBox, vidW: int, vidH: int, maxW: nat, maxH: nat): (m: Margins)
    ensures MarginsInRange(m, maxW, maxH)
  {
    Margins(Clamp(b.x, maxW), Clamp(vidW - (b.x + b.w), maxW),
            Clamp(b.y, maxH), Clamp(vidH - (b.y + b.h), maxH))
  }

  /** The rectangle lies inside a `vidW` by `vidH` frame, with no negative extent past an edge. */
  predicate InFrame(b: BBox, vidW: int, vidH: int)
  {
    0 <= b.x <= vidW && 0 <= b.x + b.w <= vidW && 0 <= b.y <= vidH && 0 <= b.y + b.h <= vidH
  }

  /**
   * Margins read from the spin boxes, turned into a rectangle and written back,
   * come back unchanged: editing a spin box never moves another one.
   */
  lemma {:induction false} MarginsRoundTrip(m: Margins, vidW: nat, vidH: nat)
    requires MarginsInRange(m, vidW, vidH)
    ensures MarginsFromBBox(BBoxFromMargins(m, vidW, vidH), vidW, vidH, vidW, vidH) == m
  {
    var b := BBoxFromMargins(m, vidW, vidH);
    assert vidW - (b.x + b.w) == m.right;
    assert vidH - (b.y + b.h) == m.bottom;
  }

  /**
   * A rectangle written into the spin boxes and read back is the same
   * rectangle exactly when it lies inside the frame; otherwise the clamp has
   * moved at least one side.
   */
  lemma {:induction false} BBoxRoundTrip(b: BBox, vidW: nat, vidH: nat)
    ensures BBoxFromMargins(MarginsFromBBox(b, vidW, vidH, vidW, vidH), vidW, vidH) == b
        <==> InFrame(b, vidW, vidH)
  {
    var m := MarginsFromBBox(b, vidW, vidH, vidW, vidH);
    var b' := BBoxFromMargins(m, vidW, vidH);
    if b' == b {
      assert m.left == b.x && m.top == b.y;
      assert m.right == vidW - (b.x + b.w);
      assert m.bottom == vidH - (b.y + b.h);
    }
  }

  /** `all(x > 0 for x in bbox)`: only such a rectangle is drawn or taken from a selection. */
  predicate IsActive(b: BBox)
  {
    b.x > 0 && b.y > 0 && b.w > 0 && b.h > 0
  }

  /**
   * The outline `update_image` draws on each frame: the corners of the crop
   * fields, provided the bbox is active and the crop fields have been set
   * (the source would fail on the `None` they start as).
   */
  function Outline(bbox: BBox, crop: Option<BBox>): (r: Option<((int, int), (int, int))>)
    ensures r.Some? <==> IsActive(bbox) && crop.Some?
    ensures r.Some? ==> r.value.0 == (crop.value.x, crop.value.y)
    ensures r.Some? ==> r.value.1.0 - r.value.0.0 == crop.value.w && r.value.1.1 - r.value.0.1 == crop.value.h
  {
    if IsActive(bbox) && crop.Some? then
      Some(((crop.value.x, crop.value.y), (crop.value.x + crop.value.w, crop.value.y + crop.value.h)))
    else None
  }

  /**
   * A rectangle that touches the left or the top edge of the frame is never
   * active, however large: cropping nothing from the left (margin 0) switches
   * the outline off.
   */
  lemma {:induction false} EdgeRectangleInactive(m: Margins, vidW: nat, vidH: nat)
    requires MarginsInRange(m, vidW, vidH)
    ensures IsActive(BBoxFromMargins(m, vidW, vidH))
        <==> m.left > 0 && m.top > 0 && m.left + m.right < vidW && m.top + m.bottom < vidH
  {
    var b := BBoxFromMargins(m, vidW, vidH);
    assert b.w > 0 <==> m.left + m.right < vidW;
  }

  /**
   * An active rectangle that came from the spin boxes is inside the frame, so
   * it survives the trip back through them.
   */
  lemma {:induction false} MarginsGiveFrameRectangle(m: Margins, vidW: nat, vidH: nat)
    requires MarginsInRange(m, vidW, vidH)
    requires IsActive(BBoxFromMargins(m, vidW, vidH))
    ensures InFrame(BBoxFromMargins(m, vidW, vidH), vidW, vidH)
  {
    var b := BBoxFromMargins(m, vidW, vidH);
    assert b.x + b.w == vidW - m.right;
    assert b.y + b.h == vidH - m.bottom;
  }
}
