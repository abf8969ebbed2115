/** Axis-aligned rectangles and the two pure helpers the game screen uses:
    the rectangle overlap test and the clamp of a coordinate to an interval.
    Coordinates are reals, an abstraction of the 32-bit floats of the game. */
module Geometry {

  /** A rectangle given by its bottom-left corner and its size. */
  datatype Rect = Rect(x: real, y: real, width: real, height: real)

  /** The overlap test of the framework's rectangle class (an assumed
      definition, since that library is not part of this model): the open
      x-intervals intersect and the open y-intervals intersect. */
  predicate Overlaps(a: Rect, b: Rect)
  {
    a.x < b.x + b.width && a.x + a.width > b.x &&
    a.y < b.y + b.height && a.y + a.height > b.y
  }

  /** The point (px, py) lies strictly inside r. */
  predicate Inside(r: Rect, px: real, py: real)
  {
    r.x < px < r.x + r.width && r.y < py < r.y + r.height
  }

  /** Reference definition of overlap: some point lies strictly inside both. */
  ghost predicate SharePoint(a: Rect, b: Rect)
  {
    exists px: real, py: real :: Inside(a, px, py) && Inside(b, px, py)
  }

  function Min(u: real, v: real): (m: real) { if u <= v then u else v }
  function Max(u: real, v: real): (m: real) { if u <= v then v else u }

  /** For rectangles of positive size the interval test agrees with the
      geometric meaning of overlap: the two interiors have a common point. */
  lemma OverlapsIffSharePoint(a: Rect, b: Rect)
    requires a.width > 0.0 && a.height > 0.0 && b.width > 0.0 && b.height > 0.0
    ensures Overlaps(a, b) <==> SharePoint(a, b)
  {
    if Overlaps(a, b) {
      var px := (Max(a.x, b.x) + Min(a.x + a.width, b.x + b.width)) / 2.0;
      var py := (Max(a.y, b.y) + Min(a.y + a.height, b.y + b.height)) / 2.0;
      assert Inside(a, px, py) && Inside(b, px, py);
    }
    if SharePoint(a, b) {
      var px: real, py: real :| Inside(a, px, py) && Inside(b, px, py);
    }
  }

  /** The framework's clamp: below lo gives lo, above hi gives hi, otherwise
      the value itself. The result is always one of the three, lies in
      [lo, hi] whenever that interval is not empty, and leaves a value
      already in range alone. */
  function Clamp(v: real, lo: real, hi: real): (r: real)
    ensures r == v || r == lo || r == hi
    ensures lo <= hi ==> lo <= r <= hi
    ensures lo <= v <= hi ==> r == v
    ensures v < lo ==> r == lo
    ensures lo <= v && hi < v ==> r == hi
  {
    if v < lo then lo
    else if v > hi then hi
    else v
  }
}
