/** `Rect<i32>` of src/graphics/rect.rs: an axis-aligned rectangle given by a corner and
    a signed extent on each axis; a negative extent reaches left of (or above) the
    corner. The sums and differences the methods compute panic on i32 overflow in a
    debug build, so they are preconditions here. */
module Rects {
  import opened Ints
  import opened Results

  datatype Vector2 = Vector2(x: i32, y: i32)

  datatype Rect = Rect(left: i32, top: i32, width: i32, height: i32)

  /** The far corner is representable, as every method that adds an extent needs. */
  predicate NoOverflow(r: Rect) {
    IsI32(r.left + r.width) && IsI32(r.top + r.height)
  }

  function Min(a: int, b: int): int { if a <= b then a else b }

  function Max(a: int, b: int): int { if a >= b then a else b }

  /** The normalised bounds `[MinX, MaxX)` and `[MinY, MaxY)`. */
  function MinX(r: Rect): int { Min(r.left, r.left + r.width) }
  function MaxX(r: Rect): int { Max(r.left, r.left + r.width) }
  function MinY(r: Rect): int { Min(r.top, r.top + r.height) }
  function MaxY(r: Rect): int { Max(r.top, r.top + r.height) }

  /** `contains`: half-open on the normalised bounds of each axis. */
  function Contains(r: Rect, p: Vector2): (c: bool)
    requires NoOverflow(r)
    ensures c <==> InSpan(p.x, r.left, r.width) && InSpan(p.y, r.top, r.height)
    ensures r.width == 0 || r.height == 0 ==> !c
  {
    MinX(r) <= p.x < MaxX(r) && MinY(r) <= p.y < MaxY(r)
  }

  /** Coordinate `v` lies in the span that starts at `start` and reaches `extent`
      further, in either direction. */
  predicate InSpan(v: int, start: int, extent: int) {
    if extent >= 0 then start <= v < start + extent
    else start + extent <= v < start
  }

  /** The same rectangle described from its other corner, with both extents negated. */
  function Flip(r: Rect): (f: Rect)
    requires NoOverflow(r) && r.width != I32_MIN && r.height != I32_MIN
    ensures NoOverflow(f) && f.width != I32_MIN && f.height != I32_MIN
  {
    Rect(r.left + r.width, r.top + r.height, -r.width, -r.height)
  }

  /** Normalisation makes the two descriptions contain the same points. */
  lemma ContainsFlip(r: Rect, p: Vector2)
    requires NoOverflow(r) && r.width != I32_MIN && r.height != I32_MIN
    ensures Contains(Flip(r), p) <==> Contains(r, p)
    ensures Flip(Flip(r)) == r
  {
  }

  /** The overlap `intersects` computes before deciding. */
  function InterLeft(a: Rect, b: Rect): int { Max(MinX(a), MinX(b)) }
  function InterTop(a: Rect, b: Rect): int { Max(MinY(a), MinY(b)) }
  function InterRight(a: Rect, b: Rect): int { Min(MaxX(a), MaxX(b)) }
  function InterBottom(a: Rect, b: Rect): int { Min(MaxY(a), MaxY(b)) }

  /** The overlap's extents fit in an i32 (they can only fail to when an extent is
      the least i32). */
  predicate IntersectionFits(a: Rect, b: Rect) {
    IsI32(InterRight(a, b) - InterLeft(a, b)) && IsI32(InterBottom(a, b) - InterTop(a, b))
  }

  /** `intersects` only subtracts once it has found the overlap non-empty, so its
      extents must fit only then. */
  predicate IntersectsDefined(a: Rect, b: Rect) {
    InterLeft(a, b) < InterRight(a, b) && InterTop(a, b) < InterBottom(a, b) ==> IntersectionFits(a, b)
  }

  /** `intersects`: the overlap of the normalised bounds when it is non-empty on both
      axes, and nothing otherwise. */
  function Intersects(a: Rect, b: Rect): (r: Option<Rect>)
    requires NoOverflow(a) && NoOverflow(b) && IntersectsDefined(a, b)
    ensures r.Some? ==> r.value.width > 0 && r.value.height > 0 && NoOverflow(r.value)
  {
    var left := InterLeft(a, b);
    var top := InterTop(a, b);
    var right := InterRight(a, b);
    var bottom := InterBottom(a, b);
    if left < right && top < bottom then
      Some(Rect(left, top, right - left, bottom - top))
    else
      None
  }

  /** The overlap holds exactly the points both rectangles hold. */
  lemma IntersectionIsCommon(a: Rect, b: Rect, p: Vector2)
    requires NoOverflow(a) && NoOverflow(b) && IntersectionFits(a, b)
    requires Intersects(a, b).Some?
    ensures Contains(Intersects(a, b).value, p) <==> Contains(a, p) && Contains(b, p)
  {
  }

  /** No overlap means no common point. */
  lemma NoIntersectionNoCommon(a: Rect, b: Rect, p: Vector2)
    requires NoOverflow(a) && NoOverflow(b) && IntersectsDefined(a, b)
    requires Intersects(a, b).None?
    ensures !(Contains(a, p) && Contains(b, p))
  {
  }

  /** An overlap is reported exactly when some point lies in both rectangles. */
  lemma IntersectsIffCommonPoint(a: Rect, b: Rect)
    requires NoOverflow(a) && NoOverflow(b) && IntersectsDefined(a, b)
    ensures Intersects(a, b).Some? <==> exists p: Vector2 :: Contains(a, p) && Contains(b, p)
  {
    if Intersects(a, b).Some? {
      var p := Vector2(InterLeft(a, b), InterTop(a, b));
      assert Contains(a, p) && Contains(b, p);
    } else {
      forall p: Vector2
        ensures !(Contains(a, p) && Contains(b, p))
      {
        NoIntersectionNoCommon(a, b, p);
      }
    }
  }

  /** The order of the operands does not matter. */
  lemma IntersectsSymmetric(a: Rect, b: Rect)
    requires NoOverflow(a) && NoOverflow(b) && IntersectsDefined(a, b)
    ensures IntersectsDefined(b, a)
    ensures Intersects(a, b) == Intersects(b, a)
  {
  }

  /** Rectangles at the two ends of the i32 range share no point; their overlap would
      be wider than an i32 holds, but `intersects` never computes it and reports none. */
  lemma FarApartIntersectsNot()
    ensures NoOverflow(Rect(I32_MIN, 0, 1, 1)) && NoOverflow(Rect(I32_MAX - 1, 0, 1, 1))
    ensures !IntersectionFits(Rect(I32_MIN, 0, 1, 1), Rect(I32_MAX - 1, 0, 1, 1))
    ensures Intersects(Rect(I32_MIN, 0, 1, 1), Rect(I32_MAX - 1, 0, 1, 1)) == None
  {
  }

  /** `equals`: field by field. */
  function Equals(a: Rect, b: Rect): (e: bool)
    ensures e <==> a == b
  {
    a.left == b.left && a.top == b.top && a.width == b.width && a.height == b.height
  }

  function GetCorner(r: Rect): (v: Vector2)
    ensures NoOverflow(r) && r.width > 0 && r.height > 0 ==> Contains(r, v)
  {
    Vector2(r.left, r.top)
  }

  function GetOtherCorner(r: Rect): (v: Vector2)
    requires NoOverflow(r)
    ensures v.x == GetCorner(r).x + GetSize(r).x && v.y == GetCorner(r).y + GetSize(r).y
    ensures r.width > 0 && r.height > 0 ==> !Contains(r, v)
  {
    Vector2(r.left + r.width, r.top + r.height)
  }

  function GetSize(r: Rect): (v: Vector2)
    ensures NoOverflow(r) ==> Abs(v.x) == MaxX(r) - MinX(r) && Abs(v.y) == MaxY(r) - MinY(r)
  {
    Vector2(r.width, r.height)
  }

  /** The corner plus the size is the other corner; a rectangle with positive extents
      holds its corner but not its other corner. */
  lemma CornersAndSize(r: Rect)
    requires NoOverflow(r)
    ensures GetOtherCorner(r).x == GetCorner(r).x + GetSize(r).x
    ensures GetOtherCorner(r).y == GetCorner(r).y + GetSize(r).y
    ensures r.width > 0 && r.height > 0 ==> Contains(r, GetCorner(r)) && !Contains(r, GetOtherCorner(r))
  {
  }

  /** The C struct `sfIntRect`, laid out field for field. */
  datatype SfIntRect = SfIntRect(left: i32, top: i32, width: i32, height: i32)

  function ToCsfml(r: Rect): (c: SfIntRect)
    ensures FromCsfml(c) == r
  {
    SfIntRect(r.left, r.top, r.width, r.height)
  }

  function FromCsfml(c: SfIntRect): (r: Rect)
    ensures GetCorner(r) == Vector2(c.left, c.top) && GetSize(r) == Vector2(c.width, c.height)
  {
    Rect(c.left, c.top, c.width, c.height)
  }

  lemma CsfmlRoundTrip(r: Rect, c: SfIntRect)
    ensures FromCsfml(ToCsfml(r)) == r
    ensures ToCsfml(FromCsfml(c)) == c
  {
  }

  /** The unit tests of rect.rs. */
  lemma RectExamples()
    ensures Contains(Rect(0, 0, 10, 10), Vector2(0, 0))
    ensures Contains(Rect(0, 0, 10, 10), Vector2(9, 9))
    ensures !Contains(Rect(0, 0, 10, 10), Vector2(5, -1))
    ensures !Contains(Rect(0, 0, 10, 10), Vector2(10, 5))
    ensures Intersects(Rect(6, 6, 20, 20), Rect(-5, -5, 10, 10)) == None
    ensures Intersects(Rect(0, 0, 10, 10), Rect(6, 6, 20, 20)) == Some(Rect(6, 6, 4, 4))
    ensures Intersects(Rect(0, 0, 10, 10), Rect(-5, -5, 10, 10)) == Some(Rect(0, 0, 5, 5))
    ensures GetCorner(Rect(1, 3, 10, 10)) == Vector2(1, 3)
    ensures GetSize(Rect(1, 3, 10, 12)) == Vector2(10, 12)
    ensures FromCsfml(ToCsfml(Rect(1, 3, 5, 10))) == Rect(1, 3, 5, 10)
  {
  }
}
