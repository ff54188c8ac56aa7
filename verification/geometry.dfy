/** Python numeric semantics the game relies on, and the integer rectangle of
    pygame (pygame.Rect) used for collision. Positions are exact reals standing
    for Python floats; a Rect holds whole pixels. */
module Geometry {

  /** Python's `a // b` for a positive divisor: the quotient rounded down. */
  function FloorDiv(a: int, b: int): (q: int)
    requires b > 0
    ensures b * q <= a < b * q + b
  {
    a / b
  }

  /** Python's `math.ceil(a / b)` for a positive divisor. */
  function CeilDiv(a: int, b: int): (q: int)
    requires b > 0
    ensures b * q - b < a <= b * q
  {
    -((-a) / b)
  }

  /** Python's `a // b` on a float `a` and a positive integer `b`. */
  function FloorDivReal(a: real, b: int): (q: int)
    requires b > 0
    ensures q as real * b as real <= a < (q + 1) as real * b as real
  {
    var v := a / b as real;
    var q := v.Floor;
    MulMonotone(q as real, v, b as real);
    MulMonotoneStrict(v, (q + 1) as real, b as real);
    q
  }

  lemma MulMonotone(a: real, c: real, b: real)
    requires a <= c && b > 0.0
    ensures a * b <= c * b
  {
  }

  lemma MulMonotoneStrict(a: real, c: real, b: real)
    requires a < c && b > 0.0
    ensures a * b < c * b
  {
  }

  function Abs(v: real): real { if v < 0.0 then -v else v }

  function Min(a: real, b: real): real { if a <= b then a else b }

  function Max(a: real, b: real): real { if a >= b then a else b }

  function MinInt(a: int, b: int): int { if a <= b then a else b }

  function MaxInt(a: int, b: int): int { if a >= b then a else b }

  /** Python 3's `round(v)`: the nearest integer, ties going to the even one. */
  function RoundHalfEven(v: real): (r: int)
    ensures -0.5 <= v - r as real <= 0.5
    ensures (v - r as real == 0.5 || v - r as real == -0.5) ==> r % 2 == 0
  {
    var f := v.Floor;
    var d := v - f as real;
    if d < 0.5 then f
    else if d > 0.5 then f + 1
    else if f % 2 == 0 then f
    else f + 1
  }

  /** The two clauses of RoundHalfEven's contract pin its result down: no
      other integer is as close to `v` with the same tie rule. */
  lemma RoundHalfEvenUnique(v: real, r: int)
    requires -0.5 <= v - r as real <= 0.5
    requires (v - r as real == 0.5 || v - r as real == -0.5) ==> r % 2 == 0
    ensures r == RoundHalfEven(v)
  {
  }

  /** Python's `int(v)` and pygame's conversion of a float coordinate:
      truncation toward zero. */
  function Trunc(v: real): (r: int)
    ensures Abs(v - r as real) < 1.0
    ensures Abs(r as real) <= Abs(v)
    ensures (v >= 0.0 ==> r >= 0) && (v <= 0.0 ==> r <= 0)
  {
    if v >= 0.0 then v.Floor else -((-v).Floor)
  }

  /** pygame.Rect: left edge x, top edge y, width w, height h, in whole pixels. */
  datatype Rect = Rect(x: int, y: int, w: int, h: int) {
    function Right(): int { x + w }
    function Bottom(): int { y + h }

    /** pygame's `colliderect`: the open interiors overlap on both axes, so
        rectangles that only share an edge do not collide. */
    predicate Collides(o: Rect) {
      x < o.Right() && o.x < Right() && y < o.Bottom() && o.y < Bottom()
    }

    /** Pixel (px, py) lies inside the rectangle. */
    predicate HasPixel(px: int, py: int) {
      x <= px < Right() && y <= py < Bottom()
    }
  }

  /** For rectangles with area, colliding is sharing at least one pixel. */
  lemma CollidesSharePixel(a: Rect, b: Rect)
    requires a.w > 0 && a.h > 0 && b.w > 0 && b.h > 0
    ensures a.Collides(b) <==> exists px, py :: a.HasPixel(px, py) && b.HasPixel(px, py)
  {
    if a.Collides(b) {
      var px, py := MaxInt(a.x, b.x), MaxInt(a.y, b.y);
      assert a.HasPixel(px, py) && b.HasPixel(px, py);
    }
  }

  /** Two rectangles that share an edge do not collide. */
  lemma TouchingDoNotCollide(a: Rect, b: Rect)
    requires a.Right() == b.x || b.Right() == a.x || a.Bottom() == b.y || b.Bottom() == a.y
    ensures !a.Collides(b) && !b.Collides(a)
  {
  }
}
