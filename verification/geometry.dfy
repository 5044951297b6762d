/** Integer screen rectangles `(x, y, w, h)` as OpenCV's `boundingRect`
    returns them, and the arithmetic the detectors do on them. */
module Geometry {

  datatype Box = Box(x: int, y: int, w: int, h: int)

  function Min(a: int, b: int): int {
    if a <= b then a else b
  }

  function Max(a: int, b: int): int {
    if a >= b then a else b
  }

  function Area(b: Box): int {
    b.w * b.h
  }

  /** Both sides are at least one pixel, as every bounding rectangle is. */
  predicate PositiveSize(b: Box) {
    b.w > 0 && b.h > 0
  }

  /** The length shared by two intervals on one axis: from the later start
      to the earlier end, or zero when they do not meet. */
  function Overlap1(a0: int, al: int, b0: int, bl: int): (r: int)
    ensures r >= 0
  {
    Max(0, Min(a0 + al, b0 + bl) - Max(a0, b0))
  }

  function OverlapArea(a: Box, b: Box): (r: int)
    ensures r >= 0
  {
    Overlap1(a.x, a.w, b.x, b.w) * Overlap1(a.y, a.h, b.y, b.h)
  }

  /** The center of a box, each half-side rounded down. Dafny's `/` by the
      positive divisor 2 rounds down, as Python's floor division does. */
  function Center(b: Box): (int, int) {
    (b.x + b.w / 2, b.y + b.h / 2)
  }

  /** Squared distance between the top-left corners; the detectors compare
      its square root with a threshold `t`, which is `SqDist < t * t`. */
  function SqDist(a: Box, b: Box): int {
    (a.x - b.x) * (a.x - b.x) + (a.y - b.y) * (a.y - b.y)
  }

  /** The integer part of `a / n`: Python's `int` of a float quotient
      truncates toward zero, which differs from Dafny's `/` for negative `a`. */
  function TruncDiv(a: int, n: int): (r: int)
    requires n > 0
    ensures a >= 0 ==> 0 <= r && n * r <= a < n * r + n
    ensures a < 0 ==> r <= 0 && n * r - n < a <= n * r
  {
    if a >= 0 then
      assert a == n * (a / n) + a % n && 0 <= a % n < n;
      a / n
    else
      assert -a == n * ((-a) / n) + (-a) % n && 0 <= (-a) % n < n;
      -((-a) / n)
  }

  lemma MulMono(n: int, a: int, b: int)
    requires n > 0 && a <= b
    ensures n * a <= n * b
  {
  }
}
