/** `getRandomDelay(min, max)`: the pause the crawler takes after each
    page that loads, `Math.floor(Math.random() * (max - min + 1)) + min`. The value of
    `Math.random()` is a parameter `u` with `0 <= u < 1`; arithmetic is
    exact on reals. */
module Pacing {

  /** The bounds the crawler passes, in milliseconds. */
  const MinDelay: int := 2000
  const MaxDelay: int := 5000

  /** A value `Math.random()` can return. */
  type Draw = u: real | 0.0 <= u < 1.0

  /** `Math.floor(u * width)`: which of `width` equal slices of `[0, 1)`
      holds `u`. */
  function Slice(u: real, width: int): (k: int)
    requires 0.0 <= u < 1.0 && width >= 1
    ensures 0 <= k < width
  {
    assert u * width as real < width as real;
    (u * width as real).Floor
  }

  /** `getRandomDelay(min, max)` for the draw `u`: an integer between `min`
      and `max`, both included. */
  function RandomDelay(min: int, max: int, u: real): (d: int)
    requires min <= max && 0.0 <= u < 1.0
    ensures min <= d <= max
  {
    Slice(u, max - min + 1) + min
  }

  /** Each slice is the interval `[k / width, (k + 1) / width)`, so a
      uniform `u` makes every outcome equally likely. */
  lemma SliceInterval(u: real, width: int, k: int)
    requires 0.0 <= u < 1.0 && width >= 1
    ensures Slice(u, width) == k <==> k as real / width as real <= u < (k + 1) as real / width as real
  {
    var w := width as real;
    var x := u * w;
    assert Slice(u, width) == x.Floor;
    FloorIs(x, k);
    ScaleOrder(k as real, u, w);
    ScaleOrder(u, (k + 1) as real, w);
  }

  /** `Math.floor(x)` is `k` exactly when `x` lies in `[k, k + 1)`. */
  lemma FloorIs(x: real, k: int)
    ensures x.Floor == k <==> k as real <= x < (k + 1) as real
  {
  }

  /** For `w > 0`, comparing `a / w` with `b` is comparing `a` with `b * w`,
      and the other way round. */
  lemma ScaleOrder(a: real, b: real, w: real)
    requires w > 0.0
    ensures a / w <= b <==> a <= b * w
    ensures b < a / w <==> b * w < a
  {
    var q := a / w;
    assert q * w == a;
    if q <= b {
      MulMonotone(q, b, w);
    } else {
      MulStrict(b, q, w);
    }
    if b < q {
      MulStrict(b, q, w);
    } else {
      MulMonotone(q, b, w);
    }
  }

  lemma MulMonotone(x: real, y: real, w: real)
    requires w > 0.0 && x <= y
    ensures x * w <= y * w
  {
    assert y * w - x * w == (y - x) * w;
  }

  lemma MulStrict(x: real, y: real, w: real)
    requires w > 0.0 && x < y
    ensures x * w < y * w
  {
    assert y * w - x * w == (y - x) * w;
  }

  /** Every delay between `min` and `max` is produced by some draw. */
  lemma EveryDelayReachable(min: int, max: int, d: int)
    requires min <= d <= max
    ensures var u := (d - min) as real / (max - min + 1) as real;
      0.0 <= u < 1.0 && RandomDelay(min, max, u) == d
  {
    var w := (max - min + 1) as real;
    var u := (d - min) as real / w;
    assert u * w == (d - min) as real;
    SliceInterval(u, max - min + 1, d - min);
  }
}
