/** Index arithmetic and modular arithmetic facts the painter's proofs use. */
module Arith {
  import opened Platform

  /** Quotient and remainder are determined by any decomposition `n == q*w + r`
      with `0 <= r < w`. */
  lemma DivModUnique(n: int, w: int, q: int, r: int)
    requires w > 0 && 0 <= r < w && n == q * w + r
    ensures n / w == q && n % w == r
  {
    var q', r' := n / w, n % w;
    assert (q - q') * w == r' - r;
    if q' < q {
      AtLeastOnce(q - q', w);
    } else if q' > q {
      AtLeastOnce(q' - q, w);
    }
  }

  lemma AtLeastOnce(a: int, w: int)
    requires a >= 1 && w > 0
    ensures a * w >= w
  {
  }

  /** A flat row-major index splits into a row below `h` and a column below `w`. */
  lemma SplitIndex(w: nat, h: nat, i: int)
    requires 0 <= i < w * h
    ensures w > 0 && 0 <= i / w < h && 0 <= i % w < w && (i / w) * w + i % w == i
  {
  }

  /** Cell `(x, y)` of a `w`-wide row-major grid sits at `y*w + x` and splits back. */
  lemma JoinIndex(w: nat, h: nat, x: int, y: int)
    requires 0 <= x < w && 0 <= y < h
    ensures 0 <= y * w + x < w * h && (y * w + x) / w == y && (y * w + x) % w == x
  {
    assert y * w <= (h - 1) * w;
    DivModUnique(y * w + x, w, y, x);
  }

  /** Adding whole multiples of 2^32 does not change an `Int` result. */
  lemma WrapShift(v: int, k: int)
    ensures Wrap32(v + k * INT_SPAN) == Wrap32(v)
  {
    var n := v - INT_MIN;
    DivModUnique(n + k * INT_SPAN, INT_SPAN, n / INT_SPAN + k, n % INT_SPAN);
  }

  /** Wrapping before or after a multiplication gives the same `Int`. */
  lemma WrapMul(v: int, c: int)
    ensures Wrap32(Wrap32(v) * c) == Wrap32(v * c)
  {
    var q := (v - INT_MIN) / INT_SPAN;
    assert Wrap32(v) == v - q * INT_SPAN;
    assert Wrap32(v) * c == v * c + (-q * c) * INT_SPAN;
    WrapShift(v * c, -q * c);
  }
}
