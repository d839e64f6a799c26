/** Facts about products and quotients of variables, proved by induction. */
module Arithmetic {

  /** One more multiple of `size` for every step from `a` to `b`. */
  lemma {:induction false} Steps(a: nat, b: nat, size: nat)
    requires a < b
    ensures a * size + size <= b * size
    decreases b
  {
    assert (b - 1) * size + size == b * size;
    if a < b - 1 {
      Steps(a, b - 1, size);
    } else {
      assert a == b - 1;
    }
  }

  lemma StepsUpTo(a: nat, b: nat, size: nat)
    requires a <= b
    ensures a * size <= b * size
  {
    if a < b {
      Steps(a, b, size);
    }
  }

  lemma ProductMonotone(a: nat, b: nat, c: nat, d: nat)
    requires a <= c && b <= d
    ensures a * b <= c * d
  {
    StepsUpTo(a, c, b);
    StepsUpTo(b, d, c);
    assert c * b == b * c && d * c == c * d;
  }

  /** The multiple of `w` that a number falls behind. */
  lemma WholePart(x: nat, w: nat)
    requires w > 0
    ensures x / w * w <= x < x / w * w + w
  {
    assert x == x / w * w + x % w;
  }

  /** A quotient reaches `q` exactly from the `q`-th multiple on. */
  lemma QuotientReaches(x: nat, w: nat, q: nat)
    requires w > 0
    ensures x / w >= q <==> q * w <= x
  {
    WholePart(x, w);
    if x / w >= q {
      StepsUpTo(q, x / w, w);
    } else {
      Steps(x / w, q, w);
    }
  }

  lemma QuotientMonotone(x: nat, y: nat, w: nat)
    requires w > 0 && x <= y
    ensures x / w <= y / w
  {
    WholePart(x, w);
    QuotientReaches(y, w, x / w);
  }
}
