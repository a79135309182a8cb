/** The few facts about quotients that block and sector arithmetic needs. */
module Division {

  lemma MulMonotone(a: int, b: int, d: int)
    requires a <= b && 0 <= d
    ensures a * d <= b * d
  {
  }

  lemma QuotientIs(x: int, d: int, q: int)
    requires 0 < d && q * d <= x < (q + 1) * d
    ensures x / d == q && x % d == x - q * d
  {
    var r := x / d;
    if r < q {
      MulMonotone(r + 1, q, d);
    } else if q < r {
      MulMonotone(q + 1, r, d);
    }
  }

  lemma QuotientMonotone(x: int, y: int, d: int)
    requires 0 < d && x <= y
    ensures x / d <= y / d
  {
    if y / d < x / d {
      MulMonotone(y / d + 1, x / d, d);
    }
  }

  lemma QuotientBelow(x: int, d: int, q: int)
    requires 0 < d
    ensures x / d < q <==> x < q * d
  {
    if x / d < q {
      MulMonotone(x / d + 1, q, d);
    } else {
      MulMonotone(q, x / d, d);
    }
  }

  /** Moving k bytes on without leaving the block. */
  lemma SameBlock(bs: nat, v: nat, k: int)
    requires 0 < bs && 0 <= v % bs + k < bs
    ensures (v + k) / bs == v / bs && (v + k) % bs == v % bs + k
  {
    QuotientIs(v + k, bs, v / bs);
  }

  /** The sectors a request of len bytes touches when it starts o bytes into a block. */
  lemma SectorSpan(ss: nat, o: nat, len: nat)
    requires 0 < ss && 0 < len
    ensures o / ss <= (o + len - 1) / ss
    ensures (o + len + ss - 1) / ss == (o + len - 1) / ss + 1
    ensures (o / ss) * ss <= o < (o / ss + 1) * ss
    ensures (o + len - 1) / ss * ss < o + len <= ((o + len - 1) / ss + 1) * ss
  {
    QuotientMonotone(o, o + len - 1, ss);
    QuotientIs(o + len - 1 + ss, ss, (o + len - 1) / ss + 1);
  }
}
