/** SharedMemorySection::GetMapOffset: rounding a file offset down to where a mapping may start. */
module MapOffset {
  import opened Bits

  /** The system's page size, which is a power of two. */
  datatype Granularity = Granularity(log: nat) {
    function Size(): nat { Pow2(log) }
  }

  /** The two function-local statics, zero until first computed. */
  class OffsetCache {
    var offsetSize: nat
    var mask: int

    ghost predicate Valid(g: Granularity)
      reads this
    {
      (offsetSize == 0 || offsetSize == g.Size()) && (mask == 0 || mask == g.Size() - 1)
    }

    constructor ()
      ensures offsetSize == 0 && mask == 0
      ensures forall g: Granularity :: Valid(g)
    {
      offsetSize, mask := 0, 0;
    }

    method GetOffsetSize(g: Granularity) returns (size: nat)
      requires Valid(g)
      modifies this
      ensures Valid(g) && size == g.Size() && mask == old(mask)
    {
      if offsetSize == 0 {
        offsetSize := g.Size();
      }
      Pow2Positive(g.log);
      size := offsetSize;
    }

    /** The same answer on every call, whatever is cached: the greatest mappable offset not above the one asked for. */
    method GetMapOffset(g: Granularity, offset: int) returns (start: int)
      requires Valid(g)
      modifies this
      ensures Valid(g)
      ensures start == RoundDown(g, offset)
    {
      if mask == 0 {
        var size: int := GetOffsetSize(g);
        mask := size - 1;
      }
      // ~mask is -mask - 1 in two's complement
      start := And(offset, -mask - 1);
      MaskRoundsDown(g.log, offset);
    }
  }

  /** Rounding towards minus infinity. */
  function RoundDown(g: Granularity, offset: int): int {
    Pow2Positive(g.log);
    offset / g.Size() * g.Size()
  }

  lemma {:induction false} Pow2Positive(k: nat)
    ensures Pow2(k) >= 1
  {
    if k > 0 { Pow2Positive(k - 1); }
  }

  lemma {:induction false} AndMinusOne(a: int)
    ensures And(a, -1) == a
    decreases if a < 0 then -a else a
  {
    if a != 0 && a != -1 { AndMinusOne(a / 2); }
  }

  /** Clearing the low k bits is rounding down to a multiple of 2^k, for negative offsets too. */
  lemma {:induction false} MaskRoundsDown(k: nat, a: int)
    ensures Pow2(k) >= 1
    ensures And(a, -(Pow2(k) as int)) == a / Pow2(k) * Pow2(k)
  {
    Pow2Positive(k);
    if k == 0 {
      AndMinusOne(a);
    } else {
      var p: int := Pow2(k - 1);
      MaskRoundsDown(k - 1, a / 2);
      AndEven(a, p);
      HalvesRound(a, p);
    }
  }

  lemma HalvesRound(a: int, p: nat)
    requires p >= 1
    ensures 2 * (a / 2 / p * p) == a / (2 * p) * (2 * p)
  {
    HalvesDivide(a, p);
    var q := a / 2 / p;
    assert 2 * (q * p) == q * (2 * p);
  }

  lemma AndEven(a: int, p: int)
    requires p >= 1
    ensures And(a, -(2 * p)) == 2 * And(a / 2, -p)
  {
    assert (-(2 * p)) / 2 == -p && (-(2 * p)) % 2 == 0;
  }

  /** Dividing by 2p is dividing by two and then by p. */
  lemma HalvesDivide(a: int, p: nat)
    requires p >= 1
    ensures a / (2 * p) == a / 2 / p
  {
    var q := a / 2 / p;
    var r := a / 2 % p;
    assert a / 2 == q * p + r;
    assert a == (2 * p) * q + (2 * r + a % 2) by { assert a == 2 * (a / 2) + a % 2; assert 2 * (q * p) == (2 * p) * q; }
    QuotientIs(a, 2 * p, q, 2 * r + a % 2);
  }

  lemma QuotientIs(a: int, d: nat, q: int, r: int)
    requires d >= 1 && a == d * q + r && 0 <= r < d
    ensures a / d == q
  {
    var x := q - a / d;
    assert a == d * (a / d) + a % d;
    Distribute(d, q, a / d);
    AtLeastOnce(d, x);
    AtLeastOnce(d, -x);
    assert d * -x == -(d * x);
  }

  lemma Distribute(d: int, x: int, y: int)
    ensures d * (x - y) == d * x - d * y
  {
  }

  lemma AtLeastOnce(d: int, x: int)
    requires d >= 0
    ensures x >= 1 ==> d * x >= d
  {
  }

  /** RoundDown is the greatest multiple not above the offset; it is monotone and leaves multiples alone. */
  lemma RoundDownGreatest(g: Granularity, offset: int, m: int)
    ensures RoundDown(g, offset) <= offset < RoundDown(g, offset) + g.Size()
    ensures m * g.Size() <= offset ==> m * g.Size() <= RoundDown(g, offset)
    ensures RoundDown(g, m * g.Size()) == m * g.Size()
  {
    Pow2Positive(g.log);
    Greatest(g.Size(), offset, m);
    QuotientIs(m * g.Size(), g.Size(), m, 0);
  }

  lemma Greatest(d: nat, offset: int, m: int)
    requires d >= 1
    ensures offset / d * d <= offset < offset / d * d + d
    ensures m * d <= offset ==> m * d <= offset / d * d
  {
    var q := offset / d;
    assert offset == d * q + offset % d;
    AtLeastOnce(d, m - q);
    Distribute(d, m, q);
    AtLeastOnce(d, q - m);
    Distribute(d, q, m);
  }

  lemma RoundDownMonotone(g: Granularity, a: int, b: int)
    requires a <= b
    ensures RoundDown(g, a) <= RoundDown(g, b)
  {
    Pow2Positive(g.log);
    RoundDownGreatest(g, a, 0);
    RoundDownGreatest(g, b, a / g.Size());
  }
}
