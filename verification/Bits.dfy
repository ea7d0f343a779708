/** Bitwise operators on unbounded integers, bit by bit. */
module Bits {
  /** Exclusive or of two naturals. */
  function Xor(a: nat, b: nat): nat
    decreases a + b
  {
    if a == 0 && b == 0 then 0 else 2 * Xor(a / 2, b / 2) + (if a % 2 == b % 2 then 0 else 1)
  }

  function Shift(a: nat, k: nat): nat
    decreases k
  {
    if k == 0 then a else Shift(a / 2, k - 1)
  }

  lemma XorHalves(a: nat, b: nat)
    ensures Xor(a, b) / 2 == Xor(a / 2, b / 2)
    ensures Xor(a, b) % 2 == if a % 2 == b % 2 then 0 else 1
  {
  }

  /** Applying the same operand twice undoes it. */
  lemma {:induction false} XorUndo(a: nat, b: nat)
    ensures Xor(Xor(a, b), b) == a
    decreases a + b
  {
    if a != 0 || b != 0 {
      XorHalves(a, b);
      XorUndo(a / 2, b / 2);
      XorHalves(Xor(a, b), b);
    }
  }

  lemma {:induction false} XorCommutes(a: nat, b: nat)
    ensures Xor(a, b) == Xor(b, a)
    decreases a + b
  {
    if a != 0 || b != 0 {
      XorCommutes(a / 2, b / 2);
    }
  }

  /** A difference in either operand shows. */
  lemma XorInjective(a: nat, b: nat, a': nat, b': nat)
    ensures Xor(a, b) == Xor(a', b) ==> a == a'
    ensures Xor(a, b) == Xor(a, b') ==> b == b'
  {
    XorUndo(a, b);
    XorUndo(a', b);
    XorCommutes(a, b);
    XorCommutes(a, b');
    XorUndo(b, a);
    XorUndo(b', a);
  }

  /** Operands of k bits give k bits, and an operand of k bits changes only the low k. */
  lemma {:induction false} XorShift(a: nat, b: nat, k: nat)
    ensures Shift(b, k) == 0 ==> Shift(Xor(a, b), k) == Shift(a, k)
    decreases k
  {
    if k > 0 {
      XorHalves(a, b);
      XorShift(a / 2, b / 2, k - 1);
    } else if b == 0 {
      XorUndo(0, a);
      XorCommutes(0, a);
      XorZero(a);
    }
  }

  lemma {:induction false} XorZero(a: nat)
    ensures Xor(a, 0) == a
  {
    if a != 0 { XorZero(a / 2); }
  }

  lemma ShiftByte(a: nat)
    ensures Shift(a, 8) == a / 256
  {
    assert Shift(a, 8) == a / 2 / 2 / 2 / 2 / 2 / 2 / 2 / 2;
  }

  /** Only the low byte can change when a byte is mixed in. */
  lemma XorByte(a: nat, b: nat)
    requires b < 256
    ensures Xor(a, b) / 256 == a / 256
    ensures -255 <= Xor(a, b) - a <= 255
  {
    XorShift(a, b, 8);
    ShiftByte(a);
    ShiftByte(b);
    ShiftByte(Xor(a, b));
  }

  function Pow2(k: nat): nat
  {
    if k == 0 then 1 else 2 * Pow2(k - 1)
  }

  lemma {:induction false} Pow2Twice(k: nat)
    ensures Pow2(2 * k) == Pow2(k) * Pow2(k)
  {
    if k > 0 {
      Pow2Twice(k - 1);
      var half := Pow2(k - 1);
      assert Pow2(2 * k) == 2 * (2 * Pow2(2 * (k - 1)));
      assert (2 * half) * (2 * half) == 2 * (2 * (half * half));
    }
  }

  lemma WordSizes()
    ensures Pow2(32) == 0x1_0000_0000 && Pow2(64) == 0x1_0000_0000_0000_0000
  {
    assert Pow2(4) == 16;
    Pow2Twice(4);
    Pow2Twice(8);
    Pow2Twice(16);
    Pow2Twice(32);
  }

  lemma {:induction false} XorBelow(a: nat, b: nat, k: nat)
    requires a < Pow2(k) && b < Pow2(k)
    ensures Xor(a, b) < Pow2(k)
  {
    if k > 0 {
      XorHalves(a, b);
      XorBelow(a / 2, b / 2, k - 1);
    }
  }

  function Scale(a: nat, k: nat): nat
    decreases k
  {
    if k == 0 then a else 2 * Scale(a, k - 1)
  }

  /** The high and the low parts of two operands are combined separately. */
  lemma {:induction false} XorParts(k: nat, a: nat, low: nat, b: nat, low': nat)
    requires low < Pow2(k) && low' < Pow2(k)
    ensures Xor(Scale(a, k) + low, Scale(b, k) + low') == Scale(Xor(a, b), k) + Xor(low, low')
  {
    if k > 0 {
      var q, r := Scale(a, k - 1), Scale(b, k - 1);
      XorParts(k - 1, a, low / 2, b, low' / 2);
      HalfOf(q, low);
      HalfOf(r, low');
      XorHalves(2 * q + low, 2 * r + low');
      XorHalves(low, low');
    }
  }

  lemma HalfOf(q: nat, low: nat)
    ensures (2 * q + low) / 2 == q + low / 2 && (2 * q + low) % 2 == low % 2
  {
  }

  // ---------- exclusive or, checked bit by bit ----------

  function WithoutBit(a: nat, bit: nat): nat {
    if a >= bit then a - bit else a
  }

  /** r is the exclusive or of the k-bit numbers a and b, compared from the top bit down. */
  predicate IsXor(k: nat, a: nat, b: nat, r: nat) {
    if k == 0 then a == b == r == 0
    else
      var bit := Pow2(k - 1);
      (r >= bit <==> (a >= bit) != (b >= bit))
      && IsXor(k - 1, WithoutBit(a, bit), WithoutBit(b, bit), WithoutBit(r, bit))
  }

  lemma {:induction false} IsXorMeans(k: nat, a: nat, b: nat, r: nat)
    requires IsXor(k, a, b, r)
    ensures a < Pow2(k) && b < Pow2(k) && r < Pow2(k) && Xor(a, b) == r
  {
    if k > 0 {
      var bit := Pow2(k - 1);
      IsXorMeans(k - 1, WithoutBit(a, bit), WithoutBit(b, bit), WithoutBit(r, bit));
      ScaleBit(k - 1);
      XorParts(k - 1, if a >= bit then 1 else 0, WithoutBit(a, bit), if b >= bit then 1 else 0, WithoutBit(b, bit));
      SmallXor();
    }
  }

  lemma SmallXor()
    ensures Xor(0, 0) == Xor(1, 1) == 0 && Xor(0, 1) == Xor(1, 0) == 1
  {
  }

  lemma {:induction false} ScaleBit(k: nat)
    ensures Scale(0, k) == 0 && Scale(1, k) == Pow2(k)
  {
    if k > 0 { ScaleBit(k - 1); }
  }

  lemma XorNibbles(a: nat, low: nat, b: nat, low': nat)
    requires low < Pow2(4) && low' < Pow2(4)
    ensures Pow2(4) == 16 && Xor(16 * a + low, 16 * b + low') == 16 * Xor(a, b) + Xor(low, low')
  {
    ScaleNibble(a);
    ScaleNibble(b);
    ScaleNibble(Xor(a, b));
    XorParts(4, a, low, b, low');
  }

  lemma ScaleNibble(a: nat)
    ensures Scale(a, 4) == 16 * a && Pow2(4) == 16
  {
  }

  lemma XorBytes(a: nat, low: nat, b: nat, low': nat)
    requires low < 256 && low' < 256
    ensures Xor(256 * a + low, 256 * b + low') == 256 * Xor(a, b) + Xor(low, low')
  {
    ScaleByte(a);
    ScaleByte(b);
    ScaleByte(Xor(a, b));
    XorParts(8, a, low, b, low');
  }

  /** A byte mixed into the low byte of a number leaves the rest alone. */
  lemma XorLowByte(a: nat, b: nat)
    requires b < 256
    ensures Xor(a, b) == a - a % 256 + Xor(a % 256, b)
  {
    XorBytes(a / 256, a % 256, 0, b);
    XorZero(a / 256);
  }

  lemma ScaleByte(a: nat)
    ensures Scale(a, 8) == 256 * a && Pow2(8) == 256
  {
  }

  /** Ones turn a number of k bits into its complement. */
  lemma {:induction false} XorOnes(a: nat, k: nat)
    requires a < Pow2(k)
    ensures Xor(a, Pow2(k) - 1) == Pow2(k) - 1 - a
  {
    if k > 0 {
      XorOnes(a / 2, k - 1);
      XorHalves(a, Pow2(k) - 1);
    }
  }

  /** Bitwise and of two integers in two's complement of unbounded width. */
  function And(a: int, b: int): int
    decreases (if a < 0 then -a - 1 else a) + (if b < 0 then -b - 1 else b)
  {
    if (a == 0 || a == -1) && (b == 0 || b == -1) then (if a == b then a else 0)
    else 2 * And(a / 2, b / 2) + (a % 2) * (b % 2)
  }
}
