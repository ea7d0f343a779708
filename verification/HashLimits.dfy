/** How far the freedom from collisions goes: one byte beyond it, every window of every address has a collision. */
module HashLimits {
  import opened Addresses
  import opened Bits
  import opened AddressHash

  /** How many consecutive bytes the hash keeps apart from place i on. */
  function Limit(p: Platform, a: Address, i: nat): nat {
    if p.signedChar && a.V6? && i < |a.bytes| then 1 else Reach(p)
  }

  /**
    The addresses that share everything hashed with a but the n bytes from i on, which may be bytes of the address or of
    the port, hash differently among themselves if and only if n is within the limit: six bytes with a 64-bit size_t and
    three with a 32-bit one, but in the IPv6 loop, where char is signed, one. With signed char the windows from the last
    byte of an IPv6 address into the port are left open.
   */
  lemma LimitIsExact(p: Platform, a: Address, includePort: bool, i: nat, n: nat)
    requires !a.Unset? && i + n <= |Wire(p, a, includePort)|
    requires a.V4? || !p.signedChar || i + 1 != |a.bytes| || n <= 1
    ensures n <= Limit(p, a, i)
            <==> forall b: Address, c: Address ::
                   AgreeOutside(p, a, b, includePort, i, n) && AgreeOutside(p, a, c, includePort, i, n)
                   ==> (HashOf(p, b, includePort) == HashOf(p, c, includePort)
                        <==> Wire(p, b, includePort) == Wire(p, c, includePort))
  {
    if n <= Limit(p, a, i) {
      forall b: Address, c: Address
        | AgreeOutside(p, a, b, includePort, i, n) && AgreeOutside(p, a, c, includePort, i, n)
        ensures HashOf(p, b, includePort) == HashOf(p, c, includePort)
                <==> Wire(p, b, includePort) == Wire(p, c, includePort)
      {
        WithinLimit(p, b, c, includePort, i, n);
      }
    } else {
      var b, c := BeyondLimit(p, a, includePort, i);
      assert AgreeOutside(p, a, b, includePort, i, n) && AgreeOutside(p, a, c, includePort, i, n);
    }
  }

  lemma WithinLimit(p: Platform, b: Address, c: Address, includePort: bool, i: nat, n: nat)
    requires AgreeOutside(p, b, c, includePort, i, n) && n <= Limit(p, b, i)
    ensures HashOf(p, b, includePort) == HashOf(p, c, includePort)
            <==> Wire(p, b, includePort) == Wire(p, c, includePort)
  {
    if n == 0 {
      assert Wire(p, b, includePort) == Wire(p, c, includePort);
      OneByteNeverCollides(p, b, c, includePort, 0);
    } else if p.signedChar && b.V6? && i < |b.bytes| {
      OneByteNeverCollides(p, b, c, includePort, i);
    } else {
      WindowNeverCollides(p, b, c, includePort, i, n);
    }
  }

  /** Whatever the other bytes are, some two values of the Limit + 1 bytes from i on collide. */
  lemma BeyondLimit(p: Platform, a: Address, includePort: bool, i: nat) returns (b: Address, c: Address)
    requires !a.Unset? && i + Limit(p, a, i) < |Wire(p, a, includePort)|
    requires a.V4? || !p.signedChar || i + 1 != |a.bytes|
    ensures AgreeOutside(p, a, b, includePort, i, Limit(p, a, i) + 1)
    ensures AgreeOutside(p, a, c, includePort, i, Limit(p, a, i) + 1)
    ensures Wire(p, b, includePort) != Wire(p, c, includePort)
    ensures HashOf(p, b, includePort) == HashOf(p, c, includePort)
  {
    if p.signedChar && a.V6? {
      b, c := BeyondOne(p, a, includePort, i);
    } else {
      b, c := BeyondReach(p, a, includePort, i);
    }
  }

  /** Two bytes of an IPv6 address where char is signed. */
  lemma BeyondOne(p: Platform, a: Address, includePort: bool, i: nat) returns (b: Address, c: Address)
    requires p.signedChar && a.V6? && i + 1 < |a.bytes|
    ensures AgreeOutside(p, a, b, includePort, i, 2) && AgreeOutside(p, a, c, includePort, i, 2)
    ensures Wire(p, b, includePort) != Wire(p, c, includePort)
    ensures HashOf(p, b, includePort) == HashOf(p, c, includePort)
  {
    var h := Fold(p, BASIS, Widened(p, a.bytes[..i], true));
    FoldFits(p, BASIS, Widened(p, a.bytes[..i], true));
    var u, v := Colliders(p, h, true);
    b := WithTwo(p, a, includePort, i, u);
    c := WithTwo(p, a, includePort, i, v);
  }

  lemma WithTwo(p: Platform, a: Address, includePort: bool, i: nat, u: seq<Byte>) returns (b: Address)
    requires p.signedChar && a.V6? && i + 1 < |a.bytes| && |u| == 2
    ensures AgreeOutside(p, a, b, includePort, i, 2) && Wire(p, b, includePort)[i..i + 2] == u
    ensures var h := Fold(p, BASIS, Widened(p, a.bytes[..i], true));
            HashOf(p, b, includePort)
            == Fold(p, Fold(p, h, Widened(p, u, true)),
                    Widened(p, a.bytes[i + 2..], true) + if includePort then PortBytes(p, a.port) else [])
  {
    b := V6(a.bytes[..i] + u + a.bytes[i + 2..], a.port, a.flowInfo, a.scopeId);
    Spliced(a.bytes, i, u);
    assert Wire(p, b, includePort)[i..i + 2] == b.bytes[i..i + 2];
    Replaced(p, b, includePort, a.bytes[..i], u, a.bytes[i + 2..]);
  }

  lemma Spliced<T>(w: seq<T>, i: nat, u: seq<T>)
    requires i + |u| <= |w|
    ensures var s := w[..i] + u + w[i + |u|..];
            && |s| == |w| && s[i..i + |u|] == u
            && forall k :: 0 <= k < |w| && !(i <= k < i + |u|) ==> s[k] == w[k]
  {
  }

  /** Reach + 1 bytes of address and port where no char is signed. */
  lemma BeyondReach(p: Platform, a: Address, includePort: bool, i: nat) returns (b: Address, c: Address)
    requires !a.Unset? && (a.V4? || !p.signedChar) && i + Reach(p) < |Wire(p, a, includePort)|
    ensures AgreeOutside(p, a, b, includePort, i, Reach(p) + 1) && AgreeOutside(p, a, c, includePort, i, Reach(p) + 1)
    ensures Wire(p, b, includePort) != Wire(p, c, includePort)
    ensures HashOf(p, b, includePort) == HashOf(p, c, includePort)
  {
    var head := Wire(p, a, includePort)[..i];
    FoldFits(p, BASIS, head);
    var u, v := Colliders(p, Fold(p, BASIS, head), false);
    Unsigned(p, u);
    Unsigned(p, v);
    b := WithWindow(p, a, includePort, i, u);
    c := WithWindow(p, a, includePort, i, v);
  }

  lemma WithWindow(p: Platform, a: Address, includePort: bool, i: nat, u: seq<Byte>) returns (b: Address)
    requires !a.Unset? && (a.V4? || !p.signedChar) && i + |u| <= |Wire(p, a, includePort)|
    ensures AgreeOutside(p, a, b, includePort, i, |u|) && Wire(p, b, includePort)[i..i + |u|] == u
    ensures var w := Wire(p, a, includePort);
            HashOf(p, b, includePort) == Fold(p, Fold(p, Fold(p, BASIS, w[..i]), u), w[i + |u|..])
  {
    var w := Wire(p, a, includePort);
    Spliced(w, i, u);
    b := WithWire(p, a, includePort, w[..i] + u + w[i + |u|..]);
    FoldThree(p, w[..i], u, w[i + |u|..]);
  }

  lemma FoldThree(p: Platform, x: seq<nat>, y: seq<nat>, z: seq<nat>)
    ensures Fold(p, BASIS, x + y + z) == Fold(p, Fold(p, Fold(p, BASIS, x), y), z)
  {
    FoldAppend(p, BASIS, x + y, z);
    FoldAppend(p, BASIS, x, y);
  }

  /** The address of a's family with the given bytes to hash. */
  lemma WithWire(p: Platform, a: Address, includePort: bool, w: seq<nat>) returns (b: Address)
    requires !a.Unset? && (a.V4? || !p.signedChar) && |w| == |Wire(p, a, includePort)| && AllBytes(w)
    ensures !b.Unset? && b.GetFamily() == a.GetFamily() && Wire(p, b, includePort) == w
    ensures HashOf(p, b, includePort) == Fold(p, BASIS, w)
  {
    var k := |a.bytes|;
    b := a.(bytes := w[..k]);
    if includePort {
      b := b.(port := if p.littleEndian then w[k] * 256 + w[k + 1] else w[k + 1] * 256 + w[k]);
      assert PortBytes(p, b.port) == [w[k], w[k + 1]] == w[k..];
    }
    Unsigned(p, b.bytes);
    assert Stream(p, b, includePort) == Wire(p, b, includePort) == w;
  }

  /** The hash of an address as a fold over its head, a window and its tail. */
  lemma Replaced(p: Platform, a: Address, includePort: bool, head: seq<Byte>, u: seq<Byte>, tail: seq<Byte>)
    requires !a.Unset? && a.bytes == head + u + tail
    ensures var s := p.signedChar && a.V6?;
            var h := Fold(p, Fold(p, BASIS, Widened(p, head, s)), Widened(p, u, s));
            HashOf(p, a, includePort)
            == Fold(p, h, Widened(p, tail, s) + if includePort then PortBytes(p, a.port) else [])
  {
    var s := p.signedChar && a.V6?;
    var x, y, z := Widened(p, head, s), Widened(p, u, s), Widened(p, tail, s);
    var port := if includePort then PortBytes(p, a.port) else [];
    assert Stream(p, a, includePort) == x + y + (z + port);
    FoldThree(p, x, y, z + port);
  }

  /** From any state, two windows one byte longer than the limit that lead to the same state. */
  lemma Colliders(p: Platform, h: nat, signed: bool) returns (u: seq<Byte>, v: seq<Byte>)
    requires h < p.Word()
    ensures |u| == |v| == (if signed then 1 else Reach(p)) + 1 && u != v
    ensures Fold(p, h, Widened(p, u, signed)) == Fold(p, h, Widened(p, v, signed))
  {
    if signed {
      var x, y := FirstBytes(h, 1, 255);
      SignedColliders(p, h, x, y);
      u, v := [x, 0], [y, 254];
    } else if p.wide {
      var x, y := FirstBytes(h, 197, 228);
      WideColliders(p, h, x, y);
      u, v := [x, 154, 172, 154, 206, 0, 0], [y, 42, 0, 0, 252, 200, 169];
    } else {
      var x, y := FirstBytes(h, 197, 195);
      NarrowColliders(p, h, x, y);
      u, v := [x, 230, 5, 107], [y, 112, 128, 0];
    }
    Unsigned(p, u);
    Unsigned(p, v);
  }

  lemma FirstBytes(h: nat, low: Byte, low': Byte) returns (x: Byte, y: Byte)
    ensures Turns(h % 256, x, low) && Turns(h % 256, y, low')
  {
    x := Turn(h % 256, low);
    y := Turn(h % 256, low');
  }

  // ---------- choosing the low byte of a state ----------

  lemma Peel(p: Platform, h: nat, xs: seq<nat>)
    requires xs != []
    ensures Fold(p, h, xs) == Fold(p, Mix(p, h, xs[0]), xs[1..])
  {
    assert xs == xs[..1] + xs[1..];
    FoldAppend(p, h, xs[..1], xs[1..]);
    Unfold1(p, h, xs[..1]);
  }

  /** Mixing x into a state whose low byte is c makes it low. */
  ghost predicate Turns(c: nat, x: nat, low: nat) {
    c < 256 && x < 256 && low < 256 && forall h: nat :: h % 256 == c ==> Xor(h, x) == h - c + low
  }

  lemma XorTurns(c: nat, x: nat, low: nat)
    requires c < 256 && x < 256 && low < 256 && Xor(c, x) == low
    ensures Turns(c, x, low)
  {
    forall h: nat | h % 256 == c
      ensures Xor(h, x) == h - c + low
    {
      XorLowByte(h, x);
    }
  }

  /** An exclusive or of two bytes, given and checked by hexadecimal digits. */
  lemma HexTurns(c1: nat, c0: nat, x1: nat, x0: nat, low1: nat, low0: nat)
    requires IsXor(4, c1, x1, low1) && IsXor(4, c0, x0, low0)
    ensures Turns(16 * c1 + c0, 16 * x1 + x0, 16 * low1 + low0)
  {
    IsXorMeans(4, c1, x1, low1);
    IsXorMeans(4, c0, x0, low0);
    XorNibbles(c1, c0, x1, x0);
    XorTurns(16 * c1 + c0, 16 * x1 + x0, 16 * low1 + low0);
  }

  lemma ZeroTurns(c: Byte)
    ensures Turns(c, 0, c)
  {
    forall h: nat | h % 256 == c
      ensures Xor(h, 0) == h - c + c
    {
      XorZero(h);
    }
  }

  /** Some byte does it for any two low bytes. */
  lemma Turn(c: Byte, low: Byte) returns (x: Byte)
    ensures Turns(c, x, low)
  {
    ScaleByte(0);
    XorBelow(low, c, 8);
    x := Xor(low, c);
    XorUndo(low, c);
    XorCommutes(c, x);
    XorTurns(c, x, low);
  }

  /** The low byte of a product. */
  function Product(low: nat): nat {
    147 * low % 256
  }

  lemma MixTurned(p: Platform, h: nat, x: nat, low: nat)
    requires Turns(h % 256, x, low)
    ensures Mix(p, h, x) == (h - h % 256 + low) * MULTIPLIER % p.Word()
    ensures Mix(p, h, x) % 256 == Product(low)
  {
    assert h - h % 256 == 256 * (h / 256);
    LowOfProduct(p, h / 256, low);
  }

  lemma LowOfProduct(p: Platform, q: nat, low: nat)
    ensures (256 * q + low) * MULTIPLIER % p.Word() % 256 == Product(low)
  {
    var n := (256 * q + low) * 16777619;
    assert n == 256 * (16777619 * q + 65537 * low) + 147 * low;
    SameLow(n, 147 * low, 16777619 * q + 65537 * low);
    if p.wide {
      var k := n / 0x1_0000_0000_0000_0000;
      SameLow(n, n % 0x1_0000_0000_0000_0000, 0x100_0000_0000_0000 * k);
    } else {
      var k := n / 0x1_0000_0000;
      SameLow(n, n % 0x1_0000_0000, 0x100_0000 * k);
    }
  }

  lemma SameLow(n: int, m: int, k: int)
    requires n == 256 * k + m
    ensures n % 256 == m % 256
  {
  }

  /** Two states that are d apart, up to wraparound. */
  predicate Apart(p: Platform, h: nat, h': nat, d: int) {
    (h - h' - d) % p.Word() == 0
  }

  /** One byte mixed into each of two states, turning their low bytes into low and low'. */
  lemma StepApart(p: Platform, h: nat, x: nat, low: nat, h': nat, x': nat, low': nat,
                  d: int, e: int, d': int, k: int)
    requires Turns(h % 256, x, low)
    requires Turns(h' % 256, x', low')
    requires Apart(p, h, h', d) && e == d + low - h % 256 - low' + h' % 256 && e * MULTIPLIER == d' + p.Word() * k
    ensures var m, m' := Mix(p, h, x), Mix(p, h', x');
            m % 256 == Product(low) && m' % 256 == Product(low') && Apart(p, m, m', d')
  {
    MixTurned(p, h, x, low);
    MixTurned(p, h', x', low');
    var u, u' := h - h % 256 + low, h' - h' % 256 + low';
    var j := ProductDifference(p, u, u');
    var difference := u * MULTIPLIER % p.Word() - u' * MULTIPLIER % p.Word();
    if p.wide {
      ApartWide(h - h' - d, e, d', k, difference, j);
    } else {
      ApartNarrow(h - h' - d, e, d', k, difference, j);
    }
  }

  lemma ApartWide(gap: int, e: int, d': int, k: int, difference: int, j: int)
    requires gap % 0x1_0000_0000_0000_0000 == 0 && e * 16777619 == d' + 0x1_0000_0000_0000_0000 * k
    requires (gap + e) * 16777619 == difference + 0x1_0000_0000_0000_0000 * j
    ensures (difference - d') % 0x1_0000_0000_0000_0000 == 0
  {
    var i := gap / 0x1_0000_0000_0000_0000;
    assert gap == 0x1_0000_0000_0000_0000 * i;
    MultipleWide(difference - d', 16777619 * i + k - j);
  }

  lemma MultipleWide(n: int, k: int)
    requires n == 0x1_0000_0000_0000_0000 * k
    ensures n % 0x1_0000_0000_0000_0000 == 0
  {
  }

  lemma ApartNarrow(gap: int, e: int, d': int, k: int, difference: int, j: int)
    requires gap % 0x1_0000_0000 == 0 && e * 16777619 == d' + 0x1_0000_0000 * k
    requires (gap + e) * 16777619 == difference + 0x1_0000_0000 * j
    ensures (difference - d') % 0x1_0000_0000 == 0
  {
    var i := gap / 0x1_0000_0000;
    assert gap == 0x1_0000_0000 * i;
    MultipleNarrow(difference - d', 16777619 * i + k - j);
  }

  lemma MultipleNarrow(n: int, k: int)
    requires n == 0x1_0000_0000 * k
    ensures n % 0x1_0000_0000 == 0
  {
  }

  /** States that are apart by the difference of their low bytes differ in these only; one more byte makes them meet. */
  lemma LastMeet(p: Platform, h: nat, x: nat, h': nat, x': nat, low: nat, d: int)
    requires h < p.Word() && h' < p.Word() && Apart(p, h, h', d) && d == h % 256 - h' % 256
    requires Turns(h % 256, x, low) && Turns(h' % 256, x', low)
    ensures Mix(p, h, x) == Mix(p, h', x')
  {
    SameHigh(p, h / 256, h' / 256);
  }

  lemma SameHigh(p: Platform, q: nat, q': nat)
    requires 256 * q < p.Word() && 256 * q' < p.Word() && (256 * q - 256 * q') % p.Word() == 0
    ensures q == q'
  {
  }

  // ---------- two windows, byte by byte ----------

  /**
    The bytes x and x' mixed into two states make their low bytes low and low'; the products are d apart, having wrapped
    k times. The last bytes bring both to one low.
   */
  datatype Chain =
    | Meet(x: Byte, x': Byte, low: Byte)
    | Step(x: Byte, low: Byte, x': Byte, low': Byte, d: int, k: int, rest: Chain)

  function First(chain: Chain): seq<Byte> {
    if chain.Meet? then [chain.x] else [chain.x] + First(chain.rest)
  }

  function Second(chain: Chain): seq<Byte> {
    if chain.Meet? then [chain.x'] else [chain.x'] + Second(chain.rest)
  }

  /** The chain does what it says for words below w, from two states that are d apart and end in c and c'. */
  ghost predicate Linked(w: nat, c: nat, c': nat, d: int, chain: Chain)
    decreases chain
  {
    match chain
    case Meet(x, x', low) => d == c - c' && Turns(c, x, low) && Turns(c', x', low)
    case Step(x, low, x', low', next, k, rest) =>
      && Turns(c, x, low) && Turns(c', x', low')
      && (d + low - c - low' + c') * MULTIPLIER == next + w * k
      && Linked(w, Product(low), Product(low'), next, rest)
  }

  /** The windows of a chain lead to one state. */
  lemma {:induction false} ChainMeets(p: Platform, h: nat, h': nat, d: int, chain: Chain)
    requires h < p.Word() && h' < p.Word() && Apart(p, h, h', d)
    requires Linked(p.Word(), h % 256, h' % 256, d, chain)
    ensures Fold(p, h, First(chain)) == Fold(p, h', Second(chain))
    decreases chain
  {
    Peel(p, h, First(chain));
    Peel(p, h', Second(chain));
    match chain
    case Meet(x, x', low) => LastMeet(p, h, x, h', x', low, d);
    case Step(x, low, x', low', next, k, rest) =>
      StepApart(p, h, x, low, h', x', low', d, d + low - h % 256 - low' + h' % 256, next, k);
      ChainMeets(p, Mix(p, h, x), Mix(p, h', x'), next, rest);
  }

  /** One more byte in front of a chain. */
  lemma Extend(w: nat, c: nat, c': nat, d: int,
               x: Byte, low: Byte, x': Byte, low': Byte, next: int, k: int, rest: Chain)
    returns (chain: Chain)
    requires Turns(c, x, low) && Turns(c', x', low') && (d + low - c - low' + c') * MULTIPLIER == next + w * k
    requires Linked(w, Product(low), Product(low'), next, rest)
    ensures Linked(w, c, c', d, chain) && First(chain) == [x] + First(rest) && Second(chain) == [x'] + Second(rest)
  {
    chain := Step(x, low, x', low', next, k, rest);
  }

  // ---------- four bytes in 32 bits ----------

  /** From any state, with the first bytes chosen for it. */
  lemma NarrowColliders(p: Platform, h: nat, x: Byte, y: Byte)
    requires !p.wide && h < p.Word() && Turns(h % 256, x, 197) && Turns(h % 256, y, 195)
    ensures Fold(p, h, [x, 230, 5, 107]) == Fold(p, h, [y, 112, 128, 0])
  {
    var rest := NarrowChain();
    ChainMeets(p, h, h, 0, Step(x, 197, y, 195, 33555238, 0, rest));
    assert [x] + First(rest) == [x, 230, 5, 107] && [y] + Second(rest) == [y, 112, 128, 0];
  }

  lemma NarrowChain() returns (rest: Chain)
    ensures Linked(0x1_0000_0000, 31, 249, 33555238, rest)
    ensures First(rest) == [230, 5, 107] && Second(rest) == [112, 128, 0]
  {
    assert Turns(31, 230, 249) && Turns(249, 112, 137) by {
      NarrowTable();
    }
    var end := NarrowEnd();
    rest := Extend(0x1_0000_0000, 31, 249, 33555238, 230, 249, 112, 137, -1777927088, 131080, end);
  }

  lemma NarrowEnd() returns (rest: Chain)
    ensures Linked(0x1_0000_0000, 251, 171, -1777927088, rest)
    ensures First(rest) == [5, 107] && Second(rest) == [128, 0]
  {
    assert Turns(251, 5, 254) && Turns(171, 128, 43) && Turns(218, 107, 177) && Turns(177, 0, 177) by {
      NarrowTable();
      ZeroTurns(177);
    }
    rest := Meet(107, 0, 177);
    rest := Extend(0x1_0000_0000, 251, 171, -1777927088, 5, 254, 128, 43, 41, -6945194, rest);
  }

  lemma NarrowTable()
    ensures Turns(31, 230, 249) && Turns(249, 112, 137) && Turns(251, 5, 254) && Turns(171, 128, 43)
    ensures Turns(218, 107, 177)
  {
    HexTurns(0x1, 0xf, 0xe, 0x6, 0xf, 0x9);
    HexTurns(0xf, 0x9, 0x7, 0x0, 0x8, 0x9);
    HexTurns(0xf, 0xb, 0x0, 0x5, 0xf, 0xe);
    HexTurns(0xa, 0xb, 0x8, 0x0, 0x2, 0xb);
    HexTurns(0xd, 0xa, 0x6, 0xb, 0xb, 0x1);
  }

  // ---------- seven bytes in 64 bits ----------

  lemma WideColliders(p: Platform, h: nat, x: Byte, y: Byte)
    requires p.wide && h < p.Word() && Turns(h % 256, x, 197) && Turns(h % 256, y, 228)
    ensures Fold(p, h, [x, 154, 172, 154, 206, 0, 0]) == Fold(p, h, [y, 42, 0, 0, 252, 200, 169])
  {
    var rest := WideChain();
    ChainMeets(p, h, h, 0, Step(x, 197, y, 228, -520106189, 0, rest));
    assert [x] + First(rest) == [x, 154, 172, 154, 206, 0, 0] && [y] + Second(rest) == [y, 42, 0, 0, 252, 200, 169];
  }

  lemma WideChain() returns (rest: Chain)
    ensures Linked(0x1_0000_0000_0000_0000, 31, 236, -520106189, rest)
    ensures First(rest) == [154, 172, 154, 206, 0, 0] && Second(rest) == [42, 0, 0, 252, 200, 169]
  {
    assert Turns(31, 154, 133) && Turns(236, 42, 198) by {
      WideTable();
    }
    var middle := WideMiddle();
    rest := Extend(0x1_0000_0000_0000_0000, 31, 236, -520106189, 154, 133, 42, 198, -8726141129717331, 0, middle);
  }

  lemma WideMiddle() returns (rest: Chain)
    ensures Linked(0x1_0000_0000_0000_0000, 95, 178, -8726141129717331, rest)
    ensures First(rest) == [172, 154, 206, 0, 0] && Second(rest) == [0, 0, 252, 200, 169]
  {
    assert Turns(95, 172, 243) && Turns(178, 0, 178) by {
      WideTable();
      ZeroTurns(178);
    }
    var tail := WideTail();
    rest := Extend(0x1_0000_0000_0000_0000, 95, 178, -8726141129717331,
                   172, 243, 0, 178, 7936498408237048915, -7937, tail);
  }

  lemma WideTail() returns (rest: Chain)
    ensures Linked(0x1_0000_0000_0000_0000, 137, 54, 7936498408237048915, rest)
    ensures First(rest) == [154, 206, 0, 0] && Second(rest) == [0, 252, 200, 169]
  {
    assert Turns(137, 154, 19) && Turns(54, 0, 54) by {
      WideTable();
      ZeroTurns(54);
    }
    var end := WideEnd();
    rest := Extend(0x1_0000_0000_0000_0000, 137, 54, 7936498408237048915,
                   154, 19, 0, 54, -6659043665664772889, 7218377, end);
  }

  lemma WideEnd() returns (rest: Chain)
    ensures Linked(0x1_0000_0000_0000_0000, 233, 2, -6659043665664772889, rest)
    ensures First(rest) == [206, 0, 0] && Second(rest) == [252, 200, 169]
  {
    assert Turns(233, 206, 39) && Turns(2, 252, 254) by {
      WideTable();
    }
    var last := WideLast();
    rest := Extend(0x1_0000_0000_0000_0000, 233, 2, -6659043665664772889,
                   206, 39, 252, 254, -7577024312278169205, -6056510, last);
  }

  lemma WideLast() returns (rest: Chain)
    ensures Linked(0x1_0000_0000_0000_0000, 101, 218, -7577024312278169205, rest)
    ensures First(rest) == [0, 0] && Second(rest) == [200, 169]
  {
    assert Turns(101, 0, 101) && Turns(218, 200, 18) && Turns(255, 0, 255) && Turns(86, 169, 255) by {
      ZeroTurns(101);
      WideTable();
      ZeroTurns(255);
    }
    rest := Meet(0, 169, 255);
    rest := Extend(0x1_0000_0000_0000_0000, 101, 218, -7577024312278169205, 0, 101, 200, 18, 169, -6891429, rest);
  }

  lemma WideTable()
    ensures Turns(31, 154, 133) && Turns(236, 42, 198) && Turns(95, 172, 243) && Turns(137, 154, 19)
    ensures Turns(233, 206, 39) && Turns(2, 252, 254) && Turns(218, 200, 18) && Turns(86, 169, 255)
  {
    HexTurns(0x1, 0xf, 0x9, 0xa, 0x8, 0x5);
    HexTurns(0xe, 0xc, 0x2, 0xa, 0xc, 0x6);
    HexTurns(0x5, 0xf, 0xa, 0xc, 0xf, 0x3);
    HexTurns(0x8, 0x9, 0x9, 0xa, 0x1, 0x3);
    HexTurns(0xe, 0x9, 0xc, 0xe, 0x2, 0x7);
    HexTurns(0x0, 0x2, 0xf, 0xc, 0xf, 0xe);
    HexTurns(0xd, 0xa, 0xc, 0x8, 0x1, 0x2);
    HexTurns(0x5, 0x6, 0xa, 0x9, 0xf, 0xf);
  }

  // ---------- two bytes where char is signed ----------

  /** A negative char complements all but the low byte of the state. */
  lemma XorNegative(p: Platform, h: nat, c: Byte, low: nat)
    requires h < p.Word() && Turns(h % 256, c, low)
    ensures Xor(h, p.Word() - 256 + c) == p.Word() - 256 - (h - h % 256) + low
  {
    HighBits(p);
    assert Xor(h % 256, c) == low;
    assert h == 256 * (h / 256) + h % 256;
    Complement(p.Bits() - 8, h / 256, h % 256, c);
  }

  lemma Complement(k: nat, q: nat, r: nat, c: nat)
    requires q < Pow2(k) && r < 256 && c < 256
    ensures Xor(256 * q + r, 256 * Pow2(k) - 256 + c) == 256 * Pow2(k) - 256 - 256 * q + Xor(r, c)
  {
    XorBytes(q, r, Pow2(k) - 1, c);
    XorOnes(q, k);
  }

  lemma HighBits(p: Platform)
    ensures 256 * Pow2(p.Bits() - 8) == p.Word()
  {
    WordSizes();
    var k: nat := p.Bits() - 8;
    assert Pow2(k + 8) == 256 * Pow2(k) by {
      assert Pow2(k + 4) == 16 * Pow2(k);
    }
  }

  lemma SignedColliders(p: Platform, h: nat, x: Byte, y: Byte)
    requires h < p.Word() && Turns(h % 256, x, 1) && Turns(h % 256, y, 255)
    ensures Fold(p, h, Widened(p, [x, 0], true)) == Fold(p, h, Widened(p, [y, 254], true))
  {
    var m, n := Mix(p, h, Widen(p, x, true)), Mix(p, h, Widen(p, y, true));
    FirstComplement(p, h, x, y);
    SecondMeets(p, m, n);
    Fold2(p, h, Widened(p, [x, 0], true));
    Fold2(p, h, Widened(p, [y, 254], true));
  }

  lemma Fold2(p: Platform, h: nat, xs: seq<nat>)
    requires |xs| == 2
    ensures Fold(p, h, xs) == Mix(p, Mix(p, h, xs[0]), xs[1])
  {
    Peel(p, h, xs);
    Unfold1(p, Mix(p, h, xs[0]), xs[1..]);
  }

  /** The first bytes, of opposite signs, lead to states that are each other's negation. */
  lemma FirstComplement(p: Platform, h: nat, x: Byte, y: Byte)
    requires h < p.Word() && Turns(h % 256, x, 1) && Turns(h % 256, y, 255)
    ensures var m, n := Mix(p, h, Widen(p, x, true)), Mix(p, h, Widen(p, y, true));
            m + n == p.Word() && m % 256 == 147 && n % 256 == 109
  {
    var high := h - h % 256;
    Signs(h % 256, x, y);
    HighPart(p, h);
    if x < 128 {
      XorNegative(p, h, y, 255);
      Negated(p, high + 1, p.Word() - high - 1);
    } else {
      XorNegative(p, h, x, 1);
      Negated(p, p.Word() - 256 - high + 1, high + 255);
    }
  }

  lemma HighPart(p: Platform, h: nat)
    requires h < p.Word()
    ensures (h - h % 256 + 1) % 256 == (p.Word() - 256 - (h - h % 256) + 1) % 256 == 1
    ensures h - h % 256 <= p.Word() - 256
  {
    var q := h / 256;
    assert h - h % 256 == 256 * q;
    if p.wide {
      SameLow(0x1_0000_0000_0000_0000 - 256 - 256 * q + 1, 1, 0x100_0000_0000_0000 - 1 - q);
    } else {
      SameLow(0x1_0000_0000 - 256 - 256 * q + 1, 1, 0x100_0000 - 1 - q);
    }
    SameLow(256 * q + 1, 1, q);
  }

  lemma Signs(c: Byte, x: Byte, y: Byte)
    requires Turns(c, x, 1) && Turns(c, y, 255)
    ensures x < 128 <==> 128 <= y
  {
    assert Xor(c, x) == 1 && Xor(c, y) == 255;
    Halved(c, x);
    ScaleByte(0);
    XorOnes(c, 8);
    XorCommutes(c, y);
    XorUndo(y, c);
    XorCommutes(255, c);
  }

  lemma Halved(c: nat, x: nat)
    requires Xor(c, x) == 1
    ensures c / 2 == x / 2
  {
    XorHalves(c, x);
    XorUndo(c / 2, x / 2);
    XorCommutes(0, x / 2);
    XorZero(x / 2);
  }

  lemma Negated(p: Platform, a: nat, b: nat)
    requires a + b == p.Word() && a % 256 == 1
    ensures var m, n := a * MULTIPLIER % p.Word(), b * MULTIPLIER % p.Word();
            m + n == p.Word() && m % 256 == 147 && n % 256 == 109
  {
    var m, n := a * MULTIPLIER % p.Word(), b * MULTIPLIER % p.Word();
    LowOfProduct(p, a / 256, 1);
    assert a == 256 * (a / 256) + 1;
    ProductsCancel(p, a, b);
    CancelExactly(p, m, n);
  }

  lemma CancelExactly(p: Platform, m: nat, n: nat)
    requires m < p.Word() && n < p.Word() && (m + n) % p.Word() == 0 && m % 256 == 147
    ensures m + n == p.Word() && n % 256 == 109
  {
    assert 0 < m + n < 2 * p.Word();
    assert m + n == p.Word();
    SameLow(n, 109, if p.wide then 0x100_0000_0000_0000 - 1 - m / 256 else 0x100_0000 - 1 - m / 256);
  }

  lemma ProductsCancel(p: Platform, a: nat, b: nat)
    requires a + b == p.Word()
    ensures (a * MULTIPLIER % p.Word() + b * MULTIPLIER % p.Word()) % p.Word() == 0
  {
    if p.wide {
      var m, n := a * 16777619 % 0x1_0000_0000_0000_0000, b * 16777619 % 0x1_0000_0000_0000_0000;
      var k, l := a * 16777619 / 0x1_0000_0000_0000_0000, b * 16777619 / 0x1_0000_0000_0000_0000;
      assert m + n == 0x1_0000_0000_0000_0000 * (16777619 - k - l);
    } else {
      var m, n := a * 16777619 % 0x1_0000_0000, b * 16777619 % 0x1_0000_0000;
      var k, l := a * 16777619 / 0x1_0000_0000, b * 16777619 / 0x1_0000_0000;
      assert m + n == 0x1_0000_0000 * (16777619 - k - l);
    }
  }

  /** And the second bytes undo the negation. */
  lemma SecondMeets(p: Platform, m: nat, n: nat)
    requires m + n == p.Word() && m % 256 == 147 && n % 256 == 109
    ensures Mix(p, m, Widen(p, 0, true)) == Mix(p, n, Widen(p, 254, true))
  {
    XorZero(m);
    HexTurns(0x6, 0xd, 0xf, 0xe, 0x9, 0x3);
    XorNegative(p, n, 254, 147);
  }

  // ---------- instances ----------

  /** With a 32-bit size_t 0.230.5.107 and 6.112.128.0 hash alike without the port, and with any one port. */
  lemma NarrowExample(p: Platform, a: Address, b: Address, includePort: bool)
    requires !p.wide && a.V4? && b.V4? && a.port == b.port
    requires a.bytes == [0, 230, 5, 107] && b.bytes == [6, 112, 128, 0]
    ensures HashOf(p, a, includePort) == HashOf(p, b, includePort)
  {
    NarrowFirst();
    NarrowSame(p, a, b, 0, 6, includePort);
  }

  lemma NarrowFirst()
    ensures Turns(BASIS % 256, 0, 197) && Turns(BASIS % 256, 6, 195)
  {
    assert BASIS % 256 == 197;
    ZeroTurns(197);
    HexTurns(0xc, 0x5, 0x0, 0x6, 0xc, 0x3);
  }

  lemma NarrowSame(p: Platform, a: Address, b: Address, x: Byte, y: Byte, includePort: bool)
    requires !p.wide && a.V4? && b.V4? && a.port == b.port
    requires Turns(BASIS % 256, x, 197) && Turns(BASIS % 256, y, 195)
    requires a.bytes == [x, 230, 5, 107] && b.bytes == [y, 112, 128, 0]
    ensures HashOf(p, a, includePort) == HashOf(p, b, includePort)
  {
    NarrowColliders(p, BASIS, x, y);
    Unsigned(p, a.bytes);
    Unsigned(p, b.bytes);
    SameHash(p, a, b, includePort, a.bytes, b.bytes, []);
  }

  /** With 64 bits and unsigned char, addresses from 009a:ac9a:ce00:00 and from 212a:0000:fcc8:a9 on hash alike. */
  lemma WideExample(p: Platform, a: Address, b: Address, includePort: bool, tail: seq<Byte>)
    requires p.wide && !p.signedChar && a.V6? && b.V6? && a.port == b.port
    requires a.bytes == [0, 154, 172, 154, 206, 0, 0] + tail && b.bytes == [33, 42, 0, 0, 252, 200, 169] + tail
    ensures HashOf(p, a, includePort) == HashOf(p, b, includePort)
  {
    WideFirst();
    WideSame(p, a, b, 0, 33, includePort, tail);
  }

  lemma WideFirst()
    ensures Turns(BASIS % 256, 0, 197) && Turns(BASIS % 256, 33, 228)
  {
    assert BASIS % 256 == 197;
    ZeroTurns(197);
    HexTurns(0xc, 0x5, 0x2, 0x1, 0xe, 0x4);
  }

  lemma WideSame(p: Platform, a: Address, b: Address, x: Byte, y: Byte, includePort: bool, tail: seq<Byte>)
    requires p.wide && !p.signedChar && a.V6? && b.V6? && a.port == b.port
    requires Turns(BASIS % 256, x, 197) && Turns(BASIS % 256, y, 228)
    requires a.bytes == [x, 154, 172, 154, 206, 0, 0] + tail && b.bytes == [y, 42, 0, 0, 252, 200, 169] + tail
    ensures HashOf(p, a, includePort) == HashOf(p, b, includePort)
  {
    WideColliders(p, BASIS, x, y);
    Unsigned(p, [x, 154, 172, 154, 206, 0, 0]);
    Unsigned(p, [y, 42, 0, 0, 252, 200, 169]);
    SameHash(p, a, b, includePort, [x, 154, 172, 154, 206, 0, 0], [y, 42, 0, 0, 252, 200, 169], tail);
  }

  /** With signed char and either word size, addresses from c400 and from 3afe on hash alike. */
  lemma SignedExample(p: Platform, a: Address, b: Address, includePort: bool, tail: seq<Byte>)
    requires p.signedChar && a.V6? && b.V6? && a.port == b.port
    requires a.bytes == [196, 0] + tail && b.bytes == [58, 254] + tail
    ensures HashOf(p, a, includePort) == HashOf(p, b, includePort)
  {
    SignedFirst();
    SignedSame(p, a, b, 196, 58, includePort, tail);
  }

  lemma SignedFirst()
    ensures Turns(BASIS % 256, 196, 1) && Turns(BASIS % 256, 58, 255)
  {
    assert BASIS % 256 == 197;
    HexTurns(0xc, 0x5, 0xc, 0x4, 0x0, 0x1);
    HexTurns(0xc, 0x5, 0x3, 0xa, 0xf, 0xf);
  }

  lemma SignedSame(p: Platform, a: Address, b: Address, x: Byte, y: Byte, includePort: bool, tail: seq<Byte>)
    requires p.signedChar && a.V6? && b.V6? && a.port == b.port
    requires Turns(BASIS % 256, x, 1) && Turns(BASIS % 256, y, 255)
    requires a.bytes == [x, 0] + tail && b.bytes == [y, 254] + tail
    ensures HashOf(p, a, includePort) == HashOf(p, b, includePort)
  {
    SignedColliders(p, BASIS, x, y);
    SameHash(p, a, b, includePort, [x, 0], [y, 254], tail);
  }

  /** Addresses whose first bytes collide, and which agree on the others, hash alike. */
  lemma SameHash(p: Platform, a: Address, b: Address, includePort: bool, u: seq<Byte>, v: seq<Byte>, tail: seq<Byte>)
    requires !a.Unset? && !b.Unset? && a.V6? == b.V6? && a.port == b.port
    requires a.bytes == u + tail && b.bytes == v + tail
    requires var s := p.signedChar && a.V6?; Fold(p, BASIS, Widened(p, u, s)) == Fold(p, BASIS, Widened(p, v, s))
    ensures HashOf(p, a, includePort) == HashOf(p, b, includePort)
  {
    Headed(p, a, includePort, u, tail);
    Headed(p, b, includePort, v, tail);
  }

  lemma Headed(p: Platform, a: Address, includePort: bool, u: seq<Byte>, tail: seq<Byte>)
    requires !a.Unset? && a.bytes == u + tail
    ensures var s := p.signedChar && a.V6?;
            HashOf(p, a, includePort)
            == Fold(p, Fold(p, BASIS, Widened(p, u, s)),
                    Widened(p, tail, s) + if includePort then PortBytes(p, a.port) else [])
  {
    assert [] + u + tail == u + tail;
    assert Widened(p, [], p.signedChar && a.V6?) == [];
    Replaced(p, a, includePort, [], u, tail);
  }

  lemma Unsigned(p: Platform, u: seq<Byte>)
    ensures Widened(p, u, false) == u
  {
  }
}
