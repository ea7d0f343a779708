/** The address hash: a byte-at-a-time fold with machine-word wraparound. */
module AddressHash {
  import opened Addresses
  import opened Bits

  /** What the hash depends on outside its own code: size_t, whether char is signed, and the byte order. */
  datatype Platform = Platform(wide: bool, signedChar: bool, littleEndian: bool) {
    function Bits(): nat { if wide then 64 else 32 }

    /** One more than the largest size_t. */
    function Word(): nat { if wide then 0x1_0000_0000_0000_0000 else 0x1_0000_0000 }
  }

  const MULTIPLIER: nat := 16777619
  const BASIS: nat := 0x811c9dc5

  /** A char converted to size_t: a signed one extends its top bit. */
  function Widen(p: Platform, c: Byte, signed: bool): nat {
    if signed && c >= 128 then p.Word() - 256 + c else c
  }

  /** hash = (hash ^ x) * multiplier. */
  function Mix(p: Platform, hash: nat, x: nat): nat {
    Xor(hash, x) * MULTIPLIER % p.Word()
  }

  function Fold(p: Platform, hash: nat, xs: seq<nat>): nat {
    if xs == [] then hash else Mix(p, Fold(p, hash, xs[..|xs| - 1]), xs[|xs| - 1])
  }

  /** The two bytes of the port as the union holds it, low byte of the stored short first. */
  function PortBytes(p: Platform, port: Port): seq<nat> {
    if p.littleEndian then [port / 256, port % 256] else [port % 256, port / 256]
  }

  /** Everything mixed in, in order. */
  function Stream(p: Platform, a: Address, includePort: bool): seq<nat> {
    if a.Unset? then []
    else Widened(p, a.bytes, p.signedChar && a.V6?) + if includePort then PortBytes(p, a.port) else []
  }

  function Widened(p: Platform, bytes: seq<Byte>, signed: bool): seq<nat> {
    seq(|bytes|, i requires 0 <= i < |bytes| => Widen(p, bytes[i], signed))
  }

  function HashOf(p: Platform, a: Address, includePort: bool): nat {
    Fold(p, BASIS, Stream(p, a, includePort))
  }

  method Hash(p: Platform, a: Address, includePort: bool) returns (hash: nat)
    ensures hash == HashOf(p, a, includePort)
  {
    hash := BASIS;
    if a.Unset? {
      return;
    }
    ghost var xs := Stream(p, a, includePort);
    for i := 0 to |a.bytes|
      invariant hash == Fold(p, BASIS, xs[..i])
    {
      FoldNext(p, xs, i);
      hash := Mix(p, hash, Widen(p, a.bytes[i], p.signedChar && a.V6?));
    }
    if includePort {
      var port := PortBytes(p, a.port);
      FoldNext(p, xs, |a.bytes|);
      FoldNext(p, xs, |a.bytes| + 1);
      hash := Mix(p, Mix(p, hash, port[0]), port[1]);
      assert xs[..|a.bytes| + 2] == xs;
    } else {
      assert xs[..|a.bytes|] == xs;
    }
  }

  lemma FoldNext(p: Platform, xs: seq<nat>, i: nat)
    requires i < |xs|
    ensures Fold(p, BASIS, xs[..i + 1]) == Mix(p, Fold(p, BASIS, xs[..i]), xs[i])
  {
    assert xs[..i + 1][..i] == xs[..i];
  }

  // ---------- the hash in full ----------

  /**
    The hash without the port: a state per byte, from the basis on, each the last one xored with the next byte and
    multiplied in the machine word; where char is signed the IPv6 loop extends a byte's sign.
   */
  lemma HashInFull(p: Platform, a: Address) returns (states: seq<nat>)
    requires !a.Unset?
    ensures |states| == |a.bytes| + 1 && states[0] == 0x811c9dc5 && states[|a.bytes|] == HashOf(p, a, false)
    ensures forall i :: 0 <= i < |a.bytes| ==>
              var word := if p.wide then 0x1_0000_0000_0000_0000 else 0x1_0000_0000;
              var c: nat := a.bytes[i];
              states[i + 1]
              == Xor(states[i], if p.signedChar && a.V6? && 128 <= c then word - 256 + c else c) * 16777619 % word
  {
    var xs := Stream(p, a, false);
    states := seq(|xs| + 1, i requires 0 <= i <= |xs| => Fold(p, BASIS, xs[..i]));
    forall i | 0 <= i < |xs|
      ensures states[i + 1] == Mix(p, states[i], xs[i])
    {
      FoldNext(p, xs, i);
    }
    assert xs[..|xs|] == xs;
  }

  /**
    The port is mixed in as the short s that holds it in network order, its bytes in memory being those of the port from
    the high one on: first the low byte of s and then the high one.
   */
  lemma PortInFull(p: Platform, a: Address, s: nat)
    requires !a.Unset? && s < 65536
    requires (if p.littleEndian then [s % 256, s / 256] else [s / 256, s % 256]) == [a.port / 256, a.port % 256]
    ensures var word := if p.wide then 0x1_0000_0000_0000_0000 else 0x1_0000_0000;
            HashOf(p, a, true)
            == Xor(Xor(HashOf(p, a, false), s % 256) * 16777619 % word, s / 256) * 16777619 % word
  {
    var xs, port := Stream(p, a, false), PortBytes(p, a.port);
    ShortBytes(p, a.port, s);
    assert Stream(p, a, true) == xs + port;
    assert (xs + port)[..|xs|] == xs && (xs + port)[..|xs| + 2] == xs + port;
    FoldNext(p, xs + port, |xs|);
    FoldNext(p, xs + port, |xs| + 1);
  }

  lemma ShortBytes(p: Platform, port: Port, s: nat)
    requires (if p.littleEndian then [s % 256, s / 256] else [s / 256, s % 256]) == [port / 256, port % 256]
    ensures PortBytes(p, port) == [s % 256, s / 256]
  {
    var short := if p.littleEndian then [s % 256, s / 256] else [s / 256, s % 256];
    assert short[0] == port / 256 && short[1] == port % 256;
  }

  /** An address of another family hashes to the basis. */
  lemma UnsetHash(p: Platform, code: int, includePort: bool)
    ensures HashOf(p, Unset(code), includePort) == 0x811c9dc5
  {
  }

  // ---------- each step is a bijection ----------

  /** The inverse of the multiplier modulo the word size. */
  function Inverse(p: Platform): nat {
    if p.wide then 9778875398352553115 else 899433627
  }

  lemma MultiplyUndo(p: Platform, u: nat)
    requires u < p.Word()
    ensures u * MULTIPLIER % p.Word() * Inverse(p) % p.Word() == u
  {
    if p.wide { UndoWide(u); } else { UndoNarrow(u); }
  }

  lemma UndoWide(u: nat)
    requires u < 0x1_0000_0000_0000_0000
    ensures u * 16777619 % 0x1_0000_0000_0000_0000 * 9778875398352553115 % 0x1_0000_0000_0000_0000 == u
  {
    var k := u * 16777619 / 0x1_0000_0000_0000_0000;
    var r := u * 16777619 % 0x1_0000_0000_0000_0000;
    assert r * 9778875398352553115 == u + 0x1_0000_0000_0000_0000 * (8894049 * u - 9778875398352553115 * k);
    ModWide(u, 8894049 * u - 9778875398352553115 * k);
  }

  lemma ModWide(u: nat, k: int)
    requires u < 0x1_0000_0000_0000_0000
    ensures (u + 0x1_0000_0000_0000_0000 * k) % 0x1_0000_0000_0000_0000 == u
  {
  }

  lemma UndoNarrow(u: nat)
    requires u < 0x1_0000_0000
    ensures u * 16777619 % 0x1_0000_0000 * 899433627 % 0x1_0000_0000 == u
  {
    var k := u * 16777619 / 0x1_0000_0000;
    var r := u * 16777619 % 0x1_0000_0000;
    assert r * 899433627 == u + 0x1_0000_0000 * (3513497 * u - 899433627 * k);
  }

  lemma XorFits(p: Platform, h: nat, x: nat)
    requires h < p.Word() && x < p.Word()
    ensures Xor(h, x) < p.Word()
  {
    WordSizes();
    XorBelow(h, x, p.Bits());
  }

  /** Mixing loses neither the state nor the value mixed in. */
  lemma MixInjective(p: Platform, h: nat, x: nat, h': nat, x': nat)
    requires h < p.Word() && x < p.Word() && h' < p.Word() && x' < p.Word()
    ensures Mix(p, h, x) == Mix(p, h', x') ==> Xor(h, x) == Xor(h', x')
    ensures Mix(p, h, x) == Mix(p, h', x) ==> h == h'
    ensures Mix(p, h, x) == Mix(p, h, x') ==> x == x'
  {
    XorFits(p, h, x);
    XorFits(p, h', x');
    XorFits(p, h', x);
    XorFits(p, h, x');
    MultiplyUndo(p, Xor(h, x));
    MultiplyUndo(p, Xor(h', x'));
    MultiplyUndo(p, Xor(h', x));
    MultiplyUndo(p, Xor(h, x'));
    XorInjective(h, x, h', x');
  }

  /** Every state is reached, from exactly one state, whatever is mixed in. */
  lemma MixOnto(p: Platform, x: nat, target: nat) returns (h: nat)
    requires x < p.Word() && target < p.Word()
    ensures h < p.Word() && Mix(p, h, x) == target
    ensures forall h': nat :: h' < p.Word() && Mix(p, h', x) == target ==> h' == h
  {
    var u := target * Inverse(p) % p.Word();
    UndoMultiply(p, target);
    h := Xor(u, x);
    XorFits(p, u, x);
    XorUndo(u, x);
    forall h': nat | h' < p.Word() && Mix(p, h', x) == target
      ensures h' == h
    {
      MixInjective(p, h, x, h', x);
    }
  }

  lemma UndoMultiply(p: Platform, u: nat)
    requires u < p.Word()
    ensures u * Inverse(p) % p.Word() * MULTIPLIER % p.Word() == u
  {
    if p.wide {
      var k := u * 9778875398352553115 / 0x1_0000_0000_0000_0000;
      var r := u * 9778875398352553115 % 0x1_0000_0000_0000_0000;
      assert r * 16777619 == u + 0x1_0000_0000_0000_0000 * (8894049 * u - 16777619 * k);
      ModWide(u, 8894049 * u - 16777619 * k);
    } else {
      var k := u * 899433627 / 0x1_0000_0000;
      var r := u * 899433627 % 0x1_0000_0000;
      assert r * 16777619 == u + 0x1_0000_0000 * (3513497 * u - 16777619 * k);
    }
  }

  // ---------- folds ----------

  predicate Fits(p: Platform, xs: seq<nat>) {
    forall i :: 0 <= i < |xs| ==> xs[i] < p.Word()
  }

  lemma {:induction false} FoldFits(p: Platform, h: nat, xs: seq<nat>)
    requires h < p.Word()
    ensures Fold(p, h, xs) < p.Word()
  {
  }

  lemma {:induction false} FoldAppend(p: Platform, h: nat, xs: seq<nat>, ys: seq<nat>)
    ensures Fold(p, h, xs + ys) == Fold(p, Fold(p, h, xs), ys)
  {
    if ys == [] {
      assert xs + ys == xs;
    } else {
      FoldAppend(p, h, xs, ys[..|ys| - 1]);
      assert (xs + ys)[..|xs + ys| - 1] == xs + ys[..|ys| - 1];
    }
  }

  /** From different states the same input never leads to the same state. */
  lemma {:induction false} FoldKeepsApart(p: Platform, h: nat, h': nat, xs: seq<nat>)
    requires h < p.Word() && h' < p.Word() && Fits(p, xs)
    requires Fold(p, h, xs) == Fold(p, h', xs)
    ensures h == h'
  {
    if xs != [] {
      var init := xs[..|xs| - 1];
      FoldFits(p, h, init);
      FoldFits(p, h', init);
      MixInjective(p, Fold(p, h, init), xs[|xs| - 1], Fold(p, h', init), xs[|xs| - 1]);
      FoldKeepsApart(p, h, h', init);
    }
  }

  /** Inputs that agree outside a window collide only if the window itself collides from the state reached there. */
  lemma WindowCollides(p: Platform, xs: seq<nat>, ys: seq<nat>, i: nat, n: nat) returns (h: nat)
    requires |xs| == |ys| && i + n <= |xs| && Fits(p, xs) && Fits(p, ys)
    requires xs[..i] == ys[..i] && xs[i + n..] == ys[i + n..]
    ensures h < p.Word()
    ensures Fold(p, BASIS, xs) == Fold(p, BASIS, ys) ==> Fold(p, h, xs[i..i + n]) == Fold(p, h, ys[i..i + n])
  {
    var tail := xs[i + n..];
    h := Fold(p, BASIS, xs[..i]);
    FoldFits(p, BASIS, xs[..i]);
    assert xs == xs[..i] + xs[i..i + n] + tail && ys == xs[..i] + ys[i..i + n] + tail;
    FoldAppend(p, BASIS, xs[..i] + xs[i..i + n], tail);
    FoldAppend(p, BASIS, xs[..i] + ys[i..i + n], tail);
    FoldAppend(p, BASIS, xs[..i], xs[i..i + n]);
    FoldAppend(p, BASIS, xs[..i], ys[i..i + n]);
    FoldFits(p, h, xs[i..i + n]);
    FoldFits(p, h, ys[i..i + n]);
    if Fold(p, BASIS, xs) == Fold(p, BASIS, ys) {
      FoldKeepsApart(p, Fold(p, h, xs[i..i + n]), Fold(p, h, ys[i..i + n]), tail);
    }
  }

  // ---------- short windows ----------

  /** How many consecutive bytes the hash keeps apart whatever state they are mixed into. */
  function Reach(p: Platform): nat {
    if p.wide then 6 else 3
  }

  predicate AllBytes(xs: seq<nat>) {
    forall i :: 0 <= i < |xs| ==> xs[i] < 256
  }

  lemma {:induction false} OneByteWindow(p: Platform, h: nat, xs: seq<nat>, ys: seq<nat>)
    requires h < p.Word() && |xs| == |ys| == 1 && Fits(p, xs) && Fits(p, ys)
    ensures Fold(p, h, xs) == Fold(p, h, ys) ==> xs == ys
  {
    Unfold1(p, h, xs);
    Unfold1(p, h, ys);
    MixInjective(p, h, xs[0], h, ys[0]);
  }

  lemma Unfold1(p: Platform, h: nat, xs: seq<nat>)
    requires |xs| == 1
    ensures Fold(p, h, xs) == Mix(p, h, xs[0])
  {
    assert xs[..0] == [];
  }

  lemma Unfold3(p: Platform, h: nat, xs: seq<nat>)
    requires |xs| == 3
    ensures Fold(p, h, xs) == Mix(p, Mix(p, Mix(p, h, xs[0]), xs[1]), xs[2])
  {
    Unfold1(p, h, xs[..1]);
    assert xs[..2][..1] == xs[..1];
  }

  /** Two windows of at most Reach bytes that lead to the same state are the same window. */
  lemma ShortWindow(p: Platform, h: nat, xs: seq<nat>, ys: seq<nat>)
    requires h < p.Word() && |xs| == |ys| <= Reach(p) && AllBytes(xs) && AllBytes(ys)
    ensures Fold(p, h, xs) == Fold(p, h, ys) ==> xs == ys
  {
    var pad := seq(Reach(p) - |xs|, _ => 0);
    FoldAppend(p, h, xs, pad);
    FoldAppend(p, h, ys, pad);
    if p.wide { SixByteWindow(p, h, xs + pad, ys + pad); } else { ThreeByteWindow(p, h, xs + pad, ys + pad); }
    if Fold(p, h, xs) == Fold(p, h, ys) {
      assert xs == (xs + pad)[..|xs|] == (ys + pad)[..|ys|] == ys;
    }
  }

  /** If two states agree after their last byte, they were within 255 of each other before it. */
  lemma LastByte(p: Platform, m: nat, x: nat, m': nat, x': nat) returns (r: int)
    requires m < p.Word() && m' < p.Word() && x < 256 && x' < 256
    ensures r == m - m' && (Mix(p, m, x) == Mix(p, m', x') ==> -255 <= r <= 255)
  {
    r := m - m';
    MixInjective(p, m, x, m', x');
    XorByte(m, x);
    XorByte(m', x');
  }

  /**
    One byte mixed into each of two states: their difference moves by a small e, is multiplied, and wraps k times. From
    equal states e is zero only for equal bytes.
   */
  lemma StepDifference(p: Platform, m: nat, x: nat, m': nat, x': nat) returns (e: int, k: int)
    requires x < 256 && x' < 256
    ensures Mix(p, m, x) - Mix(p, m', x') == (m - m' + e) * MULTIPLIER - p.Word() * k
    ensures -510 <= e <= 510 && (m == m' ==> -255 <= e <= 255)
    ensures m == m' && e == 0 ==> x == x'
  {
    XorByte(m, x);
    XorByte(m', x');
    XorInjective(m, x, m, x');
    e := Xor(m, x) - Xor(m', x') - (m - m');
    k := ProductDifference(p, Xor(m, x), Xor(m', x'));
  }

  lemma ProductDifference(p: Platform, u: nat, v: nat) returns (k: int)
    ensures (u - v) * MULTIPLIER == u * MULTIPLIER % p.Word() - v * MULTIPLIER % p.Word() + p.Word() * k
  {
    var w := p.Word();
    k := u * MULTIPLIER / w - v * MULTIPLIER / w;
    if p.wide {
      assert u * 16777619
          == 0x1_0000_0000_0000_0000 * (u * 16777619 / 0x1_0000_0000_0000_0000)
             + u * 16777619 % 0x1_0000_0000_0000_0000;
    } else {
      assert u * 16777619 == 0x1_0000_0000 * (u * 16777619 / 0x1_0000_0000) + u * 16777619 % 0x1_0000_0000;
    }
  }

  /** Six bytes in 64 bits. */
  lemma SixByteWindow(p: Platform, h: nat, xs: seq<nat>, ys: seq<nat>)
    requires p.wide && h < p.Word() && |xs| == |ys| == 6 && AllBytes(xs) && AllBytes(ys)
    ensures Fold(p, h, xs) == Fold(p, h, ys) ==> xs == ys
  {
    FoldAppend(p, h, xs[..3], xs[3..]);
    FoldAppend(p, h, ys[..3], ys[3..]);
    assert xs == xs[..3] + xs[3..] && ys == ys[..3] + ys[3..];
    Unfold3(p, h, xs[..3]);
    Unfold3(p, h, ys[..3]);
    var m1, m1' := Mix(p, h, xs[0]), Mix(p, h, ys[0]);
    var m2, m2' := Mix(p, m1, xs[1]), Mix(p, m1', ys[1]);
    var m3, m3' := Mix(p, m2, xs[2]), Mix(p, m2', ys[2]);
    Unfold3(p, m3, xs[3..]);
    Unfold3(p, m3', ys[3..]);
    SixSteps(p, h, xs, ys, m1, m1', m2, m2', m3, m3');
  }

  lemma SixSteps(p: Platform, h: nat, xs: seq<nat>, ys: seq<nat>,
                 m1: nat, m1': nat, m2: nat, m2': nat, m3: nat, m3': nat)
    requires p.wide && |xs| == |ys| == 6 && AllBytes(xs) && AllBytes(ys)
    requires m1 == Mix(p, h, xs[0]) && m2 == Mix(p, m1, xs[1]) && m3 == Mix(p, m2, xs[2])
    requires m1' == Mix(p, h, ys[0]) && m2' == Mix(p, m1', ys[1]) && m3' == Mix(p, m2', ys[2])
    ensures Mix(p, Mix(p, Mix(p, m3, xs[3]), xs[4]), xs[5]) == Mix(p, Mix(p, Mix(p, m3', ys[3]), ys[4]), ys[5])
            ==> xs == ys
  {
    var m4, m4' := Mix(p, m3, xs[3]), Mix(p, m3', ys[3]);
    var m5, m5' := Mix(p, m4, xs[4]), Mix(p, m4', ys[4]);
    if Mix(p, m5, xs[5]) == Mix(p, m5', ys[5]) {
      var d, k1 := StepDifference(p, h, xs[0], h, ys[0]);
      var e, k2 := StepDifference(p, m1, xs[1], m1', ys[1]);
      var f, k3 := StepDifference(p, m2, xs[2], m2', ys[2]);
      var g, k4 := StepDifference(p, m3, xs[3], m3', ys[3]);
      var x, k5 := StepDifference(p, m4, xs[4], m4', ys[4]);
      var r := LastByte(p, m5, xs[5], m5', ys[5]);
      WideCarriesVanish(d, e, f, g, x, r, k1, k2, k3, k4, k5);
      MixInjective(p, m5, xs[5], m5, ys[5]);
    }
  }

  lemma WideCarriesVanish(d: int, e: int, f: int, g: int, x: int, r: int, k1: int, k2: int, k3: int, k4: int, k5: int)
    requires SmallDifferences(d, e, f, g, x, r)
    requires var w, p := 0x1_0000_0000_0000_0000, MULTIPLIER;
             ((((d * p - w * k1 + e) * p - w * k2 + f) * p - w * k3 + g) * p - w * k4 + x) * p - w * k5 == r
    ensures d == e == f == g == x == 0
  {
    var k := 79235775243323532774258523921 * k1 + 4722706794290866467659 * k2 + 281488499309161 * k3
             + 16777619 * k4 + k5 - 72066248812806403 * d - 4295379983 * e - 256 * f;
    WideLattice(d, e, f, g, x, r, k);
  }

  predicate SmallDifferences(d: int, e: int, f: int, g: int, x: int, r: int) {
    && -255 <= d <= 255 && -510 <= e <= 510 && -510 <= f <= 510 && -510 <= g <= 510 && -510 <= x <= 510
    && -255 <= r <= 255
  }

  /**
    d p^5 + e p^4 + f p^3 + g p^2 + x p, with the powers of the multiplier p reduced modulo 2^64, stays more than 255
    away from every multiple of 2^64 unless all five differences are zero. The six-dimensional lattice of solutions has
    a reduced basis in which the bounds leave five coordinates no value but zero; one step along the sixth changes f by
    517.
   */
  lemma WideLattice(d: int, e: int, f: int, g: int, x: int, r: int, k: int)
    requires SmallDifferences(d, e, f, g, x, r)
    requires 2279638238105126851 * d - 2412351793013178607 * e + 340311421221253963 * f + 281488499309161 * g
             + 16777619 * x - 0x1_0000_0000_0000_0000 * k == r
    ensures d == e == f == g == x == 0
  {
    var a1 := 2492196507708227 * d - 2637284553933629 * e + 372042774736840 * f + 307735079721 * g + 18342 * x
             - 20166757334839156 * k;
    var a2 := 468356918728145 * d - 495623223798488 * e + 69917764137729 * f + 57832459550 * g + 3447 * x
             - 3789925993744825 * k;
    var a3 := 376642077442474 * d - 398569025407206 * e + 56226289997976 * f + 46507560447 * g + 2772 * x
             - 3047773060582961 * k;
    var a4 := -331803716699961 * d + 351120312657554 * e - 49532681330401 * f - 40970943862 * g - 2442 * x
             + 2684942787131626 * k;
    var a5 := 1065929687597486 * d - 1127984848700889 * e + 159125268581979 * f + 131620422537 * g + 7845 * x
             - 8625461627641478 * k;
    var a6 := 130302957378943 * d - 137888796394859 * e + 19452027025051 * f + 16089738852 * g + 959 * x
             - 1054406469692670 * k;
    assert InBasis(d, e, f, g, x, r, a1, a2, a3, a4, a5, a6);
    BasisPoint(d, e, f, g, x, r, a1, a2, a3, a4, a5, a6);
  }

  lemma BasisPoint(d: int, e: int, f: int, g: int, x: int, r: int,
                   a1: int, a2: int, a3: int, a4: int, a5: int, a6: int)
    requires SmallDifferences(d, e, f, g, x, r) && InBasis(d, e, f, g, x, r, a1, a2, a3, a4, a5, a6)
    ensures d == e == f == g == x == 0
  {
    SecondCoordinate(d, e, f, g, x, r, a1, a2, a3, a4, a5, a6);
    ThirdCoordinate(d, e, f, g, x, r, a1, a2, a3, a4, a5, a6);
    FourthCoordinate(d, e, f, g, x, r, a1, a2, a3, a4, a5, a6);
    FifthCoordinate(d, e, f, g, x, r, a1, a2, a3, a4, a5, a6);
    SixthCoordinate(d, e, f, g, x, r, a1, a2, a3, a4, a5, a6);
  }

  /** The solution written in the reduced basis. */
  predicate InBasis(d: int, e: int, f: int, g: int, x: int, r: int,
                    a1: int, a2: int, a3: int, a4: int, a5: int, a6: int) {
    && d == 153 * a1 + 423 * a2 + 35 * a3 - 480 * a4 - 716 * a5 + 87 * a6
    && e == -43 * a1 - 188 * a2 + 2072 * a3 + 392 * a4 - 409 * a5 - 147 * a6
    && f == -517 * a1 - 751 * a2 + 251 * a3 - 1487 * a4 + 868 * a5 + 975 * a6
    && g == 449 * a1 - 321 * a2 + 499 * a3 + 926 * a4 - 1099 * a5 + 2472 * a6
    && x == 667 * a1 - 942 * a2 - 594 * a3 - 873 * a4 - 1127 * a5 - 658 * a6
    && r == 355 * a1 + 289 * a2 - 161 * a3 - 698 * a4 + 983 * a5 + 313 * a6
  }

  lemma SecondCoordinate(d: int, e: int, f: int, g: int, x: int, r: int,
                         a1: int, a2: int, a3: int, a4: int, a5: int, a6: int)
    requires SmallDifferences(d, e, f, g, x, r) && InBasis(d, e, f, g, x, r, a1, a2, a3, a4, a5, a6)
    ensures a2 == 0
  {
    var sum := 15719131799636245 * d - 1283098311797833 * e - 3777831283471411 * f - 1626138861709025 * g
              - 7539170232651323 * x + 3789925993744825 * r;
    assert 0x1_0000_0000_0000_0000 * a2 == sum;
    assert -0x1_0000_0000_0000_0000 < sum < 0x1_0000_0000_0000_0000;
  }

  lemma ThirdCoordinate(d: int, e: int, f: int, g: int, x: int, r: int,
                        a1: int, a2: int, a3: int, a4: int, a5: int, a6: int)
    requires SmallDifferences(d, e, f, g, x, r) && InBasis(d, e, f, g, x, r, a1, a2, a3, a4, a5, a6)
    ensures a3 == 0
  {
    var sum := 1375069659552173 * d + 8934416958570431 * e + 649796296004773 * f - 328746041273369 * g
              - 636601960470307 * x + 3047773060582961 * r;
    assert 0x1_0000_0000_0000_0000 * a3 == sum;
    assert -0x1_0000_0000_0000_0000 < sum < 0x1_0000_0000_0000_0000;
  }

  lemma FourthCoordinate(d: int, e: int, f: int, g: int, x: int, r: int,
                         a1: int, a2: int, a3: int, a4: int, a5: int, a6: int)
    requires SmallDifferences(d, e, f, g, x, r) && InBasis(d, e, f, g, x, r, a1, a2, a3, a4, a5, a6)
    ensures a4 == 0
  {
    var sum := -10419117350797250 * d - 480475661017718 * e - 5364388404344178 * f + 2285829447244794 * g
              - 1908706201167778 * x - 2684942787131626 * r;
    assert 0x1_0000_0000_0000_0000 * a4 == sum;
    assert -0x1_0000_0000_0000_0000 < sum < 0x1_0000_0000_0000_0000;
  }

  lemma FifthCoordinate(d: int, e: int, f: int, g: int, x: int, r: int,
                        a1: int, a2: int, a3: int, a4: int, a5: int, a6: int)
    requires SmallDifferences(d, e, f, g, x, r) && InBasis(d, e, f, g, x, r, a1, a2, a3, a4, a5, a6)
    ensures a5 == 0
  {
    var sum := -10393397790288402 * d + 654193084874522 * e - 211101122749250 * f - 1037914057810166 * g
              - 1629437154053362 * x + 8625461627641478 * r;
    assert 0x1_0000_0000_0000_0000 * a5 == sum;
    assert -0x1_0000_0000_0000_0000 < sum < 0x1_0000_0000_0000_0000;
  }

  lemma SixthCoordinate(d: int, e: int, f: int, g: int, x: int, r: int,
                        a1: int, a2: int, a3: int, a4: int, a5: int, a6: int)
    requires SmallDifferences(d, e, f, g, x, r) && InBasis(d, e, f, g, x, r, a1, a2, a3, a4, a5, a6)
    ensures a6 == 0
  {
    var sum := 2084369795139718 * d - 2291327068831454 * e + 2966410979981206 * f + 5296220469034962 * g
              - 2452951204352986 * x + 1054406469692670 * r;
    assert 0x1_0000_0000_0000_0000 * a6 == sum;
    assert -0x1_0000_0000_0000_0000 < sum < 0x1_0000_0000_0000_0000;
  }

  /** Three bytes in 32 bits. */
  lemma ThreeByteWindow(p: Platform, h: nat, xs: seq<nat>, ys: seq<nat>)
    requires !p.wide && h < p.Word() && |xs| == |ys| == 3 && AllBytes(xs) && AllBytes(ys)
    ensures Fold(p, h, xs) == Fold(p, h, ys) ==> xs == ys
  {
    Unfold3(p, h, xs);
    Unfold3(p, h, ys);
    var m1, m1' := Mix(p, h, xs[0]), Mix(p, h, ys[0]);
    var m2, m2' := Mix(p, m1, xs[1]), Mix(p, m1', ys[1]);
    if Fold(p, h, xs) == Fold(p, h, ys) {
      var d, k1 := StepDifference(p, h, xs[0], h, ys[0]);
      var e, k2 := StepDifference(p, m1, xs[1], m1', ys[1]);
      var r := LastByte(p, m2, xs[2], m2', ys[2]);
      NarrowLattice(d, e, r, 16777619 * k1 + k2 - 65539 * d);
      MixInjective(p, m2, xs[2], m2, ys[2]);
    }
  }

  /** The same in 32 bits, for d p^2 + e p. */
  lemma NarrowLattice(d: int, e: int, r: int, k: int)
    requires -255 <= d <= 255 && -510 <= e <= 510 && -255 <= r <= 255
    requires 637696617 * d + 16777619 * e - 0x1_0000_0000 * k == r
    ensures d == e == 0
  {
    var a1 := -667624 * d - 17565 * e + 4496532 * k;
    var a2 := 216726 * d + 5702 * e - 1459677 * k;
    var a3 := -160435 * d - 4221 * e + 1080550 * k;
    assert d == -517 * a1 - 822 * a2 + 1041 * a3;
    assert e == 195 * a1 - 1780 * a2 - 3216 * a3;
    assert r == -788 * a1 + 190 * a2 - 439 * a3;
    assert a1 == 0 && a2 == 0 && a3 == 0;
  }

  // ---------- addresses ----------

  /** The bytes the hash of an address depends on. */
  function Wire(p: Platform, a: Address, includePort: bool): (bytes: seq<nat>)
    ensures AllBytes(bytes)
  {
    if a.Unset? then [] else a.bytes + if includePort then PortBytes(p, a.port) else []
  }

  lemma StreamOfWire(p: Platform, a: Address, b: Address, includePort: bool)
    requires !a.Unset? && a.GetFamily() == b.GetFamily()
    ensures var xs, ys := Stream(p, a, includePort), Stream(p, b, includePort);
            var u, v := Wire(p, a, includePort), Wire(p, b, includePort);
            && |xs| == |ys| == |u| == |v| && Fits(p, xs) && Fits(p, ys)
            && (forall i :: 0 <= i < |xs| ==> (xs[i] == ys[i] <==> u[i] == v[i]))
            && (forall i :: 0 <= i < |xs| && (a.V4? || !p.signedChar || |a.bytes| <= i) ==> xs[i] < 256 && ys[i] < 256)
  {
  }

  /** operator== implies equal hashes, and the hash without the port does not see the port being replaced. */
  lemma HashAgrees(p: Platform, a: Address, b: Address, port: Port)
    ensures a.Equals(b) ==> HashOf(p, a, true) == HashOf(p, b, true) && HashOf(p, a, false) == HashOf(p, b, false)
    ensures a.WithPort(port).Valid() && HashOf(p, a.WithPort(port), false) == HashOf(p, a, false)
  {
    if a.Equals(b) {
      StreamOfWire(p, a, b, true);
      StreamOfWire(p, a, b, false);
      assert Stream(p, a, true) == Stream(p, b, true);
      assert Stream(p, a, false) == Stream(p, b, false);
    }
    assert Stream(p, a.WithPort(port), false) == Stream(p, a, false);
  }

  /** Addresses of one family whose bytes (address and port alike) differ at most in the n places from i on. */
  predicate AgreeOutside(p: Platform, a: Address, b: Address, includePort: bool, i: nat, n: nat) {
    var u, v := Wire(p, a, includePort), Wire(p, b, includePort);
    && !a.Unset? && a.GetFamily() == b.GetFamily()
    && i + n <= |u| && forall k :: 0 <= k < |u| && !(i <= k < i + n) ==> u[k] == v[k]
  }

  /** A collision of two such addresses is a collision of the bytes in that window. */
  lemma AddressWindow(p: Platform, a: Address, b: Address, includePort: bool, i: nat, n: nat)
    returns (h: nat, xs: seq<nat>, ys: seq<nat>)
    requires AgreeOutside(p, a, b, includePort, i, n)
    ensures h < p.Word() && |xs| == |ys| == n && Fits(p, xs) && Fits(p, ys)
    ensures HashOf(p, a, includePort) == HashOf(p, b, includePort) ==> Fold(p, h, xs) == Fold(p, h, ys)
    ensures xs == ys <==> Wire(p, a, includePort) == Wire(p, b, includePort)
    ensures xs == ys ==> HashOf(p, a, includePort) == HashOf(p, b, includePort)
    ensures a.V4? || !p.signedChar || |a.bytes| <= i ==> AllBytes(xs) && AllBytes(ys)
  {
    var s, t := Stream(p, a, includePort), Stream(p, b, includePort);
    StreamOfWire(p, a, b, includePort);
    h, xs, ys := SequenceWindow(p, Wire(p, a, includePort), Wire(p, b, includePort), s, t, i, n);
  }

  lemma SequenceWindow(p: Platform, u: seq<nat>, v: seq<nat>, s: seq<nat>, t: seq<nat>, i: nat, n: nat)
    returns (h: nat, xs: seq<nat>, ys: seq<nat>)
    requires |u| == |v| == |s| == |t| && i + n <= |u| && Fits(p, s) && Fits(p, t)
    requires forall k :: 0 <= k < |u| ==> (s[k] == t[k] <==> u[k] == v[k])
    requires forall k :: 0 <= k < |u| && !(i <= k < i + n) ==> u[k] == v[k]
    ensures xs == s[i..i + n] && ys == t[i..i + n] && Fits(p, xs) && Fits(p, ys)
    ensures (xs == ys <==> u == v) && (xs == ys ==> s == t)
    ensures (forall k :: i <= k < i + n ==> s[k] < 256 && t[k] < 256) ==> AllBytes(xs) && AllBytes(ys)
    ensures h < p.Word() && (Fold(p, BASIS, s) == Fold(p, BASIS, t) ==> Fold(p, h, xs) == Fold(p, h, ys))
  {
    WindowDecides(u, v, s, t, i, n);
    h := WindowCollides(p, s, t, i, n);
    xs, ys := s[i..i + n], t[i..i + n];
  }

  lemma WindowDecides(u: seq<nat>, v: seq<nat>, s: seq<nat>, t: seq<nat>, i: nat, n: nat)
    requires |u| == |v| == |s| == |t| && i + n <= |u|
    requires forall k :: 0 <= k < |u| ==> (s[k] == t[k] <==> u[k] == v[k])
    requires forall k :: 0 <= k < |u| && !(i <= k < i + n) ==> u[k] == v[k]
    ensures s[..i] == t[..i] && s[i + n..] == t[i + n..]
    ensures s[i..i + n] == t[i..i + n] <==> u == v
    ensures s[i..i + n] == t[i..i + n] ==> s == t
  {
    assert forall k :: i <= k < i + n ==> s[k] == s[i..i + n][k - i] && t[k] == t[i..i + n][k - i];
  }

  /**
    Two addresses of one family whose bytes (address and port alike) differ in one place only never collide, in either
    word size and whether or not char is signed.
   */
  lemma OneByteNeverCollides(p: Platform, a: Address, b: Address, includePort: bool, i: nat)
    requires AgreeOutside(p, a, b, includePort, i, 1)
    ensures HashOf(p, a, includePort) == HashOf(p, b, includePort)
            <==> Wire(p, a, includePort) == Wire(p, b, includePort)
  {
    var h, xs, ys := AddressWindow(p, a, b, includePort, i, 1);
    OneByteWindow(p, h, xs, ys);
  }

  /**
    Two addresses of one family that can differ only within Reach consecutive bytes - six with a 64-bit size_t, three
    with a 32-bit one - never collide; in the IPv6 loop this needs char to be unsigned.
   */
  lemma WindowNeverCollides(p: Platform, a: Address, b: Address, includePort: bool, i: nat, n: nat)
    requires n <= Reach(p) && AgreeOutside(p, a, b, includePort, i, n)
    requires a.V4? || !p.signedChar || |a.bytes| <= i
    ensures HashOf(p, a, includePort) == HashOf(p, b, includePort)
            <==> Wire(p, a, includePort) == Wire(p, b, includePort)
  {
    var h, xs, ys := AddressWindow(p, a, b, includePort, i, n);
    ShortWindow(p, h, xs, ys);
  }

  /** For a fixed address of either family the hash with the port is injective in the port, on every platform. */
  lemma PortNeverCollides(p: Platform, a: Address, port: Port, port': Port)
    requires !a.Unset? && a.WithPort(port).Valid() && a.WithPort(port').Valid()
    ensures HashOf(p, a.WithPort(port), true) == HashOf(p, a.WithPort(port'), true) <==> port == port'
  {
    var x, y: Address := a.WithPort(port), a.WithPort(port');
    var n := |a.bytes|;
    WindowNeverCollides(p, x, y, true, n, 2);
    assert Wire(p, x, true)[n..] == PortBytes(p, port) && Wire(p, y, true)[n..] == PortBytes(p, port');
  }

  /** With a 64-bit size_t the hash without the port is collision-free on the whole IPv4 address space. */
  lemma IPv4NeverCollides(p: Platform, a: Address, b: Address)
    requires p.wide && a.V4? && b.V4?
    ensures HashOf(p, a, false) == HashOf(p, b, false) <==> a.bytes == b.bytes
  {
    WindowNeverCollides(p, a, b, false, 0, 4);
    assert Wire(p, a, false) == a.bytes && Wire(p, b, false) == b.bytes;
  }

  /** With a 64-bit size_t the default hash, port included, is collision-free on all IPv4 addresses and ports. */
  lemma IPv4EndpointsNeverCollide(p: Platform, a: Address, b: Address)
    requires p.wide && a.V4? && b.V4?
    ensures HashOf(p, a, true) == HashOf(p, b, true) <==> a.Equals(b)
  {
    WindowNeverCollides(p, a, b, true, 0, 6);
    var u, v := Wire(p, a, true), Wire(p, b, true);
    assert u[..4] == a.bytes && v[..4] == b.bytes && u[4..] == PortBytes(p, a.port) && v[4..] == PortBytes(p, b.port);
  }
}
