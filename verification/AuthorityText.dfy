/**
  What the address printer is for, stated without its loop: the host and port text of RFC 3986 sections 3.2.2 and
  3.2.3, with the IPv6 forms of RFC 4291 section 2.2 and the canonical one of RFC 5952 section 4.
 */
module AuthorityText {
  import opened Text
  import opened Addresses

  type Group = n: nat | n < 65536
  type Groups = g: seq<Group> | |g| == 8 witness [0, 0, 0, 0, 0, 0, 0, 0]

  function GroupsOf(bytes: seq<Byte>): Groups
    requires |bytes| == 16
  {
    seq(8, i requires 0 <= i < 8 => GroupAt(bytes, i))
  }

  function GroupAt(bytes: seq<Byte>, i: nat): Group
    requires 2 * i + 1 < |bytes|
  {
    PairValue(bytes[2 * i], bytes[2 * i + 1])
  }

  /** The 16-bit value of two bytes in network order, digit by hex digit. */
  function PairValue(a: Byte, b: Byte): (n: Group)
    ensures n == ((a / 16 * 16 + a % 16) * 16 + b / 16) * 16 + b % 16
  {
    var high: nat := a;
    high * 256 + b
  }

  // ---------- zero runs ----------

  predicate Zeros(g: seq<Group>, from: nat, to: nat) {
    from <= to <= |g| && forall k :: from <= k < to ==> g[k] == 0
  }

  predicate PairAt(g: seq<Group>, k: nat) {
    k + 1 < |g| && g[k] == 0 && g[k + 1] == 0
  }

  /** s is where the first two adjacent zero groups stand, or the length when there are none. */
  ghost predicate StartsRun(g: seq<Group>, s: nat) {
    && s <= |g| && (s < |g| ==> PairAt(g, s) && (0 < s ==> g[s - 1] != 0))
    && forall k: nat :: k < s ==> !PairAt(g, k)
  }

  /** e is where the zeros standing at s end. */
  ghost predicate EndsRun(g: seq<Group>, s: nat, e: nat) {
    Zeros(g, s, e) && (e < |g| ==> g[e] != 0)
  }

  function RunStart(g: seq<Group>): (s: nat)
    ensures StartsRun(g, s)
  {
    if |g| < 2 then |g|
    else if g[0] == 0 && g[1] == 0 then 0
    else
      var s := 1 + RunStart(g[1..]);
      assert forall k: nat :: 0 < k < s ==> PairAt(g, k) == PairAt(g[1..], k - 1);
      s
  }

  function RunEnd(g: seq<Group>, s: nat): (e: nat)
    requires s <= |g|
    ensures EndsRun(g, s, e)
    decreases |g| - s
  {
    if s == |g| || g[s] != 0 then s else RunEnd(g, s + 1)
  }

  /** A maximal run of zero groups. */
  predicate ZeroRun(g: Groups, s: nat, e: nat) {
    s < e && Zeros(g, s, e) && (0 < s ==> g[s - 1] != 0) && (e < 8 ==> g[e] != 0)
  }

  // ---------- texts ----------

  function Parts(g: seq<Group>): seq<string> {
    seq(|g|, i requires 0 <= i < |g| => Numeral(g[i], 16))
  }

  function Colons(g: seq<Group>): string {
    Join(Parts(g), ':')
  }

  function Compressed(g: seq<Group>, s: nat, e: nat): string
    requires s <= e <= |g|
  {
    Colons(g[..s]) + "::" + Colons(g[e..])
  }

  /** The text the printer should give: "::" for the first run of at least two zero groups. */
  function FirstRunText(g: Groups): string {
    var s := RunStart(g);
    if s == 8 then Colons(g) else Compressed(g, s, RunEnd(g, s))
  }

  /**
    The addresses the printer gets wrong: the first run of two or more zero groups reaches the last group without
    being the whole address, so no later group comes to write the pending "::".
   */
  ghost predicate DropsTail(g: Groups) {
    exists s: nat :: TailRun(g, s)
  }

  ghost predicate TailRun(g: Groups, s: nat) {
    1 <= s <= 6 && Zeros(g, s, 8) && g[s - 1] != 0 && forall k: nat :: k < s ==> !PairAt(g, k)
  }

  /** The text the printer does give. */
  ghost function PrintedText(g: Groups): string {
    if DropsTail(g) then Colons(g[..RunStart(g)]) else FirstRunText(g)
  }

  /** The RFC 5952 section 4.2 choice of run: at least two groups, none longer, and the first among equals. */
  ghost predicate Chosen(g: Groups, s: nat, e: nat) {
    && ZeroRun(g, s, e) && e - s >= 2
    && forall s': nat, e': nat :: ZeroRun(g, s', e') ==> e' - s' < e - s || (e' - s' == e - s && s <= s')
  }

  /** RFC 5952 section 4: the one canonical text of an IPv6 address. */
  ghost predicate Rfc5952(g: Groups, text: string) {
    if exists k: nat :: PairAt(g, k) then exists s: nat, e: nat :: Chosen(g, s, e) && text == Compressed(g, s, e)
    else text == Colons(g)
  }

  function PortText(port: Port, includePort: bool): string {
    if includePort then ":" + Numeral(port, 10) else ""
  }

  function OctetParts(bytes: seq<Byte>): seq<string> {
    seq(|bytes|, i requires 0 <= i < |bytes| => Numeral(bytes[i], 10))
  }

  /** The host part: as the source prints it, or with a zero run that is pending after the loop written out. */
  ghost function HostText(a: Address, flushPending: bool): string
    requires !a.Unset?
  {
    if a.V4? then Join(OctetParts(a.bytes), '.') else "[" + V6Text(GroupsOf(a.bytes), flushPending) + "]"
  }

  ghost function V6Text(g: Groups, flushPending: bool): string {
    if flushPending then FirstRunText(g) else PrintedText(g)
  }

  /** What ToURI leaves in the caller's buffer. */
  ghost function Authority(a: Address, includePort: bool): string
    requires !a.Unset?
  {
    HostText(a, false) + PortText(a.port, includePort)
  }

  /** What it leaves there once the pending "::" is written after the loop. */
  ghost function RepairedAuthority(a: Address, includePort: bool): string
    requires !a.Unset?
  {
    HostText(a, true) + PortText(a.port, includePort)
  }

  /** The dropped case in terms of the run the loop meets first. */
  lemma DropsTailIsRun(g: Groups)
    ensures DropsTail(g) <==> 0 < RunStart(g) < 8 && RunEnd(g, RunStart(g)) == 8
  {
    var s := RunStart(g);
    if 0 < s < 8 && RunEnd(g, s) == 8 {
      assert TailRun(g, s);
    }
    if DropsTail(g) {
      var t: nat :| TailRun(g, t);
      assert PairAt(g, t);
    }
  }
}
