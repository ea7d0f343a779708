/**
  A strict reader of host and port texts, written from RFC 3986 sections 3.2.2 and 3.2.3 and RFC 4291 section 2.2 and
  knowing nothing of the printer. Absence of a result means the text is not in the grammar.
 */
module AuthorityReader {
  import opened Text
  import opened Wrappers

  /** An address as its bytes, four or sixteen of them, and the port when the text gives one. */
  datatype Endpoint = Endpoint(bytes: seq<nat>, port: Option<nat>)

  function ReadAll(parts: seq<string>, read: string -> Option<nat>): Option<seq<nat>> {
    if |parts| == 0 then Some([])
    else
      var first, rest := read(parts[0]), ReadAll(parts[1..], read);
      if first.Some? && rest.Some? then Some([first.value] + rest.value) else None
  }

  // ---------- IPv4 ----------

  /** dec-octet: a number below 256 without leading zeros. */
  function ReadOctet(s: string): Option<nat> {
    if Canonical(s, 10) && Value(s, 10) < 256 then Some(Value(s, 10)) else None
  }

  function ReadV4(s: string): Option<seq<nat>> {
    var octets := ReadAll(Split(s, '.'), ReadOctet);
    if octets.Some? && |octets.value| == 4 then octets else None
  }

  // ---------- IPv6 ----------

  /** h16: one to four hexadecimal digits of either case. */
  function ReadH16(s: string): Option<nat> {
    if 1 <= |s| <= 4 && AllDigits(s, 16) then Some(Value(s, 16)) else None
  }

  /** Groups separated by single colons; none at all when the text is empty. */
  function ReadGroups(s: string): Option<seq<nat>> {
    if s == "" then Some([]) else ReadAll(Split(s, ':'), ReadH16)
  }

  function ZeroGroups(n: nat): seq<nat> {
    seq(n, _ => 0)
  }

  /** Either eight groups, or at most seven around one "::" that stands for the missing ones. */
  function ReadV6(s: string): Option<seq<nat>> {
    var k := FindDouble(s, ':');
    if k == |s| then
      var g := ReadGroups(s);
      if g.Some? && |g.value| == 8 then g else None
    else
      Around(ReadGroups(s[..k]), ReadGroups(s[k + 2..]))
  }

  /** The groups on either side of "::" with the zeros it stands for, of which there is at least one. */
  function Around(left: Option<seq<nat>>, right: Option<seq<nat>>): Option<seq<nat>> {
    if left.Some? && right.Some? && |left.value| + |right.value| <= 7
    then Some(left.value + ZeroGroups(8 - |left.value| - |right.value|) + right.value)
    else None
  }

  /** A lenient reading that also takes a text of fewer than eight groups and no "::", supplying zeros at its end. */
  function ReadV6Padded(s: string): Option<seq<nat>> {
    var g := ReadGroups(s);
    if FindDouble(s, ':') == |s| && g.Some? && |g.value| < 8
    then Some(g.value + ZeroGroups(8 - |g.value|))
    else ReadV6(s)
  }

  function BytesOf(g: seq<nat>): seq<nat> {
    seq(2 * |g|, i requires 0 <= i < 2 * |g| => if i % 2 == 0 then g[i / 2] / 256 else g[i / 2] % 256)
  }

  // ---------- authority ----------

  /** What follows the host: nothing, or a colon and decimal digits (possibly none). */
  function ReadPort(s: string): Option<Option<nat>> {
    if s == "" then Some(None)
    else if s[0] == ':' && AllDigits(s[1..], 10) then Some(if s == ":" then None else Some(Value(s[1..], 10)))
    else None
  }

  function ReadAuthority(s: string, readV6: string -> Option<seq<nat>>): Option<Endpoint> {
    var literal := s != "" && s[0] == '[';
    var k := Find(s, if literal then ']' else ':');
    if literal && k == |s| then None
    else
      var g := if literal && 0 < k then readV6(s[1..k]) else None;
      var bytes := if literal then (if g.Some? then Some(BytesOf(g.value)) else None) else ReadV4(s[..k]);
      var port := ReadPort(s[if literal then k + 1 else k..]);
      if bytes.Some? && port.Some? then Some(Endpoint(bytes.value, port.value)) else None
  }

  /** The strict reader. */
  function Read(s: string): Option<Endpoint> {
    ReadAuthority(s, ReadV6)
  }

  /** The lenient reader. */
  function ReadPadded(s: string): Option<Endpoint> {
    ReadAuthority(s, ReadV6Padded)
  }
}
