/** What a reader gets back from the printed text, and when the text is the canonical one. */
module AuthorityTheorems {
  import opened Text
  import opened Addresses
  import opened AuthorityText
  import opened AuthorityReader
  import opened Wrappers

  // ---------- parts ----------

  lemma PartsAreH16(g: seq<Group>)
    ensures forall i :: 0 <= i < |g| ==> ReadH16(Parts(g)[i]) == Some(g[i])
    ensures forall i :: 0 <= i < |g| ==> Free(Parts(g)[i], ':') && Free(Parts(g)[i], ']')
  {
    forall i | 0 <= i < |g|
      ensures ReadH16(Parts(g)[i]) == Some(g[i]) && Free(Parts(g)[i], ':') && Free(Parts(g)[i], ']')
    {
      NumeralReadsBack(g[i], 16);
      NumeralLength(g[i], 16);
    }
  }

  lemma {:induction false} ReadAllParts(parts: seq<string>, read: string -> Option<nat>, values: seq<nat>)
    requires |parts| == |values| && forall i :: 0 <= i < |parts| ==> read(parts[i]) == Some(values[i])
    ensures ReadAll(parts, read) == Some(values)
  {
    if |parts| > 0 {
      ReadAllParts(parts[1..], read, values[1..]);
      assert values == [values[0]] + values[1..];
    }
  }

  /** Colon-separated groups are read back, and hold neither "::" nor "]". */
  lemma ColonsReadBack(g: seq<Group>)
    ensures ReadGroups(Colons(g)) == Some(g)
    ensures NoDouble(Colons(g), ':') && Free(Colons(g), ']')
    ensures |g| > 0 ==> Colons(g) != "" && Colons(g)[0] != ':' && Colons(g)[|Colons(g)| - 1] != ':'
  {
    PartsAreH16(g);
    JoinFree(Parts(g), ':', ']');
    if |g| > 0 {
      SplitJoin(Parts(g), ':');
      ReadAllParts(Parts(g), ReadH16, g);
      JoinEnds(Parts(g), ':');
    }
  }

  lemma {:induction false} JoinEnds(parts: seq<string>, sep: char)
    requires |parts| > 0 && forall i :: 0 <= i < |parts| ==> parts[i] != "" && Free(parts[i], sep)
    ensures var s := Join(parts, sep); s != "" && s[0] != sep && s[|s| - 1] != sep && NoDouble(s, sep)
  {
    if |parts| > 1 {
      JoinEnds(parts[..|parts| - 1], sep);
    }
  }

  // ---------- IPv6 hosts ----------

  /** A compressed text splits at its only "::" into the groups on either side. */
  lemma CompressedSplits(g: Groups, s: nat, e: nat)
    requires s <= e <= 8
    ensures var t := Compressed(g, s, e);
            var k := FindDouble(t, ':');
            && k < |t| && Free(t, ']')
            && ReadGroups(t[..k]) == Some(g[..s]) && ReadGroups(t[k + 2..]) == Some(g[e..])
  {
    var left, right := Colons(g[..s]), Colons(g[e..]);
    var t := Compressed(g, s, e);
    ColonsReadBack(g[..s]);
    ColonsReadBack(g[e..]);
    var k := FindDouble(t, ':');
    DoubleAt(left, right);
    assert t[..k] == left && t[k + 2..] == right;
  }

  lemma DoubleAt(left: string, right: string)
    requires NoDouble(left, ':') && (left != "" ==> left[|left| - 1] != ':')
    ensures FindDouble(left + "::" + right, ':') == |left|
  {
    var t := left + "::" + right;
    assert t[|left|] == ':' && t[|left| + 1] == ':';
    assert forall i :: 0 <= i < |left| ==> t[i] == left[i];
  }

  /** Any zero run may be compressed: the reader restores exactly the groups left out. */
  lemma CompressedReadsBack(g: Groups, s: nat, e: nat)
    requires s < e && Zeros(g, s, e)
    ensures ReadV6Padded(Compressed(g, s, e)) == ReadV6(Compressed(g, s, e)) == Some(g)
  {
    CompressedSplits(g, s, e);
    RunRestored(g, s, e);
  }

  lemma RunRestored(g: Groups, s: nat, e: nat)
    requires s < e && Zeros(g, s, e)
    ensures Around(Some(g[..s]), Some(g[e..])) == Some(g)
  {
    assert g == g[..s] + ZeroGroups(e - s) + g[e..];
  }

  /** A text without "::" is read only when it has eight groups; leniently, the missing ones are zeros at the end. */
  lemma ColonsRead(g: Groups, n: nat)
    requires 0 < n && Zeros(g, n, 8)
    ensures ReadV6(Colons(g[..n])) == if n == 8 then Some(g) else None
    ensures ReadV6Padded(Colons(g[..n])) == Some(g)
  {
    ColonsReadBack(g[..n]);
    var t := Colons(g[..n]);
    assert FindDouble(t, ':') == |t|;
    assert g == g[..n] + ZeroGroups(8 - n);
    assert n == 8 ==> g[..n] == g;
  }

  /** The repaired text is read back for every address. */
  lemma FirstRunReadsBack(g: Groups)
    ensures ReadV6(FirstRunText(g)) == Some(g) && ReadV6Padded(FirstRunText(g)) == Some(g)
    ensures Free(FirstRunText(g), ']')
  {
    var s := RunStart(g);
    if s == 8 {
      ColonsRead(g, 8);
      ColonsReadBack(g);
      assert g[..8] == g;
    } else {
      assert g[s] == 0;
      CompressedReadsBack(g, s, RunEnd(g, s));
      CompressedSplits(g, s, RunEnd(g, s));
    }
  }

  /** The printed text is read back, or not readable at all, according to whether the tail was dropped. */
  lemma PrintedReadsBack(g: Groups)
    ensures ReadV6(PrintedText(g)) == if DropsTail(g) then None else Some(g)
    ensures ReadV6Padded(PrintedText(g)) == Some(g)
    ensures Free(PrintedText(g), ']')
  {
    FirstRunReadsBack(g);
    DropsTailIsRun(g);
    if DropsTail(g) {
      ColonsRead(g, RunStart(g));
      ColonsReadBack(g[..RunStart(g)]);
    }
  }

  // ---------- whole authorities ----------

  lemma PortReadsBack(port: Port, includePort: bool)
    ensures ReadPort(PortText(port, includePort)) == Some(if includePort then Some(port) else None)
  {
    NumeralReadsBack(port, 10);
    if includePort {
      assert PortText(port, true)[1..] == Numeral(port, 10);
    }
  }

  lemma LiteralReads(host: string, port: string, readV6: string -> Option<seq<nat>>)
    requires Free(host, ']') && ReadPort(port).Some?
    ensures var g := readV6(host);
            ReadAuthority("[" + host + "]" + port, readV6)
            == if g.Some? then Some(Endpoint(BytesOf(g.value), ReadPort(port).value)) else None
  {
    var t := "[" + host + "]" + port;
    var k := Find(t, ']');
    assert t[|host| + 1] == ']' && forall i :: 0 < i <= |host| ==> t[i] == host[i - 1];
    assert t[1..k] == host && t[k + 1..] == port;
  }

  lemma DottedReads(bytes: seq<Byte>, port: string, readV6: string -> Option<seq<nat>>)
    requires |bytes| == 4 && ReadPort(port).Some?
    ensures ReadAuthority(Join(OctetParts(bytes), '.') + port, readV6) == Some(Endpoint(bytes, ReadPort(port).value))
  {
    var host := Join(OctetParts(bytes), '.');
    var t := host + port;
    DottedHost(bytes);
    assert forall i :: 0 <= i < |t| ==> t[i] == if i < |host| then host[i] else port[i - |host|];
    var k := Find(t, ':');
    assert t[0] == host[0] && (port != "" ==> t[|host|] == port[0] == ':');
    assert t[..k] == host && t[k..] == port;
  }

  lemma DottedHost(bytes: seq<Byte>)
    requires |bytes| == 4
    ensures var host := Join(OctetParts(bytes), '.');
            ReadV4(host) == Some(bytes) && Free(host, ':') && host != "" && host[0] != '['
  {
    var parts := OctetParts(bytes);
    forall i | 0 <= i < 4
      ensures ReadOctet(parts[i]) == Some(bytes[i]) && Free(parts[i], '.') && Free(parts[i], ':') && Free(parts[i], '[')
    {
      NumeralReadsBack(bytes[i], 10);
      NumeralCanonical(bytes[i], 10);
    }
    JoinFree(parts, '.', ':');
    JoinFree(parts, '.', '[');
    SplitJoin(parts, '.');
    ReadAllParts(parts, ReadOctet, bytes);
    assert |Split("", '.')| == 1;
  }

  lemma GroupsBytes(bytes: seq<Byte>)
    requires |bytes| == 16
    ensures BytesOf(GroupsOf(bytes)) == bytes
  {
    var g: seq<nat> := GroupsOf(bytes);
    forall i | 0 <= i < 16
      ensures BytesOf(g)[i] == bytes[i]
    {
      var high: nat := bytes[i / 2 * 2];
      assert g[i / 2] == high * 256 + bytes[i / 2 * 2 + 1];
    }
  }

  /** What the printed text was meant to say. */
  function EndpointOf(a: Address, includePort: bool): Endpoint
    requires !a.Unset?
  {
    Endpoint(a.bytes, if includePort then Some(a.port) else None)
  }

  /** The addresses whose printed text loses its tail. */
  ghost predicate Truncated(a: Address) {
    a.V6? && DropsTail(GroupsOf(a.bytes))
  }

  /**
    Strict round trip: the text of every IPv4 address and of every IPv6 address outside the dropped-tail case reads
    back as the same bytes and port; in the dropped-tail case it is not an authority at all, so it is never misread.
   */
  lemma RoundTrip(a: Address, includePort: bool)
    requires !a.Unset?
    ensures Read(Authority(a, includePort)) == if Truncated(a) then None else Some(EndpointOf(a, includePort))
  {
    PortReadsBack(a.port, includePort);
    var port := PortText(a.port, includePort);
    if a.V4? {
      DottedReads(a.bytes, port, ReadV6);
    } else {
      PrintedReadsBack(GroupsOf(a.bytes));
      LiteralReads(PrintedText(GroupsOf(a.bytes)), port, ReadV6);
      GroupsBytes(a.bytes);
    }
  }

  /** The address text survives exactly when nothing was dropped. */
  lemma RoundTripIff(a: Address, includePort: bool)
    requires !a.Unset?
    ensures Read(Authority(a, includePort)) == Some(EndpointOf(a, includePort)) <==> !Truncated(a)
  {
    RoundTrip(a, includePort);
  }

  /** With the pending run flushed, every address of either family reads back. */
  lemma RepairedRoundTrip(a: Address, includePort: bool)
    requires !a.Unset?
    ensures Read(RepairedAuthority(a, includePort)) == Some(EndpointOf(a, includePort))
    ensures RepairedAuthority(a, includePort) == Authority(a, includePort) <==> !Truncated(a)
  {
    RoundTrip(a, includePort);
    if a.V6? {
      PortReadsBack(a.port, includePort);
      FirstRunReadsBack(GroupsOf(a.bytes));
      LiteralReads(FirstRunText(GroupsOf(a.bytes)), PortText(a.port, includePort), ReadV6);
      GroupsBytes(a.bytes);
    }
  }

  /** A reader that supplies missing zeros at the end recovers every printed address, the truncated ones included. */
  lemma PaddedRoundTrip(a: Address, includePort: bool)
    requires !a.Unset?
    ensures ReadPadded(Authority(a, includePort)) == Some(EndpointOf(a, includePort))
  {
    PortReadsBack(a.port, includePort);
    var port := PortText(a.port, includePort);
    if a.V4? {
      DottedReads(a.bytes, port, ReadV6Padded);
    } else {
      PrintedReadsBack(GroupsOf(a.bytes));
      LiteralReads(PrintedText(GroupsOf(a.bytes)), port, ReadV6Padded);
      GroupsBytes(a.bytes);
    }
  }

  /** Printing loses nothing that operator== looks at, and nothing but the port when the port is left out. */
  lemma PrintingIsInjective(a: Address, b: Address)
    requires !a.Unset? && !b.Unset?
    ensures Authority(a, true) == Authority(b, true) <==> a.Equals(b)
    ensures Authority(a, false) == Authority(b, false) <==> a.GetFamily() == b.GetFamily() && a.bytes == b.bytes
  {
    PaddedRoundTrip(a, true);
    PaddedRoundTrip(b, true);
    PaddedRoundTrip(a, false);
    PaddedRoundTrip(b, false);
  }

  /** The address fe80:: as a concrete casualty: it prints as [fe80], which no reader of the grammar accepts. */
  lemma TruncatedExample(a: Address)
    requires a.V6? && a.bytes == [0xfe, 0x80, 0, 0, 0, 0, 0, 0, 0, 0, 0, 0, 0, 0, 0, 0]
    ensures Truncated(a) && HostText(a, false) == "[" + "fe80" + "]" && Read(HostText(a, false)) == None
    ensures RepairedAuthority(a, false) == "[" + "fe80::" + "]"
  {
    FirstRunAt1(a.bytes);
    NumeralExample();
    TruncatedTexts(GroupsOf(a.bytes));
    RoundTrip(a, false);
    assert RepairedAuthority(a, false) == "[" + FirstRunText(GroupsOf(a.bytes)) + "]";
    assert Authority(a, false) == HostText(a, false);
  }

  lemma TruncatedTexts(g: Groups)
    requires g[0] == 0xfe80 && RunStart(g) == 1 && RunEnd(g, 1) == 8 && DropsTail(g) && Numeral(0xfe80, 16) == "fe80"
    ensures PrintedText(g) == "fe80" && FirstRunText(g) == "fe80::"
  {
    assert Parts(g[..1]) == [Numeral(0xfe80, 16)];
    assert Parts(g[8..]) == [];
  }

  lemma FirstRunAt1(bytes: seq<Byte>)
    requires bytes == [0xfe, 0x80, 0, 0, 0, 0, 0, 0, 0, 0, 0, 0, 0, 0, 0, 0]
    ensures var g := GroupsOf(bytes); g[0] == 0xfe80 && DropsTail(g) && RunStart(g) == 1 && RunEnd(g, 1) == 8
  {
    var g := GroupsOf(bytes);
    assert PairAt(g, 1);
    assert !PairAt(g, 0) && TailRun(g, 1);
  }

  lemma NumeralExample()
    ensures Numeral(0xfe80, 16) == "fe80"
  {
    NumeralStep(0xf, 0xe, 16);
    NumeralStep(0xfe, 8, 16);
    NumeralStep(0xfe8, 0, 16);
  }

  /** The frame of every text: dots between octets, brackets around an IPv6 host, and a colon before the port. */
  lemma AuthorityInFull(a: Address, includePort: bool)
    requires !a.Unset?
    ensures var port := if includePort then ":" + Numeral(a.port, 10) else "";
            Authority(a, includePort)
            == if a.V4? then
                 Numeral(a.bytes[0], 10) + "." + Numeral(a.bytes[1], 10) + "." + Numeral(a.bytes[2], 10) + "."
                 + Numeral(a.bytes[3], 10) + port
               else "[" + PrintedText(GroupsOf(a.bytes)) + "]" + port
  {
    if a.V4? {
      JoinFour(OctetParts(a.bytes), '.');
    }
  }

  lemma JoinFour(parts: seq<string>, sep: char)
    requires |parts| == 4
    ensures Join(parts, sep) == parts[0] + [sep] + parts[1] + [sep] + parts[2] + [sep] + parts[3]
  {
    var three, two := parts[..3], parts[..2];
    assert three[..2] == two && two[..1] == parts[..1];
    assert Join(two[..1], sep) == parts[0];
    assert Join(two, sep) == parts[0] + [sep] + parts[1];
    assert Join(three, sep) == parts[0] + [sep] + parts[1] + [sep] + parts[2];
  }

  /** The loopback address with port 80. */
  lemma LoopbackExample(a: Address)
    requires a == V4([127, 0, 0, 1], 80)
    ensures Authority(a, true) == "127.0.0.1:80"
  {
    AuthorityInFull(a, true);
    LoopbackNumerals();
    assert "127" + "." + "0" + "." + "0" + "." + "1" + (":" + "80") == "127.0.0.1:80";
  }

  lemma LoopbackNumerals()
    ensures Numeral(127, 10) == "127" && Numeral(0, 10) == "0" && Numeral(1, 10) == "1" && Numeral(80, 10) == "80"
  {
    NumeralStep(1, 2, 10);
    NumeralStep(12, 7, 10);
    NumeralStep(8, 0, 10);
  }

  // ---------- the text in the buffer ----------

  /** No text contains the terminator, so the C string in the buffer is the whole of it. */
  lemma NoNul(a: Address, includePort: bool, flushPending: bool)
    requires !a.Unset?
    ensures Free(HostText(a, flushPending) + PortText(a.port, includePort), '\0')
  {
    HostNoNul(a, flushPending);
    PortNoNul(a.port, includePort);
    FreeConcat(HostText(a, flushPending), PortText(a.port, includePort), '\0');
  }

  lemma FreeConcat(a: string, b: string, c: char)
    requires Free(a, c) && Free(b, c)
    ensures Free(a + b, c)
  {
  }

  lemma PortNoNul(port: Port, includePort: bool)
    ensures Free(PortText(port, includePort), '\0')
  {
    NumeralReadsBack(port, 10);
    FreeConcat(":", Numeral(port, 10), '\0');
  }

  lemma HostNoNul(a: Address, flushPending: bool)
    requires !a.Unset?
    ensures Free(HostText(a, flushPending), '\0')
  {
    if a.V4? {
      OctetsNoNul(a.bytes);
    } else {
      var t := V6Text(GroupsOf(a.bytes), flushPending);
      V6NoNul(GroupsOf(a.bytes), flushPending);
      FreeConcat("[", t, '\0');
      FreeConcat("[" + t, "]", '\0');
    }
  }

  lemma OctetsNoNul(bytes: seq<Byte>)
    ensures Free(Join(OctetParts(bytes), '.'), '\0')
  {
    forall i | 0 <= i < |bytes| ensures Free(OctetParts(bytes)[i], '\0') { NumeralReadsBack(bytes[i], 10); }
    JoinFree(OctetParts(bytes), '.', '\0');
  }

  lemma V6NoNul(g: Groups, flushPending: bool)
    ensures Free(V6Text(g, flushPending), '\0')
  {
    var s := RunStart(g);
    ColonsNoNul(g);
    ColonsNoNul(g[..s]);
    if s < 8 { ColonsNoNul(g[RunEnd(g, s)..]); }
  }

  lemma ColonsNoNul(g: seq<Group>)
    ensures Free(Colons(g), '\0')
  {
    forall i | 0 <= i < |g| ensures Free(Parts(g)[i], '\0') { NumeralReadsBack(g[i], 16); }
    JoinFree(Parts(g), ':', '\0');
  }

  /** Text and terminator take at most 22 bytes for IPv4 and 48 for IPv6 of the 64 in a String. */
  lemma AuthorityFits(a: Address, includePort: bool)
    requires !a.Unset?
    ensures |Authority(a, includePort)| + 1 <= if a.V4? then 22 else 48
    ensures |RepairedAuthority(a, includePort)| + 1 <= if a.V4? then 22 else 48
  {
    NumeralLength(a.port, 10);
    if a.V4? {
      forall i | 0 <= i < 4 ensures |OctetParts(a.bytes)[i]| <= 3 { NumeralLength(a.bytes[i], 10); }
      JoinLength(OctetParts(a.bytes), '.', 3);
    } else {
      var g := GroupsOf(a.bytes);
      var s := RunStart(g);
      ColonsLength(g);
      ColonsLength(g[..s]);
      if s < 8 { ColonsLength(g[RunEnd(g, s)..]); }
      DropsTailIsRun(g);
    }
  }

  lemma ColonsLength(g: seq<Group>)
    ensures |Colons(g)| <= if |g| == 0 then 0 else 5 * |g| - 1
  {
    forall i | 0 <= i < |g| ensures |Parts(g)[i]| <= 4 { NumeralLength(g[i], 16); }
    JoinLength(Parts(g), ':', 4);
  }

  // ---------- the canonical form ----------

  lemma FirstRunIsRun(g: Groups)
    requires RunStart(g) < 8
    ensures ZeroRun(g, RunStart(g), RunEnd(g, RunStart(g))) && RunEnd(g, RunStart(g)) - RunStart(g) >= 2
  {
    assert PairAt(g, RunStart(g));
  }

  /** Compressing two different runs gives two different texts. */
  lemma CompressedDiffers(g: Groups, s: nat, e: nat, s': nat, e': nat)
    requires s <= e <= 8 && s' <= e' <= 8 && Compressed(g, s, e) == Compressed(g, s', e')
    ensures s == s' && e == e'
  {
    CompressedSplits(g, s, e);
    CompressedSplits(g, s', e');
    assert |g[..s]| == |g[..s']| && |g[e..]| == |g[e'..]|;
  }

  lemma NotCompressed(g: Groups, n: nat, s: nat, e: nat)
    requires s <= e <= 8 && 0 < n <= 8
    ensures Colons(g[..n]) != Compressed(g, s, e)
  {
    ColonsReadBack(g[..n]);
    CompressedSplits(g, s, e);
    var t := Compressed(g, s, e);
    var k := FindDouble(t, ':');
    assert t[k] == ':' && t[k + 1] == ':';
  }

  /** The first run of at least two zero groups is as long as any. */
  ghost predicate FirstRunLongest(g: Groups) {
    RunStart(g) < 8
    ==> forall s: nat, e: nat :: ZeroRun(g, s, e) ==> e - s <= RunEnd(g, RunStart(g)) - RunStart(g)
  }

  /** The text is the RFC 5952 one exactly when the first run is a longest one and was not dropped. */
  lemma CanonicalIff(g: Groups)
    ensures Rfc5952(g, PrintedText(g)) <==> FirstRunLongest(g) && !DropsTail(g)
    ensures Rfc5952(g, FirstRunText(g)) <==> FirstRunLongest(g)
  {
    var s := RunStart(g);
    var e := RunEnd(g, s);
    DropsTailIsRun(g);
    if s == 8 {
    } else {
      FirstRunIsRun(g);
      assert PairAt(g, s);
      if FirstRunLongest(g) {
        FirstRunFirst(g);
        assert Chosen(g, s, e);
      }
      if Rfc5952(g, FirstRunText(g)) {
        var s': nat, e': nat :| Chosen(g, s', e') && FirstRunText(g) == Compressed(g, s', e');
        CompressedDiffers(g, s, e, s', e');
      }
      if Rfc5952(g, PrintedText(g)) {
        var s': nat, e': nat :| Chosen(g, s', e') && PrintedText(g) == Compressed(g, s', e');
        if DropsTail(g) { NotCompressed(g, s, s', e'); }
      }
    }
  }

  lemma ExampleTexts(g: Groups)
    requires g == [1, 0, 0, 2, 0, 0, 0, 3]
    ensures Compressed(g, 1, 3) == "1::2:0:0:0:3" && Compressed(g, 4, 7) == "1:0:0:2::3"
  {
    JoinFive(Parts(g[3..]), ':');
    JoinFour(Parts(g[..4]), ':');
    assert Numeral(0, 16) == "0" && Numeral(1, 16) == "1" && Numeral(2, 16) == "2" && Numeral(3, 16) == "3";
    assert Colons(g[..1]) == "1" && Colons(g[7..]) == "3";
    assert Colons(g[3..]) == "2:0:0:0:3" && Colons(g[..4]) == "1:0:0:2";
  }

  lemma JoinFive(parts: seq<string>, sep: char)
    requires |parts| == 5
    ensures Join(parts, sep)
         == parts[0] + [sep] + parts[1] + [sep] + parts[2] + [sep] + parts[3] + [sep] + parts[4]
  {
    JoinFour(parts[..4], sep);
  }

  /** The first run of this address is shorter than its second, so the text has "::" in the wrong place. */
  lemma NotCanonicalExample(g: Groups)
    requires g == [1, 0, 0, 2, 0, 0, 0, 3]
    ensures !FirstRunLongest(g) && !DropsTail(g) && !Rfc5952(g, PrintedText(g))
    ensures PrintedText(g) == Compressed(g, 1, 3) == "1::2:0:0:0:3"
    ensures Compressed(g, 4, 7) == "1:0:0:2::3" && Rfc5952(g, Compressed(g, 4, 7))
  {
    ExampleTexts(g);
    assert PairAt(g, 1) && !PairAt(g, 0);
    assert ZeroRun(g, 1, 3) && ZeroRun(g, 4, 7);
    RunEndUnique(g, 1, 3);
    CanonicalIff(g);
    DropsTailIsRun(g);
    assert forall s: nat, e: nat :: ZeroRun(g, s, e) ==> s == 1 || s == 4;
    assert Chosen(g, 4, 7);
  }

  lemma FirstRunFirst(g: Groups)
    requires RunStart(g) < 8
    ensures forall s: nat, e: nat :: ZeroRun(g, s, e) && e - s >= 2 ==> RunStart(g) <= s
  {
    forall s: nat, e: nat | ZeroRun(g, s, e) && e - s >= 2
      ensures RunStart(g) <= s
    {
      assert PairAt(g, s);
    }
  }

  /** RFC 5952 gives every address exactly one text. */
  lemma CanonicalUnique(g: Groups, t: string, t': string)
    requires Rfc5952(g, t) && Rfc5952(g, t')
    ensures t == t'
  {
    if exists k: nat :: PairAt(g, k) {
      var s: nat, e: nat :| Chosen(g, s, e) && t == Compressed(g, s, e);
      var s': nat, e': nat :| Chosen(g, s', e') && t' == Compressed(g, s', e');
      ChosenUnique(g, s, e, s', e');
    }
  }

  lemma ChosenUnique(g: Groups, s: nat, e: nat, s': nat, e': nat)
    requires Chosen(g, s, e) && Chosen(g, s', e')
    ensures s == s' && e == e'
  {
    assert ZeroRun(g, s, e) && ZeroRun(g, s', e');
  }

  /** RFC 5952 gives every address a text: scanning from the left for a longest run finds its choice. */
  lemma CanonicalExists(g: Groups) returns (text: string)
    ensures Rfc5952(g, text)
  {
    if RunStart(g) == 8 {
      text := Colons(g);
    } else {
      FirstRunIsRun(g);
      var found, s, e := LongestRun(g, 8);
      assert Chosen(g, s, e) && PairAt(g, s);
      text := Compressed(g, s, e);
    }
  }

  /** No run starting before n is longer, or as long and further left. */
  ghost predicate Beats(g: Groups, n: nat, s: nat, e: nat) {
    forall s': nat, e': nat :: ZeroRun(g, s', e') && s' < n ==> e' - s' < e - s || (e' - s' == e - s && s <= s')
  }

  lemma {:induction false} LongestRun(g: Groups, n: nat) returns (found: bool, s: nat, e: nat)
    requires n <= 8
    ensures if found then ZeroRun(g, s, e) && s < n else s == e
    ensures Beats(g, n, s, e)
  {
    if n == 0 {
      found, s, e := false, 0, 0;
    } else {
      var m: nat := n - 1;
      found, s, e := LongestRun(g, m);
      var end := RunEnd(g, m);
      forall s': nat, e': nat | ZeroRun(g, s', e') && s' == m
        ensures e' == end
      {
        RunEndUnique(g, m, e');
      }
      if ZeroRun(g, m, end) && e - s < end - m {
        found, s, e := true, m, end;
      }
    }
  }

  lemma RunEndUnique(g: Groups, s: nat, e: nat)
    requires ZeroRun(g, s, e)
    ensures e == RunEnd(g, s)
  {
  }
}
