/** ToURI as written: a cursor moving through the caller's 64-byte buffer. */
module AuthorityPrinter {
  import opened Text
  import opened Addresses
  import opened AuthorityText
  import opened AuthorityReader
  import opened AuthorityTheorems
  import opened Wrappers

  const STRING_SIZE: nat := 64

  /** The buffer now holds text up to the cursor, and from there on what it held when ToURI was entered. */
  ghost predicate Wrote(now: seq<char>, was: seq<char>, pos: nat, text: string) {
    |now| == |was| && pos == |text| <= |was| && now == text + was[pos..]
  }

  /** `*buffer++ = c`. */
  method Put(buffer: array<char>, pos: nat, c: char, ghost was: seq<char>, ghost text: string) returns (next: nat)
    requires Wrote(buffer[..], was, pos, text) && pos < buffer.Length
    modifies buffer
    ensures next == pos + 1 && Wrote(buffer[..], was, next, text + [c])
  {
    buffer[pos] := c;
    next := pos + 1;
  }

  // ---------- decimal ----------

  /**
    IP_ADDRESS_GET_DIGIT for one divisor: value holds the digits of n not yet handled and show whether any digit of
    n so far was nonzero.
   */
  method GetDigit(buffer: array<char>, pos: nat, value: nat, div: nat, show: bool,
                  ghost n: nat, ghost was: seq<char>, ghost text: string)
    returns (next: nat, rest: nat, shown: bool)
    requires div == 10 || div == 100 || div == 1000 || div == 10000
    requires value == n % (10 * div) && (show <==> n / (10 * div) != 0)
    requires Wrote(buffer[..], was, pos, text + Leading(n / (10 * div), 10)) && pos < buffer.Length
    modifies buffer
    ensures rest == n % div && (shown <==> n / div != 0)
    ensures next <= pos + 1 && Wrote(buffer[..], was, next, text + Leading(n / div, 10))
  {
    var digit := value / div;
    ghost var sofar := Leading(n / (10 * div), 10);
    DivStep(n, div);
    LeadingStep(n / (10 * div), digit, 10);
    rest := value % div;
    shown := show || digit != 0;
    next := pos;
    if shown {
      next := Put(buffer, next, ('0' as int + digit) as char, was, text + sofar);
      assert text + sofar + [DigitChar(digit)] == text + (sofar + [DigitChar(digit)]);
    }
  }

  lemma DivStep(n: nat, div: nat)
    requires div == 10 || div == 100 || div == 1000 || div == 10000
    ensures var value := n % (10 * div);
            0 <= value / div < 10 && n / div == n / (10 * div) * 10 + value / div && value % div == n % div
  {
    if div == 10 {
    } else if div == 100 {
    } else if div == 1000 {
    } else {
    }
  }

  /** The units digit, which is always written. */
  method PutUnits(buffer: array<char>, pos: nat, value: nat, ghost n: nat, ghost was: seq<char>, ghost text: string)
    returns (next: nat)
    requires value == n % 10 && Wrote(buffer[..], was, pos, text + Leading(n / 10, 10)) && pos < buffer.Length
    modifies buffer
    ensures Wrote(buffer[..], was, next, text + Numeral(n, 10))
  {
    ghost var sofar := Leading(n / 10, 10);
    LeadingStep(n / 10, value, 10);
    next := Put(buffer, pos, ('0' as int + value) as char, was, text + sofar);
    assert text + sofar + [DigitChar(value)] == text + (sofar + [DigitChar(value)]);
  }

  /** One IPv4 octet: hundreds and tens suppressed while zero, units always. */
  method PutOctet(buffer: array<char>, pos: nat, octet: Byte, ghost was: seq<char>, ghost text: string)
    returns (next: nat)
    requires Wrote(buffer[..], was, pos, text) && pos + 3 <= buffer.Length
    modifies buffer
    ensures Wrote(buffer[..], was, next, text + Numeral(octet, 10))
  {
    assert text + Leading(0, 10) == text;
    var value: nat, show := octet, false;
    next, value, show := GetDigit(buffer, pos, value, 100, show, octet, was, text);
    next, value, show := GetDigit(buffer, next, value, 10, show, octet, was, text);
    next := PutUnits(buffer, next, value, octet, was, text);
  }

  /** The port digits: four suppressed places, then the units. */
  method PutPort(buffer: array<char>, pos: nat, port: Port, ghost was: seq<char>, ghost text: string)
    returns (next: nat)
    requires Wrote(buffer[..], was, pos, text) && pos + 5 <= buffer.Length
    modifies buffer
    ensures Wrote(buffer[..], was, next, text + Numeral(port, 10))
  {
    assert text + Leading(0, 10) == text;
    var value: nat, show := port, false;
    next, value, show := GetDigit(buffer, pos, value, 10000, show, port, was, text);
    next, value, show := GetDigit(buffer, next, value, 1000, show, port, was, text);
    next, value, show := GetDigit(buffer, next, value, 100, show, port, was, text);
    next, value, show := GetDigit(buffer, next, value, 10, show, port, was, text);
    next := PutUnits(buffer, next, value, port, was, text);
  }

  // ---------- hexadecimal ----------

  /** A digit that is written or suppressed. */
  ghost function Shown(show: bool, d: nat): string
    requires d < 16
  {
    if show then [DigitChar(d)] else ""
  }

  /** The hex digits of one group from its two bytes a and b. */
  method PutGroup(buffer: array<char>, pos: nat, a: Byte, b: Byte, ghost was: seq<char>, ghost text: string)
    returns (next: nat)
    requires Wrote(buffer[..], was, pos, text) && pos + 4 <= buffer.Length
    modifies buffer
    ensures Wrote(buffer[..], was, next, text + Numeral(PairValue(a, b), 16))
  {
    HexSteps(a, b);
    ghost var t1 := text + Shown(a / 16 != 0, a / 16);
    ghost var t2 := t1 + Shown(a != 0, a % 16);
    ghost var t3 := t2 + Shown(a != 0 || b / 16 != 0, b / 16);
    next := PutIf(buffer, pos, a / 16 != 0, a / 16, was, text);
    next := PutIf(buffer, next, a != 0, a % 16, was, t1);
    next := PutIf(buffer, next, a != 0 || b / 16 != 0, b / 16, was, t2);
    next := Put(buffer, next, DigitChar(b % 16), was, t3);
    assert t3 + [DigitChar(b % 16)] == text + Numeral(PairValue(a, b), 16);
  }

  method PutIf(buffer: array<char>, pos: nat, show: bool, d: nat, ghost was: seq<char>, ghost text: string)
    returns (next: nat)
    requires d < 16 && Wrote(buffer[..], was, pos, text) && pos < buffer.Length
    modifies buffer
    ensures next <= pos + 1 && Wrote(buffer[..], was, next, text + Shown(show, d))
  {
    next := pos;
    if show {
      next := Put(buffer, next, DigitChar(d), was, text);
    } else {
      assert text + "" == text;
    }
  }

  /** The four tests of PutGroup show exactly the digits of the group's numeral. */
  lemma HexSteps(a: Byte, b: Byte)
    ensures Numeral(PairValue(a, b), 16)
         == Shown(a / 16 != 0, a / 16) + Shown(a != 0, a % 16) + Shown(a != 0 || b / 16 != 0, b / 16)
          + [DigitChar(b % 16)]
  {
    var high: nat := a;
    var top := high * 16 + b / 16;
    LeadingDigit(high / 16, 0, high / 16);
    LeadingDigit(high, high / 16, high % 16);
    LeadingDigit(top, high, b / 16);
    LeadingStep(top, b % 16, 16);
    assert PairValue(a, b) == top * 16 + b % 16;
  }

  lemma LeadingDigit(n: nat, q: nat, d: nat)
    requires d < 16 && n == q * 16 + d
    ensures Leading(n, 16) == Leading(q, 16) + Shown(n != 0, d)
    ensures n == 0 <==> q == 0 && d == 0
  {
    LeadingStep(q, d, 16);
  }

  // ---------- the two host loops ----------

  /** The dotted-quad loop. */
  method PutOctets(buffer: array<char>, bytes: seq<Byte>, ghost was: seq<char>) returns (next: nat)
    requires |bytes| == 4 && 15 <= buffer.Length && buffer[..] == was
    modifies buffer
    ensures next <= 15 && Wrote(buffer[..], was, next, Join(OctetParts(bytes), '.'))
  {
    next := 0;
    for i := 0 to 4
      invariant next <= if i == 0 then 0 else 4 * i - 1
      invariant Wrote(buffer[..], was, next, Join(OctetParts(bytes[..i]), '.'))
    {
      ghost var text := Join(OctetParts(bytes[..i]), '.');
      OctetsSnoc(bytes, i);
      NumeralLength(bytes[i], 10);
      if i != 0 {
        next := Put(buffer, next, '.', was, text);
        text := text + ".";
      } else {
        assert text + "" == text;
      }
      next := PutOctet(buffer, next, bytes[i], was, text);
    }
    assert bytes[..4] == bytes;
  }

  lemma OctetsSnoc(bytes: seq<Byte>, i: nat)
    requires i < |bytes|
    ensures Join(OctetParts(bytes[..i + 1]), '.')
         == Join(OctetParts(bytes[..i]), '.') + (if i == 0 then "" else ".") + Numeral(bytes[i], 10)
  {
    var parts := OctetParts(bytes[..i + 1]);
    assert parts[..i] == OctetParts(bytes[..i]);
  }

  /** What the group loop has written after i groups. */
  ghost function Partial(g: Groups, s: nat, e: nat, i: nat): string
    requires s <= e <= 8 && i <= 8
  {
    if i <= s then Colons(g[..i])
    else if i <= e then Colons(g[..s])
    else Compressed(g[..i], s, e)
  }

  /**
    The IPv6 group loop: returns the cursor and whether a zero run is still pending. The cursor stands where it
    started exactly when every group is zero.
   */
  method PutGroups(buffer: array<char>, bytes: seq<Byte>, ghost was: seq<char>, ghost s: nat, ghost e: nat)
    returns (next: nat, inZeros: bool)
    requires |bytes| == 16 && 40 <= buffer.Length && Wrote(buffer[..], was, 1, "[")
    requires StartsRun(GroupsOf(bytes), s) && EndsRun(GroupsOf(bytes), s, e)
    modifies buffer
    ensures next <= 40
    ensures inZeros <==> s < 8 && e == 8
    ensures Wrote(buffer[..], was, next, "[" + Partial(GroupsOf(bytes), s, e, 8))
    ensures next == 1 <==> s == 0 && e == 8
  {
    next := 1;
    var foundZeros := false;
    inZeros := false;
    ghost var g := GroupsOf(bytes);
    PartialStart(g, s, e);
    for i := 0 to 8
      invariant LoopState(s, e, i, next, inZeros, foundZeros)
      invariant Wrote(buffer[..], was, next, "[" + Partial(g, s, e, i))
    {
      var a, b, nextZero := BytesAt(bytes, i);
      next, inZeros, foundZeros := GroupStep(buffer, next, i, a, b, nextZero, inZeros, foundZeros, was, g, s, e);
    }
  }

  lemma PartialStart(g: Groups, s: nat, e: nat)
    requires s <= e <= 8
    ensures "[" + Partial(g, s, e, 0) == "["
  {
    assert g[..0] == [];
  }

  /** Where the cursor and the two flags stand after i groups, given where the first run stands. */
  predicate LoopState(s: nat, e: nat, i: nat, pos: nat, inZeros: bool, foundZeros: bool) {
    && 1 <= pos && (if i == 0 then pos == 1 else pos <= 5 * i)
    && (inZeros <==> s < i <= e) && (foundZeros <==> e < i)
    && (inZeros ==> pos <= 5 * i - 4)
    && (pos == 1 <==> i <= (if s == 0 then e else 0))
  }

  /** One turn of the group loop, for the bytes a and b; nextZero says whether a zero group follows. */
  method GroupStep(buffer: array<char>, pos: nat, i: nat, a: Byte, b: Byte, nextZero: bool,
                   inZeros: bool, foundZeros: bool, ghost was: seq<char>, ghost g: Groups, ghost s: nat, ghost e: nat)
    returns (next: nat, nowInZeros: bool, nowFoundZeros: bool)
    requires i < 8 && 40 <= buffer.Length && StartsRun(g, s) && EndsRun(g, s, e)
    requires g[i] == PairValue(a, b) && (g[i] == 0 <==> a == 0 && b == 0) && (nextZero <==> i < 7 && g[i + 1] == 0)
    requires LoopState(s, e, i, pos, inZeros, foundZeros)
    requires Wrote(buffer[..], was, pos, "[" + Partial(g, s, e, i))
    modifies buffer
    ensures LoopState(s, e, i + 1, next, nowInZeros, nowFoundZeros)
    ensures Wrote(buffer[..], was, next, "[" + Partial(g, s, e, i + 1))
  {
    next, nowInZeros, nowFoundZeros := pos, inZeros, foundZeros;
    GuardMeans(g, s, e, i, inZeros, foundZeros);
    if a == 0 && b == 0 && !foundZeros && (inZeros || nextZero) {
      nowInZeros := true;
      ZeroSkipped(g, s, e, i, pos, inZeros, foundZeros);
    } else {
      PartialStep(g, s, e, i);
      next := PutNext(buffer, next, i, inZeros, a, b, was, Partial(g, s, e, i));
      GroupWritten(s, e, i, pos, next, inZeros, foundZeros);
      if inZeros {
        nowInZeros := false;
        nowFoundZeros := true;
      }
    }
  }

  lemma ZeroSkipped(g: Groups, s: nat, e: nat, i: nat, pos: nat, inZeros: bool, foundZeros: bool)
    requires s <= i < e <= 8 && LoopState(s, e, i, pos, inZeros, foundZeros)
    ensures LoopState(s, e, i + 1, pos, true, foundZeros) && Partial(g, s, e, i + 1) == Partial(g, s, e, i)
  {
  }

  lemma GroupWritten(s: nat, e: nat, i: nat, pos: nat, next: nat, inZeros: bool, foundZeros: bool)
    requires s <= e <= 8 && i < 8 && !(s <= i < e) && LoopState(s, e, i, pos, inZeros, foundZeros)
    requires pos < next <= pos + 4 + (if i == 0 then 0 else 1) + (if inZeros then 1 else 0)
    requires s < e || s == 8
    ensures LoopState(s, e, i + 1, next, false, foundZeros || inZeros)
  {
  }

  /** The loop's guard: group i belongs to the first run of at least two zero groups. */
  lemma GuardMeans(g: Groups, s: nat, e: nat, i: nat, inZeros: bool, foundZeros: bool)
    requires i < 8 && StartsRun(g, s) && EndsRun(g, s, e)
    requires (inZeros <==> s < i <= e) && (foundZeros <==> e < i)
    ensures s <= i < e <==> g[i] == 0 && !foundZeros && (inZeros || (i < 7 && g[i + 1] == 0))
  {
    assert PairAt(g, i) ==> s <= i;
  }

  /** The bytes of group i, and whether a zero group follows it. */
  method BytesAt(bytes: seq<Byte>, i: nat) returns (a: Byte, b: Byte, nextZero: bool)
    requires |bytes| == 16 && i < 8
    ensures GroupsOf(bytes)[i] == PairValue(a, b) && (GroupsOf(bytes)[i] == 0 <==> a == 0 && b == 0)
    ensures nextZero <==> i < 7 && GroupsOf(bytes)[i + 1] == 0
  {
    a, b := bytes[2 * i], bytes[2 * i + 1];
    nextZero := i < 7 && bytes[2 * i + 2] == 0 && bytes[2 * i + 3] == 0;
  }

  ghost function WithColons(text: string, i: nat, inZeros: bool): string {
    if i == 0 then text else if inZeros then text + ":" + ":" else text + ":"
  }

  /** The else branch of the loop: the pending colon, the separating colon, and the digits of the group. */
  method PutNext(buffer: array<char>, pos: nat, i: nat, inZeros: bool, a: Byte, b: Byte,
                 ghost was: seq<char>, ghost text: string)
    returns (next: nat)
    requires inZeros ==> i != 0
    requires pos + 4 + (if i == 0 then 0 else 1) + (if inZeros then 1 else 0) <= buffer.Length
    requires Wrote(buffer[..], was, pos, "[" + text)
    modifies buffer
    ensures pos < next <= pos + 4 + (if i == 0 then 0 else 1) + (if inZeros then 1 else 0)
    ensures Wrote(buffer[..], was, next, "[" + (WithColons(text, i, inZeros) + Numeral(PairValue(a, b), 16)))
  {
    ghost var t := text;
    next := pos;
    if inZeros {
      next := PutColon(buffer, next, was, t);
      t := t + ":";
    }
    if i != 0 {
      next := PutColon(buffer, next, was, t);
      t := t + ":";
    }
    assert t == WithColons(text, i, inZeros);
    next := PutDigits(buffer, next, a, b, was, t);
  }

  method PutDigits(buffer: array<char>, pos: nat, a: Byte, b: Byte, ghost was: seq<char>, ghost text: string)
    returns (next: nat)
    requires Wrote(buffer[..], was, pos, "[" + text) && pos + 4 <= buffer.Length
    modifies buffer
    ensures pos < next <= pos + 4
    ensures Wrote(buffer[..], was, next, "[" + (text + Numeral(PairValue(a, b), 16)))
  {
    GroupDigits(PairValue(a, b));
    next := PutGroup(buffer, pos, a, b, was, "[" + text);
    assert "[" + text + Numeral(PairValue(a, b), 16) == "[" + (text + Numeral(PairValue(a, b), 16));
  }

  method PutColon(buffer: array<char>, pos: nat, ghost was: seq<char>, ghost text: string) returns (next: nat)
    requires Wrote(buffer[..], was, pos, "[" + text) && pos < buffer.Length
    modifies buffer
    ensures next == pos + 1 && Wrote(buffer[..], was, next, "[" + (text + ":"))
  {
    next := Put(buffer, pos, ':', was, "[" + text);
    assert "[" + text + ":" == "[" + (text + ":");
  }

  lemma GroupDigits(n: Group)
    ensures 1 <= |Numeral(n, 16)| <= 4
  {
    NumeralLength(n, 16);
    NumeralReadsBack(n, 16);
  }

  lemma ColonsSnoc(g: seq<Group>, i: nat)
    requires i < |g|
    ensures Colons(g[..i + 1]) == Colons(g[..i]) + (if i == 0 then "" else ":") + Numeral(g[i], 16)
  {
    var parts := Parts(g[..i + 1]);
    assert parts[..i] == Parts(g[..i]);
  }

  lemma PartialStep(g: Groups, s: nat, e: nat, i: nat)
    requires i < 8 && StartsRun(g, s) && EndsRun(g, s, e) && !(s <= i < e)
    ensures Partial(g, s, e, i + 1) == WithColons(Partial(g, s, e, i), i, s < i <= e) + Numeral(g[i], 16)
  {
    if i < s {
      ColonsSnoc(g, i);
    } else if i == e {
      FirstAfterRun(g, s, e);
    } else {
      LaterAfterRun(g, s, e, i);
    }
  }

  lemma FirstAfterRun(g: Groups, s: nat, e: nat)
    requires s <= e < 8
    ensures Compressed(g[..e + 1], s, e) == Colons(g[..s]) + ":" + ":" + Numeral(g[e], 16)
  {
    var upto := g[..e + 1];
    assert upto[..s] == g[..s] && upto[e..] == [g[e]];
    assert Parts([g[e]]) == [Numeral(g[e], 16)];
  }

  lemma LaterAfterRun(g: Groups, s: nat, e: nat, i: nat)
    requires s <= e < i < 8
    ensures Compressed(g[..i + 1], s, e) == Compressed(g[..i], s, e) + ":" + Numeral(g[i], 16)
  {
    var rest := g[e..];
    assert g[..i + 1][..s] == g[..s] == g[..i][..s];
    assert g[..i + 1][e..] == rest[..i - e + 1] && g[..i][e..] == rest[..i - e];
    ColonsSnoc(rest, i - e);
  }

  // ---------- ToURI ----------

  /** The port part, when it is wanted. */
  method PutPortPart(buffer: array<char>, pos: nat, port: Port, includePort: bool,
                     ghost was: seq<char>, ghost text: string)
    returns (next: nat)
    requires Wrote(buffer[..], was, pos, text) && pos + 6 <= buffer.Length
    modifies buffer
    ensures next <= pos + 6 && Wrote(buffer[..], was, next, text + PortText(port, includePort))
  {
    next := pos;
    if includePort {
      NumeralLength(port, 10);
      next := Put(buffer, next, ':', was, text);
      next := PutPort(buffer, next, port, was, text + ":");
      assert text + ":" + Numeral(port, 10) == text + PortText(port, true);
    } else {
      assert text + "" == text;
    }
  }

  /** The terminator; a text without NUL is then the C string in the buffer. */
  method Terminate(buffer: array<char>, pos: nat, ghost was: seq<char>, ghost text: string)
    requires Wrote(buffer[..], was, pos, text) && pos < buffer.Length && Free(text, '\0')
    modifies buffer
    ensures Printed(buffer[..], was, text)
  {
    buffer[pos] := '\0';
    HoldsCString(buffer[..], text);
  }

  /** The bracketed IPv6 host; flushPending is false in the source and true in the repaired printer. */
  method PutV6Host(buffer: array<char>, bytes: seq<Byte>, flushPending: bool, ghost was: seq<char>) returns (next: nat)
    requires |bytes| == 16 && buffer.Length == STRING_SIZE && buffer[..] == was
    modifies buffer
    ensures next <= 43 && Wrote(buffer[..], was, next, "[" + V6Text(GroupsOf(bytes), flushPending) + "]")
  {
    ghost var s, e := HostEnds(GroupsOf(bytes));
    next := Put(buffer, 0, '[', was, "");
    var inZeros;
    next, inZeros := PutGroups(buffer, bytes, was, s, e);
    next := PutEnd(buffer, next, inZeros, flushPending, was, Partial(GroupsOf(bytes), s, e, 8));
  }

  /** What follows the group loop: "::" when nothing was printed, or for a pending run, and the bracket. */
  method PutEnd(buffer: array<char>, pos: nat, inZeros: bool, flushPending: bool,
                ghost was: seq<char>, ghost text: string)
    returns (next: nat)
    requires Wrote(buffer[..], was, pos, "[" + text) && pos + 3 <= buffer.Length
    modifies buffer
    ensures next <= pos + 3
    ensures Wrote(buffer[..], was, next, "[" + Ended(text, pos == 1 || (flushPending && inZeros)) + "]")
  {
    next := pos;
    if next == 1 || (flushPending && inZeros) {
      next := PutDoubleColon(buffer, next, was, text);
    }
    next := Put(buffer, next, ']', was, "[" + Ended(text, pos == 1 || (flushPending && inZeros)));
  }

  ghost function Ended(text: string, flush: bool): string {
    if flush then text + ":" + ":" else text
  }

  method PutDoubleColon(buffer: array<char>, pos: nat, ghost was: seq<char>, ghost text: string) returns (next: nat)
    requires Wrote(buffer[..], was, pos, "[" + text) && pos + 2 <= buffer.Length
    modifies buffer
    ensures next == pos + 2 && Wrote(buffer[..], was, next, "[" + (text + ":" + ":"))
  {
    next := PutColon(buffer, pos, was, text);
    next := PutColon(buffer, next, was, text + ":");
  }

  /** How the loop's text and the two tests after it make up the host. */
  lemma HostEnds(g: Groups) returns (s: nat, e: nat)
    ensures StartsRun(g, s) && EndsRun(g, s, e)
    ensures V6Text(g, true) == Ended(Partial(g, s, e, 8), s < 8 && e == 8)
    ensures V6Text(g, false) == Ended(Partial(g, s, e, 8), s == 0 && e == 8)
  {
    s := RunStart(g);
    e := RunEnd(g, s);
    DropsTailIsRun(g);
    assert g[..8] == g && g[8..] == [];
  }

  /**
    ToURI: null for an address of neither IP family, which leaves the buffer alone; otherwise the buffer holds the
    authority text as a C string, every byte after its terminator is untouched, and the strict reader gets the address
    and port back from the buffer unless the tail was dropped.
   */
  method ToURI(a: Address, buffer: array<char>, includePort: bool) returns (ok: bool)
    requires buffer.Length == STRING_SIZE
    modifies buffer
    ensures ok <==> !a.Unset?
    ensures !ok ==> buffer[..] == old(buffer[..])
    ensures ok ==> Terminated(buffer[..], old(buffer[..]), Authority(a, includePort))
    ensures ok ==> CStringOf(buffer[..]) == Authority(a, includePort)
    ensures ok ==> (Read(CStringOf(buffer[..])) == Some(EndpointOf(a, includePort)) <==> !Truncated(a))
  {
    ok := Print(a, buffer, includePort, false);
    if ok {
      RoundTripIff(a, includePort);
    }
  }

  /** ToURI with a pending zero run written out after the group loop: the buffer reads back for every address. */
  method ToURIRepaired(a: Address, buffer: array<char>, includePort: bool) returns (ok: bool)
    requires buffer.Length == STRING_SIZE
    modifies buffer
    ensures ok <==> !a.Unset?
    ensures !ok ==> buffer[..] == old(buffer[..])
    ensures ok ==> Terminated(buffer[..], old(buffer[..]), RepairedAuthority(a, includePort))
    ensures ok ==> Read(CStringOf(buffer[..])) == Some(EndpointOf(a, includePort))
  {
    ok := Print(a, buffer, includePort, true);
    if ok {
      RepairedRoundTrip(a, includePort);
    }
  }

  /** The text stands at the start of the buffer, then its terminator, and what follows is unchanged. */
  ghost predicate Terminated(now: seq<char>, was: seq<char>, text: string) {
    |now| == |was| && |text| < |was| && now == text + ['\0'] + was[|text| + 1..]
  }

  method Print(a: Address, buffer: array<char>, includePort: bool, flushPending: bool) returns (ok: bool)
    requires buffer.Length == STRING_SIZE
    modifies buffer
    ensures ok <==> !a.Unset?
    ensures !ok ==> buffer[..] == old(buffer[..])
    ensures ok ==> Printed(buffer[..], old(buffer[..]), HostText(a, flushPending) + PortText(a.port, includePort))
  {
    if a.Unset? {
      return false;
    }
    ghost var was := buffer[..];
    var pos := PutHost(buffer, a, flushPending, was);
    pos := PutPortPart(buffer, pos, a.port, includePort, was, HostText(a, flushPending));
    NoNul(a, includePort, flushPending);
    Terminate(buffer, pos, was, HostText(a, flushPending) + PortText(a.port, includePort));
    ok := true;
  }

  /** The buffer holds the text as a C string. */
  ghost predicate Printed(now: seq<char>, was: seq<char>, text: string) {
    Terminated(now, was, text) && CStringOf(now) == text
  }

  method PutHost(buffer: array<char>, a: Address, flushPending: bool, ghost was: seq<char>) returns (pos: nat)
    requires !a.Unset? && buffer.Length == STRING_SIZE && buffer[..] == was
    modifies buffer
    ensures pos <= 43 && Wrote(buffer[..], was, pos, HostText(a, flushPending))
  {
    if a.V4? {
      pos := PutOctets(buffer, a.bytes, was);
    } else {
      pos := PutV6Host(buffer, a.bytes, flushPending, was);
    }
  }
}
