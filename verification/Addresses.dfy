/** The address union, represented as a family with its bytes, port and (for IPv6) the fields nothing below compares. */
module Addresses {
  type Byte = n: nat | n < 256
  type Port = n: nat | n < 65536

  datatype Family = IPv4 | IPv6 | OtherFamily(code: int)

  datatype RawAddress =
    | V4(bytes: seq<Byte>, port: Port)
    | V6(bytes: seq<Byte>, port: Port, flowInfo: nat, scopeId: nat)
    | Unset(code: int)
  {
    predicate Valid() {
      match this
      case V4(bytes, _) => |bytes| == 4
      case V6(bytes, _, _, _) => |bytes| == 16
      case Unset(_) => true
    }

    function GetFamily(): Family {
      match this
      case V4(_, _) => IPv4
      case V6(_, _, _, _) => IPv6
      case Unset(code) => OtherFamily(code)
    }

    /** operator==: other families never compare equal, not even to themselves; flow and scope are not looked at. */
    predicate Equals(other: RawAddress) {
      && GetFamily() == other.GetFamily()
      && !Unset?
      && bytes == other.bytes
      && port == other.port
    }

    /** GetPort returns a signed short, so ports of 32768 and above come out negative. */
    function GetPort(): int {
      if Unset? then 0 else if port < 32768 then port else port - 65536
    }

    /** The port-replacing constructor. */
    function WithPort(p: Port): RawAddress {
      if Unset? then this else this.(port := p)
    }

    predicate IsLoopback() {
      !Unset? && bytes == LoopbackBytes(GetFamily())
    }

    predicate IsAny() {
      !Unset? && forall i :: 0 <= i < |bytes| ==> bytes[i] == 0
    }
  }

  type Address = a: RawAddress | a.Valid() witness Unset(0)

  function LoopbackBytes(family: Family): seq<Byte>
    requires !family.OtherFamily?
  {
    if family == IPv4 then [127, 0, 0, 1] else [0, 0, 0, 0, 0, 0, 0, 0, 0, 0, 0, 0, 0, 0, 0, 1]
  }

  function Loopback(family: Family): Address {
    match family
    case IPv4 => V4(LoopbackBytes(IPv4), 0)
    case IPv6 => V6(LoopbackBytes(IPv6), 0, 0, 0)
    case OtherFamily(code) => Unset(code)
  }

  /** operator== is symmetric, transitive, and reflexive exactly on the two IP families. */
  lemma EqualsLaws(a: Address, b: Address, c: Address)
    ensures a.Equals(b) <==> b.Equals(a)
    ensures a.Equals(b) && b.Equals(c) ==> a.Equals(c)
    ensures a.Equals(a) <==> !a.Unset?
  {
  }

  /** The signed port still determines the unsigned one, and replacing the port changes nothing else compared. */
  lemma PortLaws(a: Address, p: Port, b: Address)
    requires !a.Unset?
    ensures a.WithPort(p).Valid() && a.WithPort(p).GetPort() % 65536 == p
    ensures -32768 <= a.GetPort() < 32768 && (a.GetPort() < 0 <==> 32768 <= a.port)
    ensures a.WithPort(p) == if a.V4? then V4(a.bytes, p) else V6(a.bytes, p, a.flowInfo, a.scopeId)
    ensures a.WithPort(p).Equals(b)
            <==> b.GetFamily() == a.GetFamily() && b.bytes == a.bytes && b.GetPort() % 65536 == p
  {
  }

  /** Loopback gives a loopback address of the family asked for, never "any", unique up to port, flow and scope. */
  lemma LoopbackLaws(family: Family, a: Address)
    requires !family.OtherFamily?
    ensures var l := Loopback(family); l.IsLoopback() && !l.IsAny() && l.GetFamily() == family
    ensures a.IsLoopback() && a.GetFamily() == family <==> a.WithPort(0).Equals(Loopback(family))
  {
    assert LoopbackBytes(family)[|LoopbackBytes(family)| - 1] == 1;
  }

  /** The loopback addresses are 127.0.0.1 and ::1, and the "any" ones 0.0.0.0 and ::; other families have neither. */
  lemma SpecialAddresses(a: Address, code: int)
    ensures a.IsLoopback()
            <==> (a.V4? && a.bytes == [127, 0, 0, 1])
                 || (a.V6? && a.bytes == [0, 0, 0, 0, 0, 0, 0, 0, 0, 0, 0, 0, 0, 0, 0, 1])
    ensures a.IsAny()
            <==> (a.V4? && a.bytes == [0, 0, 0, 0])
                 || (a.V6? && a.bytes == [0, 0, 0, 0, 0, 0, 0, 0, 0, 0, 0, 0, 0, 0, 0, 0])
    ensures Loopback(IPv4) == V4([127, 0, 0, 1], 0)
    ensures Loopback(IPv6) == V6([0, 0, 0, 0, 0, 0, 0, 0, 0, 0, 0, 0, 0, 0, 0, 1], 0, 0, 0)
    ensures Loopback(OtherFamily(code)) == Unset(code) && Unset(code).GetPort() == 0
    ensures forall p: Port :: Unset(code).WithPort(p) == Unset(code)
  {
  }
}
