/** IPAddress::Parse on POSIX, for arbitrary answers of the resolver and of the interface list. */
module AddressParse {
  import opened Wrappers
  import opened Addresses

  /** A family to look for, or FAMILY_UNSPECIFIED. */
  type Wanted = Option<Family>

  /**
    One entry of a getaddrinfo or getifaddrs list: its socket address, when it has one. An entry of the resolver also
    names a family of its own, which is the one its socket address has when there is one.
   */
  datatype Entry = Entry(address: Option<Address>)

  /** The port found so far is zero until some IPv4 or IPv6 entry carries a nonzero one. */
  function FirstPort(entries: seq<Entry>): Port {
    if entries == [] then 0
    else if HasIP(entries[0]) && entries[0].address.value.port != 0 then entries[0].address.value.port
    else FirstPort(entries[1..])
  }

  predicate HasIP(e: Entry) {
    e.address.Some? && !e.address.value.Unset?
  }

  /** An interface address that is of the family asked for and is not the loopback address. */
  predicate Keeps(family: Wanted, e: Entry) {
    HasIP(e) && (family.None? || family.value == e.address.value.GetFamily()) && !e.address.value.IsLoopback()
  }

  /** The address of an entry; only asked of entries that have one. */
  function AddressOf(e: Entry): Address {
    if e.address.Some? then e.address.value else Unset(0)
  }

  function WithPort(e: Entry, port: Port): Address {
    AddressOf(e).WithPort(port)
  }

  /** The images of the kept entries, in order. */
  function FilterMap(entries: seq<Entry>, keep: Entry -> bool, image: Entry -> Address): seq<Address> {
    if entries == [] then []
    else
      var e := entries[|entries| - 1];
      FilterMap(entries[..|entries| - 1], keep, image) + if keep(e) then [image(e)] else []
  }

  /** The addresses of the kept interfaces, in order, each with the port. */
  function KeptWithPort(entries: seq<Entry>, family: Wanted, port: Port): seq<Address> {
    FilterMap(entries, e => Keeps(family, e), e => WithPort(e, port))
  }

  /** The IP addresses of a resolver list, in order. */
  function Resolved(entries: seq<Entry>): seq<Address> {
    FilterMap(entries, HasIP, AddressOf)
  }

  function Limit(size: int): nat {
    if size < 0 then 0 else size
  }

  function FirstOf(all: seq<Address>, size: int): seq<Address> {
    if |all| <= Limit(size) then all else all[..Limit(size)]
  }

  /**
    Which path Parse takes: the empty address means every interface, and with it a resolver failure only loses the port;
    every other address, including none, is what the resolver says. None is the -1 result.
   */
  function Parsed(address: Option<string>, family: Wanted, size: int,
                  resolver: Option<seq<Entry>>, interfaces: Option<seq<Entry>>): Option<seq<Address>>
  {
    if address == Some("") then
      if interfaces.None? then None
      else
        var port := if resolver.Some? then FirstPort(resolver.value) else 0;
        Some(FirstOf(KeptWithPort(interfaces.value, family, port), size))
    else if resolver.None? then None
    else Some(FirstOf(Resolved(resolver.value), size))
  }

  method FindPort(entries: seq<Entry>) returns (port: Port)
    ensures port == FirstPort(entries)
  {
    port := 0;
    var i := 0;
    while port == 0 && i < |entries|
      invariant i <= |entries|
      invariant FirstPort(entries) == if port != 0 then port else FirstPort(entries[i..])
    {
      if HasIP(entries[i]) {
        port := entries[i].address.value.port;
      }
      i := i + 1;
    }
  }

  /** Fills results with what Parsed says and returns its length, or -1; the rest of the array is left alone. */
  method Parse(results: array<Address>, size: int, address: Option<string>, family: Wanted,
               resolver: Option<seq<Entry>>, interfaces: Option<seq<Entry>>)
    returns (count: int)
    requires size <= results.Length
    modifies results
    ensures var parsed := Parsed(address, family, size, resolver, interfaces);
            if parsed.None? then count == -1 && results[..] == old(results[..])
            else 0 <= count == |parsed.value| <= results.Length
                 && results[..count] == parsed.value && results[count..] == old(results[count..])
  {
    if address.Some? && address.value == "" {
      var port: Port := 0;
      if resolver.Some? {
        port := FindPort(resolver.value);
      }
      if interfaces.Some? {
        count := Fill(results, size, interfaces.value, e => Keeps(family, e), e => WithPort(e, port));
        return;
      }
    } else if resolver.Some? {
      count := Fill(results, size, resolver.value, HasIP, AddressOf);
      return;
    }
    count := -1;
  }

  /** The results start with what is done, and are otherwise as Parse found them. */
  ghost predicate Filled(now: seq<Address>, was: seq<Address>, i: nat, done: seq<Address>) {
    |now| == |was| && i == |done| <= |was| && now == done + was[i..]
  }

  /** `results[i++] = a`. */
  method Store(results: array<Address>, i: nat, a: Address, ghost was: seq<Address>, ghost done: seq<Address>)
    returns (next: nat)
    requires Filled(results[..], was, i, done) && i < results.Length
    modifies results
    ensures next == i + 1 && Filled(results[..], was, next, done + [a])
  {
    results[i] := a;
    next := i + 1;
  }

  /** Walks a list while there is room, storing the image of every entry that is kept. */
  method Fill(results: array<Address>, size: int, entries: seq<Entry>, keep: Entry -> bool, image: Entry -> Address)
    returns (i: nat)
    requires size <= results.Length
    modifies results
    ensures i <= Limit(size)
    ensures Filled(results[..], old(results[..]), i, FirstOf(FilterMap(entries, keep, image), size))
  {
    ghost var was := results[..];
    i := 0;
    var k := 0;
    while i < size && k < |entries|
      invariant k <= |entries| && i <= Limit(size)
      invariant Filled(results[..], was, i, FilterMap(entries[..k], keep, image))
    {
      assert entries[..k + 1][..k] == entries[..k];
      if keep(entries[k]) {
        i := Store(results, i, image(entries[k]), was, FilterMap(entries[..k], keep, image));
      }
      k := k + 1;
    }
    FilterMapPrefix(entries, k, keep, image);
    assert entries[..|entries|] == entries;
    PrefixIsAll(FilterMap(entries[..k], keep, image), FilterMap(entries, keep, image), size);
  }

  lemma PrefixIsAll(prefix: seq<Address>, all: seq<Address>, size: int)
    requires prefix <= all && |prefix| <= Limit(size) && (prefix == all || |prefix| == Limit(size))
    ensures FirstOf(all, size) == prefix
  {
  }

  lemma {:induction false} FilterMapPrefix(entries: seq<Entry>, k: nat, keep: Entry -> bool, image: Entry -> Address)
    requires k <= |entries|
    ensures FilterMap(entries[..k], keep, image) <= FilterMap(entries, keep, image)
  {
    var n := |entries| - 1;
    if k <= n {
      assert entries[..n][..k] == entries[..k];
      FilterMapPrefix(entries[..n], k, keep, image);
    } else {
      assert entries[..k] == entries;
    }
  }

  // ---------- what the caller can rely on ----------

  /** Every stored image comes from a kept entry. */
  lemma {:induction false} ImageOfKept(entries: seq<Entry>, keep: Entry -> bool, image: Entry -> Address, i: nat)
    requires i < |FilterMap(entries, keep, image)|
    ensures exists k :: 0 <= k < |entries| && keep(entries[k])
                        && FilterMap(entries, keep, image)[i] == image(entries[k])
  {
    var n := |entries| - 1;
    var init := FilterMap(entries[..n], keep, image);
    if i < |init| {
      ImageOfKept(entries[..n], keep, image, i);
      var k :| 0 <= k < n && keep(entries[..n][k]) && init[i] == image(entries[..n][k]);
      assert keep(entries[k]) && init[i] == image(entries[k]);
    } else {
      assert keep(entries[n]);
    }
  }

  /** Nothing kept is lost before the array is full, and what precedes it in the list precedes it in the results. */
  lemma {:induction false} KeptIsStored(entries: seq<Entry>, keep: Entry -> bool, image: Entry -> Address, k: nat)
    requires k < |entries| && keep(entries[k])
    ensures var before := |FilterMap(entries[..k], keep, image)|;
            before < |FilterMap(entries, keep, image)| && FilterMap(entries, keep, image)[before] == image(entries[k])
  {
    assert entries[..k + 1][..k] == entries[..k];
    FilterMapPrefix(entries, k + 1, keep, image);
  }

  /** The places of the kept entries, in order: one for each image, and none is left out. */
  lemma {:induction false} KeptPlaces(entries: seq<Entry>, keep: Entry -> bool, image: Entry -> Address)
    returns (ks: seq<nat>)
    ensures Places(ks, |entries|) && Shows(entries, ks, keep, image, FilterMap(entries, keep, image))
  {
    ks := [];
    if entries != [] {
      var n: nat := |entries| - 1;
      ks := KeptPlaces(entries[..n], keep, image);
      AllShown(entries, n, ks, keep, image, FilterMap(entries[..n], keep, image));
      if keep(entries[n]) {
        ks := ks + [n];
      }
    }
  }

  /** The entries at the places ks are all those kept, and the images are theirs. */
  ghost predicate Shows(entries: seq<Entry>, ks: seq<nat>, keep: Entry -> bool, image: Entry -> Address,
                        images: seq<Address>)
    requires Places(ks, |entries|)
  {
    && |ks| == |images|
    && (forall i :: 0 <= i < |ks| ==> keep(entries[ks[i]]) && images[i] == image(entries[ks[i]]))
    && forall k :: 0 <= k < |entries| && keep(entries[k]) ==> k in ks
  }

  lemma AllShown(entries: seq<Entry>, n: nat, ks: seq<nat>, keep: Entry -> bool, image: Entry -> Address,
                 images: seq<Address>)
    requires n + 1 == |entries| && Places(ks, n) && Shows(entries[..n], ks, keep, image, images)
    ensures !keep(entries[n]) ==> Shows(entries, ks, keep, image, images)
    ensures Places(ks + [n], n + 1)
    ensures keep(entries[n]) ==> Shows(entries, ks + [n], keep, image, images + [image(entries[n])])
  {
    assert forall k :: 0 <= k < n ==> entries[..n][k] == entries[k];
    assert forall k :: k in ks ==> k in ks + [n];
    assert (ks + [n])[|ks|] == n;
  }

  /** Increasing places below n. */
  ghost predicate Places(ks: seq<nat>, n: nat) {
    && (forall i :: 0 <= i < |ks| ==> ks[i] < n)
    && forall i, j :: 0 <= i < j < |ks| ==> ks[i] < ks[j]
  }

  /** The first images are those of the first kept entries; an entry left out comes after all of them. */
  lemma FirstPlaces(entries: seq<Entry>, keep: Entry -> bool, image: Entry -> Address, size: int) returns (ks: seq<nat>)
    ensures var found := FirstOf(FilterMap(entries, keep, image), size);
            && |ks| == |found| <= Limit(size)
            && (forall i :: 0 <= i < |ks| ==>
                  ks[i] < |entries| && keep(entries[ks[i]]) && found[i] == image(entries[ks[i]]))
    ensures forall i, j :: 0 <= i < j < |ks| ==> ks[i] < ks[j]
    ensures forall k :: 0 <= k < |entries| && keep(entries[k]) && k !in ks
                        ==> |ks| == Limit(size) && forall i :: 0 <= i < |ks| ==> ks[i] < k
  {
    var all := KeptPlaces(entries, keep, image);
    ks := all[..|FirstOf(FilterMap(entries, keep, image), size)|];
    FirstShown(entries, all, keep, image, FilterMap(entries, keep, image), size);
  }

  lemma FirstShown(entries: seq<Entry>, all: seq<nat>, keep: Entry -> bool, image: Entry -> Address,
                   images: seq<Address>, size: int)
    requires Places(all, |entries|) && Shows(entries, all, keep, image, images)
    ensures var found := FirstOf(images, size);
            var ks := all[..|found|];
            && |found| <= Limit(size)
            && (forall i :: 0 <= i < |ks| ==>
                  ks[i] < |entries| && keep(entries[ks[i]]) && found[i] == image(entries[ks[i]]))
            && (forall k :: 0 <= k < |entries| && keep(entries[k]) && k !in ks
                            ==> |ks| == Limit(size) && forall i :: 0 <= i < |ks| ==> ks[i] < k)
  {
    var ks := all[..|FirstOf(images, size)|];
    assert forall i :: 0 <= i < |ks| ==> all[i] == ks[i] && ks[i] in ks;
    forall k | 0 <= k < |entries| && keep(entries[k]) && k !in ks
      ensures |ks| == Limit(size) && forall i :: 0 <= i < |ks| ==> ks[i] < k
    {
      var j :| 0 <= j < |all| && all[j] == k;
    }
  }

  /**
    Any address but "" gives what the resolver says: the first size IPv4 and IPv6 socket addresses of its list, as they
    are. The places ks of these in the list are increasing, and any other is passed over only when the array is full.
   */
  lemma ResolvedInFull(address: Option<string>, family: Wanted, size: int, list: seq<Entry>,
                       interfaces: Option<seq<Entry>>)
    returns (found: seq<Address>, ks: seq<nat>)
    requires address != Some("")
    ensures Parsed(address, family, size, None, interfaces) == None
    ensures Parsed(address, family, size, Some(list), interfaces) == Some(found)
    ensures |ks| == |found| <= if size < 0 then 0 else size
    ensures forall i :: 0 <= i < |ks| ==> ks[i] < |list| && list[ks[i]].address == Some(found[i]) && !found[i].Unset?
    ensures forall i, j :: 0 <= i < j < |ks| ==> ks[i] < ks[j]
    ensures forall k :: 0 <= k < |list| && list[k].address.Some? && !list[k].address.value.Unset? && k !in ks
                        ==> |ks| == (if size < 0 then 0 else size) && forall i :: 0 <= i < |ks| ==> ks[i] < k
  {
    found := FirstOf(Resolved(list), size);
    ks := FirstPlaces(list, HasIP, AddressOf, size);
  }

  /**
    The empty address gives the interfaces: the first size addresses of the family asked for that are not 127.0.0.1 or
    ::1, as they are but for the port, which is the first nonzero one of the resolver's list, or zero.
   */
  lemma InterfacesInFull(family: Wanted, size: int, resolver: Option<seq<Entry>>, list: seq<Entry>)
    returns (found: seq<Address>, ks: seq<nat>, port: Port)
    ensures Parsed(Some(""), family, size, resolver, None) == None
    ensures Parsed(Some(""), family, size, resolver, Some(list)) == Some(found)
    ensures |ks| == |found| <= if size < 0 then 0 else size
    ensures forall i, j :: 0 <= i < j < |ks| ==> ks[i] < ks[j]
    ensures var usable := (e: Entry) =>
              e.address.Some?
              && match e.address.value
                 case V4(bytes, _) => family in {None, Some(IPv4)} && bytes != [127, 0, 0, 1]
                 case V6(bytes, _, _, _) =>
                   family in {None, Some(IPv6)} && bytes != [0, 0, 0, 0, 0, 0, 0, 0, 0, 0, 0, 0, 0, 0, 0, 1]
                 case Unset(_) => false;
            && (forall i :: 0 <= i < |ks| ==>
                  && ks[i] < |list| && usable(list[ks[i]])
                  && found[i] == match list[ks[i]].address.value
                                 case V4(bytes, _) => V4(bytes, port)
                                 case V6(bytes, _, flow, scope) => V6(bytes, port, flow, scope)
                                 case Unset(code) => Unset(code))
            && (forall k :: 0 <= k < |list| && usable(list[k]) && k !in ks
                            ==> |ks| == (if size < 0 then 0 else size) && forall i :: 0 <= i < |ks| ==> ks[i] < k)
    ensures var ip := (e: Entry) => e.address.Some? && !e.address.value.Unset?;
            if resolver.Some? && port != 0 then
              exists k :: && 0 <= k < |resolver.value| && ip(resolver.value[k])
                          && resolver.value[k].address.value.port == port
                          && forall j | 0 <= j < k && ip(resolver.value[j])
                               :: resolver.value[j].address.value.port == 0
            else
              && port == 0
              && (resolver.Some?
                  ==> forall k | 0 <= k < |resolver.value| && ip(resolver.value[k])
                        :: resolver.value[k].address.value.port == 0)
  {
    port := if resolver.Some? then FirstPort(resolver.value) else 0;
    found := FirstOf(KeptWithPort(list, family, port), size);
    ks := FirstPlaces(list, e => Keeps(family, e), e => WithPort(e, port), size);
    if resolver.Some? {
      PortIsFirstNonzero(resolver.value);
    }
  }

  /** On the all-interfaces path every result is of the family asked for, is not loopback, and has the resolved port. */
  lemma InterfacesAreUsable(entries: seq<Entry>, family: Wanted, port: Port, i: nat)
    requires i < |KeptWithPort(entries, family, port)|
    ensures var a := KeptWithPort(entries, family, port)[i];
            !a.Unset? && (family.Some? ==> a.GetFamily() == family.value) && !a.IsLoopback() && a.port == port
  {
    ImageOfKept(entries, e => Keeps(family, e), e => WithPort(e, port), i);
  }

  /** The port is the first nonzero one, or zero when no entry has any. */
  lemma {:induction false} PortIsFirstNonzero(entries: seq<Entry>)
    ensures FirstPort(entries) == 0
            <==> forall k :: 0 <= k < |entries| && HasIP(entries[k]) ==> entries[k].address.value.port == 0
    ensures FirstPort(entries) != 0
            ==> exists k :: 0 <= k < |entries| && HasIP(entries[k])
                            && entries[k].address.value.port == FirstPort(entries)
                            && forall j :: 0 <= j < k && HasIP(entries[j]) ==> entries[j].address.value.port == 0
  {
    if entries != [] {
      var rest := entries[1..];
      PortIsFirstNonzero(rest);
      assert forall k :: 0 < k < |entries| ==> entries[k] == rest[k - 1];
      if HasIP(entries[0]) && entries[0].address.value.port != 0 {
        assert FirstPort(entries) == entries[0].address.value.port;
      } else if FirstPort(entries) != 0 {
        var k :| 0 <= k < |rest| && HasIP(rest[k]) && rest[k].address.value.port == FirstPort(rest)
                 && forall j :: 0 <= j < k && HasIP(rest[j]) ==> rest[j].address.value.port == 0;
        assert HasIP(entries[k + 1]);
      }
    }
  }
}
