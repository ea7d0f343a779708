/** The operating system as far as descriptors, mappings and names go: what is live, what exists, and what was done. */
module Kernel {
  import opened Wrappers

  /** open/unlink and shm_open/shm_unlink work on different name spaces. */
  datatype Space = Files | Shared

  datatype Name = Name(space: Space, path: string)

  /** What a process can hold: an open descriptor, or a mapping at a (nonzero) address. */
  datatype Resource = Descriptor(fd: nat) | Mapping(address: nat)

  datatype World = World(
    live: set<Resource>,         // what is open or mapped in this process
    opens: multiset<Resource>,   // everything handed out so far
    closes: multiset<Resource>,  // everything closed or unmapped while it was live so far
    strays: nat,                 // close() and munmap() calls on something that was not live
    names: set<Name>,            // what exists in the two name spaces
    unlinks: multiset<Name>,     // every unlink call made by closing an object so far
    deletes: multiset<Name>)     // every unlink call made directly so far
  {
    function Acquire(r: Resource): World {
      this.(live := live + {r}, opens := opens + multiset{r})
    }

    function Release(r: Resource): World {
      if r in live then this.(live := live - {r}, closes := closes + multiset{r}) else this.(strays := strays + 1)
    }

    /**
      Open with O_CREAT | O_EXCL or without either, when the names in existing exist: anything may be refused, a taken
      or a missing name must be, and a descriptor that is handed out is not already open.
     */
    predicate Grants(name: Name, create: bool, answer: Option<nat>, existing: set<Name>) {
      answer.Some? && Descriptor(answer.value) !in live && name.path != "" && (create <==> name !in existing)
    }

    /** Other processes may have made existing out of the names by the time open looks at them. */
    function OpenName(name: Name, create: bool, answer: Option<nat>, existing: set<Name>): (World, int) {
      if Grants(name, create, answer, existing)
      then (Acquire(Descriptor(answer.value)).(names := existing + {name}), answer.value as int)
      else (this.(names := existing), -1)
    }

    function OpenSocket(answer: Option<nat>): (World, int) {
      if answer.Some? && Descriptor(answer.value) !in live
      then (Acquire(Descriptor(answer.value)), answer.value as int)
      else (this, -1)
    }

    function Close(fd: int): World {
      if fd < 0 then this else Release(Descriptor(fd))
    }

    /** The address of a new mapping of an open descriptor, or none; the size must not be zero. */
    function Map(fd: int, size: nat, answer: Option<nat>): (World, Option<nat>) {
      if 0 <= fd && Descriptor(fd) in live && size != 0
         && answer.Some? && answer.value != 0 && Mapping(answer.value) !in live
      then (Acquire(Mapping(answer.value)), answer)
      else (this, None)
    }

    function Unmap(address: nat): World {
      Release(Mapping(address))
    }

    function Unlink(name: Name): World {
      this.(names := names - {name}, unlinks := unlinks + multiset{name})
    }

    /** An unlink call whose answer is looked at: it may be refused, and must be when there is nothing of that name. */
    function Delete(name: Name, granted: bool): (World, bool) {
      var ok := granted && name.path != "" && name in names;
      (this.(names := if ok then names - {name} else names, deletes := deletes + multiset{name}), ok)
    }
  }

  class System {
    var world: World

    method OpenName(name: Name, create: bool, answer: Option<nat>, existing: set<Name>) returns (fd: int)
      modifies this
      ensures (world, fd) == old(world).OpenName(name, create, answer, existing)
    {
      var (w, n) := world.OpenName(name, create, answer, existing);
      world := w;
      fd := n;
    }

    method OpenSocket(answer: Option<nat>) returns (fd: int)
      modifies this
      ensures (world, fd) == old(world).OpenSocket(answer)
    {
      var (w, n) := world.OpenSocket(answer);
      world := w;
      fd := n;
    }

    method Close(fd: int)
      modifies this
      ensures world == old(world).Close(fd)
    {
      world := world.Close(fd);
    }

    method Map(fd: int, size: nat, answer: Option<nat>) returns (address: Option<nat>)
      modifies this
      ensures (world, address) == old(world).Map(fd, size, answer)
    {
      var (w, a) := world.Map(fd, size, answer);
      world := w;
      address := a;
    }

    method Unmap(address: nat)
      modifies this
      ensures world == old(world).Unmap(address)
    {
      world := world.Unmap(address);
    }

    method Unlink(name: Name)
      modifies this
      ensures world == old(world).Unlink(name)
    {
      world := world.Unlink(name);
    }

    method Delete(name: Name, granted: bool) returns (ok: bool)
      modifies this
      ensures (world, ok) == old(world).Delete(name, granted)
    {
      var (w, o) := world.Delete(name, granted);
      world := w;
      ok := o;
    }
  }
}
