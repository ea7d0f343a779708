/** SharedMemorySection: one mapping of a shared memory, which outlives the memory it was made from. */
module Sections {
  import opened Wrappers
  import opened Kernel
  import opened SharedMemory

  /** The fields; data is 0 for the null pointer. */
  class Section {
    var data: nat
    const size: nat
    const offset: int
    const readOnly: bool

    /** Maps unless the size is zero; a failed mapping leaves the null pointer. */
    constructor (os: System, memory: Memory, size: nat, offset: int, answer: Option<nat>)
      modifies os
      ensures (os.world, data) == MapSection(old(os.world), memory, size, answer)
      ensures this.size == size && this.offset == offset && readOnly == memory.readOnly
    {
      this.size, this.offset, readOnly := size, offset, memory.readOnly;
      data := 0;
      new;
      if size == 0 {
        return;
      }
      var address := os.Map(memory.handle, size, answer);
      data := if address.None? then 0 else address.value;
    }

    /** The destructor: unmaps what is mapped. */
    method Destroy(os: System)
      modifies os
      ensures os.world == UnmapSection(old(os.world), data)
    {
      if data != 0 {
        os.Unmap(data);
      }
    }
  }

  function MapSection(w: World, memory: Memory, size: nat, answer: Option<nat>): (World, nat) {
    if size == 0 then (w, 0)
    else
      var (w', address) := w.Map(memory.handle, size, answer);
      (w', if address.None? then 0 else address.value)
  }

  function UnmapSection(w: World, data: nat): World {
    if data != 0 then w.Unmap(data) else w
  }

  /** A mapping is kept exactly when it was asked for, of an open descriptor, and the system gave a new address. */
  lemma SectionInFull(w: World, memory: Memory, size: nat, answer: Option<nat>)
    ensures var (w', data) := MapSection(w, memory, size, answer);
            var kept := && size != 0 && 0 <= memory.handle && Descriptor(memory.handle) in w.live
                        && answer.Some? && answer.value != 0 && Mapping(answer.value) !in w.live;
            && data == (if kept then answer.value else 0)
            && w' == (if kept
                      then w.(live := w.live + {Mapping(data)}, opens := w.opens + multiset{Mapping(data)})
                      else w)
  {
  }

  /** Destroying a section releases exactly its mapping, and only once it has one. */
  lemma DestroyInFull(w: World, data: nat)
    ensures data == 0 ==> UnmapSection(w, data) == w
    ensures data != 0 && Mapping(data) in w.live
            ==> UnmapSection(w, data)
                == w.(live := w.live - {Mapping(data)}, closes := w.closes + multiset{Mapping(data)})
  {
  }
}
