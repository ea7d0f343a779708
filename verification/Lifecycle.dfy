/** Whole runs of a process that owns any number of shared memories, mapped sections and sockets. */
module Lifecycle {
  import opened Wrappers
  import opened Kernel
  import opened SharedMemory
  import opened Sections
  import opened Sockets

  /** An object that can own a descriptor or a mapping; a destroyed one owns nothing and is not used again. */
  datatype Owner = Sharing(memory: Memory) | Mapped(data: nat) | Socket(handle: int) | Gone {
    function Handle(): int {
      if Sharing? then memory.handle else if Socket? then handle else -1
    }

    /** How often, nought or once, the object holds r. */
    function Holds(r: Resource): nat {
      match r
      case Descriptor(fd) => if Handle() == fd then 1 else 0
      case Mapping(address) => if Mapped? && data != 0 && data == address then 1 else 0
    }

    /** How often the object waits to unlink the name n. */
    function Pends(n: Name): nat {
      if Sharing? && memory.name != "" && memory.Pending() == n then 1 else 0
    }

    predicate Valid() {
      if Sharing? then memory.Valid() else Socket? ==> -1 <= handle
    }
  }

  /** armed counts the names this process has taken on to unlink. */
  datatype Process = Process(world: World, owners: seq<Owner>, armed: multiset<Name>)

  datatype Op =
    | NewMemory
    | NewSocket
    | Load(id: nat, request: Request)
    | MapFrom(id: nat, size: nat, answer: Option<nat>)
    | OpenSocket(id: nat, answer: Option<nat>)
    | Close(id: nat)
    | Swap(id: nat, other: nat)
    | Destroy(id: nat)
    | DeleteFileBacked(filename: CString, granted: bool)
    | DeleteNamed(name: Option<CString>, granted: bool)
    | Outside(names: set<Name>)  // what other processes have made of the names

  function HeldBy(owners: seq<Owner>, r: Resource): nat {
    if owners == [] then 0 else HeldBy(owners[..|owners| - 1], r) + owners[|owners| - 1].Holds(r)
  }

  function PendingIn(owners: seq<Owner>, n: Name): nat {
    if owners == [] then 0 else PendingIn(owners[..|owners| - 1], n) + owners[|owners| - 1].Pends(n)
  }

  /** Load takes on a name once the open has succeeded, even if resizing then fails. */
  function Arms(w: World, m: Memory, q: Request): multiset<Name> {
    if q.Opens(CloseMemory(w, m).0) && q.deleteOnClose then multiset{q.Target().value} else multiset{}
  }

  /** Close, or for a section, which has no Close, its destructor. */
  function CloseOwner(w: World, o: Owner): (World, Owner) {
    match o
    case Sharing(m) => var (w', m') := CloseMemory(w, m); (w', Sharing(m'))
    case Mapped(data) => (UnmapSection(w, data), Gone)
    case Socket(h) => (w.Close(h), Socket(INVALID_HANDLE))
    case Gone => (w, o)
  }

  /** One call; a call on an object that does not exist or is of the other kind is not made. */
  function Step(p: Process, op: Op): Process {
    match op
    case NewMemory => p.(owners := p.owners + [Sharing(Memory(false, false, -1, ""))])
    case NewSocket => p.(owners := p.owners + [Socket(INVALID_HANDLE)])
    case Load(id, q) =>
      if id < |p.owners| && p.owners[id].Sharing? then
        var m := p.owners[id].memory;
        var (w, m', _) := LoadMemory(p.world, m, q);
        Process(w, p.owners[id := Sharing(m')], p.armed + Arms(p.world, m, q))
      else p
    case MapFrom(id, size, answer) =>
      if id < |p.owners| && p.owners[id].Sharing? then
        var (w, data) := MapSection(p.world, p.owners[id].memory, size, answer);
        p.(world := w, owners := p.owners + [Mapped(data)])
      else p
    case OpenSocket(id, answer) =>
      if id < |p.owners| && p.owners[id].Socket? then
        var (w, h, _) := OpenHandle(p.world, p.owners[id].handle, answer);
        p.(world := w, owners := p.owners[id := Socket(h)])
      else p
    case Close(id) =>
      if id < |p.owners| then
        var (w, o) := CloseOwner(p.world, p.owners[id]);
        p.(world := w, owners := p.owners[id := o])
      else p
    case Swap(id, other) =>
      if id < |p.owners| && other < |p.owners| && p.owners[id].Socket? && p.owners[other].Socket? then
        p.(owners := p.owners[id := p.owners[other]][other := p.owners[id]])
      else p
    case Destroy(id) =>
      if id < |p.owners| then
        p.(world := CloseOwner(p.world, p.owners[id]).0, owners := p.owners[id := Gone])
      else p
    case DeleteFileBacked(filename, granted) => p.(world := p.world.Delete(Name(Files, filename), granted).0)
    case DeleteNamed(name, granted) => p.(world := NamedDeleted(p.world, name, granted).0)
    case Outside(names) => p.(world := p.world.(names := names))
  }

  function Run(start: Process, ops: seq<Op>): Process {
    if ops == [] then start else Step(Run(start, ops[..|ops| - 1]), ops[|ops| - 1])
  }

  function Live(w: World, r: Resource): nat {
    if r in w.live then 1 else 0
  }

  /**
    Conservation: a live descriptor or mapping is held by exactly one object and any other by none; everything handed
    out is either still live or was released once; nothing was released that was not live; and every name taken on is
    either still pending or was unlinked once.
   */
  ghost predicate Conserved(p: Process) {
    && (forall r: Resource :: ResourceConserved(p, r))
    && (forall n: Name :: NameConserved(p, n))
    && p.world.strays == 0
    && forall i :: 0 <= i < |p.owners| ==> p.owners[i].Valid()
  }

  predicate ResourceConserved(p: Process, r: Resource) {
    HeldBy(p.owners, r) == Live(p.world, r) && p.world.opens[r] == p.world.closes[r] + Live(p.world, r)
  }

  predicate NameConserved(p: Process, n: Name) {
    p.armed[n] == p.world.unlinks[n] + PendingIn(p.owners, n)
  }

  // ---------- sums over the objects ----------

  lemma {:induction false} HeldUpdate(owners: seq<Owner>, i: nat, o: Owner, r: Resource)
    requires i < |owners|
    ensures HeldBy(owners[i := o], r) + owners[i].Holds(r) == HeldBy(owners, r) + o.Holds(r)
  {
    var k := |owners| - 1;
    if i < k {
      HeldUpdate(owners[..k], i, o, r);
      assert owners[i := o][..k] == owners[..k][i := o];
    } else {
      assert owners[i := o][..k] == owners[..k];
    }
  }

  lemma {:induction false} PendingUpdate(owners: seq<Owner>, i: nat, o: Owner, n: Name)
    requires i < |owners|
    ensures PendingIn(owners[i := o], n) + owners[i].Pends(n) == PendingIn(owners, n) + o.Pends(n)
  {
    var k := |owners| - 1;
    if i < k {
      PendingUpdate(owners[..k], i, o, n);
      assert owners[i := o][..k] == owners[..k][i := o];
    } else {
      assert owners[i := o][..k] == owners[..k];
    }
  }

  lemma {:induction false} SumContains(owners: seq<Owner>, i: nat, r: Resource)
    requires i < |owners|
    ensures owners[i].Holds(r) <= HeldBy(owners, r)
  {
    if i < |owners| - 1 {
      SumContains(owners[..|owners| - 1], i, r);
    }
  }

  lemma {:induction false} TwoHolders(owners: seq<Owner>, i: nat, j: nat, r: Resource)
    requires i < j < |owners|
    ensures owners[i].Holds(r) + owners[j].Holds(r) <= HeldBy(owners, r)
  {
    var k := |owners| - 1;
    if j < k {
      TwoHolders(owners[..k], i, j, r);
    } else {
      SumContains(owners[..k], i, r);
    }
  }

  lemma {:induction false} AllGone(owners: seq<Owner>, r: Resource, n: Name)
    requires forall i :: 0 <= i < |owners| ==> owners[i].Gone?
    ensures HeldBy(owners, r) == 0 && PendingIn(owners, n) == 0
  {
    if owners != [] { AllGone(owners[..|owners| - 1], r, n); }
  }

  // ---------- one object at a time ----------

  /** What a call may do to the world and to the one object it works on. */
  ghost predicate Balanced(w: World, o: Owner, w': World, o': Owner, arms: multiset<Name>) {
    && (forall r: Resource :: ResourceBalanced(w, o, w', o', r))
    && (forall n: Name :: NameBalanced(w, o, w', o', arms, n))
    && w'.strays == w.strays
    && o'.Valid()
  }

  predicate ResourceBalanced(w: World, o: Owner, w': World, o': Owner, r: Resource) {
    && Live(w', r) + o.Holds(r) == Live(w, r) + o'.Holds(r)
    && w'.opens[r] + w.closes[r] + Live(w, r) == w.opens[r] + w'.closes[r] + Live(w', r)
  }

  predicate NameBalanced(w: World, o: Owner, w': World, o': Owner, arms: multiset<Name>, n: Name) {
    w'.unlinks[n] + o'.Pends(n) == w.unlinks[n] + o.Pends(n) + arms[n]
  }

  lemma BalancedConserves(p: Process, i: nat, w: World, o: Owner, arms: multiset<Name>)
    requires Conserved(p) && i < |p.owners| && Balanced(p.world, p.owners[i], w, o, arms)
    ensures Conserved(Process(w, p.owners[i := o], p.armed + arms))
  {
    var p' := Process(w, p.owners[i := o], p.armed + arms);
    forall r: Resource
      ensures ResourceConserved(p', r)
    {
      HeldUpdate(p.owners, i, o, r);
      assert ResourceConserved(p, r) && ResourceBalanced(p.world, p.owners[i], w, o, r);
    }
    forall n: Name
      ensures NameConserved(p', n)
    {
      PendingUpdate(p.owners, i, o, n);
      assert NameConserved(p, n) && NameBalanced(p.world, p.owners[i], w, o, arms, n);
    }
  }

  /** What the object holds is live. */
  predicate Owns(w: World, o: Owner) {
    && o.Valid()
    && (0 <= o.Handle() ==> Descriptor(o.Handle()) in w.live)
    && (o.Mapped? && o.data != 0 ==> Mapping(o.data) in w.live)
  }

  lemma CloseBalanced(w: World, o: Owner)
    requires Owns(w, o)
    ensures var (w', o') := CloseOwner(w, o);
            Balanced(w, o, w', o', multiset{}) && Balanced(w, o, w', Gone, multiset{}) && Owns(w', o')
  {
    var (w', o') := CloseOwner(w, o);
    forall r: Resource
      ensures ResourceBalanced(w, o, w', o', r) && ResourceBalanced(w, o, w', Gone, r)
    {
      CloseResource(w, o, r);
    }
    forall n: Name
      ensures NameBalanced(w, o, w', o', multiset{}, n) && NameBalanced(w, o, w', Gone, multiset{}, n)
    {
      CloseName(w, o, n);
    }
  }

  lemma CloseResource(w: World, o: Owner, r: Resource)
    requires Owns(w, o)
    ensures ResourceBalanced(w, o, CloseOwner(w, o).0, CloseOwner(w, o).1, r) && CloseOwner(w, o).1.Holds(r) == 0
  {
  }

  lemma CloseName(w: World, o: Owner, n: Name)
    requires Owns(w, o)
    ensures NameBalanced(w, o, CloseOwner(w, o).0, CloseOwner(w, o).1, multiset{}, n)
    ensures CloseOwner(w, o).1.Pends(n) == 0
  {
  }

  lemma OpenBalanced(w: World, h: int, answer: Option<nat>)
    requires -1 <= h
    ensures var (w', h', _) := OpenHandle(w, h, answer); Balanced(w, Socket(h), w', Socket(h'), multiset{})
  {
  }

  lemma LoadBalanced(w: World, m: Memory, q: Request)
    requires Owns(w, Sharing(m))
    ensures var (w', m', _) := LoadMemory(w, m, q); Balanced(w, Sharing(m), w', Sharing(m'), Arms(w, m, q))
  {
    var (w0, m0) := CloseMemory(w, m);
    var (w', m', result) := LoadMemory(w, m, q);
    CloseBalanced(w, Sharing(m));
    LoadExits(w, m, q);
    LoadFromClosed(w0, m0, q, w', m', result, Arms(w, m, q));
    BalancedTwice(w, Sharing(m), w0, Sharing(m0), w', Sharing(m'), Arms(w, m, q));
  }

  lemma BalancedTwice(w: World, o: Owner, w': World, o': Owner, w'': World, o'': Owner, arms: multiset<Name>)
    requires Balanced(w, o, w', o', multiset{}) && Balanced(w', o', w'', o'', arms)
    ensures Balanced(w, o, w'', o'', arms)
  {
    forall r: Resource
      ensures ResourceBalanced(w, o, w'', o'', r)
    {
      assert ResourceBalanced(w, o, w', o', r) && ResourceBalanced(w', o', w'', o'', r);
    }
    forall n: Name
      ensures NameBalanced(w, o, w'', o'', arms, n)
    {
      assert NameBalanced(w, o, w', o', multiset{}, n) && NameBalanced(w', o', w'', o'', arms, n);
    }
  }

  lemma LoadFromClosed(w: World, m: Memory, q: Request, w': World, m': Memory, result: LoadResult, arms: multiset<Name>)
    requires m.Closed() && m'.Valid() && LoadOutcome(w, m, q, w', m', result)
    requires arms == if q.Opens(w) && q.deleteOnClose then multiset{q.Target().value} else multiset{}
    ensures Balanced(w, Sharing(m), w', Sharing(m'), arms)
  {
    forall r: Resource
      ensures ResourceBalanced(w, Sharing(m), w', Sharing(m'), r)
    {
      LoadResource(w, m, q, w', m', result, r);
    }
    forall n: Name
      ensures NameBalanced(w, Sharing(m), w', Sharing(m'), arms, n)
    {
      LoadName(w, m, q, w', m', result, arms, n);
    }
  }

  lemma LoadResource(w: World, m: Memory, q: Request, w': World, m': Memory, result: LoadResult, r: Resource)
    requires m.Closed() && LoadOutcome(w, m, q, w', m', result)
    ensures ResourceBalanced(w, Sharing(m), w', Sharing(m'), r)
  {
  }

  lemma LoadName(w: World, m: Memory, q: Request, w': World, m': Memory, result: LoadResult,
                 arms: multiset<Name>, n: Name)
    requires m.Closed() && LoadOutcome(w, m, q, w', m', result)
    requires arms == if q.Opens(w) && q.deleteOnClose then multiset{q.Target().value} else multiset{}
    ensures NameBalanced(w, Sharing(m), w', Sharing(m'), arms, n)
  {
  }

  lemma OwnerOwns(p: Process, i: nat)
    requires Conserved(p) && i < |p.owners|
    ensures Owns(p.world, p.owners[i])
  {
    var o := p.owners[i];
    if 0 <= o.Handle() {
      SumContains(p.owners, i, Descriptor(o.Handle()));
      assert ResourceConserved(p, Descriptor(o.Handle()));
    }
    if o.Mapped? && o.data != 0 {
      SumContains(p.owners, i, Mapping(o.data));
      assert ResourceConserved(p, Mapping(o.data));
    }
  }

  // ---------- runs ----------

  lemma StepConserves(p: Process, op: Op)
    requires Conserved(p)
    ensures Conserved(Step(p, op))
  {
    match op
    case NewMemory => AppendConserves(p, Sharing(Memory(false, false, -1, "")));
    case NewSocket => AppendConserves(p, Socket(INVALID_HANDLE));
    case Load(id, q) => if id < |p.owners| && p.owners[id].Sharing? { LoadConserves(p, id, q); }
    case MapFrom(id, size, answer) => if id < |p.owners| && p.owners[id].Sharing? { MapConserves(p, id, size, answer); }
    case OpenSocket(id, answer) => if id < |p.owners| && p.owners[id].Socket? { OpenConserves(p, id, answer); }
    case Close(id) => if id < |p.owners| { CloseConserves(p, id, CloseOwner(p.world, p.owners[id]).1); }
    case Destroy(id) => if id < |p.owners| { CloseConserves(p, id, Gone); }
    case Swap(id, other) => if id < |p.owners| && other < |p.owners| { SwapConserves(p, id, other); }
    case DeleteFileBacked(filename, granted) => NamesConserve(p, p.world.Delete(Name(Files, filename), granted).0);
    case DeleteNamed(name, granted) => NamesConserve(p, NamedDeleted(p.world, name, granted).0);
    case Outside(names) => NamesConserve(p, p.world.(names := names));
  }

  /** What exists under which name, and what was deleted directly, is of no account. */
  lemma NamesConserve(p: Process, w: World)
    requires Conserved(p) && w == p.world.(names := w.names, deletes := w.deletes)
    ensures Conserved(p.(world := w))
  {
    var p' := p.(world := w);
    assert forall r: Resource :: ResourceConserved(p, r) ==> ResourceConserved(p', r);
    assert forall n: Name :: NameConserved(p, n) ==> NameConserved(p', n);
  }

  lemma AppendConserves(p: Process, o: Owner)
    requires Conserved(p) && o.Valid() && forall r: Resource :: o.Holds(r) == 0
    requires o.Sharing? ==> o.memory.name == ""
    ensures Conserved(p.(owners := p.owners + [o]))
  {
    var p' := p.(owners := p.owners + [o]);
    assert p'.owners[..|p.owners|] == p.owners;
    forall r: Resource
      ensures ResourceConserved(p', r)
    {
      assert ResourceConserved(p, r);
    }
    forall n: Name
      ensures NameConserved(p', n)
    {
      assert NameConserved(p, n);
    }
  }

  /** A new section is an object that holds nothing, followed by what mapping does to it. */
  lemma MapConserves(p: Process, id: nat, size: nat, answer: Option<nat>)
    requires Conserved(p) && id < |p.owners| && p.owners[id].Sharing?
    ensures Conserved(Step(p, MapFrom(id, size, answer)))
  {
    var (w, data) := MapSection(p.world, p.owners[id].memory, size, answer);
    var p' := p.(owners := p.owners + [Mapped(0)]);
    AppendConserves(p, Mapped(0));
    MapBalanced(p.world, p.owners[id].memory, size, answer);
    BalancedConserves(p', |p.owners|, w, Mapped(data), multiset{});
    assert p'.owners[|p.owners| := Mapped(data)] == p.owners + [Mapped(data)];
    assert p.armed + multiset{} == p.armed;
  }

  lemma MapBalanced(w: World, m: Memory, size: nat, answer: Option<nat>)
    ensures var (w', data) := MapSection(w, m, size, answer); Balanced(w, Mapped(0), w', Mapped(data), multiset{})
  {
  }

  lemma LoadConserves(p: Process, id: nat, q: Request)
    requires Conserved(p) && id < |p.owners| && p.owners[id].Sharing?
    ensures Conserved(Step(p, Load(id, q)))
  {
    var m := p.owners[id].memory;
    var (w, m', _) := LoadMemory(p.world, m, q);
    OwnerOwns(p, id);
    LoadBalanced(p.world, m, q);
    BalancedConserves(p, id, w, Sharing(m'), Arms(p.world, m, q));
  }

  lemma OpenConserves(p: Process, id: nat, answer: Option<nat>)
    requires Conserved(p) && id < |p.owners| && p.owners[id].Socket?
    ensures Conserved(Step(p, OpenSocket(id, answer)))
  {
    var (w, h, _) := OpenHandle(p.world, p.owners[id].handle, answer);
    OwnerOwns(p, id);
    OpenBalanced(p.world, p.owners[id].handle, answer);
    BalancedConserves(p, id, w, Socket(h), multiset{});
    assert p.armed + multiset{} == p.armed;
  }

  lemma CloseConserves(p: Process, id: nat, o: Owner)
    requires Conserved(p) && id < |p.owners| && (o == CloseOwner(p.world, p.owners[id]).1 || o == Gone)
    ensures Conserved(p.(world := CloseOwner(p.world, p.owners[id]).0, owners := p.owners[id := o]))
  {
    OwnerOwns(p, id);
    CloseBalanced(p.world, p.owners[id]);
    BalancedConserves(p, id, CloseOwner(p.world, p.owners[id]).0, o, multiset{});
    assert p.armed + multiset{} == p.armed;
  }

  lemma SwapConserves(p: Process, i: nat, j: nat)
    requires Conserved(p) && i < |p.owners| && j < |p.owners|
    ensures Conserved(p.(owners := p.owners[i := p.owners[j]][j := p.owners[i]]))
  {
    var p' := p.(owners := p.owners[i := p.owners[j]][j := p.owners[i]]);
    forall r: Resource
      ensures ResourceConserved(p', r)
    {
      HeldUpdate(p.owners, i, p.owners[j], r);
      HeldUpdate(p.owners[i := p.owners[j]], j, p.owners[i], r);
      assert ResourceConserved(p, r);
    }
    forall n: Name
      ensures NameConserved(p', n)
    {
      PendingUpdate(p.owners, i, p.owners[j], n);
      PendingUpdate(p.owners[i := p.owners[j]], j, p.owners[i], n);
      assert NameConserved(p, n);
    }
  }

  /** A process that owns nothing yet, in a system where some names already exist. */
  function Idle(names: set<Name>): Process {
    Process(World({}, multiset{}, multiset{}, 0, names, multiset{}, multiset{}), [], multiset{})
  }

  /** Conservation holds after every run of calls, whatever the system answers and other processes do to the names. */
  lemma {:induction false} RunConserves(names: set<Name>, ops: seq<Op>)
    ensures Conserved(Run(Idle(names), ops))
  {
    if ops != [] {
      RunConserves(names, ops[..|ops| - 1]);
      StepConserves(Run(Idle(names), ops[..|ops| - 1]), ops[|ops| - 1]);
    }
  }

  /** No two objects of a run, of whatever kinds, hold the same descriptor or mapping, and what one holds is live. */
  lemma NothingShared(names: set<Name>, ops: seq<Op>, i: nat, j: nat, r: Resource)
    requires i < j < |Run(Idle(names), ops).owners|
    ensures var p := Run(Idle(names), ops); p.owners[i].Holds(r) + p.owners[j].Holds(r) <= Live(p.world, r) <= 1
  {
    var p := Run(Idle(names), ops);
    RunConserves(names, ops);
    TwoHolders(p.owners, i, j, r);
    assert ResourceConserved(p, r);
  }

  /** Once every object is destroyed, everything handed out was released as often, and each name unlinked once. */
  lemma NothingLeft(names: set<Name>, ops: seq<Op>)
    requires forall i :: 0 <= i < |Run(Idle(names), ops).owners| ==> Run(Idle(names), ops).owners[i].Gone?
    ensures var w := Run(Idle(names), ops).world; w.live == {} && w.opens == w.closes
    ensures Run(Idle(names), ops).armed == Run(Idle(names), ops).world.unlinks
  {
    RunConserves(names, ops);
    EmptyHanded(Run(Idle(names), ops));
  }

  lemma EmptyHanded(p: Process)
    requires Conserved(p) && forall i :: 0 <= i < |p.owners| ==> p.owners[i].Gone?
    ensures p.world.live == {} && p.world.opens == p.world.closes && p.armed == p.world.unlinks
  {
    forall r: Resource
      ensures r !in p.world.live && p.world.opens[r] == p.world.closes[r]
    {
      AllGone(p.owners, r, Name(Files, ""));
      assert ResourceConserved(p, r);
    }
    forall n: Name
      ensures p.armed[n] == p.world.unlinks[n]
    {
      AllGone(p.owners, Descriptor(0), n);
      assert NameConserved(p, n);
    }
  }

  /** A section stays mapped through every call but its own destruction, closing its shared memory included. */
  lemma SectionStaysMapped(p: Process, op: Op, i: nat)
    requires Conserved(p) && i < |p.owners| && p.owners[i].Mapped? && p.owners[i].data != 0
    requires op != Close(i) && op != Destroy(i)
    ensures i < |Step(p, op).owners| && Step(p, op).owners[i] == p.owners[i]
    ensures Mapping(p.owners[i].data) in Step(p, op).world.live
  {
    StepConserves(p, op);
    OwnerOwns(Step(p, op), i);
  }

  // ---------- what a call does to the objects ----------

  /** The objects a call works on. */
  predicate Touches(op: Op, i: nat) {
    match op
    case Load(id, _) => i == id
    case OpenSocket(id, _) => i == id
    case Close(id) => i == id
    case Destroy(id) => i == id
    case Swap(id, other) => i == id || i == other
    case _ => false
  }

  /** A call leaves every object alone but the ones it works on; closing and destroying leave theirs empty-handed. */
  lemma TouchesOnly(p: Process, op: Op, i: nat, r: Resource, n: Name)
    requires i < |p.owners|
    ensures var p' := Step(p, op);
            && i < |p'.owners|
            && (!Touches(op, i) ==> p'.owners[i] == p.owners[i])
            && (op == Close(i) || op == Destroy(i) ==> p'.owners[i].Holds(r) == 0 && p'.owners[i].Pends(n) == 0)
            && (op == Destroy(i) ==> p'.owners[i] == Gone)
  {
  }

  // ---------- creating a name again ----------

  /** The call that deletes what a request asks for. */
  function DeleteTarget(q: Request): Op {
    if q.filename.Some? then DeleteFileBacked(q.filename.value, true) else DeleteNamed(q.name, true)
  }

  /**
    A kept name cannot be created again after closing, but can be once it was deleted, when nobody else touches the
    names and the system has a descriptor to give.
   */
  lemma CreatedAgainIff(p: Process, id: nat, q: Request, deletes: bool, again: Request)
    requires Conserved(p) && id < |p.owners| && p.owners[id].Sharing?
    requires 0 < q.size && q.resizes && !q.deleteOnClose && LoadMemory(p.world, p.owners[id].memory, q).2 == Success
    requires var p' := ReadyAgain(p, id, q, deletes);
             && again == q.(answer := again.answer, existing := p'.world.names)
             && again.answer.Some? && Descriptor(again.answer.value) !in p'.world.live
    ensures var p' := ReadyAgain(p, id, q, deletes);
            && id < |p'.owners| && p'.owners[id].Sharing?
            && (LoadMemory(p'.world, p'.owners[id].memory, again).2 == Success <==> deletes)
  {
    var m := p.owners[id].memory;
    OwnerOwns(p, id);
    LoadedIff(p.world, m, q);
    KeptClosed(p, id, q);
    var p' := ReadyAgain(p, id, q, deletes);
    if deletes { TargetDeleted(Step(Step(p, Load(id, q)), Close(id)), q); }
    LoadedIff(p'.world, p'.owners[id].memory, again);
    assert again.Target() == q.Target();
  }

  lemma KeptClosed(p: Process, id: nat, q: Request)
    requires id < |p.owners| && p.owners[id].Sharing? && p.owners[id].memory.Valid() && !q.deleteOnClose
    ensures var loaded := Step(p, Load(id, q));
            var closed := Step(loaded, Close(id));
            && closed.world.names == loaded.world.names
            && id < |closed.owners| && closed.owners[id].Sharing? && closed.owners[id].memory.Closed()
  {
    var (w', m', _) := LoadMemory(p.world, p.owners[id].memory, q);
    LoadedIff(p.world, p.owners[id].memory, q);
    KeptStays(w', m');
  }

  lemma TargetDeleted(p: Process, q: Request)
    requires q.Target().Some? && q.Target().value.path != "" && q.Target().value in p.world.names
    ensures var p' := Step(p, DeleteTarget(q));
            p'.owners == p.owners && p'.world.names == p.world.names - {q.Target().value}
  {
  }

  /** Loaded, closed, and deleted or not. */
  function ReadyAgain(p: Process, id: nat, q: Request, deletes: bool): Process {
    var closed := Step(Step(p, Load(id, q)), Close(id));
    if deletes then Step(closed, DeleteTarget(q)) else closed
  }

  // ---------- where a pending name comes from ----------

  /** The load in effect on object i: the last Load made on it, unless it was closed or destroyed since. */
  function LoadInEffect(ops: seq<Op>, i: nat): Option<Request> {
    if ops == [] then None else NextLoad(LoadInEffect(ops[..|ops| - 1], i), ops[|ops| - 1], i)
  }

  function NextLoad(before: Option<Request>, op: Op, i: nat): Option<Request> {
    match op
    case Load(id, q) => if id == i then Some(q) else before
    case Close(id) => if id == i then None else before
    case Destroy(id) => if id == i then None else before
    case _ => before
  }

  /** A name waits to be unlinked only if the load in effect asked for deletion on close, and it is that load's name. */
  predicate Explained(o: Owner, load: Option<Request>) {
    o.Sharing? && o.memory.name != ""
    ==> load.Some? && load.value.deleteOnClose && load.value.Target() == Some(o.memory.Pending()) && o.Handle() != -1
  }

  lemma StepExplained(p: Process, op: Op, i: nat, load: Option<Request>)
    requires Conserved(p) && i < |Step(p, op).owners|
    requires i < |p.owners| ==> Explained(p.owners[i], load)
    ensures Explained(Step(p, op).owners[i], NextLoad(load, op, i))
  {
    match op
    case Load(id, q) => if id == i && p.owners[i].Sharing? { LoadExplained(p.world, p.owners[i].memory, q); }
    case _ =>
  }

  lemma LoadExplained(w: World, m: Memory, q: Request)
    requires m.Valid()
    ensures Explained(Sharing(LoadMemory(w, m, q).1), Some(q))
  {
    LoadExits(w, m, q);
  }

  /** In every run, each pending name is explained by the load in effect on its object. */
  lemma {:induction false} PendingIsLastLoad(names: set<Name>, ops: seq<Op>, i: nat)
    requires i < |Run(Idle(names), ops).owners|
    ensures Explained(Run(Idle(names), ops).owners[i], LoadInEffect(ops, i))
  {
    if ops != [] {
      var init := ops[..|ops| - 1];
      var p := Run(Idle(names), init);
      RunConserves(names, init);
      if i < |p.owners| {
        PendingIsLastLoad(names, init, i);
      }
      StepExplained(p, ops[|ops| - 1], i, LoadInEffect(init, i));
    }
  }
}
