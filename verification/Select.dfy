/** IPSocket::SelectSets on POSIX: two descriptor sets with summaries of what they hold. */
module Select {
  import opened Wrappers

  const FD_SETSIZE: nat := 1024

  /** A set of descriptors: FD_SETSIZE bits, of which no others may be touched. */
  type FdSet = s: set<nat> | forall h :: h in s ==> h < FD_SETSIZE

  /** FD_SET. */
  function Include(s: FdSet, h: nat): FdSet
    requires h < FD_SETSIZE
  {
    s + {h}
  }

  /** FD_CLR. */
  function Exclude(s: FdSet, h: nat): FdSet
    requires h < FD_SETSIZE
  {
    s - {h}
  }

  /** FD_ISSET. */
  predicate IsSet(s: FdSet, h: nat)
    requires h < FD_SETSIZE
  {
    h in s
  }

  /** FD_ISSET without a test of the descriptor before it: none stands for a read outside the set. */
  function Lookup(s: FdSet, h: nat): Option<bool> {
    if h < FD_SETSIZE then Some(IsSet(s, h)) else None
  }

  /** The three bits of a SelectValue that are ever looked at or returned. */
  datatype Mask = Mask(canRead: bool, canWrite: bool, connectFailed: bool) {
    function And(m: Mask): Mask {
      Mask(canRead && m.canRead, canWrite && m.canWrite, connectFailed && m.connectFailed)
    }

    function Or(m: Mask): Mask {
      Mask(canRead || m.canRead, canWrite || m.canWrite, connectFailed || m.connectFailed)
    }

    function Not(): Mask {
      Mask(!canRead, !canWrite, !connectFailed)
    }

    /** The integer test `mask & m` taken as a condition. */
    predicate Has(m: Mask) {
      And(m) != NONE
    }
  }

  const NONE := Mask(false, false, false)
  const CAN_READ := Mask(true, false, false)
  const CAN_WRITE := Mask(false, true, false)
  const CONNECT_FAILED := Mask(false, false, true)
  const CHECK_ALL := Mask(true, true, true)

  /** SELECT_CAN_WRITE | SELECT_CONNECT_FAILED: what the write set stands for. */
  const WRITE_SIDE := Mask(false, true, true)

  /** The bits as the enumeration numbers them: 0x1, 0x2 and 0x8. */
  function OfBits(x: bv32): Mask {
    Mask(x & 0x1 != 0, x & 0x2 != 0, x & 0x8 != 0)
  }

  /** A comparison used as an integer is 0 or 1, and 1 is SELECT_CAN_READ. */
  function OfBool(b: bool): Mask {
    OfBits(if b then 1 else 0)
  }

  /** The operators on masks are the bitwise ones on the numbers. */
  lemma MaskOperators(x: bv32, y: bv32)
    ensures OfBits(x & y) == OfBits(x).And(OfBits(y)) && OfBits(x | y) == OfBits(x).Or(OfBits(y))
    ensures OfBits(!x) == OfBits(x).Not()
    ensures x & y & 0xb != 0 <==> OfBits(x).Has(OfBits(y))
    ensures OfBool(true) == CAN_READ && OfBool(false) == NONE
    ensures OfBits(0x1) == CAN_READ && OfBits(0x2) == CAN_WRITE && OfBits(0x8) == CONNECT_FAILED
    ensures OfBits(0xa) == WRITE_SIDE && OfBits(0xb) == CHECK_ALL && OfBits(0) == NONE
  {
  }

  // ---------- what the operating system answers ----------

  /** The answer select() would give: an error, or which descriptors are ready for reading and for writing. */
  datatype Readiness = Readiness(fails: bool, readable: set<nat>, writable: set<nat>)

  /** A set after select() looked at its members below nfds; the rest are not examined. */
  function Examined(s: FdSet, nfds: int, ready: set<nat>): FdSet {
    set h | h in s && (nfds <= h || h in ready)
  }

  function Below(s: FdSet, nfds: int): FdSet {
    set h | h in s && h < nfds
  }

  function SetAfter(s: Option<FdSet>, nfds: int, fails: bool, ready: set<nat>): Option<FdSet> {
    if s.None? || fails then s else Some(Examined(s.value, nfds, ready))
  }

  function Count(s: Option<FdSet>, nfds: int): nat {
    if s.None? then 0 else |Below(s.value, nfds)|
  }

  /** select(nfds, r, w, NULL, timeout): the count or -1, and the two sets it leaves behind. */
  function SelectCall(nfds: int, r: Option<FdSet>, w: Option<FdSet>, os: Readiness): (int, Option<FdSet>, Option<FdSet>)
  {
    var r', w' := SetAfter(r, nfds, os.fails, os.readable), SetAfter(w, nfds, os.fails, os.writable);
    (if os.fails then -1 else Count(r', nfds) + Count(w', nfds), r', w')
  }

  // ---------- the class ----------

  /** A socket can be added for something, and its descriptor fits the sets. */
  predicate Accepts(h: nat, toMonitor: Mask) {
    toMonitor.Has(CHECK_ALL) && h < FD_SETSIZE
  }

  predicate AtMost(s: FdSet, max: nat) {
    forall h :: h in s ==> h <= max
  }

  /** The four fields. */
  datatype State = State(readSet: FdSet, writeSet: FdSet, max: nat, checks: Mask) {
    /** The summaries never hide a monitored socket. */
    ghost predicate Valid() {
      && max < FD_SETSIZE && AtMost(readSet, max) && AtMost(writeSet, max)
      && (readSet != {} ==> checks.Has(CAN_READ))
      && (writeSet != {} ==> checks.Has(WRITE_SIDE))
    }

    function AddSocket(h: nat, toMonitor: Mask): (State, bool) {
      if !Accepts(h, toMonitor) then (this, false)
      else
        (State(if toMonitor.Has(CAN_READ) then Include(readSet, h) else readSet,
               if toMonitor.Has(WRITE_SIDE) then Include(writeSet, h) else writeSet,
               if max < h then h else max,
               checks.Or(toMonitor.And(CHECK_ALL))),
         true)
    }

    function RemoveSocket(h: nat, toMonitor: Mask): State {
      if FD_SETSIZE <= h then this
      else this.(readSet := if toMonitor.Has(CAN_READ) then Exclude(readSet, h) else readSet,
                 writeSet := if toMonitor.Has(WRITE_SIDE) then Exclude(writeSet, h) else writeSet)
    }

    function Wait(os: Readiness): (State, int) {
      var (count, r, w) := SelectCall(max + 1,
                                      if checks.Has(CAN_READ) then Some(readSet) else None,
                                      if checks.Has(WRITE_SIDE) then Some(writeSet) else None, os);
      (this.(readSet := if r.Some? then r.value else readSet, writeSet := if w.Some? then w.value else writeSet), count)
    }

    /** TestSocket on a socket with a pending error: the answer, unless it looks outside a set, and the error then. */
    function Test(h: nat, check: Mask, error: int): (Option<Mask>, int) {
      if h < FD_SETSIZE then
        (Some(Tested(check, h in readSet, h in writeSet, error)), if Consults(check, h in writeSet) then 0 else error)
      else (if check.Has(CHECK_ALL) then None else Some(NONE), error)
    }

    function Wanted(h: nat, check: Mask, error: int): Mask {
      WantedOf(check, h in readSet, h in writeSet, error)
    }
  }

  class SelectSets {
    var readSet: FdSet
    var writeSet: FdSet
    var max: nat
    var checks: Mask

    function View(): State
      reads this
    {
      State(readSet, writeSet, max, checks)
    }

    constructor ()
      ensures View() == State({}, {}, 0, NONE) && View().Valid()
    {
      readSet, writeSet, max, checks := {}, {}, 0, NONE;
    }

    /** Monitors a socket; a refusal changes nothing. */
    method AddSocket(h: nat, toMonitor: Mask) returns (ok: bool)
      requires View().Valid()
      modifies this
      ensures (View(), ok) == old(View()).AddSocket(h, toMonitor)
      ensures View().Valid()
    {
      if !toMonitor.Has(CHECK_ALL) || h >= FD_SETSIZE {
        return false;
      }
      if h > max {
        max := h;
      }
      if toMonitor.Has(CAN_READ) {
        readSet := Include(readSet, h);
      }
      if toMonitor.Has(WRITE_SIDE) {
        writeSet := Include(writeSet, h);
      }
      checks := checks.Or(toMonitor.And(CHECK_ALL));
      ok := true;
    }

    method RemoveSocket(h: nat, toMonitor: Mask)
      requires View().Valid()
      modifies this
      ensures View() == old(View()).RemoveSocket(h, toMonitor)
      ensures View().Valid()
    {
      if h >= FD_SETSIZE {
        return;
      }
      if toMonitor.Has(CAN_READ) {
        readSet := Exclude(readSet, h);
      }
      if toMonitor.Has(WRITE_SIDE) {
        writeSet := Exclude(writeSet, h);
      }
    }

    /** Waits; os is what the operating system would report for every descriptor. */
    method Wait(os: Readiness) returns (count: int)
      requires View().Valid()
      modifies this
      ensures (View(), count) == old(View()).Wait(os)
      ensures (View(), count) == WaitOnAll(old(View()), os)
      ensures View().Valid()
    {
      var r := if checks.Has(CAN_READ) then Some(readSet) else None;
      var w := if checks.Has(WRITE_SIDE) then Some(writeSet) else None;
      var (n, r', w') := SelectCall(max + 1, r, w, os);
      WaitHidesNothing(View(), os);
      if r'.Some? { readSet := r'.value; }
      if w'.Some? { writeSet := w'.value; }
      count := n;
    }

    /**
      Tests a socket after Wait. No result means that it has looked at a bit outside a set, which happens for every
      descriptor that does not fit unless nothing is asked; otherwise the result is the one wanted in exactly the cases
      stated.
     */
    method TestSocket(socket: TestedSocket, checkResult: Mask) returns (result: Option<Mask>)
      modifies socket
      ensures (result, socket.error) == View().Test(socket.handle, checkResult, old(socket.error))
      ensures result.Some? <==> socket.handle < FD_SETSIZE || !checkResult.Has(CHECK_ALL)
      ensures socket.handle < FD_SETSIZE
              ==> (result == Some(View().Wanted(socket.handle, checkResult, old(socket.error)))
                   <==> TestIsExact(checkResult, socket.handle in readSet, socket.handle in writeSet,
                                    old(socket.error)))
    {
      TestExact(View(), socket.handle, checkResult, socket.error);
      var h, check := socket.handle, checkResult;
      if check.Has(CONNECT_FAILED) {
        var inWrite :- Lookup(writeSet, h);
        if check.Has(OfBool(!inWrite)) {
          check := check.And(WRITE_SIDE.Not());
        } else {
          var error := socket.GetError();
          check := if error == 0 then CONNECT_FAILED.Not() else CAN_WRITE.Not();
        }
      } else if check.Has(CAN_WRITE) {
        var inWrite :- Lookup(writeSet, h);
        if !inWrite {
          check := check.And(CAN_WRITE.Not());
        }
      }
      if check.Has(CAN_READ) {
        var inRead :- Lookup(readSet, h);
        if !inRead {
          check := check.And(CAN_READ.Not());
        }
      }
      result := Some(check.And(CHECK_ALL));
    }

    /**
      TestSocket with its three slips mended: it refuses a descriptor that does not fit, asks whether the socket is set,
      and clears bits instead of overwriting them.
     */
    method TestSocketRepaired(socket: TestedSocket, checkResult: Mask) returns (result: Mask)
      modifies socket
      ensures result == View().Wanted(socket.handle, checkResult, old(socket.error))
      ensures socket.error
              == if checkResult.Has(CONNECT_FAILED) && socket.handle in writeSet then 0 else old(socket.error)
    {
      var h, check := socket.handle, checkResult;
      if h >= FD_SETSIZE {
        return NONE;
      }
      if check.Has(CONNECT_FAILED) {
        if !IsSet(writeSet, h) {
          check := check.And(WRITE_SIDE.Not());
        } else {
          var error := socket.GetError();
          check := check.And(if error == 0 then CONNECT_FAILED.Not() else CAN_WRITE.Not());
        }
      } else if check.Has(CAN_WRITE) && !IsSet(writeSet, h) {
        check := check.And(CAN_WRITE.Not());
      }
      if check.Has(CAN_READ) && !IsSet(readSet, h) {
        check := check.And(CAN_READ.Not());
      }
      result := check.And(CHECK_ALL);
    }
  }

  /** A socket as TestSocket sees it: its descriptor, and the error the system keeps for it. */
  class TestedSocket {
    const handle: nat
    var error: int

    constructor (handle: nat, error: int)
      ensures this.handle == handle && this.error == error
    {
      this.handle, this.error := handle, error;
    }

    /** Reading SO_ERROR clears it. */
    method GetError() returns (e: int)
      modifies this
      ensures e == old(error) && error == 0
    {
      e := error;
      error := 0;
    }
  }

  // ---------- the calls in full ----------

  /** A socket is accepted exactly when it fits and is added for something, and is then in the sets it was added to. */
  lemma AddInFull(s: State, h: nat, m: Mask)
    ensures var (t, ok) := s.AddSocket(h, m);
            && (ok <==> h < FD_SETSIZE && (m.canRead || m.canWrite || m.connectFailed))
            && (!ok ==> t == s)
            && (ok ==>
                  && (forall x :: x in t.readSet <==> x in s.readSet || (x == h && m.canRead))
                  && (forall x :: x in t.writeSet <==> x in s.writeSet || (x == h && (m.canWrite || m.connectFailed)))
                  && s.max <= t.max && h <= t.max && (t.max == s.max || t.max == h)
                  && (t.checks.canRead <==> s.checks.canRead || m.canRead)
                  && (t.checks.canWrite <==> s.checks.canWrite || m.canWrite)
                  && (t.checks.connectFailed <==> s.checks.connectFailed || m.connectFailed))
  {
  }

  /** Removing takes exactly this socket out of exactly the sets asked about, and leaves the summaries. */
  lemma RemoveInFull(s: State, h: nat, m: Mask)
    ensures var t := s.RemoveSocket(h, m);
            && (forall x :: x in t.readSet <==> x in s.readSet && !(x == h && m.canRead))
            && (forall x :: x in t.writeSet <==> x in s.writeSet && !(x == h && (m.canWrite || m.connectFailed)))
            && t.max == s.max && t.checks == s.checks
  {
  }

  /** Waiting leaves the sockets that are ready and counts them; a failure changes nothing and is reported as -1. */
  lemma WaitInFull(s: State, os: Readiness)
    requires s.Valid()
    ensures var (t, count) := s.Wait(os);
            && t.max == s.max && t.checks == s.checks
            && (os.fails ==> count == -1 && t == s)
            && (!os.fails ==>
                  && t.readSet == s.readSet * os.readable && t.writeSet == s.writeSet * os.writable
                  && count == |s.readSet * os.readable| + |s.writeSet * os.writable|)
  {
    WaitRefinesWatched(s, os);
  }

  /**
    What TestSocket answers. Asked about a failed connection, and either not about reading or about a socket in the write
    set, it forgets the rest of the question: it says whether the socket is in the read set and whether there is an
    error, which it has then read. Otherwise it answers what was asked. For a descriptor that does not fit it has an
    answer only when nothing was asked.
   */
  lemma TestInFull(s: State, h: nat, check: Mask, error: int)
    ensures var inRead, inWrite := h in s.readSet, h in s.writeSet;
            var overwritten := check.connectFailed && (!check.canRead || inWrite);
            s.Test(h, check, error)
            == if FD_SETSIZE <= h then
                 (if check.canRead || check.canWrite || check.connectFailed then None
                  else Some(Mask(false, false, false)), error)
               else if overwritten then (Some(Mask(inRead, error == 0, error != 0)), 0)
               else (Some(Mask(check.canRead && inRead, check.canWrite && inWrite, false)), error)
  {
  }

  /** The values that were asked for and hold: a socket in the write set has connected or, with an error, failed to. */
  lemma WantedInFull(s: State, h: nat, check: Mask, error: int)
    ensures var inRead, inWrite := h in s.readSet, h in s.writeSet;
            s.Wanted(h, check, error)
            == Mask(check.canRead && inRead,
                    check.canWrite && inWrite && (check.connectFailed ==> error == 0),
                    check.connectFailed && inWrite && error != 0)
  {
  }

  // ---------- the summaries hide nothing ----------

  lemma AddKeepsValid(s: State, h: nat, toMonitor: Mask)
    requires s.Valid()
    ensures s.AddSocket(h, toMonitor).0.Valid()
  {
  }

  /** What waiting is for: select() over every possible descriptor, with both sets passed. */
  function WaitOnAll(s: State, os: Readiness): (State, int) {
    var (count, r, w) := SelectCall(FD_SETSIZE, Some(s.readSet), Some(s.writeSet), os);
    (s.(readSet := r.value, writeSet := w.value), count)
  }

  lemma WaitHidesNothing(s: State, os: Readiness)
    requires s.Valid()
    ensures s.Wait(os) == WaitOnAll(s, os)
    ensures s.Wait(os).0.Valid()
  {
    SetsAgree(s.readSet, s.max, os.readable);
    SetsAgree(s.writeSet, s.max, os.writable);
    assert Examined({}, FD_SETSIZE, os.readable) == {} == Examined({}, FD_SETSIZE, os.writable);
    assert Below({}, FD_SETSIZE) == {};
  }

  lemma SetsAgree(s: set<nat>, max: nat, ready: set<nat>)
    requires forall h :: h in s ==> h <= max < FD_SETSIZE
    ensures Examined(s, max + 1, ready) == Examined(s, FD_SETSIZE, ready) <= s
    ensures Below(Examined(s, max + 1, ready), max + 1) == Below(Examined(s, FD_SETSIZE, ready), FD_SETSIZE)
  {
  }

  // ---------- whole runs ----------

  datatype Op = Add(h: nat, toMonitor: Mask) | Remove(h: nat, toMonitor: Mask) | Wait(os: Readiness)

  /** What the caller sees of one call. */
  datatype Seen = Accepted(ok: bool) | Removed | Reported(count: int)

  function Step(s: State, op: Op): (State, Seen) {
    match op
    case Add(h, m) => var (t, ok) := s.AddSocket(h, m); (t, Accepted(ok))
    case Remove(h, m) => (s.RemoveSocket(h, m), Removed)
    case Wait(os) => var (t, n) := s.Wait(os); (t, Reported(n))
  }

  function Run(ops: seq<Op>): (State, seq<Seen>) {
    if ops == [] then (State({}, {}, 0, NONE), [])
    else
      var (s, seen) := Run(ops[..|ops| - 1]);
      var (t, last) := Step(s, ops[|ops| - 1]);
      (t, seen + [last])
  }

  /** The specification: two plain sets of sockets to watch, without summaries. */
  datatype Watched = Watched(reading: set<nat>, writing: set<nat>)

  function Watch(s: Watched, op: Op): (Watched, Seen) {
    match op
    case Add(h, m) =>
      var ok := h < FD_SETSIZE && (m.canRead || m.canWrite || m.connectFailed);
      (Watched(if ok && m.canRead then s.reading + {h} else s.reading,
               if ok && (m.canWrite || m.connectFailed) then s.writing + {h} else s.writing), Accepted(ok))
    case Remove(h, m) =>
      (Watched(if m.canRead then s.reading - {h} else s.reading,
               if m.canWrite || m.connectFailed then s.writing - {h} else s.writing), Removed)
    case Wait(os) =>
      if os.fails then (s, Reported(-1))
      else
        var r, w := s.reading * os.readable, s.writing * os.writable;
        (Watched(r, w), Reported(|r| + |w|))
  }

  function WatchRun(ops: seq<Op>): (Watched, seq<Seen>) {
    if ops == [] then (Watched({}, {}), [])
    else
      var (s, seen) := WatchRun(ops[..|ops| - 1]);
      var (t, last) := Watch(s, ops[|ops| - 1]);
      (t, seen + [last])
  }

  /** Over every run of calls the class answers exactly as the two plain sets do, and its invariant holds. */
  lemma {:induction false} RunRefinesWatched(ops: seq<Op>)
    ensures var (s, seen) := Run(ops);
            var (t, expected) := WatchRun(ops);
            s.Valid() && seen == expected && s.readSet == t.reading && s.writeSet == t.writing
  {
    if ops != [] {
      RunRefinesWatched(ops[..|ops| - 1]);
      StepRefinesWatched(Run(ops[..|ops| - 1]).0, ops[|ops| - 1]);
    }
  }

  lemma StepRefinesWatched(s: State, op: Op)
    requires s.Valid()
    ensures var (t, seen) := Step(s, op);
            t.Valid() && (Watched(t.readSet, t.writeSet), seen) == Watch(Watched(s.readSet, s.writeSet), op)
  {
    match op
    case Add(h, m) => AddKeepsValid(s, h, m);
    case Remove(h, m) =>
      assert h >= FD_SETSIZE ==> s.readSet - {h} == s.readSet && s.writeSet - {h} == s.writeSet;
    case Wait(os) => WaitRefinesWatched(s, os);
  }

  lemma WaitRefinesWatched(s: State, os: Readiness)
    requires s.Valid()
    ensures var (t, n) := s.Wait(os);
            t.Valid() && (Watched(t.readSet, t.writeSet), Reported(n))
               == Watch(Watched(s.readSet, s.writeSet), Wait(os))
  {
    WaitHidesNothing(s, os);
    ExaminedIsReady(s.readSet, os.readable);
    ExaminedIsReady(s.writeSet, os.writable);
  }

  lemma ExaminedIsReady(s: set<nat>, ready: set<nat>)
    requires forall h :: h in s ==> h < FD_SETSIZE
    ensures Examined(s, FD_SETSIZE, ready) == s * ready == Below(Examined(s, FD_SETSIZE, ready), FD_SETSIZE)
  {
  }

  // ---------- TestSocket ----------

  /** What TestSocket computes from the mask, the two set memberships and the pending error. */
  function Tested(check: Mask, inRead: bool, inWrite: bool, error: int): Mask {
    var written :=
      if check.Has(CONNECT_FAILED) then
        if check.Has(CAN_READ) && !inWrite then check.And(WRITE_SIDE.Not())
        else if error == 0 then CONNECT_FAILED.Not() else CAN_WRITE.Not()
      else if !inWrite then check.And(CAN_WRITE.Not()) else check;
    (if inRead then written else written.And(CAN_READ.Not())).And(CHECK_ALL)
  }

  /** Whether TestSocket gets as far as reading the pending error, which clears it. */
  predicate Consults(check: Mask, inWrite: bool) {
    check.Has(CONNECT_FAILED) && (inWrite || !check.Has(CAN_READ))
  }

  /** What a socket is ready for: connected when writable without an error, failed when writable with one. */
  function Ready(inRead: bool, inWrite: bool, error: int): Mask {
    Mask(inRead, inWrite && error == 0, inWrite && error != 0)
  }

  /** Without the connect-failed bit the pending error is not consulted, and writable means writable. */
  function WantedOf(check: Mask, inRead: bool, inWrite: bool, error: int): Mask {
    check.And(Ready(inRead, inWrite, if !check.Has(CONNECT_FAILED) then 0 else error))
  }

  /** The calls TestSocket answers as meant, in terms of the mask and what it finds. */
  predicate TestIsExact(check: Mask, inRead: bool, inWrite: bool, error: int) {
    if !check.Has(CONNECT_FAILED) || check == CHECK_ALL then true
    else if check.Has(CAN_READ) then !inWrite || error != 0
    else if check.Has(CAN_WRITE) then inWrite && !inRead
    else inWrite && !inRead && error != 0
  }

  lemma TestExactIff(check: Mask, inRead: bool, inWrite: bool, error: int)
    ensures Tested(check, inRead, inWrite, error) == WantedOf(check, inRead, inWrite, error)
            <==> TestIsExact(check, inRead, inWrite, error)
  {
  }

  lemma TestExact(s: State, h: nat, check: Mask, error: int)
    ensures h < FD_SETSIZE
            ==> (s.Test(h, check, error).0 == Some(s.Wanted(h, check, error))
                 <==> TestIsExact(check, h in s.readSet, h in s.writeSet, error))
  {
    TestExactIff(check, h in s.readSet, h in s.writeSet, error);
  }

  /** TestSocket looks at bits of the sets only if and only if the descriptor fits or nothing is asked about it. */
  lemma LooksInsideIff(s: State, h: nat, check: Mask, error: int)
    ensures s.Test(h, check, error).0.Some? <==> h < FD_SETSIZE || !check.Has(CHECK_ALL)
  {
  }

  /** A socket that AddSocket has just refused, tested for reading, is looked for outside the set. */
  lemma RefusedExample(s: State, error: int)
    ensures s.AddSocket(1500, CAN_READ) == (s, false) && s.Test(1500, CAN_READ, error).0 == None
  {
  }

  /**
    A second test of a socket answers as if the first had not been made if and only if there was no pending error or one
    of the two does not read it.
   */
  lemma SecondTestIff(s: State, h: nat, first: Mask, second: Mask, error: int)
    requires h < FD_SETSIZE
    ensures s.Test(h, second, s.Test(h, first, error).1).0 == s.Test(h, second, error).0
            <==> error == 0 || !Consults(first, h in s.writeSet) || !Consults(second, h in s.writeSet)
  {
    ErrorShows(second, h in s.readSet, h in s.writeSet, error);
  }

  /** Whoever reads the pending error gives an answer that depends on it. */
  lemma ErrorShows(check: Mask, inRead: bool, inWrite: bool, error: int)
    ensures Tested(check, inRead, inWrite, error) == Tested(check, inRead, inWrite, 0)
            <==> error == 0 || !Consults(check, inWrite)
  {
  }

  /** A failed connection tested twice for everything has failed the first time and is connected the second. */
  lemma SecondTestExample(s: State, h: nat, error: int)
    requires h < FD_SETSIZE && h in s.writeSet && h !in s.readSet && error != 0
    ensures s.Test(h, CHECK_ALL, error) == (Some(CONNECT_FAILED), 0) && s.Test(h, CHECK_ALL, 0) == (Some(CAN_WRITE), 0)
  {
  }

  /** After this run, which ends in a wait that did not fail, this test is answered as meant. */
  ghost predicate TestedRight(check: Mask, ops: seq<Op>, os: Readiness, h: nat, error: int) {
    var s := Run(ops + [Wait(os)]).0;
    s.Test(h, check, error).0 == Some(s.Wanted(h, check, error))
  }

  /**
    The masks for which TestSocket can be trusted about every descriptor that fits, whatever run of calls led to the
    wait before it: those without the connect-failed bit, and the one with all three.
   */
  lemma TrustedMasks(check: Mask)
    ensures (forall ops: seq<Op>, os: Readiness, h: nat, error: int ::
               !os.fails && h < FD_SETSIZE ==> TestedRight(check, ops, os, h, error))
            <==> !check.Has(CONNECT_FAILED) || check == CHECK_ALL
  {
    forall ops: seq<Op>, os: Readiness, h: nat, error: int
      | h < FD_SETSIZE && (!check.Has(CONNECT_FAILED) || check == CHECK_ALL)
      ensures TestedRight(check, ops, os, h, error)
    {
      TestExact(Run(ops + [Wait(os)]).0, h, check, error);
    }
    if check.Has(CONNECT_FAILED) && check != CHECK_ALL {
      var ops, os := if check.Has(CAN_READ) then [Add(3, CAN_WRITE)] else [], Readiness(false, {}, {3});
      AddOneThenWait(ops, os);
      TestExact(Run(ops + [Wait(os)]).0, 3, check, 0);
      assert !TestedRight(check, ops, os, 3, 0);
    }
  }

  lemma AddOneThenWait(ops: seq<Op>, os: Readiness)
    requires (ops == [] || ops == [Add(3, CAN_WRITE)]) && os == Readiness(false, {}, {3})
    ensures var s := Run(ops + [Wait(os)]).0; s.readSet == {} && s.writeSet == if ops == [] then {} else {3}
  {
    var run := ops + [Wait(os)];
    assert run[..|ops|] == ops && (ops != [] ==> ops[..0] == []);
    RunRefinesWatched(run);
    RunRefinesWatched(ops);
    var none: set<nat> := {};
    assert none + {3} == {3};
  }
}
