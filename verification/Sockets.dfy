/** IPSocket handles: opening, closing and swapping, without the traffic. */
module Sockets {
  import opened Wrappers
  import opened Kernel

  const INVALID_HANDLE := -1

  datatype OpenAttempt = OpenOnly | OpenAndBind | OpenBindAndListen | OpenAndConnect

  /** Opens only when there is no socket yet. */
  function OpenHandle(w: World, handle: int, answer: Option<nat>): (World, int, bool) {
    if handle != INVALID_HANDLE then (w, handle, false)
    else var (w', fd) := w.OpenSocket(answer); (w', fd, fd != INVALID_HANDLE)
  }

  /** What to do after opening, with what the system will answer to each step. */
  datatype Steps = Steps(attempt: OpenAttempt, binds: bool, listens: bool, connects: bool) {
    predicate Succeed() {
      && (attempt.OpenAndBind? || attempt.OpenBindAndListen? ==> binds)
      && (attempt.OpenBindAndListen? ==> listens)
      && (attempt.OpenAndConnect? ==> connects)
    }
  }

  /** Opening with the steps after it; whatever those answer, the socket that was opened stays. */
  function OpenWith(w: World, handle: int, steps: Steps, answer: Option<nat>): (World, int, bool) {
    var (w', h, didOpen) := OpenHandle(w, handle, answer);
    (w', h, didOpen && steps.Succeed())
  }

  /** A socket is opened exactly when there was none and the system gave a new one; the result is that of every step. */
  lemma OpenInFull(w: World, handle: int, steps: Steps, answer: Option<nat>)
    ensures var (w', h, ok) := OpenWith(w, handle, steps, answer);
            var given := handle == -1 && answer.Some? && Descriptor(answer.value) !in w.live;
            && h == (if given then answer.value else handle)
            && w' == (if given
                      then w.(live := w.live + {Descriptor(answer.value)},
                              opens := w.opens + multiset{Descriptor(answer.value)})
                      else w)
            && (ok <==> given && match steps.attempt
                                 case OpenOnly => true
                                 case OpenAndBind => steps.binds
                                 case OpenBindAndListen => steps.binds && steps.listens
                                 case OpenAndConnect => steps.connects)
  {
  }

  /** Closing a live handle releases it; closing an invalid one touches nothing. */
  lemma CloseInFull(w: World, handle: int)
    ensures handle == -1 ==> w.Close(handle) == w
    ensures 0 <= handle && Descriptor(handle) in w.live
            ==> w.Close(handle)
                == w.(live := w.live - {Descriptor(handle)}, closes := w.closes + multiset{Descriptor(handle)})
  {
  }

  /** A false result leaves the object with a socket exactly when it had one, or one was opened and a step failed. */
  lemma FailedOpenIff(w: World, handle: int, steps: Steps, answer: Option<nat>)
    ensures var (_, h, ok) := OpenWith(w, handle, steps, answer);
            !ok && h != INVALID_HANDLE
            <==> handle != INVALID_HANDLE
                 || (answer.Some? && Descriptor(answer.value) !in w.live && !steps.Succeed())
  {
  }

  /** A refused bind: the result is false, the descriptor stays open, and a second attempt fails because of it. */
  lemma FailedOpenExample(w: World, binds: bool, answer: Option<nat>)
    requires Descriptor(3) !in w.live
    ensures var (w', h, ok) := OpenWith(w, INVALID_HANDLE, Steps(OpenAndBind, false, true, true), Some(3));
            && !ok && h == 3 && Descriptor(3) in w'.live
            && OpenWith(w', h, Steps(OpenAndBind, binds, true, true), answer) == (w', h, false)
  {
  }

  class IPSocket {
    var handle: int

    constructor ()
      ensures handle == INVALID_HANDLE
    {
      handle := INVALID_HANDLE;
    }

    method Open(os: System, answer: Option<nat>) returns (ok: bool)
      modifies this, os
      ensures (os.world, handle, ok) == OpenHandle(old(os.world), old(handle), answer)
    {
      if handle != INVALID_HANDLE {
        return false;
      }
      handle := os.OpenSocket(answer);
      ok := handle != INVALID_HANDLE;
    }

    /**
      Opens and then binds, listens or connects. A false result does not mean there is no socket: one that was opened
      stays open whatever the later steps answer, and has to be closed.
     */
    method OpenAddress(os: System, steps: Steps, answer: Option<nat>) returns (ok: bool)
      modifies this, os
      ensures (os.world, handle, ok) == OpenWith(old(os.world), old(handle), steps, answer)
    {
      ok := Open(os, answer);
      if ok {
        match steps.attempt {
          case OpenAndBind => ok := steps.binds;
          case OpenBindAndListen => ok := steps.binds && steps.listens;
          case OpenAndConnect => ok := steps.connects;
          case OpenOnly =>
        }
      }
    }

    /** Closes unconditionally; closing an invalid handle is an error the system reports and nobody looks at. */
    method Close(os: System)
      modifies this, os
      ensures os.world == old(os.world).Close(old(handle)) && handle == INVALID_HANDLE
    {
      os.Close(handle);
      handle := INVALID_HANDLE;
    }

    /** The destructor of AutoCloseIPSocket. */
    method Destroy(os: System)
      modifies this, os
      ensures os.world == old(os.world).Close(old(handle)) && handle == INVALID_HANDLE
    {
      if handle != INVALID_HANDLE {
        Close(os);
      }
    }

    /** Exchanges two handles by way of a copy; other may be this very socket. */
    method Swap(other: IPSocket)
      modifies this, other
      ensures handle == old(other.handle) && other.handle == old(handle)
    {
      var otherSocket := other.handle;
      other.handle := handle;
      handle := otherSocket;
    }
  }
}
