/** The emulated SendMultiple and ReceiveMultiple: one system call per message until one fails. */
module Messages {
  type Payload = seq<nat>

  datatype MessageResult = MessageResult(result: int, error: int) {
    predicate Failed() { result < 0 }
  }

  /** What the system answers to one sendmsg or recvmsg: bytes or a negative value, errno, and what was received. */
  datatype Answer = Answer(result: int, errno: int, truncated: bool, data: Payload)

  /** A message of a multi-message call with its own result. */
  datatype Part = Part(message: Payload, result: int)

  /** An error number; zero stands for no error. */
  type Errno = n: int | n != 0 witness 1

  /** EAGAIN and EMSGSIZE. */
  datatype Errors = Errors(again: Errno, size: Errno)

  /** A socket's wire: the answers still to come, and the messages the system has taken, in order. */
  datatype Wire = Wire(answers: seq<Answer>, sent: seq<Payload>, errors: Errors) {
    /** The next answer; a wire that has nothing more to say would block. */
    function Next(): Answer {
      if answers == [] then Answer(-1, errors.again, false, []) else answers[0]
    }

    function Rest(): Wire {
      this.(answers := if answers == [] then [] else answers[1..])
    }

    /** What receiving one message returns: a truncated one succeeds with a size error. */
    function ReceiveResult(): MessageResult {
      MessageResult(Next().result,
                    if Next().result < 0 then Next().errno else if Next().truncated then errors.size else 0)
    }

    /** The same answers to come without their truncation flags. */
    function Unflagged(): Wire {
      this.(answers := seq(|answers|, i requires 0 <= i < |answers| => answers[i].(truncated := false)))
    }

    function Send(m: Payload): Wire {
      Rest().(sent := if Next().result < 0 then sent else sent + [m])
    }
  }

  // ---------- what one multi-message call amounts to ----------

  /** How many of the next n calls succeed before the first failure. */
  function Prefix(w: Wire, n: nat): (k: nat)
    ensures k <= n
    decreases n
  {
    if n == 0 || w.Next().result < 0 then 0 else 1 + Prefix(w.Rest(), n - 1)
  }

  /** The wire after n calls. */
  function After(w: Wire, n: nat): Wire {
    if n == 0 then w else After(w, n - 1).Rest()
  }

  /** The count of the successful prefix and the first failure's error; -1 when the first message already failed. */
  function Outcome(w: Wire, length: int): MessageResult {
    if length <= 0 then MessageResult(length, 0)
    else
      var k := Prefix(w, length);
      if k == length then MessageResult(length, 0)
      else MessageResult(if k == 0 then -1 else k, After(w, k).Next().errno)
  }

  lemma {:induction false} AfterRest(w: Wire, n: nat)
    ensures After(w.Rest(), n) == After(w, n + 1)
    ensures After(w, n).sent == w.sent
  {
    if n > 0 { AfterRest(w, n - 1); }
  }

  /** Exactly the calls before the prefix's end succeed. */
  lemma {:induction false} PrefixIsFirstFailure(w: Wire, n: nat)
    ensures AllSucceed(w, Prefix(w, n))
    ensures Prefix(w, n) < n ==> After(w, Prefix(w, n)).Next().result < 0
    decreases n
  {
    if n > 0 && w.Next().result >= 0 {
      var k := Prefix(w.Rest(), n - 1);
      PrefixIsFirstFailure(w.Rest(), n - 1);
      AfterRest(w, k);
      forall i | 0 < i <= k
        ensures After(w, i) == After(w.Rest(), i - 1)
      {
        AfterRest(w, i - 1);
      }
    }
  }

  predicate AllSucceed(w: Wire, n: nat) {
    forall i :: 0 <= i < n ==> After(w, i).Next().result >= 0
  }

  /** The prefix is the only place with successes before it and a failure, or the end, at it. */
  lemma PrefixAt(w: Wire, n: nat, k: nat)
    requires k <= n && AllSucceed(w, k) && (k == n || After(w, k).Next().result < 0)
    ensures Prefix(w, n) == k
  {
    PrefixIsFirstFailure(w, n);
  }

  /** The number of messages at the head of a call that are to be counted on: none after an error result. */
  function Taken(r: MessageResult): nat {
    if r.Failed() then 0 else r.result
  }

  /** The wire after a call on n messages: the answers up to and including the first failure are used up. */
  function Consumed(w: Wire, n: nat): Wire {
    var k := Prefix(w, n);
    After(w, if k < n then k + 1 else k)
  }

  /** The wire after the first n of the messages ms were taken. */
  function Sent(w: Wire, ms: seq<Payload>, n: nat): Wire
    requires n <= |ms|
  {
    After(w, n).(sent := w.sent + ms[..n])
  }

  /** SendMultiple on the messages ms: the wire it leaves and what it returns. */
  function SendCall(w: Wire, ms: seq<Payload>): (Wire, MessageResult) {
    (Consumed(w, |ms|).(sent := w.sent + ms[..Prefix(w, |ms|)]), Outcome(w, |ms|))
  }

  /** A call on a negative number of messages fails without an error, and so does one whose first errno is zero. */
  lemma FailedWithoutErrorIff(w: Wire, length: int)
    ensures var r := Outcome(w, length);
            r.Failed() && r.error == 0 <==> length < 0 || (length > 0 && w.Next().result < 0 && w.Next().errno == 0)
  {
    if length > 0 { PrefixIsFirstFailure(w, length); }
  }

  /** The call SendMultiple(parts, -1) fails on every wire, and without an error. */
  lemma NegativeLengthExample(w: Wire)
    ensures Outcome(w, -1) == MessageResult(-1, 0) && Outcome(w, -1).Failed()
  {
  }

  // ---------- the calls in full ----------

  lemma {:induction false} AnswersAfter(w: Wire, n: nat)
    ensures After(w, n) == w.(answers := if n < |w.answers| then w.answers[n..] else [])
  {
    if n > 0 { AnswersAfter(w, n - 1); }
  }

  /** One call: the answer given, its errno only if it failed, and a size error beside a truncated datagram. */
  lemma CallInFull(w: Wire, m: Payload)
    ensures var a := if w.answers == [] then Answer(-1, w.errors.again, false, []) else w.answers[0];
            var rest := if w.answers == [] then [] else w.answers[1..];
            && w.Next() == a && w.Rest() == w.(answers := rest)
            && w.ReceiveResult()
               == MessageResult(a.result, if a.result < 0 then a.errno else if a.truncated then w.errors.size else 0)
            && w.Send(m) == w.(answers := rest, sent := if a.result < 0 then w.sent else w.sent + [m])
  {
  }

  /**
    A call on several messages, with k the number of answers before the first failure: the length when none of them
    fails, and otherwise k, or -1 when k is zero, with the failure's errno. It uses up the answers it got.
   */
  lemma OutcomeInFull(w: Wire, length: nat, k: nat)
    requires k <= length && k <= |w.answers| && forall i :: 0 <= i < k ==> w.answers[i].result >= 0
    requires k < length && k < |w.answers| ==> w.answers[k].result < 0
    ensures Outcome(w, length)
         == if k == length then MessageResult(length, 0)
            else MessageResult(if k == 0 then -1 else k,
                               if k < |w.answers| then w.answers[k].errno else w.errors.again)
    ensures Consumed(w, length)
         == w.(answers := if k < length && k < |w.answers| then w.answers[k + 1..] else w.answers[k..])
    ensures Prefix(w, length) == k && Count(length) == length
  {
    forall i: nat
      ensures After(w, i) == w.(answers := if i < |w.answers| then w.answers[i..] else [])
    {
      AnswersAfter(w, i);
    }
    PrefixAt(w, length, k);
  }

  /** A call on no messages, or on a negative number of them, returns its length and makes no call. */
  lemma NothingToCall(w: Wire, length: int)
    requires length <= 0
    ensures Outcome(w, length) == MessageResult(length, 0) && Count(length) == 0 && Consumed(w, 0) == w
  {
  }

  /** What is stored: the results, and for receiving the data, of the first n answers, from an offset on. */
  lemma StoredInFull(w: Wire, parts: seq<Part>, from: nat, n: nat)
    requires from + n <= |parts| && n <= |w.answers|
    ensures Contents(parts) == seq(|parts|, i requires 0 <= i < |parts| => parts[i].message)
    ensures |Filled(parts, from, w, n)| == |Received(parts, from, w, n)| == |parts|
    ensures forall i :: 0 <= i < |parts| ==>
              if from <= i < from + n then
                && Filled(parts, from, w, n)[i] == Part(parts[i].message, w.answers[i - from].result)
                && Received(parts, from, w, n)[i] == Part(w.answers[i - from].data, w.answers[i - from].result)
              else Filled(parts, from, w, n)[i] == Received(parts, from, w, n)[i] == parts[i]
  {
    forall i: nat
      ensures After(w, i) == w.(answers := if i < |w.answers| then w.answers[i..] else [])
    {
      AnswersAfter(w, i);
    }
  }

  /** What is sent: the first k messages, where k is the number of answers before the first failure. */
  lemma SentInFull(w: Wire, ms: seq<Payload>, k: nat)
    requires k <= |ms| && k <= |w.answers| && forall i :: 0 <= i < k ==> w.answers[i].result >= 0
    requires k < |ms| && k < |w.answers| ==> w.answers[k].result < 0
    ensures SendCall(w, ms).0.sent == w.sent + ms[..k] && SendCall(w, ms).0.answers == Consumed(w, |ms|).answers
    ensures SendCall(w, ms).1 == Outcome(w, |ms|)
  {
    forall i: nat
      ensures After(w, i) == w.(answers := if i < |w.answers| then w.answers[i..] else [])
    {
      AnswersAfter(w, i);
    }
    PrefixAt(w, |ms|, k);
  }

  // ---------- truncated datagrams ----------

  /** Some datagram counted by a call on n messages was truncated. */
  ghost predicate Truncates(w: Wire, n: nat) {
    exists i :: 0 <= i < Prefix(w, n) && After(w, i).Next().truncated
  }

  /**
    Receiving one by one, a truncated datagram is known by its size error. A call that counts one reports the size error
    if and only if the message that ended it failed with that very error; otherwise nothing tells of the truncation.
   */
  lemma TruncationReportedIff(w: Wire, length: int)
    requires Truncates(w, Count(length))
    ensures var k := Prefix(w, Count(length));
            Outcome(w, length).error == w.errors.size
            <==> k < length && After(w, k).Next().errno == w.errors.size
    ensures exists i :: 0 <= i < Prefix(w, Count(length))
              && After(w, i).ReceiveResult() == MessageResult(After(w, i).Next().result, w.errors.size)
  {
    var i :| 0 <= i < Prefix(w, Count(length)) && After(w, i).Next().truncated;
    PrefixIsFirstFailure(w, Count(length));
    ErrorsStay(w, i);
  }

  lemma {:induction false} ErrorsStay(w: Wire, n: nat)
    ensures After(w, n).errors == w.errors
  {
    if n > 0 { ErrorsStay(w, n - 1); }
  }

  /** A call's result and what it stores are the same whether or not datagrams were truncated. */
  lemma TruncationInvisible(w: Wire, length: int, parts: seq<Part>, from: nat)
    requires from + Count(length) <= |parts|
    ensures Outcome(w.Unflagged(), length) == Outcome(w, length)
    ensures var k := Prefix(w, Count(length));
            Prefix(w.Unflagged(), Count(length)) == k
            && Received(parts, from, w.Unflagged(), k) == Received(parts, from, w, k)
  {
    UnflaggedPrefix(w, Count(length));
    forall i: nat
      ensures After(w.Unflagged(), i).Next() == After(w, i).Next().(truncated := false)
    {
      UnflaggedAfter(w, i);
      UnflaggedRest(After(w, i));
    }
  }

  lemma {:induction false} UnflaggedAfter(w: Wire, n: nat)
    ensures After(w.Unflagged(), n) == After(w, n).Unflagged()
  {
    if n > 0 {
      UnflaggedAfter(w, n - 1);
      UnflaggedRest(After(w, n - 1));
    }
  }

  lemma UnflaggedRest(w: Wire)
    ensures w.Unflagged().Rest() == w.Rest().Unflagged()
    ensures w.Unflagged().Next() == w.Next().(truncated := false)
  {
  }

  lemma {:induction false} UnflaggedPrefix(w: Wire, n: nat)
    ensures Prefix(w.Unflagged(), n) == Prefix(w, n)
    decreases n
  {
    UnflaggedRest(w);
    if n > 0 { UnflaggedPrefix(w.Rest(), n - 1); }
  }

  /** One truncated datagram: receiving it alone gives a size error, receiving it as a call on one message none. */
  lemma TruncationExample(w: Wire, data: Payload)
    requires w.answers != [] && w.answers[0] == Answer(5, 0, true, data)
    ensures w.ReceiveResult() == MessageResult(5, w.errors.size) && Outcome(w, 1) == MessageResult(1, 0)
  {
    assert Prefix(w.Rest(), 0) == 0;
  }

  // ---------- the class ----------

  class MessageSocket {
    var wire: Wire

    constructor (w: Wire)
      ensures wire == w
    {
      wire := w;
    }

    /** Send(message): errno is looked at only when the call failed. */
    method Send(m: Payload) returns (r: MessageResult)
      modifies this
      ensures wire == old(wire).Send(m)
      ensures r == MessageResult(old(wire).Next().result, if r.Failed() then old(wire).Next().errno else 0)
    {
      var a := wire.Next();
      wire := wire.Send(m);
      r := MessageResult(a.result, if a.result < 0 then a.errno else 0);
    }

    /** Receive(message): a truncated datagram succeeds with a size error beside its length. */
    method Receive() returns (r: MessageResult, data: Payload)
      modifies this
      ensures wire == old(wire).Rest() && data == old(wire).Next().data && r == old(wire).ReceiveResult()
    {
      var a := wire.Next();
      wire := wire.Rest();
      data := a.data;
      r := MessageResult(a.result, if a.result < 0 then a.errno else if a.truncated then wire.errors.size else 0);
    }

    /** Sends parts[from], parts[from + 1], ... until one fails; exactly the sent ones have their result set. */
    method SendMultiple(parts: array<Part>, from: nat, length: int) returns (r: MessageResult)
      requires from <= parts.Length && from + length <= parts.Length
      modifies this, parts
      ensures r == Outcome(old(wire), length)
      ensures wire == SendCall(old(wire), Contents(old(parts[from..from + Count(length)]))).0
      ensures parts[..] == Filled(old(parts[..]), from, old(wire), Prefix(old(wire), Count(length)))
    {
      ghost var was := parts[..];
      ghost var w0 := wire;
      ghost var n := Count(length);
      ghost var ms := Contents(was[from..from + n]);
      var i := 0;
      while i < length
        invariant 0 <= i <= n && AllSucceed(w0, i)
        invariant parts[..] == Filled(was, from, w0, i)
        invariant wire == Sent(w0, ms, i)
      {
        r := SendPart(parts, from, i, w0, was, ms);
        if r.Failed() {
          PrefixAt(w0, n, i);
          return MessageResult(if i == 0 then -1 else i, r.error);
        }
        i := i + 1;
      }
      PrefixAt(w0, n, n);
      r := MessageResult(length, 0);
    }

    /** One turn of the sending loop: the message is sent and, unless that failed, its result is stored. */
    method SendPart(parts: array<Part>, from: nat, i: nat, ghost w0: Wire, ghost was: seq<Part>, ghost ms: seq<Payload>)
      returns (r: MessageResult)
      requires |was| == parts.Length && from + |ms| <= parts.Length && ms == Contents(was[from..from + |ms|])
      requires i < |ms| && parts[..] == Filled(was, from, w0, i) && wire == Sent(w0, ms, i)
      modifies this, parts
      ensures r.Failed() <==> After(w0, i).Next().result < 0
      ensures r.Failed() ==> r.error == After(w0, i).Next().errno && parts[..] == old(parts[..])
                             && wire == After(w0, i + 1).(sent := w0.sent + ms[..i])
      ensures !r.Failed() ==> parts[..] == Filled(was, from, w0, i + 1) && wire == Sent(w0, ms, i + 1)
    {
      SendStep(w0, ms, i);
      FilledStep(was, from, w0, i);
      assert ms[i] == was[from..from + |ms|][i].message;
      r := Send(parts[from + i].message);
      if !r.Failed() {
        parts[from + i] := parts[from + i].(result := r.result);
      }
    }

    /** Receives into parts[from], parts[from + 1], ... until one fails; exactly the received ones are filled. */
    method ReceiveMultiple(parts: array<Part>, from: nat, length: int) returns (r: MessageResult)
      requires from <= parts.Length && from + length <= parts.Length
      modifies this, parts
      ensures r == Outcome(old(wire), length)
      ensures wire == Consumed(old(wire), Count(length))
      ensures parts[..] == Received(old(parts[..]), from, old(wire), Prefix(old(wire), Count(length)))
    {
      ghost var was := parts[..];
      ghost var w0 := wire;
      ghost var n := Count(length);
      var i := 0;
      while i < length
        invariant 0 <= i <= n && AllSucceed(w0, i)
        invariant parts[..] == Received(was, from, w0, i)
        invariant wire == After(w0, i)
      {
        ReceivedStep(was, from, w0, i);
        var data;
        r, data := Receive();
        if r.Failed() {
          PrefixAt(w0, n, i);
          return MessageResult(if i == 0 then -1 else i, r.error);
        }
        parts[from + i] := Part(data, r.result);
        i := i + 1;
      }
      PrefixAt(w0, n, n);
      r := MessageResult(length, 0);
    }
  }

  /** A negative length is a call on no messages. */
  function Count(length: int): nat {
    if length < 0 then 0 else length
  }

  /** The parts with the first n messages and results from an offset on as the system answered them. */
  function Received(parts: seq<Part>, from: nat, w: Wire, n: nat): seq<Part>
    requires from + n <= |parts|
  {
    seq(|parts|, i requires 0 <= i < |parts| =>
      if from <= i < from + n then Part(After(w, i - from).Next().data, After(w, i - from).Next().result) else parts[i])
  }

  function Contents(parts: seq<Part>): (ms: seq<Payload>)
    ensures |ms| == |parts|
  {
    seq(|parts|, i requires 0 <= i < |parts| => parts[i].message)
  }

  /** The parts with the first n results from an offset on filled in. */
  function Filled(parts: seq<Part>, from: nat, w: Wire, n: nat): seq<Part>
    requires from + n <= |parts|
  {
    seq(|parts|, i requires 0 <= i < |parts| =>
      if from <= i < from + n then parts[i].(result := After(w, i - from).Next().result) else parts[i])
  }

  lemma FilledStep(parts: seq<Part>, from: nat, w: Wire, i: nat)
    requires from + i < |parts|
    ensures Filled(parts, from, w, i)[from + i] == parts[from + i]
    ensures Filled(parts, from, w, i)[from + i := parts[from + i].(result := After(w, i).Next().result)]
         == Filled(parts, from, w, i + 1)
  {
  }

  lemma ReceivedStep(parts: seq<Part>, from: nat, w: Wire, i: nat)
    requires from + i < |parts|
    ensures Received(parts, from, w, i)[from + i := Part(After(w, i).Next().data, After(w, i).Next().result)]
         == Received(parts, from, w, i + 1)
  {
  }

  lemma SendStep(w: Wire, ms: seq<Payload>, i: nat)
    requires i < |ms|
    ensures var next := Sent(w, ms, i).Send(ms[i]);
            if After(w, i).Next().result < 0 then next == After(w, i + 1).(sent := w.sent + ms[..i])
            else next == Sent(w, ms, i + 1)
    ensures Sent(w, ms, i).Next() == After(w, i).Next()
  {
    assert w.sent + ms[..i + 1] == w.sent + ms[..i] + [ms[i]];
  }

  // ---------- resuming after a partial call ----------

  /** The usual caller: send what is left, drop as many messages as the count says, and call again. */
  function Resume(w: Wire, ms: seq<Payload>, calls: nat): (Wire, seq<Payload>)
    decreases calls
  {
    if calls == 0 then (w, ms)
    else
      var (w', r) := SendCall(w, ms);
      Resume(w', if Taken(r) <= |ms| then ms[Taken(r)..] else [], calls - 1)
  }

  /**
    However often the caller resumes, each message has been taken exactly once and in order or is still to be sent:
    the count returned never skips a message and never repeats one.
   */
  lemma {:induction false} ResumingSendsOnce(w: Wire, ms: seq<Payload>, calls: nat)
    ensures var (w', rest) := Resume(w, ms, calls); w'.sent + rest == w.sent + ms
    decreases calls
  {
    if calls > 0 {
      var (w', r) := SendCall(w, ms);
      var k := Prefix(w, |ms|);
      assert Taken(r) == k;
      assert ms == ms[..k] + ms[k..];
      ResumingSendsOnce(w', ms[k..], calls - 1);
    }
  }
}
