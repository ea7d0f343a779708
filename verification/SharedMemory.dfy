/** SharedMemory on POSIX: a descriptor, and the name to unlink when it is closed. */
module SharedMemory {
  import opened Text
  import opened Wrappers
  import opened Kernel

  const NAME_SIZE: nat := 1024

  type CString = s: string | Free(s, '\0')

  datatype LoadResult = Success | BadSize | BadName | FailedToOpen | FailedToResize

  /** The fields; an empty name stands for _name[0] == 0. */
  datatype Memory = Memory(readOnly: bool, usingFile: bool, handle: int, name: CString) {
    function Pending(): Name {
      Name(if usingFile then Files else Shared, name)
    }

    predicate Closed() {
      handle == -1 && name == ""
    }

    /** A name waits to be unlinked only beside an open descriptor. */
    predicate Valid() {
      -1 <= handle && |name| < NAME_SIZE && (name != "" ==> handle != -1)
    }
  }

  /**
    The arguments of Load, with what the system will answer to open and to ftruncate, and with what exists when it looks
    at the names: other processes may have changed that since.
   */
  datatype Request = Request(
    name: Option<CString>, filename: Option<CString>, readOnly: bool, size: int, deleteOnClose: bool,
    answer: Option<nat>, resizes: bool, existing: set<Name>)
  {
    /** What _name is set to: the filename as it is, or the name behind a slash; neither may overflow the buffer. */
    function Target(): Option<Name> {
      if filename.Some? then
        if |filename.value| < NAME_SIZE then Some(Name(Files, filename.value)) else None
      else if name.Some? && |name.value| + 1 < NAME_SIZE then Some(Name(Shared, "/" + name.value))
      else None
    }

    /** Whether open hands out a descriptor, in a world where whatever was loaded before is closed. */
    predicate Opens(w: World) {
      0 <= size && Target().Some? && w.Grants(Target().value, size != 0, answer, existing)
    }
  }

  function CloseMemory(w: World, m: Memory): (World, Memory) {
    var w' := if m.name != "" then w.Unlink(m.Pending()) else w;
    (if m.handle != -1 then w'.Close(m.handle) else w', m.(handle := -1, name := ""))
  }

  class SharedMemory {
    var readOnly: bool
    var usingFile: bool
    var handle: int
    var name: CString

    function View(): Memory
      reads this
    {
      Memory(readOnly, usingFile, handle, name)
    }

    constructor ()
      ensures View() == Memory(false, false, -1, "")
    {
      readOnly, usingFile, handle, name := false, false, -1, "";
    }

    /** Closes the descriptor and unlinks a pending name, each only once. */
    method Close(os: System)
      modifies this, os
      ensures (os.world, View()) == CloseMemory(old(os.world), old(View()))
    {
      if name != "" {
        os.Unlink(Name(if usingFile then Files else Shared, name));
        name := "";
      }
      if handle != -1 {
        os.Close(handle);
        handle := -1;
      }
    }

    /** Loads by name or by file name; whatever was loaded before is closed first. */
    method Load(os: System, q: Request) returns (result: LoadResult)
      modifies this, os
      ensures (os.world, View(), result) == LoadMemory(old(os.world), old(View()), q)
    {
      Close(os);
      if q.size < 0 {
        return BadSize;
      }
      var named := OpenTarget(os, q);
      if !named {
        return BadName;
      }
      if !q.deleteOnClose {
        name := "";
      }
      if handle == -1 {
        name := "";
        Close(os);
        return FailedToOpen;
      } else if q.size != 0 && !q.resizes {
        Close(os);
        return FailedToResize;
      }
      readOnly := q.readOnly;
      result := Success;
    }

    /** The first half of Load: copies the name and opens it, or changes nothing when the name does not fit. */
    method OpenTarget(os: System, q: Request) returns (named: bool)
      modifies this, os
      ensures (os.world, View(), named) == TargetOpened(old(os.world), old(View()), q)
    {
      if q.filename.Some? {
        if |q.filename.value| >= NAME_SIZE {
          return false;
        }
        name := q.filename.value;
        usingFile := true;
        handle := os.OpenName(Name(Files, name), q.size != 0, q.answer, q.existing);
      } else if q.name.None? {
        return false;
      } else {
        if |q.name.value| >= NAME_SIZE - 1 {
          return false;
        }
        name := "/" + q.name.value;
        usingFile := false;
        handle := os.OpenName(Name(Shared, name), q.size != 0, q.answer, q.existing);
      }
      named := true;
    }

    /** unlink of a file; granted is what the system is ready to do. */
    static method DeleteFileBacked(os: System, filename: CString, granted: bool) returns (ok: bool)
      modifies os
      ensures (os.world, ok) == old(os.world).Delete(Name(Files, filename), granted)
    {
      ok := os.Delete(Name(Files, filename), granted);
    }

    /** shm_unlink of a name, unless it is null or does not fit the buffer with its slash. */
    static method DeleteNamed(os: System, name: Option<CString>, granted: bool) returns (ok: bool)
      modifies os
      ensures (os.world, ok) == NamedDeleted(old(os.world), name, granted)
    {
      var realName := new char[NAME_SIZE];
      if name.None? {
        return false;
      }
      ok := CopyName(realName, name.value);
      if ok {
        ok := os.Delete(Name(Shared, CStringOf(realName[..])), granted);
      }
    }
  }

  function NamedDeleted(w: World, name: Option<CString>, granted: bool): (World, bool) {
    if name.None? || |name.value| + 1 >= NAME_SIZE then (w, false)
    else w.Delete(Name(Shared, "/" + name.value), granted)
  }

  function TargetOpened(w: World, m: Memory, q: Request): (World, Memory, bool) {
    var target := q.Target();
    if target.None? then (w, m, false)
    else
      var (w', fd) := w.OpenName(target.value, q.size != 0, q.answer, q.existing);
      (w', m.(usingFile := q.filename.Some?, name := target.value.path, handle := fd), true)
  }

  function LoadMemory(w: World, m: Memory, q: Request): (World, Memory, LoadResult) {
    var (w0, m0) := CloseMemory(w, m);
    LoadClosed(w0, m0, q)
  }

  /** Load after its first line. */
  function LoadClosed(w: World, m: Memory, q: Request): (World, Memory, LoadResult) {
    if q.size < 0 then (w, m, BadSize)
    else
      var (w1, m1, named) := TargetOpened(w, m, q);
      if !named then (w1, m1, BadName)
      else
        var m2 := if q.deleteOnClose then m1 else m1.(name := "");
        if m2.handle == -1 then
          var (w3, m3) := CloseMemory(w1, m2.(name := ""));
          (w3, m3, FailedToOpen)
        else if q.size != 0 && !q.resizes then
          var (w3, m3) := CloseMemory(w1, m2);
          (w3, m3, FailedToResize)
        else (w1, m2.(readOnly := q.readOnly), Success)
  }

  /** Every exit of Load does exactly what LoadOutcome says, starting from the world and object that Close leaves. */
  lemma LoadExits(w: World, m: Memory, q: Request)
    requires m.Valid()
    ensures var (w0, m0) := CloseMemory(w, m);
            var (w', m', result) := LoadMemory(w, m, q);
            m'.Valid() && LoadOutcome(w0, m0, q, w', m', result)
  {
    var (w0, m0) := CloseMemory(w, m);
    ClosedExits(w0, m0, q);
  }

  lemma ClosedExits(w: World, m: Memory, q: Request)
    requires m.Closed()
    ensures var (w', m', result) := LoadClosed(w, m, q); m'.Valid() && LoadOutcome(w, m, q, w', m', result)
  {
    if q.Opens(w) {
      TakenBack(w, q);
    }
  }

  /** Closing a descriptor just handed out and unlinking a name just created leaves what there was. */
  lemma TakenBack(w: World, q: Request)
    requires q.Opens(w)
    ensures var r, target := Descriptor(q.answer.value), q.Target().value;
            w.live + {r} - {r} == w.live && (q.size != 0 ==> q.existing + {target} - {target} == q.existing)
  {
  }

  /** Every exit of Load, given the world and the object as Close left them. */
  ghost predicate LoadOutcome(w: World, m: Memory, q: Request, w': World, m': Memory, result: LoadResult) {
    var target := q.Target();
    if q.size < 0 then
      result == BadSize && w' == w && m' == m
    else if target.None? then
      result == BadName && w' == w && m' == m
    else if !q.Opens(w) then
      // a failed open unlinks nothing and keeps nothing
      result == FailedToOpen && w' == w.(names := q.existing) && m' == m.(usingFile := q.filename.Some?)
    else if q.size != 0 && !q.resizes then
      // what was created is taken back only when it was to be deleted on close
      && result == FailedToResize && m' == m.(usingFile := q.filename.Some?)
      && w'.live == w.live && w'.strays == w.strays && w'.deletes == w.deletes
      && w'.opens == w.opens + multiset{Descriptor(q.answer.value)}
      && w'.closes == w.closes + multiset{Descriptor(q.answer.value)}
      && w'.names == (if q.deleteOnClose then q.existing else q.existing + {target.value})
      && w'.unlinks == w.unlinks + (if q.deleteOnClose then multiset{target.value} else multiset{})
    else
      && result == Success
      && m' == Memory(q.readOnly, q.filename.Some?, q.answer.value, if q.deleteOnClose then target.value.path else "")
      && w' == w.Acquire(Descriptor(q.answer.value)).(names := q.existing + {target.value})
  }

  /** Closing unlinks the pending name in its space, releases the descriptor, and forgets both. */
  lemma CloseInFull(w: World, m: Memory)
    requires -1 <= m.handle && (0 <= m.handle ==> Descriptor(m.handle) in w.live)
    ensures var (w', m') := CloseMemory(w, m);
            var pending := if m.name == "" then {} else {Name(if m.usingFile then Files else Shared, m.name)};
            var held := if m.handle == -1 then {} else {Descriptor(m.handle)};
            && m' == Memory(m.readOnly, m.usingFile, -1, "")
            && w' == w.(live := w.live - held, closes := w.closes + multiset(held),
                        names := w.names - pending, unlinks := w.unlinks + multiset(pending))
  {
    if m.name == "" { assert w.names - {} == w.names && w.unlinks + multiset{} == w.unlinks; }
    if m.handle == -1 { assert w.live - {} == w.live && w.closes + multiset{} == w.closes; }
  }

  /** The results of Load, one by one, in terms of its arguments, of what exists and of what is open after closing. */
  lemma ResultInFull(w: World, m: Memory, q: Request)
    requires m.Valid()
    ensures var result := LoadMemory(w, m, q).2;
            var fits := if q.filename.Some? then |q.filename.value| < 1024 else q.name.Some? && |q.name.value| < 1023;
            && (result == BadSize <==> q.size < 0)
            && (result == BadName <==> 0 <= q.size && !fits)
            && (0 <= q.size && fits ==>
                  var name := if q.filename.Some? then Name(Files, q.filename.value)
                              else Name(Shared, "/" + q.name.value);
                  var opens := && q.answer.Some? && Descriptor(q.answer.value) !in CloseMemory(w, m).0.live
                               && name.path != "" && (q.size != 0 <==> name !in q.existing);
                  && (result == FailedToOpen <==> !opens)
                  && (result == FailedToResize <==> opens && q.size != 0 && !q.resizes)
                  && (result == Success <==> opens && (q.size == 0 || q.resizes)))
  {
  }

  /** What Load leaves of the object: on success the new descriptor, and the name if it is to be deleted on close. */
  lemma ObjectInFull(w: World, m: Memory, q: Request)
    requires m.Valid()
    ensures var (w', m', result) := LoadMemory(w, m, q);
            if result == Success then
              && m'.handle == q.answer.value && m'.readOnly == q.readOnly && m'.usingFile == q.filename.Some?
              && m'.name == (if !q.deleteOnClose then ""
                             else if q.filename.Some? then q.filename.value else "/" + q.name.value)
              && (q.deleteOnClose
                  ==> m'.Pending() == (if q.filename.Some? then Name(Files, m'.name) else Name(Shared, m'.name))
                      && m'.Pending() in w'.names)
            else
              m'.handle == -1 && m'.name == "" && m'.readOnly == m.readOnly
  {
    LoadExits(w, m, q);
  }

  /** What Load leaves of the world, starting from what closing leaves of it. */
  lemma WorldInFull(w: World, m: Memory, q: Request)
    requires m.Valid()
    ensures var w0 := CloseMemory(w, m).0;
            var (w', _, result) := LoadMemory(w, m, q);
            if result == BadSize || result == BadName then w' == w0
            else
              var name := if q.filename.Some? then Name(Files, q.filename.value) else Name(Shared, "/" + q.name.value);
              var looked := w0.(names := q.existing);
              if result == FailedToOpen then w' == looked
              else
                var r := Descriptor(q.answer.value);
                var created := looked.(opens := w0.opens + multiset{r}, names := q.existing + {name});
                if result == Success then w' == created.(live := w0.live + {r})
                else
                  var closed := created.(closes := w0.closes + multiset{r});
                  w' == if q.deleteOnClose then closed.(names := q.existing, unlinks := w0.unlinks + multiset{name})
                        else closed
  {
    LoadExits(w, m, q);
  }

  /** A direct delete makes one unlink call unless the name cannot be passed on, and succeeds only on what exists. */
  lemma DeleteInFull(w: World, filename: CString, name: Option<CString>, granted: bool)
    ensures var file := Name(Files, filename);
            var (w', ok) := w.Delete(file, granted);
            && (ok <==> granted && filename != "" && file in w.names)
            && w' == w.(names := if ok then w.names - {file} else w.names, deletes := w.deletes + multiset{file})
    ensures var (w', ok) := NamedDeleted(w, name, granted);
            if name.None? || 1023 <= |name.value| then !ok && w' == w
            else
              var shared := Name(Shared, "/" + name.value);
              && (ok <==> granted && shared in w.names)
              && w' == w.(names := if ok then w.names - {shared} else w.names, deletes := w.deletes + multiset{shared})
  {
  }

  /** What exists just before Load may create something: what Close left, or what others have made of it by then. */
  function Before(w: World, m: Memory, q: Request): set<Name> {
    if 0 <= q.size && q.Target().Some? then q.existing else CloseMemory(w, m).0.names
  }

  /** A load that does not succeed leaves nothing new behind, unless it is a failed resize of something to be kept. */
  lemma NothingLeftBehindIff(w: World, m: Memory, q: Request)
    requires m.Valid()
    ensures var (w', _, result) := LoadMemory(w, m, q);
            result != Success
            ==> (w'.names == Before(w, m, q)
                 <==> !(q.Opens(CloseMemory(w, m).0) && q.size != 0 && !q.resizes && !q.deleteOnClose))
  {
    LoadExits(w, m, q);
  }

  /** The failed resize of a new named memory: what was created stays, or goes if it was to be deleted on close. */
  lemma LeftBehindExample(w: World, m: Memory, q: Request)
    requires w.live == {} && m.Closed()
    requires q == Request(Some("a"), None, false, 4096, q.deleteOnClose, Some(3), false, {})
    ensures var (w', m', result) := LoadMemory(w, m, q);
            && result == FailedToResize && m'.Closed()
            && w'.names == if q.deleteOnClose then {} else {Name(Shared, "/a")}
  {
    LoadExits(w, m, q);
    assert "/" + "a" == "/a";
    assert q.Target() == Some(Name(Shared, "/a"));
    assert CloseMemory(w, m) == (w, m) && q.Opens(w);
  }

  /** An object has a descriptor after Load exactly when open gave one and a new object could be resized. */
  lemma LoadedIff(w: World, m: Memory, q: Request)
    requires m.Valid()
    ensures var (w', m', result) := LoadMemory(w, m, q);
            && (result == Success <==> m'.handle != -1)
            && (result == Success <==> q.Opens(CloseMemory(w, m).0) && (q.size != 0 ==> q.resizes))
            && (result == Success ==> w'.names == q.existing + {q.Target().value})
            && (m'.name != "" ==> q.deleteOnClose)
  {
    LoadExits(w, m, q);
  }

  /** Closing again does nothing. */
  lemma CloseIdempotent(w: World, m: Memory)
    ensures var (w', m') := CloseMemory(w, m); m'.Closed() && CloseMemory(w', m') == (w', m')
  {
  }

  /** Closing what is not to be deleted leaves every name alone. */
  lemma KeptStays(w: World, m: Memory)
    requires m.name == ""
    ensures var (w', m') := CloseMemory(w, m); w'.names == w.names && m'.Closed()
  {
  }

  // ---------- the name buffer ----------

  method CopyFilename(buffer: array<char>, filename: CString) returns (ok: bool)
    modifies buffer
    ensures ok <==> |filename| < buffer.Length
    ensures ok ==> CStringOf(buffer[..]) == filename && buffer[|filename| + 1..] == old(buffer[|filename| + 1..])
    ensures !ok ==> buffer[..] == old(buffer[..])
  {
    var len := |filename|;
    if len >= buffer.Length {
      return false;
    }
    CopyInto(buffer, 0, filename);
    buffer[len] := '\0';
    HoldsCString(buffer[..], filename);
    ok := true;
  }

  /** Puts a slash before the name. The size is unsigned, so an empty buffer is the caller's mistake. */
  method CopyName(buffer: array<char>, name: CString) returns (ok: bool)
    requires buffer.Length >= 1
    modifies buffer
    ensures ok <==> |name| + 1 < buffer.Length
    ensures ok ==> CStringOf(buffer[..]) == "/" + name && buffer[|name| + 2..] == old(buffer[|name| + 2..])
    ensures !ok ==> buffer[..] == old(buffer[..])
  {
    var len := |name|;
    if len >= buffer.Length - 1 {
      return false;
    }
    buffer[0] := '/';
    CopyInto(buffer, 1, name);
    buffer[len + 1] := '\0';
    assert buffer[..] == ("/" + name) + ['\0'] + old(buffer[len + 2..]);
    HoldsCString(buffer[..], "/" + name);
    ok := true;
  }

  /** memcpy of a text to an offset of the buffer. */
  method CopyInto(buffer: array<char>, at: nat, text: string)
    requires at + |text| <= buffer.Length
    modifies buffer
    ensures buffer[..] == old(buffer[..at]) + text + old(buffer[at + |text|..])
  {
    for i := 0 to |text|
      invariant buffer[..] == old(buffer[..at]) + text[..i] + old(buffer[at + i..])
    {
      buffer[at + i] := text[i];
    }
    assert text[..|text|] == text;
  }
}
