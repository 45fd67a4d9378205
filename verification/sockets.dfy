/** Buffered, re-entrant input: ReadToBuffer and ReadFromRFBServer (src/sockets.c),
    vnc_client_process and its handler lock (src/vnc.c), and run_main_loop_once (src/main.c). */
module Sockets {
  import opened Bytes
  import opened Area

  /** RFB_BUF_SIZE */
  const SIZE: nat := 8192

  /** What one recv finds: bytes, nothing yet, or that the server has closed the connection. */
  datatype Arrival = Data(bytes: seq<byte>) | Again | Closed

  /** The buffered bytes, and what recv will find; after the last arrival the connection is closed. */
  datatype Net = Net(held: seq<byte>, arrivals: seq<Arrival>) {
    predicate Valid() {
      |held| <= SIZE && forall i :: 0 <= i < |arrivals| && arrivals[i].Data? ==> arrivals[i].bytes != []
    }

    predicate AtEnd() {
      arrivals == [] || arrivals[0].Closed?
    }

    /** Everything the program can still read. */
    function Ahead(): seq<byte> {
      held + Coming(arrivals)
    }
  }

  function Coming(arrivals: seq<Arrival>): seq<byte> {
    if arrivals == [] || arrivals[0].Closed? then []
    else (if arrivals[0].Data? then arrivals[0].bytes else []) + Coming(arrivals[1..])
  }

  function Measure(arrivals: seq<Arrival>): nat {
    if arrivals == [] then 0
    else 1 + (if arrivals[0].Data? then |arrivals[0].bytes| else 0) + Measure(arrivals[1..])
  }

  /** ReadToBuffer */
  function Fill(s: Net): (r: (Net, bool))
    requires s.Valid()
  {
    if |s.held| == SIZE || s.AtEnd() then (s, false)
    else
      var rest := s.arrivals[1..];
      match s.arrivals[0]
      case Again => (s.(arrivals := rest), true)
      case Data(bytes) =>
        var size := Min(|bytes|, SIZE - |s.held|);
        (Net(s.held + bytes[..size], if size < |bytes| then [Data(bytes[size..])] + rest else rest), true)
      case Closed => (s, false)
  }

  lemma {:induction false} SplitComing(bytes: seq<byte>, rest: seq<Arrival>, size: nat)
    requires size < |bytes|
    ensures var split := [Data(bytes[size..])] + rest;
            && bytes[..size] + Coming(split) == Coming([Data(bytes)] + rest)
            && Measure(split) == 1 + |bytes| - size + Measure(rest)
  {
    assert ([Data(bytes[size..])] + rest)[1..] == rest;
    assert ([Data(bytes)] + rest)[1..] == rest;
    assert bytes == bytes[..size] + bytes[size..];
  }

  lemma {:induction false} FillTakes(s: Net, bytes: seq<byte>, rest: seq<Arrival>)
    requires s.Valid() && |s.held| < SIZE && s.arrivals == [Data(bytes)] + rest && s.arrivals[1..] == rest
    ensures var (t, ok) := Fill(s);
            ok && t.Valid() && t.Ahead() == s.Ahead() && s.held <= t.held && Measure(t.arrivals) < Measure(s.arrivals)
  {
    hide Coming;
    var size := Min(|bytes|, SIZE - |s.held|);
    if size < |bytes| {
      SplitComing(bytes, rest, size);
      assert s.Ahead() == s.held + (bytes[..size] + Coming([Data(bytes[size..])] + rest));
    } else {
      ComingNext(s.arrivals);
      assert bytes[..size] == bytes;
    }
  }

  lemma {:induction false} ComingNext(arrivals: seq<Arrival>)
    requires arrivals != [] && !arrivals[0].Closed?
    ensures Coming(arrivals) == (if arrivals[0].Data? then arrivals[0].bytes else []) + Coming(arrivals[1..])
  {
  }

  lemma {:induction false} FillConserves(s: Net)
    requires s.Valid()
    ensures var (t, ok) := Fill(s);
            && t.Valid() && t.Ahead() == s.Ahead() && s.held <= t.held
            && (if ok then Measure(t.arrivals) < Measure(s.arrivals) else t == s && (|s.held| == SIZE || s.AtEnd()))
  {
    hide Coming;
    if |s.held| < SIZE && !s.AtEnd() {
      if s.arrivals[0].Data? {
        FillTakes(s, s.arrivals[0].bytes, s.arrivals[1..]);
      } else {
        ComingNext(s.arrivals);
        assert Fill(s) == (s.(arrivals := s.arrivals[1..]), true);
      }
    }
  }

  /** A fill takes as much of one arrival as the 8192 bytes of the buffer leave room for. */
  lemma {:induction false} FillTakesMost(s: Net)
    requires s.Valid() && Fill(s).1
    ensures |s.held| < 8192 && s.arrivals != [] && !s.arrivals[0].Closed?
    ensures var t := Fill(s).0;
            if s.arrivals[0].Again? then t.held == s.held
            else
              var bytes := s.arrivals[0].bytes;
              && t.held <= s.held + bytes && |t.held| == Min(|s.held| + |bytes|, 8192)
              && (|t.held| < |s.held| + |bytes| ==>
                    t.arrivals == [Data(bytes[|t.held| - |s.held|..])] + s.arrivals[1..])
  {
  }

  /** The main loop while the handler is busy: if the socket's event is dispatched, vnc_client_process
      fills the buffer and returns. */
  function Wait(s: Net, dispatched: bool): (t: Net)
    requires s.Valid()
    ensures t.Valid() && t.Ahead() == s.Ahead() && Measure(t.arrivals) <= Measure(s.arrivals) && s.held <= t.held
  {
    FillConserves(s);
    if dispatched then Fill(s).0 else s
  }

  /** Whether the main loop dispatches the socket's event, wait by wait; never after the last. */
  function Now(schedule: seq<bool>): bool {
    schedule != [] && schedule[0]
  }

  function Later(schedule: seq<bool>): seq<bool> {
    if schedule == [] then [] else schedule[1..]
  }

  datatype Result = Result(net: Net, schedule: seq<bool>, ok: bool, out: seq<byte>)

  /** ReadFromRFBServer of n bytes within a handler. */
  function Read(s: Net, n: nat, schedule: seq<bool>): (r: Result)
    requires s.Valid()
    ensures r.net.Valid()
    decreases Measure(s.arrivals), n
  {
    if n == 0 then Result(s, schedule, true, [])
    else if s.held == [] then
      var w := Wait(s, Now(schedule));
      FillConserves(w);
      var (t, ok) := Fill(w);
      if ok then Read(t, n, Later(schedule)) else Result(t, Later(schedule), false, [])
    else
      var size := Min(|s.held|, n);
      var r := Read(s.(held := s.held[size..]), n - size, schedule);
      r.(out := s.held[..size] + r.out)
  }

  lemma {:induction false} ReadWaits(s: Net, n: nat, schedule: seq<bool>)
    requires s.Valid() && s.held == [] && n > 0
    ensures var w := Wait(s, Now(schedule));
            && w.Valid()
            && var (t, ok) := Fill(w);
               && t.Valid()
               && Read(s, n, schedule) ==
                  if ok then Read(t, n, Later(schedule)) else Result(t, Later(schedule), false, [])
  {
    hide Fill;
    FillConserves(Wait(s, Now(schedule)));
  }

  lemma {:induction false} ReadTakes(s: Net, n: nat, schedule: seq<bool>, size: nat)
    requires s.Valid() && s.held != [] && n > 0 && size == Min(|s.held|, n)
    ensures var r := Read(s.(held := s.held[size..]), n - size, schedule);
            Read(s, n, schedule) == r.(out := s.held[..size] + r.out)
  {
  }

  lemma {:induction false} ReadNothing(s: Net, schedule: seq<bool>)
    requires s.Valid()
    ensures Read(s, 0, schedule) == Result(s, schedule, true, [])
  {
  }

  lemma {:induction false} TakenAhead(s: Net, size: nat)
    requires size <= |s.held|
    ensures s.held[..size] + s.(held := s.held[size..]).Ahead() == s.Ahead()
  {
    assert s.held == s.held[..size] + s.held[size..];
  }

  lemma {:induction false} TakenLeaves(s: Net, size: nat, before: seq<byte>, sent: seq<byte>)
    requires s.Valid() && size <= |s.held| && before + s.Ahead() == sent
    ensures var t := s.(held := s.held[size..]);
            t.Valid() && before + s.held[..size] + t.Ahead() == sent
  {
    hide Coming, Net.Ahead;
    TakenAhead(s, size);
  }

  /** Nothing is lost, repeated or reordered, and success means exactly n bytes: the next ones. */
  lemma {:induction false} ReadInOrder(s: Net, n: nat, schedule: seq<bool>)
    requires s.Valid()
    ensures var r := Read(s, n, schedule);
            r.out + r.net.Ahead() == s.Ahead() && |r.out| <= n && (r.ok <==> |r.out| == n)
    decreases Measure(s.arrivals), n
  {
    hide Fill, Coming, Measure, Read, Wait, Now, Later;
    if n == 0 {
      ReadNothing(s, schedule);
    } else if s.held == [] {
      ReadWaits(s, n, schedule);
      var w := Wait(s, Now(schedule));
      FillConserves(w);
      var (t, ok) := Fill(w);
      if ok {
        ReadInOrder(t, n, Later(schedule));
      }
    } else {
      var size := Min(|s.held|, n);
      ReadTakes(s, n, schedule, size);
      ReadInOrder(s.(held := s.held[size..]), n - size, schedule);
      TakenAhead(s, size);
    }
  }

  /** Without re-entry a read succeeds exactly if that many bytes are still to come. */
  lemma {:induction false} ReadSucceeds(s: Net, n: nat)
    requires s.Valid()
    ensures Read(s, n, []).ok <==> n <= |s.Ahead()|
    decreases Measure(s.arrivals), n
  {
    hide Fill, Coming, Measure;
    ReadInOrder(s, n, []);
    if n == 0 {
    } else if s.held == [] {
      FillConserves(s);
      var (t, ok) := Fill(s);
      if ok {
        ReadSucceeds(t, n);
      } else {
        NothingComing(s);
      }
    } else {
      var size := Min(|s.held|, n);
      ReadSucceeds(s.(held := s.held[size..]), n - size);
    }
  }

  lemma {:induction false} NothingComing(s: Net)
    requires s.AtEnd()
    ensures Coming(s.arrivals) == []
  {
  }

  /** With re-entry it may fail although the bytes are there. A read that has to wait gives up
      exactly if the connection is at its end, or the event is dispatched and the bytes that
      arrive fill the whole buffer, or are the last before the end. */
  lemma {:induction false} WaitFails(s: Net, n: nat, schedule: seq<bool>)
    requires s.Valid() && s.held == [] && n > 0
    ensures !Fill(Wait(s, Now(schedule))).1 <==>
              s.AtEnd() || (Now(schedule) && ((s.arrivals[0].Data? && |s.arrivals[0].bytes| >= SIZE) ||
                                              Net([], s.arrivals[1..]).AtEnd()))
    ensures !Fill(Wait(s, Now(schedule))).1 ==> !Read(s, n, schedule).ok && Read(s, n, schedule).out == []
  {
    hide Coming, Measure;
  }

  /** What is left of a read is the read of what is left. */
  ghost predicate Continues(whole: Result, rest: Result, out: seq<byte>) {
    whole == rest.(out := out + rest.out)
  }

  lemma {:induction false} ContinuesOn(whole: Result, rest: Result, next: Result, out: seq<byte>, part: seq<byte>)
    requires Continues(whole, rest, out) && rest == next.(out := part + next.out)
    ensures Continues(whole, next, out + part)
  {
    assert out + (part + next.out) == (out + part) + next.out;
  }

  lemma {:induction false} ContinuesFirst(whole: Result)
    ensures Continues(whole, whole, [])
  {
    assert [] + whole.out == whole.out;
  }

  lemma {:induction false} ContinuesLast(whole: Result, rest: Result, out: seq<byte>)
    requires Continues(whole, rest, out) && rest.out == []
    ensures whole == rest.(out := out)
  {
    assert out + [] == out;
  }

  lemma {:induction false} NextBytes(sent: seq<byte>, before: seq<byte>, out: seq<byte>, ahead: seq<byte>)
    requires sent == before + out + ahead
    ensures |before| + |out| <= |sent| && out == sent[|before|..|before| + |out|]
  {
  }

  class Connection {
    const buf: array<byte>
    var buffered: nat
    var handlerLock: bool
    var doRun: bool
    var arrivals: seq<Arrival>
    var schedule: seq<bool>
    /** All bytes the server sends, those handed out so far, and how many handlers are active. */
    ghost const sent: seq<byte>
    ghost var delivered: seq<byte>
    ghost var active: nat
    /** Whether each message handled so far succeeded. */
    ghost var messages: seq<bool>

    ghost predicate Valid()
      reads this, buf
    {
      && buf.Length == SIZE && buffered <= SIZE && Abstract().Valid()
      && delivered + Abstract().Ahead() == sent
      && active == if handlerLock then 1 else 0
    }

    ghost function Abstract(): Net
      requires buffered <= buf.Length
      reads this, buf
    {
      Net(buf[..buffered], arrivals)
    }

    constructor (arrivals: seq<Arrival>, schedule: seq<bool>)
      requires forall i :: 0 <= i < |arrivals| && arrivals[i].Data? ==> arrivals[i].bytes != []
      ensures Valid() && !handlerLock && doRun && delivered == [] && messages == [] && sent == Coming(arrivals) &&
              fresh(buf)
    {
      buf := new byte[SIZE];
      buffered, handlerLock, doRun := 0, false, true;
      this.arrivals, this.schedule := arrivals, schedule;
      sent, delivered, active, messages := Coming(arrivals), [], 0, [];
    }

    method ReadToBuffer() returns (ok: bool)
      requires Valid()
      modifies this`buffered, this`arrivals, buf
      ensures Valid() && (Abstract(), ok) == Fill(old(Abstract()))
    {
      hide Coming, Measure;
      FillConserves(Abstract());
      if buffered == SIZE || arrivals == [] || arrivals[0].Closed? {
        return false;
      }
      if arrivals[0].Data? {
        var bytes, rest := arrivals[0].bytes, arrivals[1..];
        var size := Min(|bytes|, SIZE - buffered);
        ghost var before := buf[..buffered];
        forall k | 0 <= k < size {
          buf[buffered + k] := bytes[k];
        }
        buffered := buffered + size;
        assert buf[..buffered] == before + bytes[..size];
        arrivals := if size < |bytes| then [Data(bytes[size..])] + rest else rest;
      } else {
        arrivals := arrivals[1..];
      }
      ok := true;
    }

    /** run_main_loop_once: the socket's event may be among those dispatched. */
    method RunMainLoopOnce()
      requires Valid()
      modifies this, buf
      ensures Valid() && handlerLock == old(handlerLock) && old(delivered) <= delivered
      ensures handlerLock ==>
                && delivered == old(delivered) && messages == old(messages) && schedule == Later(old(schedule))
                && Abstract() == Wait(old(Abstract()), Now(old(schedule)))
      decreases if handlerLock then 0 else 1, 1
    {
      hide Coming, Measure, Fill;
      var dispatched := Now(schedule);
      schedule := Later(schedule);
      if dispatched {
        var rc := Process();
        if rc < 0 {
          doRun := false;
        }
      }
    }

    /** memmove to the start of the buffer. */
    method MoveDown(size: nat, n: nat)
      requires size + n <= buf.Length
      modifies buf
      ensures buf[..n] == old(buf[size..size + n])
    {
      forall k | 0 <= k < n {
        buf[k] := buf[k + size];
      }
    }

    /** The first `size` buffered bytes, which are then removed. */
    method TakeBuffered(size: nat) returns (out: seq<byte>)
      requires Valid() && size <= buffered
      modifies this`buffered, this`delivered, buf
      ensures Valid() && out == old(Abstract()).held[..size] && delivered == old(delivered) + out
      ensures Abstract() == old(Abstract()).(held := old(Abstract()).held[size..])
    {
      hide Coming, Measure, Net.Ahead, Net.Valid;
      ghost var s := Abstract();
      TakenLeaves(s, size, delivered, sent);
      out := buf[..size];
      assert buf[size..size + (buffered - size)] == s.held[size..];
      MoveDown(size, buffered - size);
      buffered := buffered - size;
      delivered := delivered + out;
    }

    /** The inner loop: run the main loop until something is buffered. */
    method AwaitBytes(n: nat) returns (ok: bool)
      requires Valid() && handlerLock && n > 0
      modifies this, buf
      ensures Valid() && handlerLock && delivered == old(delivered) && messages == old(messages)
      ensures ok ==> buffered > 0 && Read(Abstract(), n, schedule) == Read(old(Abstract()), n, old(schedule))
      ensures ok ==> Measure(arrivals) <= old(Measure(arrivals))
      ensures !ok ==> Read(old(Abstract()), n, old(schedule)) == Result(Abstract(), schedule, false, [])
      ensures !ok ==> Abstract().AtEnd() || buffered == SIZE
      decreases if handlerLock then 0 else 1, 2
    {
      hide Coming, Measure, Fill, Read, Wait;
      while buffered == 0
        invariant Valid() && handlerLock && delivered == old(delivered) && messages == old(messages)
        invariant Read(Abstract(), n, schedule) == Read(old(Abstract()), n, old(schedule))
        invariant Measure(arrivals) <= old(Measure(arrivals))
        decreases Measure(arrivals)
      {
        ReadWaits(Abstract(), n, schedule);
        RunMainLoopOnce();
        FillConserves(Abstract());
        ok := ReadToBuffer();
        if !ok {
          return;
        }
      }
      ok := true;
    }

    /** ReadFromRFBServer, called by the active handler. Whatever the main loop does at the waits, a
        successful read of n bytes hands out the next n bytes the server sent. */
    method ReadFromRFBServer(n0: nat) returns (ok: bool, out: seq<byte>)
      requires Valid() && handlerLock
      modifies this, buf
      ensures Valid() && handlerLock
      ensures var r := Read(old(Abstract()), n0, old(schedule));
              ok == r.ok && out == r.out && Abstract() == r.net && schedule == r.schedule
      ensures delivered == old(delivered) + out && messages == old(messages)
      ensures ok ==>
                && |out| == n0 && |old(delivered)| + n0 <= |sent|
                && out == sent[|old(delivered)|..|old(delivered)| + n0]
      ensures !ok ==> Abstract().AtEnd() || buffered == SIZE
      decreases if handlerLock then 0 else 1, 3
    {
      hide Coming, Measure, Fill, Read, Wait, Continues, Net.Ahead, Net.Valid;
      ghost var s0, schedule0 := Abstract(), schedule;
      var n: nat := n0;
      out := [];
      ReadInOrder(s0, n0, schedule0);
      ContinuesFirst(Read(s0, n0, schedule0));
      while n != 0
        invariant Valid() && handlerLock && n <= n0
        invariant Continues(Read(s0, n0, schedule0), Read(Abstract(), n, schedule), out)
        invariant delivered == old(delivered) + out && messages == old(messages)
        decreases Measure(arrivals), n
      {
        ok := AwaitBytes(n);
        if !ok {
          ContinuesLast(Read(s0, n0, schedule0), Result(Abstract(), schedule, false, []), out);
          return;
        }
        var size := Min(buffered, n);
        ReadTakes(Abstract(), n, schedule, size);
        ghost var rest := Read(Abstract(), n, schedule);
        var part := TakeBuffered(size);
        ContinuesOn(Read(s0, n0, schedule0), rest, Read(Abstract(), n - size, schedule), out, part);
        out := out + part;
        n := n - size;
      }
      ReadNothing(Abstract(), schedule);
      ContinuesLast(Read(s0, n0, schedule0), Read(Abstract(), 0, schedule), out);
      ok := true;
      NextBytes(sent, old(delivered), out, Abstract().Ahead());
    }

    /** HandleRFBServerMessage: a type byte, then any number of reads of any sizes. It fails if one
        of them does, or for reasons of its own. */
    method HandleRFBServerMessage() returns (ok: bool)
      requires Valid() && handlerLock
      modifies this, buf
      ensures Valid() && handlerLock && old(delivered) <= delivered && messages == old(messages) + [ok]
      ensures ok ==> |delivered| > |old(delivered)|
      decreases if handlerLock then 0 else 1, 5
    {
      hide Coming, Measure, Read, Fill;
      ok := ReadMessage();
      messages := messages + [ok];
    }

    method ReadMessage() returns (ok: bool)
      requires Valid() && handlerLock
      modifies this, buf
      ensures Valid() && handlerLock && old(delivered) <= delivered && messages == old(messages)
      ensures ok ==> |delivered| > |old(delivered)|
      decreases if handlerLock then 0 else 1, 4
    {
      hide Coming, Measure, Read, Fill;
      var bytes;
      ok, bytes := ReadFromRFBServer(1);
      if !ok {
        return;
      }
      var count: int := *;
      while count > 0
        invariant Valid() && handlerLock && old(delivered) <= delivered && |delivered| > |old(delivered)|
        invariant messages == old(messages)
      {
        var n: int := *;
        if n > 0 {
          ok, bytes := ReadFromRFBServer(n);
          if !ok {
            return;
          }
        }
        count := count - 1;
      }
      ok := *;
    }

    /** vnc_client_process. Only the caller that finds the lock free becomes a handler; another
        fills the buffer and leaves. The handler takes message after message until one fails or
        nothing is buffered, and returns how the last one ended: if there was one. */
    method Process() returns (rc: int)
      requires Valid()
      modifies this, buf
      ensures Valid() && handlerLock == old(handlerLock) && old(delivered) <= delivered
      ensures handlerLock ==>
                && delivered == old(delivered) && messages == old(messages) && schedule == old(schedule)
                && Abstract() == Fill(old(Abstract())).0
                && rc == if Fill(old(Abstract())).1 then 0 else -1
      ensures !Fill(old(Abstract())).1 ==>
                rc == -1 && Abstract() == old(Abstract()) && delivered == old(delivered) && messages == old(messages)
      ensures !handlerLock && Fill(old(Abstract())).1 ==>
                && Handled(old(messages), messages, rc)
                && (messages == old(messages) <==> Fill(old(Abstract())).0.held == [])
                && (buffered == 0 || rc == -1)
      decreases if handlerLock then 0 else 1, 0
    {
      hide Coming, Measure, Fill, Handled;
      FillConserves(Abstract());
      var ok := ReadToBuffer();
      if !ok {
        return -1;
      }
      if handlerLock {
        return 0;
      }
      handlerLock, active := true, active + 1;
      // Not initialised in the source either: with nothing buffered any value is returned.
      rc := *;
      NoneHandled(messages, rc);
      while buffered > 0
        invariant Valid() && handlerLock && old(delivered) <= delivered
        invariant Handled(old(messages), messages, rc) && (messages != old(messages) ==> rc == 0)
        invariant messages == old(messages) ==> Abstract() == Fill(old(Abstract())).0
        invariant messages != old(messages) ==> Fill(old(Abstract())).0.held != []
        decreases |sent| - |delivered|
      {
        ghost var done := messages;
        ok := HandleRFBServerMessage();
        OneHandled(old(messages), done, rc, ok);
        rc := if ok then 0 else -1;
        if rc < 0 {
          break;
        }
      }
      handlerLock, active := false, active - 1;
    }
  }

  /** All messages handled since succeeded, but for the last if the result says so. */
  ghost predicate Handled(before: seq<bool>, now: seq<bool>, rc: int) {
    && before <= now
    && (now != before ==>
          && (forall i :: |before| <= i < |now| - 1 ==> now[i])
          && rc == if now[|now| - 1] then 0 else -1)
  }

  lemma {:induction false} NoneHandled(before: seq<bool>, rc: int)
    ensures Handled(before, before, rc)
  {
  }

  lemma {:induction false} OneHandled(before: seq<bool>, now: seq<bool>, rc: int, ok: bool)
    requires Handled(before, now, rc) && (now != before ==> rc == 0)
    ensures now + [ok] != before && Handled(before, now + [ok], if ok then 0 else -1)
  {
  }
}
