/** A telnetd session: two descriptors, the two queues between them, and the pump (telnetd.c). */
module Telnetd {
  import opened Arith
  import opened Bytes
  import opened F = TelnetFormat
  import opened Nbio = NonBlockingIo
  import RB = RingBuf

  const BUF_SIZE: nat := 512
  const QUEUE_SIZE: nat := 512

  // One return of poll(): what is ready, and what the kernel then does.
  datatype Wakeup = Wakeup(
    masterOut: bool, masterDrain: WriteReply,
    sockOut: bool, sockDrain: WriteReply,
    rdhup: bool,
    sockIn: bool, fromSock: ReadReply, toMaster: WriteReply,
    masterIn: bool, fromMaster: ReadReply, toSock: WriteReply,
    hup: bool)
  {
    // A peer hangs up, or a system call fails.
    predicate Breaks() {
      (masterOut && masterDrain.WriteFails?) || (sockOut && sockDrain.WriteFails?) || rdhup ||
      (sockIn && (fromSock.ReadFails? || toMaster.WriteFails?)) ||
      (masterIn && (fromMaster.ReadFails? || toSock.WriteFails?)) || hup
    }
  }

  // What one read brings in when there is this much room for it.
  function Taken(reply: ReadReply, room: nat): (data: seq<byte>)
    ensures reply.Offers? ==> data <= reply.data && |data| == Lesser(512, Lesser(room, |reply.data|))
    ensures !reply.Offers? ==> data == []
  {
    Brings(reply, if room > BUF_SIZE then BUF_SIZE else room)
  }

  // ----- What one wakeup comes to -----

  // What was read from each descriptor and how much each of them has taken: the queues, the
  // automaton and the bytes on their way follow from it.
  datatype Link = Link(sock: seq<byte>, master: seq<byte>, toMaster: nat, toSock: nat) {
    function ForMaster(): seq<byte> {
      Strip(InData, sock).out
    }

    function ForSock(): seq<byte> {
      HELLO + Escape(master)
    }

    function MasterWaits(): nat {
      Behind(ForMaster(), toMaster)
    }

    function SockWaits(): nat {
      Behind(ForSock(), toSock)
    }
  }

  const NEW_LINK: Link := Link([], [], 0, 0)

  function Behind(stream: seq<byte>, taken: nat): nat {
    if taken <= |stream| then |stream| - taken else 0
  }

  function Room(waiting: nat): (room: nat)
    ensures room <= QUEUE_SIZE
  {
    if waiting <= QUEUE_SIZE then QUEUE_SIZE - waiting else 0
  }

  function DrainMaster(l: Link, reply: WriteReply): Option<Link> {
    match Drained(l.MasterWaits(), l.toMaster, QUEUE_SIZE, reply)
    case None => None
    case Some(n) => Some(l.(toMaster := n))
  }

  function DrainSock(l: Link, reply: WriteReply): Option<Link> {
    match Drained(l.SockWaits(), l.toSock, QUEUE_SIZE, reply)
    case None => None
    case Some(n) => Some(l.(toSock := n))
  }

  // Nothing is written where all that was read were commands.
  function TakeSock(l: Link, fromSock: ReadReply, toMaster: WriteReply): Option<Link> {
    var got := l.(sock := l.sock + Taken(fromSock, Room(l.MasterWaits())));
    if fromSock.ReadFails? then None
    else if |got.ForMaster()| == |l.ForMaster()| then Some(got)
    else DrainMaster(got, toMaster)
  }

  function TakeMaster(l: Link, fromMaster: ReadReply, toSock: WriteReply): Option<Link> {
    var got := l.(master := l.master + Taken(fromMaster, Room(l.SockWaits()) / 2));
    if fromMaster.ReadFails? then None else DrainSock(got, toSock)
  }

  function DrainBoth(l: Link, w: Wakeup): Option<Link> {
    var now := if w.masterOut then DrainMaster(l, w.masterDrain) else Some(l);
    if now.Some? && w.sockOut then DrainSock(now.value, w.sockDrain) else now
  }

  function TakeBoth(l: Link, w: Wakeup): Option<Link> {
    var now := if w.sockIn then TakeSock(l, w.fromSock, w.toMaster) else Some(l);
    if now.Some? && w.masterIn then TakeMaster(now.value, w.fromMaster, w.toSock) else now
  }

  // None ends the session.
  function Turn(l: Link, w: Wakeup): Option<Link> {
    var drained := DrainBoth(l, w);
    if drained.None? || w.rdhup || (w.hup && !(w.sockIn || w.masterIn)) then None
    else TakeBoth(drained.value, w)
  }

  function Turns(l: Link, ws: seq<Wakeup>): Option<Link> {
    if ws == [] then Some(l)
    else match Turns(l, ws[..|ws| - 1])
      case None => None
      case Some(now) => Turn(now, ws[|ws| - 1])
  }

  lemma TakeFails(l: Link, from: ReadReply, reply: WriteReply)
    ensures from.ReadFails? ==> TakeSock(l, from, reply).None? && TakeMaster(l, from, reply).None?
  {
    hide Strip, Escape, Taken, Drained;
  }

  lemma {:induction false} TakesSock(l: Link, fromSock: ReadReply, toMaster: WriteReply, data: seq<byte>,
                                     out: seq<byte>)
    requires l.toMaster <= |l.ForMaster()| && !fromSock.ReadFails? && data == Taken(fromSock, Room(l.MasterWaits()))
    requires Strip(InData, l.sock + data).out == l.ForMaster() + out
    ensures var got := l.(sock := l.sock + data);
            var n := Drained(l.MasterWaits() + |out|, l.toMaster, QUEUE_SIZE, toMaster);
            TakeSock(l, fromSock, toMaster) ==
            if out == [] then Some(got) else if n.None? then None else Some(got.(toMaster := n.value))
  {
    hide Strip, Taken, Drained;
  }

  lemma {:induction false} TakesMaster(l: Link, fromMaster: ReadReply, toSock: WriteReply, data: seq<byte>)
    requires l.toSock <= |l.ForSock()| && !fromMaster.ReadFails? && data == Taken(fromMaster, Room(l.SockWaits()) / 2)
    ensures var got := l.(master := l.master + data);
            var n := Drained(l.SockWaits() + |Escape(data)|, l.toSock, QUEUE_SIZE, toSock);
            TakeMaster(l, fromMaster, toSock) == if n.None? then None else Some(got.(toSock := n.value))
  {
    hide Escape, Taken, Drained;
    EscapeCut(l.master, data);
  }

  // ----- What a wakeup delivers is received -----

  // All that was offered, or as much of it as the room there was before the wakeup, or more.
  ghost predicate Grew(before: seq<byte>, after: seq<byte>, ready: bool, reply: ReadReply, least: nat, most: nat) {
    if !ready then after == before
    else exists room: nat :: least <= room <= most && after == before + Taken(reply, room)
  }

  // A descriptor that takes n bytes gets n, or what there is, or what lies in one piece of the ring.
  predicate Wrote(stream: seq<byte>, before: nat, after: nat, reply: WriteReply) {
    reply.Takes? && before <= |stream| ==>
      after >= before + Lesser(reply.n, Lesser(|stream| - before, 512 - before % 512))
  }

  ghost predicate GrewBy(before: Link, after: Link, w: Wakeup) {
    && Grew(before.sock, after.sock, w.sockIn, w.fromSock, Room(before.MasterWaits()), QUEUE_SIZE)
    && Grew(before.master, after.master, w.masterIn, w.fromMaster, Room(before.SockWaits()) / 2, QUEUE_SIZE / 2)
    && before.toMaster <= after.toMaster && before.toSock <= after.toSock
    && WroteBy(before, after, w)
  }

  // What was waiting is written when the descriptor is ready, and what was just read at once.
  predicate WroteBy(before: Link, after: Link, w: Wakeup) {
    && (w.masterOut ==> Wrote(before.ForMaster(), before.toMaster, after.toMaster, w.masterDrain))
    && (w.sockOut ==> Wrote(before.ForSock(), before.toSock, after.toSock, w.sockDrain))
    && (w.sockIn && !w.masterOut && |before.ForMaster()| != |after.ForMaster()| ==>
        Wrote(after.ForMaster(), before.toMaster, after.toMaster, w.toMaster))
    && (w.masterIn && !w.sockOut ==> Wrote(after.ForSock(), before.toSock, after.toSock, w.toSock))
  }

  // Each wakeup of a run in its turn.
  ghost predicate Delivered(l: Link, ws: seq<Wakeup>) {
    forall i :: 0 <= i < |ws| ==> DeliveredAt(l, ws, i)
  }

  ghost predicate DeliveredAt(l: Link, ws: seq<Wakeup>, i: nat)
    requires i < |ws|
  {
    var before, after := Turns(l, ws[..i]), Turns(l, ws[..i + 1]);
    before.Some? && after.Some? && GrewBy(before.value, after.value, ws[i])
  }

  lemma {:induction false} TurnsDeliver(l: Link, ws: seq<Wakeup>)
    requires Turns(l, ws).Some?
    ensures Delivered(l, ws)
    decreases |ws|
  {
    hide Turn, GrewBy;
    if ws != [] {
      var n := |ws| - 1;
      TurnsDeliver(l, ws[..n]);
      TurnDelivers(Turns(l, ws[..n]).value, ws[n]);
      assert ws[..n + 1] == ws;
      forall i | 0 <= i < |ws| ensures DeliveredAt(l, ws, i) {
        if i < n {
          assert DeliveredAt(l, ws[..n], i);
          assert ws[..n][..i] == ws[..i] && ws[..n][..i + 1] == ws[..i + 1];
        }
      }
    }
  }

  lemma {:induction false} TurnDelivers(l: Link, w: Wakeup)
    requires Turn(l, w).Some?
    ensures GrewBy(l, Turn(l, w).value, w)
  {
    hide Strip, Escape, Taken, Drained;
    var mid := DrainBoth(l, w).value;
    DrainMakesRoom(l, w);
    if w.sockIn {
      assert Turn(l, w).value.sock == mid.sock + Taken(w.fromSock, Room(mid.MasterWaits()));
    }
    if w.masterIn {
      assert Turn(l, w).value.master == mid.master + Taken(w.fromMaster, Room(mid.SockWaits()) / 2);
    }
    TurnWrites(l, w);
  }

  lemma {:induction false} TurnWrites(l: Link, w: Wakeup)
    requires Turn(l, w).Some?
    ensures var now := Turn(l, w).value; l.toMaster <= now.toMaster && l.toSock <= now.toSock && WroteBy(l, now, w)
  {
    hide Strip, Escape, Taken, Drained, DrainMaster, DrainSock, Wrote;
    var mid := DrainBoth(l, w).value;
    DrainWrites(l, w.masterDrain);
    DrainWrites(if w.masterOut then DrainMaster(l, w.masterDrain).value else l, w.sockDrain);
    var got := mid.(sock := mid.sock + Taken(w.fromSock, Room(mid.MasterWaits())));
    DrainWrites(got, w.toMaster);
    var taken := if w.sockIn then TakeSock(mid, w.fromSock, w.toMaster).value else mid;
    DrainWrites(taken.(master := taken.master + Taken(w.fromMaster, Room(taken.SockWaits()) / 2)), w.toSock);
    StillWrote(l.ForMaster(), l.toMaster, mid.toMaster, Turn(l, w).value.toMaster, w.masterDrain);
    StillWrote(l.ForSock(), l.toSock, mid.toSock, Turn(l, w).value.toSock, w.sockDrain);
  }

  lemma {:induction false} DrainWrites(l: Link, reply: WriteReply)
    ensures var m := DrainMaster(l, reply);
            m.Some? ==> m.value == l.(toMaster := m.value.toMaster) && l.toMaster <= m.value.toMaster &&
                        Wrote(l.ForMaster(), l.toMaster, m.value.toMaster, reply)
    ensures var s := DrainSock(l, reply);
            s.Some? ==> s.value == l.(toSock := s.value.toSock) && l.toSock <= s.value.toSock &&
                        Wrote(l.ForSock(), l.toSock, s.value.toSock, reply)
  {
    hide Strip, Escape, Drained;
  }

  lemma StillWrote(stream: seq<byte>, before: nat, after: nat, later: nat, reply: WriteReply)
    requires after <= later
    ensures Wrote(stream, before, after, reply) ==> Wrote(stream, before, later, reply)
  {
  }

  lemma {:induction false} DrainMakesRoom(l: Link, w: Wakeup)
    requires DrainBoth(l, w).Some?
    ensures var mid := DrainBoth(l, w).value;
            mid.sock == l.sock && mid.master == l.master &&
            Room(mid.MasterWaits()) >= Room(l.MasterWaits()) && Room(mid.SockWaits()) >= Room(l.SockWaits())
  {
    hide Strip, Escape, Drained;
  }

  // And each of these does.
  lemma {:induction false} TurnEndsFor(l: Link, w: Wakeup)
    requires w.rdhup || (w.hup && !w.sockIn && !w.masterIn) || (w.sockIn && w.fromSock.ReadFails?) ||
             (w.masterIn && w.fromMaster.ReadFails?) ||
             (w.masterOut && w.masterDrain.WriteFails? && l.toMaster < |l.ForMaster()|) ||
             (w.sockOut && w.sockDrain.WriteFails? && l.toSock < |l.ForSock()|)
    ensures Turn(l, w).None?
  {
    hide Strip, Escape, Taken, Drained;
  }

  // Only a lost peer or a failing call ends a session.
  lemma {:induction false} TurnEnds(l: Link, w: Wakeup)
    requires Turn(l, w).None?
    ensures w.Breaks()
  {
    hide Strip, Escape, Taken;
  }

  lemma QueueSizeIsPow2()
    ensures RB.IsPow2(QUEUE_SIZE)
  {
    assert RB.Pow2(3) == 8;
    assert RB.Pow2(6) == 64;
    assert RB.Pow2(9) == QUEUE_SIZE;
  }

  class Session {
    const sock: NonBlockingIo
    const master: NonBlockingIo
    var live: bool
    var state: State

    ghost function Repr(): set<object> {
      {this, sock, sock.queue, sock.queue.buf, master, master.queue, master.queue.buf}
    }

    ghost predicate Shape()
      reads Repr()
    {
      sock != master && sock.queue != master.queue && sock.queue.buf != master.queue.buf &&
      sock.Valid() && master.Valid() && sock.queue.size == QUEUE_SIZE && master.queue.size == QUEUE_SIZE
    }

    // Every byte of both directions is accounted for, in order.
    ghost predicate Valid()
      reads Repr()
    {
      Shape() && if live then Flows() else Idle()
    }

    ghost predicate Flows()
      requires Shape()
      reads Repr()
    {
      Stripped(state, master.Stream()) == Strip(InData, sock.received) &&
      sock.Stream() == HELLO + Escape(master.received)
    }

    lemma Waiting()
      requires Shape() && Flows()
      ensures |master.queue.Contents()| == Now().MasterWaits() && |sock.queue.Contents()| == Now().SockWaits()
      ensures Now().toMaster <= |Now().ForMaster()| && Now().toSock <= |Now().ForSock()|
    {
      hide Strip, Escape, RB.Window, RB.IsPow2;
      assert |master.Stream()| == |Now().ForMaster()| && |sock.Stream()| == |Now().ForSock()|;
    }

    ghost predicate Idle()
      requires Shape()
      reads Repr()
    {
      sock.Stream() == [] && master.Stream() == [] && Now() == NEW_LINK
    }

    ghost function Now(): Link
      reads this, sock, master
    {
      Link(sock.received, master.received, |master.sent|, |sock.sent|)
    }

    constructor ()
      ensures Valid() && !live
      ensures fresh(Repr())
    {
      QueueSizeIsPow2();
      var toSock := new RB.RingBuf(QUEUE_SIZE);
      var toMaster := new RB.RingBuf(QUEUE_SIZE);
      sock := new NonBlockingIo(toSock);
      master := new NonBlockingIo(toMaster);
      live := false;
      state := InData;
    }

    method End()
      requires Shape()
      modifies this, sock, sock.queue, master, master.queue
      ensures Valid() && !live
    {
      master.Init();
      sock.Init();
      live := false;
    }

    // A new connection: the first bytes the client gets are the hello.
    method Start(reply: WriteReply)
      requires Valid() && !live
      modifies Repr()
      ensures Valid() && live == !reply.WriteFails?
      ensures var l := DrainSock(NEW_LINK, reply);
              live == l.Some? && Now() == if live then l.value else NEW_LINK
      ensures live && reply.Takes? ==> |sock.sent| == Lesser(reply.n, 9)
    {
      state := InData;
      live := true;
      var ok := sock.Write(HELLO, reply);
      if !ok {
        End();
      }
    }

    // Leaves at the front of buf what of its first len bytes is data.
    method StripIac(buf: array<byte>, len: nat) returns (out: nat)
      requires len <= buf.Length
      modifies `state, buf
      ensures out <= len
      ensures Strip(old(state), old(buf[..len])) == Stripped(state, buf[..out])
    {
      out := 0;
      ghost var was := buf[..];
      assert Strip(state, was[..0]) == Stripped(state, buf[..0]);
      hide Strip;
      var i := 0;
      while i < len
        invariant 0 <= out <= i <= len
        invariant Strip(old(state), was[..i]) == Stripped(state, buf[..out])
        invariant forall k :: i <= k < buf.Length ==> buf[k] == was[k]
      {
        var ch := buf[i];
        StripOneMore(old(state), was, i);
        if state == AfterCr && (ch == NUL || ch == LF) {
          // the second half of a line end, whose CR has been kept
          state := InData;
        } else if state == InData || state == AfterCr {
          if ch == IAC {
            state := InCmd;
          } else {
            buf[out] := ch;
            out := out + 1;
            state := if ch == CR then AfterCr else InData;
          }
        } else if state == InCmd {
          // IAC IAC stands for the byte 255
          if ch == IAC {
            buf[out] := ch;
            out := out + 1;
            state := InData;
          } else if ch == SB {
            state := InSub;
          } else if WILL <= ch <= DONT {
            state := InOpt;
          } else {
            state := InData;
          }
        } else if state == InOpt {
          state := InData;
        } else if state == InSub {
          if ch == IAC {
            state := InSubIac;
          }
        } else {
          state := if ch == SE then InData else InSub;
        }
        i := i + 1;
      }
    }

    // A read from the socket of at most want bytes: what of it is data.
    method ReadSock(fromSock: ReadReply, want: nat) returns (got: Option<seq<byte>>)
      requires want <= BUF_SIZE
      modifies `state, sock`received
      ensures sock.received == old(sock.received) + Brings(fromSock, want)
      ensures (got.None? <==> fromSock.ReadFails?) && (got.Some? ==> |got.value| <= want)
      ensures if got.Some? then Strip(old(state), Brings(fromSock, want)) == Stripped(state, got.value)
              else state == old(state) && sock.received == old(sock.received)
    {
      hide Strip;
      ghost var before := sock.received;
      var read := sock.Read(fromSock, want);
      if read.None? {
        assert sock.received == before;
        return None;
      }
      var buf := new byte[BUF_SIZE](_ => 0);
      RB.Memcpy(buf, 0, read.value);
      var len := |read.value|;
      assert buf[..len] == read.value;
      len := StripIac(buf, len);
      got := Some(buf[..len]);
    }

    // Socket to pty. Room was checked before reading, so a refusal is the write failing.
    method ServeSock(fromSock: ReadReply, toMaster: WriteReply) returns (ok: bool)
      requires Valid() && live
      modifies `state, sock`received, master`sent, master.queue, master.queue.buf
      ensures Valid()
      ensures sock.received == old(sock.received) + Taken(fromSock, old(master.queue.size - |master.queue.Contents()|))
      ensures !ok ==> fromSock.ReadFails? || toMaster.WriteFails?
      ensures var l := TakeSock(old(Now()), fromSock, toMaster); ok == l.Some? && (ok ==> Now() == l.value)
    {
      hide RB.Window, RB.IsPow2, RB.RingBuf.Contents, RB.RingBuf.Valid, Strip, Escape, Drained, TakeSock;
      Waiting();
      ghost var l := Now();
      TakeFails(l, fromSock, toMaster);
      var want := master.Room();
      if want > BUF_SIZE {
        want := BUF_SIZE;
      }
      StripCut(InData, sock.received, Brings(fromSock, want));
      var got := ReadSock(fromSock, want);
      if got.None? {
        return false;
      }
      TakesSock(l, fromSock, toMaster, Brings(fromSock, want), got.value);
      ok := true;
      if got.value != [] {
        ok := master.Write(got.value, toMaster);
      } else {
        assert l.ForMaster() + [] == l.ForMaster();
      }
    }

    method PutEscaped(c: byte)
      requires Shape() && |sock.queue.Contents()| + 2 <= sock.queue.size
      modifies sock.queue, sock.queue.buf
      ensures Shape()
      ensures sock.Stream() == old(sock.Stream()) + EscapeByte(c)
      ensures |sock.queue.Contents()| <= old(|sock.queue.Contents()|) + 2
    {
      hide RB.Window, RB.IsPow2;
      sock.Put(c);
      if c == IAC {
        sock.Put(c);
      }
    }

    // Puts bytes on their way to the client, doubling 255.
    method EscapeInto(data: seq<byte>) returns (ok: bool)
      requires Shape()
      modifies sock.queue, sock.queue.buf
      ensures Shape()
      ensures ok == (2 * |data| <= old(sock.queue.size - |sock.queue.Contents()|))
      ensures sock.Stream() == old(sock.Stream()) + (if ok then Escape(data) else [])
    {
      hide RB.Window, RB.IsPow2, Escape;
      EscapeOfNothing(data);
      var room := sock.Room();
      if 2 * |data| > room {
        return false;
      }
      var i := 0;
      while i < |data|
        invariant Shape() && i <= |data|
        invariant sock.Stream() == old(sock.Stream()) + Escape(data[..i])
        invariant |sock.queue.Contents()| + 2 * (|data| - i) <= sock.queue.size
      {
        EscapeOneMore(data, i);
        PutEscaped(data[i]);
        i := i + 1;
      }
      assert data[..i] == data;
      ok := true;
    }

    // Pty to socket. Half the room is read, so doubling every byte still fits.
    method ServeMaster(fromMaster: ReadReply, toSock: WriteReply) returns (ok: bool)
      requires Valid() && live
      modifies master`received, sock`sent, sock.queue, sock.queue.buf
      ensures Valid()
      ensures master.received ==
              old(master.received) + Taken(fromMaster, old(sock.queue.size - |sock.queue.Contents()|) / 2)
      ensures !ok ==> fromMaster.ReadFails? || toSock.WriteFails?
      ensures var l := TakeMaster(old(Now()), fromMaster, toSock); ok == l.Some? && (ok ==> Now() == l.value)
    {
      hide RB.Window, RB.IsPow2, RB.RingBuf.Contents, RB.RingBuf.Valid, Strip, Escape, Drained, TakeMaster;
      Waiting();
      ghost var l := Now();
      TakeFails(l, fromMaster, toSock);
      var want := sock.Room();
      want := want / 2;
      if want > BUF_SIZE {
        want := BUF_SIZE;
      }
      ghost var before := master.received;
      var got := master.Read(fromMaster, want);
      if got.None? {
        assert master.received == before;
        return false;
      }
      EscapeCut(before, got.value);
      TakesMaster(l, fromMaster, toSock, got.value);
      ok := EscapeInto(got.value);
      assert ok;
      if ok {
        ok := sock.Drain(toSock);
      }
    }

    // What can be written is.
    method DrainReady(w: Wakeup) returns (ok: bool)
      requires Valid() && live
      modifies master`sent, master.queue, sock`sent, sock.queue
      ensures Valid()
      ensures var l := DrainBoth(old(Now()), w); ok == l.Some? && (ok ==> Now() == l.value)
    {
      hide RB.Window, RB.IsPow2, RB.RingBuf.Contents, RB.RingBuf.Valid, Strip, Escape, Drained;
      Waiting();
      ok := true;
      if w.masterOut {
        ok := master.Drain(w.masterDrain);
      }
      if ok && w.sockOut {
        ok := sock.Drain(w.sockDrain);
      }
    }

    // What can be read is.
    method ServeReady(w: Wakeup) returns (ok: bool)
      requires Valid() && live
      modifies `state, sock, sock.queue, sock.queue.buf, master, master.queue, master.queue.buf
      ensures Valid()
      ensures var l := TakeBoth(old(Now()), w); ok == l.Some? && (ok ==> Now() == l.value)
    {
      hide RB.Window, RB.IsPow2, RB.RingBuf.Contents, RB.RingBuf.Valid, Strip, Escape, TakeSock, TakeMaster;
      ok := true;
      if w.sockIn {
        ok := ServeSock(w.fromSock, w.toMaster);
      }
      if ok && w.masterIn {
        ok := ServeMaster(w.fromMaster, w.toSock);
      }
    }

    // One turn of the event loop for this session.
    method Service(w: Wakeup)
      requires Valid()
      modifies Repr()
      ensures Valid()
      ensures live ==> old(live) && GrewBy(old(Now()), Now(), w)
      ensures old(live) && !live ==> w.Breaks()
      ensures old(live) ==> var l := Turn(old(Now()), w); live == l.Some? && (live ==> Now() == l.value)
    {
      hide RB.Window, RB.IsPow2, RB.RingBuf.Contents, RB.RingBuf.Valid, Strip, Escape;
      hide DrainBoth, TakeBoth, GrewBy, Flows;
      if !live {
        return;
      }
      ghost var l := Now();
      if Turn(l, w).Some? {
        TurnDelivers(l, w);
      } else {
        TurnEnds(l, w);
      }
      var ok := DrainReady(w);
      if !ok || w.rdhup {
        End();
        return;
      }
      ok := ServeReady(w);
      if !ok || (!(w.sockIn || w.masterIn) && w.hup) {
        End();
      }
    }

    // A whole run: whatever the network, the pty and poll() do.
    method Pump(wakeups: seq<Wakeup>)
      requires Valid()
      modifies Repr()
      ensures Valid()
      ensures old(live) ==> var l := Turns(old(Now()), wakeups); live == l.Some? && (live ==> Now() == l.value)
      ensures live ==> old(live) && Delivered(old(Now()), wakeups)
      ensures live ==> master.Stream() == Strip(InData, sock.received).out
      ensures live ==> sock.Stream() == HELLO + Escape(master.received)
      ensures live ==> master.sent <= Strip(InData, sock.received).out && sock.sent <= HELLO + Escape(master.received)
      ensures old(live) && (forall i :: 0 <= i < |wakeups| ==> !wakeups[i].Breaks()) ==> live
    {
      hide Delivered, Turn, GrewBy, RB.Window, RB.IsPow2, Strip, Escape;
      ghost var l := Now();
      var i := 0;
      while i < |wakeups|
        invariant 0 <= i <= |wakeups|
        invariant Valid() && (live ==> old(live))
        invariant old(live) ==> live == Turns(l, wakeups[..i]).Some?
        invariant live ==> Turns(l, wakeups[..i]) == Some(Now())
        invariant old(live) && (forall k :: 0 <= k < i ==> !wakeups[k].Breaks()) ==> live
      {
        assert wakeups[..i + 1][..i] == wakeups[..i];
        Service(wakeups[i]);
        i := i + 1;
      }
      assert wakeups[..i] == wakeups;
      if live {
        TurnsDeliver(l, wakeups);
      }
    }
  }

  lemma EscapeOfNothing(data: seq<byte>)
    ensures Escape(data[..0]) == []
  {
  }
}
