/** The queued descriptor of inc/nonblockingio.h. */
module NonBlockingIo {
  import opened Arith
  import opened Bytes
  import RB = RingBuf

  // What the kernel does with one write() or read().
  datatype WriteReply = Takes(n: nat) | WouldBlock | WriteFails
  datatype ReadReply = Offers(data: seq<byte>) | NothingYet | ReadFails

  // How much of a descriptor's stream is written after a write of what lies in one piece at the
  // front of the queue; None if the write fails.
  function Drained(waiting: nat, sent: nat, size: nat, reply: WriteReply): (r: Option<nat>)
    requires size > 0
    ensures r.Some? ==> sent <= r.value <= sent + waiting
    ensures r.None? <==> reply.WriteFails? && waiting > 0
    ensures r.Some? && reply.Takes? ==> r.value == sent + Lesser(reply.n, Lesser(waiting, size - sent % size))
    ensures r.Some? && !reply.Takes? ==> r.value == sent
  {
    if waiting == 0 then Some(sent)
    else match reply
      case WriteFails => None
      case WouldBlock => Some(sent)
      case Takes(n) => Some(sent + Lesser(n, Lesser(waiting, size - Mod(sent, size))))
  }

  class NonBlockingIo {
    const queue: RB.RingBuf
    // Everything write() has accepted on this descriptor, oldest first.
    ghost var sent: seq<byte>
    // Everything read() has brought in from it.
    ghost var received: seq<byte>

    ghost predicate Valid()
      reads this, queue, queue.buf
    {
      queue.Valid() && queue.start == Mod(|sent|, queue.size)
    }

    // The bytes promised to the descriptor: those it took and those still waiting.
    ghost function Stream(): seq<byte>
      reads this, queue, queue.buf
      requires Valid()
    {
      sent + queue.Contents()
    }

    constructor (queue: RB.RingBuf)
      requires queue.Valid() && queue.start == 0 && queue.Contents() == []
      ensures Valid() && this.queue == queue && Stream() == [] && received == []
    {
      this.queue := queue;
      sent, received := [], [];
      ModSmall(0, queue.size);
    }

    // Gives up the descriptor, and with it whatever was waiting.
    method Init()
      requires Valid()
      modifies this, queue
      ensures Valid() && Stream() == [] && received == []
    {
      queue.Init();
      sent, received := [], [];
      ModSmall(0, queue.size);
    }

    method Room() returns (n: nat)
      requires Valid()
      ensures n == queue.size - |queue.Contents()|
    {
      n := queue.Room();
    }

    // Hands the front of the queue to the descriptor; a partial write leaves the rest.
    method Drain(reply: WriteReply) returns (ok: bool)
      requires Valid()
      modifies `sent, queue
      ensures Valid() && Stream() == old(Stream())
      ensures ok == !(reply.WriteFails? && old(queue.Contents()) != [])
      ensures var r := Drained(|old(queue.Contents())|, |old(sent)|, queue.size, reply);
              ok == r.Some? && |sent| == if ok then r.value else |old(sent)|
      ensures |queue.Contents()| <= |old(queue.Contents())|
      ensures old(sent) <= sent
      ensures reply.Takes? && reply.n > 0 && old(queue.Contents()) != [] ==> old(sent) < sent
    {
      hide RB.Window, RB.IsPow2, RB.RingBuf.Valid;
      var at, run := queue.Span();
      if run == 0 {
        return true;
      }
      match reply
      case WriteFails =>
        return false;
      case WouldBlock =>
        return true;
      case Takes(n) =>
        var done := Lesser(n, run);
        ghost var was := queue.Contents();
        FrontTaken(queue.buf[..], at, run, done, was, sent);
        ModMove(|sent|, done, queue.size);
        sent := sent + queue.buf[at..at + done];
        queue.Nomnom(done);
        ok := true;
    }

    method Put(c: byte)
      requires Valid() && |queue.Contents()| < queue.size
      modifies queue, queue.buf
      ensures Valid() && Stream() == old(Stream()) + [c]
      ensures queue.Contents() == old(queue.Contents()) + [c]
    {
      queue.Put(c);
    }

    // Fails for lack of room, queueing nothing, or when the write itself fails.
    method Write(data: seq<byte>, reply: WriteReply) returns (ok: bool)
      requires Valid()
      modifies `sent, queue, queue.buf
      ensures Valid()
      ensures var fits := |old(queue.Contents())| + |data| <= queue.size;
              && Stream() == (if fits then old(Stream()) + data else old(Stream()))
              && ok == (fits && !(reply.WriteFails? && old(queue.Contents()) + data != []))
      ensures var r := Drained(|old(queue.Contents())| + |data|, |old(sent)|, queue.size, reply);
              (ok ==> r.Some?) && |sent| == (if ok then r.value else |old(sent)|) &&
              (|old(queue.Contents())| + |data| <= queue.size ==> ok == r.Some?)
    {
      hide RB.Window, RB.IsPow2;
      ok := queue.Add(data);
      if ok {
        ok := Drain(reply);
      }
    }

    // read() of at most want bytes; none on EAGAIN, and failure shows as None.
    method Read(reply: ReadReply, want: nat) returns (r: Option<seq<byte>>)
      modifies `received
      ensures r.None? <==> reply.ReadFails?
      ensures r.Some? ==> r.value == Brings(reply, want)
      ensures received == old(received) + Brings(reply, want)
    {
      if reply.ReadFails? {
        assert received == received + [];
        return None;
      }
      r := Some(Brings(reply, want));
      received := received + r.value;
    }
  }

  lemma {:induction false} FrontTaken(buf: seq<byte>, at: nat, run: nat, done: nat, queued: seq<byte>, sent: seq<byte>)
    requires done <= run <= |queued| && at + run <= |buf| && queued[..run] == buf[at..at + run]
    ensures (sent + buf[at..at + done]) + queued[done..] == sent + queued
  {
    assert buf[at..at + done] == buf[at..at + run][..done] == queued[..done];
    assert queued == queued[..done] + queued[done..];
  }

  // The bytes of a read of at most want bytes.
  function Brings(reply: ReadReply, want: nat): (data: seq<byte>)
    ensures |data| <= want
    ensures reply.Offers? ==> data <= reply.data && |data| == Lesser(want, |reply.data|)
    ensures !reply.Offers? ==> data == []
  {
    if !reply.Offers? then [] else if |reply.data| <= want then reply.data else reply.data[..want]
  }
}
