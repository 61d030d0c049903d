/**
 Images whose chunks land on one another, as they can once the walk's place has wrapped: what is
 on the device afterwards, and when comparing finds nothing.
 */
module BlkOverlaps {
  import opened Bytes
  import opened SparseFormat
  import opened BlockWalk
  import opened Blkwak

  // What chunk i puts at the place p of the device.
  function Says(off: nat, chunks: seq<Chunk>, i: nat, bs: nat, p: nat): Option<byte>
    requires AllValid(chunks) && bs > 0 && i < |chunks|
  {
    var at, cells := Place(off, chunks[..i]), ChunkCells(chunks[i], bs);
    if at <= p < at + |cells| then cells[p - at] else None
  }

  // What the last chunk to say anything about p puts there.
  function LastSays(off: nat, chunks: seq<Chunk>, bs: nat, p: nat): Option<byte>
    requires AllValid(chunks) && bs > 0
    decreases |chunks|
  {
    if chunks == [] then None
    else
      var n := |chunks| - 1;
      if Says(off, chunks, n, bs, p).Some? then Says(off, chunks, n, bs, p) else LastSays(off, chunks[..n], bs, p)
  }

  // No two chunks put different bytes in one place.
  ghost predicate Agree(off: nat, chunks: seq<Chunk>, bs: nat)
    requires AllValid(chunks) && bs > 0
  {
    forall i: nat, j: nat, p: nat ::
      (i < j < |chunks| && Says(off, chunks, i, bs, p).Some? && Says(off, chunks, j, bs, p).Some?) ==>
        Says(off, chunks, i, bs, p) == Says(off, chunks, j, bs, p)
  }

  // The device holds what every chunk says.
  ghost predicate HoldsAll(dev: seq<byte>, off: nat, chunks: seq<Chunk>, bs: nat)
    requires AllValid(chunks) && bs > 0
  {
    forall i: nat, p: nat ::
      (i < |chunks| && p < |dev| && Says(off, chunks, i, bs, p).Some?) ==> Says(off, chunks, i, bs, p) == Some(dev[p])
  }

  lemma {:induction false} SaysBefore(off: nat, chunks: seq<Chunk>, i: nat, bs: nat, p: nat)
    requires AllValid(chunks) && bs > 0 && i < |chunks| - 1
    ensures Says(off, chunks[..|chunks| - 1], i, bs, p) == Says(off, chunks, i, bs, p)
  {
    hide Place, ChunkCells;
    assert chunks[..|chunks| - 1][..i] == chunks[..i];
  }

  lemma {:induction false} WalkedByte(t: Tally, off: nat, chunks: seq<Chunk>, bs: nat, p: nat)
    requires AllValid(chunks) && bs > 0 && p < |t.dev|
    ensures var dev, last := VisitChunks(Write, t, off, chunks, bs).dev, LastSays(off, chunks, bs, p);
            |dev| == |t.dev| && dev[p] == if last.Some? then last.value else t.dev[p]
    decreases |chunks|
  {
    hide Visit, Place, ChunkCells;
    if chunks != [] {
      var n := |chunks| - 1;
      WalkedByte(t, off, chunks[..n], bs, p);
      WriteOverlays(VisitChunks(Write, t, off, chunks[..n], bs), Place(off, chunks[..n]), ChunkCells(chunks[n], bs));
    }
  }

  lemma {:induction false} LastIsLast(off: nat, chunks: seq<Chunk>, i: nat, bs: nat, p: nat) returns (j: nat)
    requires AllValid(chunks) && bs > 0 && i < |chunks| && Says(off, chunks, i, bs, p).Some?
    ensures i <= j < |chunks| && Says(off, chunks, j, bs, p) == LastSays(off, chunks, bs, p)
    decreases |chunks|
  {
    hide Says;
    var n := |chunks| - 1;
    j := n;
    if Says(off, chunks, n, bs, p).None? {
      SaysBefore(off, chunks, i, bs, p);
      j := LastIsLast(off, chunks[..n], i, bs, p);
      SaysBefore(off, chunks, j, bs, p);
    }
  }

  // A place some chunk puts a byte in is on the device.
  lemma {:induction false} SaidIsOnDevice(off: nat, chunks: seq<Chunk>, i: nat, bs: nat, p: nat, size: nat)
    requires AllValid(chunks) && bs > 0 && i < |chunks| && Says(off, chunks, i, bs, p).Some?
    requires ChunksFit(chunks, off, size)
    ensures p < size
  {
    hide Place;
    assert ChunkFits(chunks[i], Place(off, chunks[..i]), size);
  }

  lemma {:induction false} CompareHolds(t: Tally, off: nat, chunks: seq<Chunk>, bs: nat)
    requires AllValid(chunks) && bs > 0
    ensures var r := VisitChunks(Compare, t, off, chunks, bs);
            r.dev == t.dev && (r.bad == 0 <==> t.bad == 0 && HoldsAll(t.dev, off, chunks, bs))
    decreases |chunks|
  {
    hide Visit, Says;
    if chunks != [] {
      var n := |chunks| - 1;
      CompareHolds(t, off, chunks[..n], bs);
      CompareCounts(VisitChunks(Compare, t, off, chunks[..n], bs), Place(off, chunks[..n]), ChunkCells(chunks[n], bs));
      HoldsOneMore(t.dev, off, chunks, bs);
    }
  }

  lemma {:induction false} HoldsOneMore(dev: seq<byte>, off: nat, chunks: seq<Chunk>, bs: nat)
    requires AllValid(chunks) && bs > 0 && chunks != []
    ensures var n := |chunks| - 1;
            HoldsAll(dev, off, chunks, bs) <==>
            HoldsAll(dev, off, chunks[..n], bs) &&
            Differences(dev, Place(off, chunks[..n]), ChunkCells(chunks[n], bs)) == {}
  {
    hide Place, ChunkCells, Differences, Says;
    var n := |chunks| - 1;
    NothingDiffers(dev, off, chunks, bs);
    forall i: nat, p: nat | i < n ensures Says(off, chunks[..n], i, bs, p) == Says(off, chunks, i, bs, p) {
      SaysBefore(off, chunks, i, bs, p);
    }
  }

  lemma {:induction false} NothingDiffers(dev: seq<byte>, off: nat, chunks: seq<Chunk>, bs: nat)
    requires AllValid(chunks) && bs > 0 && chunks != []
    ensures var n := |chunks| - 1;
            Differences(dev, Place(off, chunks[..n]), ChunkCells(chunks[n], bs)) == {} <==>
            forall p: nat :: p < |dev| && Says(off, chunks, n, bs, p).Some? ==>
              Says(off, chunks, n, bs, p) == Some(dev[p])
  {
    hide Place, ChunkCells;
    var n := |chunks| - 1;
    var at, cells := Place(off, chunks[..n]), ChunkCells(chunks[n], bs);
    forall p: nat
      ensures Differs(dev, at, cells, p) <==>
              p < |dev| && Says(off, chunks, n, bs, p).Some? && Says(off, chunks, n, bs, p) != Some(dev[p])
    {
    }
    if forall p: nat :: p < |dev| && Says(off, chunks, n, bs, p).Some? ==> Says(off, chunks, n, bs, p) == Some(dev[p]) {
      assert forall p: nat :: !Differs(dev, at, cells, p);
      assert Differences(dev, at, cells) == {};
    } else {
      var p: nat :| p < |dev| && Says(off, chunks, n, bs, p).Some? && Says(off, chunks, n, bs, p) != Some(dev[p]);
      assert p in Differences(dev, at, cells);
    }
  }

  // Comparing what was just written finds nothing if and only if no two chunks disagree.
  lemma {:induction false} VerifiedExactly(dev: seq<byte>, off: nat, chunks: seq<Chunk>, bs: nat)
    requires AllValid(chunks) && bs > 0 && ChunksFit(chunks, off, |dev|)
    ensures var now := VisitChunks(Write, Tally(dev, 0, 0, 0), off, chunks, bs).dev;
            VisitChunks(Compare, Tally(now, 0, 0, 0), off, chunks, bs).bad == 0 <==> Agree(off, chunks, bs)
  {
    hide VisitChunks, Says, LastSays, ChunksFit, Agree, HoldsAll;
    var t := Tally(dev, 0, 0, 0);
    var now := VisitChunks(Write, t, off, chunks, bs).dev;
    CompareHolds(Tally(now, 0, 0, 0), off, chunks, bs);
    forall i: nat, p: nat | i < |chunks| && Says(off, chunks, i, bs, p).Some?
      ensures p < |now| && LastSays(off, chunks, bs, p) == Some(now[p])
    {
      SaidIsOnDevice(off, chunks, i, bs, p, |dev|);
      WalkedByte(t, off, chunks, bs, p);
      LastOfSaid(off, chunks, i, bs, p);
    }
    LastSaysHold(now, off, chunks, bs);
  }

  // A device that holds what was said last holds everything exactly if nothing else was said.
  lemma {:induction false} LastSaysHold(dev: seq<byte>, off: nat, chunks: seq<Chunk>, bs: nat)
    requires AllValid(chunks) && bs > 0
    requires forall i: nat, p: nat ::
      (i < |chunks| && Says(off, chunks, i, bs, p).Some?) ==> p < |dev| && LastSays(off, chunks, bs, p) == Some(dev[p])
    ensures HoldsAll(dev, off, chunks, bs) <==> Agree(off, chunks, bs)
  {
    hide Says, LastSays;
    if Agree(off, chunks, bs) {
      forall i: nat, p: nat | i < |chunks| && p < |dev| && Says(off, chunks, i, bs, p).Some?
        ensures Says(off, chunks, i, bs, p) == Some(dev[p])
      {
        var j := LastIsLast(off, chunks, i, bs, p);
      }
    }
  }

  lemma {:induction false} LastOfSaid(off: nat, chunks: seq<Chunk>, i: nat, bs: nat, p: nat)
    requires AllValid(chunks) && bs > 0 && i < |chunks| && Says(off, chunks, i, bs, p).Some?
    ensures LastSays(off, chunks, bs, p).Some?
    decreases |chunks|
  {
    hide Says;
    var n := |chunks| - 1;
    if i < n {
      SaysBefore(off, chunks, i, bs, p);
      LastOfSaid(off, chunks[..n], i, bs, p);
    }
  }
}
