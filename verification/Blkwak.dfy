/**
 blkwak's walks: putting an image on a device, comparing the two, and reading a region into a
 sparse image.
 */
module Blkwak {
  import opened Arith
  import opened Bytes
  import opened SparseFormat
  import opened BlockWalk

  // ----- What an image says -----

  // A chunk's cells as a walk with a buffer of bs bytes produces them.
  function ChunkCells(c: Chunk, bs: nat): (cells: seq<Option<byte>>)
    requires c.Valid() && bs > 0
    ensures |cells| == c.Len()
  {
    if c.Fill? then Known(FillSpan(c.pattern, c.len, bs)) else c.Cells()
  }

  function ExpandBs(chunks: seq<Chunk>, bs: nat): (cells: seq<Option<byte>>)
    requires AllValid(chunks) && bs > 0
    ensures |cells| == TotalLen(chunks)
  {
    if chunks == [] then []
    else ExpandBs(chunks[..|chunks| - 1], bs) + ChunkCells(chunks[|chunks| - 1], bs)
  }

  predicate IsSparse(file: seq<byte>) {
    |file| >= HEADER_SZ && GetLe32(file, 0) == MAGIC
  }

  // The chunks of a supported image: all of them sound, and covering what the header says.
  function SparseChunks(file: seq<byte>): (r: Option<seq<Chunk>>)
    ensures r.Some? ==> AllValid(r.value)
  {
    match ReadHeader(file)
    case None => None
    case Some(h) =>
      match ReadChunks(file, h.hdrSz, h, h.chunks)
      case None => None
      case Some(chunks) => if TotalLen(chunks) == Product(h.blks, h.blkSz) then Some(chunks) else None
  }

  // Images a device of size bytes can take at off.
  predicate Accepts(file: seq<byte>, off: nat, size: nat) {
    if IsSparse(file) then SparseChunks(file).Some? && off + TotalLen(SparseChunks(file).value) <= size
    else file == [] || off + |file| <= size
  }

  function ImageCells(file: seq<byte>, bs: nat): seq<Option<byte>>
    requires IsSparse(file) ==> SparseChunks(file).Some?
    requires bs > 0
  {
    if IsSparse(file) then ExpandBs(SparseChunks(file).value, bs) else Known(file)
  }

  // n bytes of the device at off, into the buffer.
  method ReadAt(dev: array<byte>, buf: array<byte>, off: nat, n: nat)
    requires dev != buf && n <= buf.Length && off + n <= dev.Length
    modifies buf
    ensures buf[..n] == dev[off..off + n]
  {
    forall i | 0 <= i < n {
      buf[i] := dev[off + i];
    }
  }

  // ----- What a walk does; its place in the output has 64 bits -----

  const TWO64: nat := 0x1_0000_0000_0000_0000

  // Where a walk that began at off is behind these chunks.
  function Place(off: nat, chunks: seq<Chunk>): nat {
    (off + TotalLen(chunks)) % TWO64
  }

  // The chunks one after the other, each where the walk then is.
  function VisitChunks(op: Op, t: Tally, off: nat, chunks: seq<Chunk>, bs: nat): Tally
    requires AllValid(chunks) && bs > 0
  {
    if chunks == [] then t
    else
      var n := |chunks| - 1;
      Visit(op, VisitChunks(op, t, off, chunks[..n], bs), Place(off, chunks[..n]), ChunkCells(chunks[n], bs))
  }

  // Chunks with bytes have to be on the device; holes may be anywhere.
  predicate ChunkFits(c: Chunk, at: nat, size: nat) {
    c.DontCare? || c.Len() == 0 || at + c.Len() <= size
  }

  predicate ChunksFit(chunks: seq<Chunk>, off: nat, size: nat) {
    forall i :: 0 <= i < |chunks| ==> ChunkFits(chunks[i], Place(off, chunks[..i]), size)
  }

  // The chunks of an image, whether or not they add up to what its header says.
  function ListedChunks(file: seq<byte>): (r: Option<seq<Chunk>>)
    ensures r.Some? ==> AllValid(r.value)
  {
    match ReadHeader(file)
    case None => None
    case Some(h) => ReadChunks(file, h.hdrSz, h, h.chunks)
  }

  // Images a walk gets through.
  predicate Passes(file: seq<byte>, off: nat, size: nat) {
    if !IsSparse(file) then file == [] || off + |file| <= size
    else if ReadHeader(file).None? || ListedChunks(file).None? then false
    else
      var h, chunks := ReadHeader(file).value, ListedChunks(file).value;
      off + Product(h.blks, h.blkSz) <= size && ChunksFit(chunks, off, size) &&
      TotalLen(chunks) % TWO64 == Product(h.blks, h.blkSz)
  }

  // And what it does then.
  function Walked(op: Op, t: Tally, off: nat, file: seq<byte>, bs: nat): Tally
    requires IsSparse(file) ==> ListedChunks(file).Some?
    requires bs > 0
  {
    if IsSparse(file) then VisitChunks(op, t, off, ListedChunks(file).value, bs)
    else Visit(op, t, off, Known(file))
  }

  // How far the image reaches.
  function Reach(file: seq<byte>): nat
    requires IsSparse(file) ==> ListedChunks(file).Some?
  {
    if IsSparse(file) then TotalLen(ListedChunks(file).value) else |file|
  }

  class Walk {
    const dev: array<byte>
    const buf: array<byte>     // bs bytes, shared
    const inp: seq<byte>       // the image
    var pos: nat               // where the image is read next
    var op: Op
    var firstBad: nat
    var bad: nat
    var done: nat

    ghost predicate Valid()
    {
      dev != buf && buf.Length > 0 && dev.Length < TWO64
    }

    ghost function T(): Tally
      reads this, dev
    {
      Tally(dev[..], bad, firstBad, done)
    }

    constructor (dev: array<byte>, buf: array<byte>, inp: seq<byte>, op: Op)
      requires dev != buf && buf.Length > 0 && dev.Length < TWO64
      ensures Valid() && this.dev == dev && this.buf == buf && this.inp == inp && this.op == op
      ensures pos == 0 && bad == 0 && firstBad == 0 && done == 0
    {
      this.dev, this.buf, this.inp, this.op := dev, buf, inp, op;
      pos, bad, firstBad, done := 0, 0, 0, 0;
    }

    method WriteAt(off: nat, data: array<byte>, n: nat)
      requires Valid() && data != dev && n <= data.Length && off + n <= dev.Length
      modifies dev
      ensures dev[..] == Overlay(old(dev[..]), off, Known(data[..n]))
    {
      forall i | 0 <= i < n {
        dev[off + i] := data[i];
      }
    }

    // Writes n bytes at off, or compares them with what is there.
    method SpanData(off: nat, data: array<byte>, n: nat) returns (ok: bool)
      requires Valid() && data != dev && n <= data.Length && n <= buf.Length && (op == Compare ==> data != buf)
      modifies `bad, `firstBad, dev, buf
      ensures op == Compare ==> dev[..] == old(dev[..])
      ensures data[..] == old(data[..])
      ensures ok == (off + n <= dev.Length)
      ensures ok ==> T() == Visit(op, old(T()), off, Known(data[..n])).(done := done)
      ensures !ok ==> T() == old(T())
    {
      hide Visit, Overlay, Known;
      if off + n > dev.Length {
        return false;
      }
      ok := true;
      if op == Write {
        WriteOverlays(T(), off, Known(data[..n]));
        WriteAt(off, data, n);
        return;
      }
      ReadAt(dev, buf, off, n);
      if buf[..n] == data[..n] {
        SameBytes(T(), off, data[..n]);
        return;
      }
      CountSpan(off, data, n);
    }

    method CountSpan(off: nat, data: array<byte>, n: nat)
      requires Valid() && data != dev && n <= data.Length && n <= buf.Length && data != buf && op == Compare
      requires off + n <= dev.Length && buf[..n] == dev[off..off + n]
      modifies `bad, `firstBad
      ensures T() == Visit(op, old(T()), off, Known(data[..n])).(done := done)
    {
      hide Visit, Known;
      ghost var t0, cells := T(), Known(data[..n]);
      var i := 0;
      VisitNothing(op, t0, off, cells);
      while i < n
        invariant i <= n && T() == Visit(op, t0, off, cells[..i]).(done := done)
      {
        VisitOneMore(op, t0, off, cells, i);
        assert buf[i] == buf[..n][i] == dev[off..off + n][i];
        if buf[i] != data[i] {
          if bad == 0 {
            firstBad := off + i;
          }
          bad := bad + 1;
        }
        i := i + 1;
      }
      assert cells[..n] == cells;
    }

    // The buffer the image goes through; comparing needs it apart from the device's.
    ghost predicate Buffer(data: array<byte>)
      reads this
    {
      Valid() && data != dev && data.Length == buf.Length && (op == Compare ==> data != buf)
    }

    // A span, and the bytes it did.
    method Span(off: nat, data: array<byte>, n: nat) returns (ok: bool)
      requires Buffer(data) && n <= data.Length
      modifies `bad, `firstBad, `done, dev, buf
      ensures op == Compare ==> dev[..] == old(dev[..])
      ensures data[..] == old(data[..])
      ensures ok == (off + n <= dev.Length)
      ensures ok ==> T() == Visit(op, old(T()), off, Known(data[..n]))
    {
      hide Visit, Known;
      VisitDone(op, T(), off, data[..n]);
      ok := SpanData(off, data, n);
      if ok {
        done := done + n;
      }
    }

    // The pattern over and over; it starts again with every buffer.
    method SpanFill(off0: nat, len: nat, fill: seq<byte>, data: array<byte>) returns (ok: bool)
      requires Buffer(data) && |fill| == 4
      modifies `bad, `firstBad, `done, dev, buf, data
      ensures op == Compare ==> dev[..] == old(dev[..])
      ensures ok == (len == 0 || off0 + len <= dev.Length)
      ensures ok ==> T() == Visit(op, old(T()), off0, Known(FillSpan(fill, len, buf.Length)))
    {
      hide Visit, Known, FillSpan, Mod;
      ghost var t0 := T();
      var bs := buf.Length;
      forall i | 0 <= i < bs {
        data[i] := fill[i % 4];
      }
      var left, off := len, off0;
      NoFill(fill, bs, op, t0, off0);
      while left > 0
        invariant op == Compare ==> dev[..] == old(dev[..])
        invariant 0 <= left <= len && off == off0 + (len - left) && (left > 0 ==> Mod(len - left, bs) == 0)
        invariant off > off0 ==> off <= dev.Length
        invariant forall i :: 0 <= i < bs ==> data[i] == fill[i % 4]
        invariant T() == Visit(op, t0, off0, Known(FillSpan(fill, len - left, bs)))
      {
        var n := if left > bs then bs else left;
        ok := Span(off, data, n);
        if !ok {
          return;
        }
        FillSpanMore(fill, len - left, n, bs, data[..n]);
        VisitCut(op, t0, off0, Known(FillSpan(fill, len - left, bs)), Known(data[..n]));
        assert data[..][..n] == data[..n];
        off, left := off + n, left - n;
      }
      ok := true;
    }

    // The next n bytes of the image as a span.
    method SpanImage(off: nat, data: array<byte>, n: nat) returns (ok: bool)
      requires Buffer(data) && n <= buf.Length && pos + n <= |inp|
      modifies `bad, `firstBad, `done, `pos, dev, buf, data
      ensures op == Compare ==> dev[..] == old(dev[..])
      ensures pos == old(pos) + n && ok == (off + n <= dev.Length)
      ensures ok ==> T() == Visit(op, old(T()), off, Known(inp[old(pos)..pos]))
    {
      hide Visit, Known;
      ghost var t0, piece := T(), inp[pos..pos + n];
      forall i | 0 <= i < n {
        data[i] := inp[pos + i];
      }
      pos := pos + n;
      assert T() == t0 && data[..n] == piece;
      ok := Span(off, data, n);
      assert data[..n] == data[..][..n] == piece;
    }

    // The data of a raw chunk, bs bytes at a time, from where the image is read next.
    method SpanRaw(off0: nat, len: nat, data: array<byte>) returns (ok: bool)
      requires Buffer(data)
      modifies `bad, `firstBad, `done, `pos, dev, buf, data
      ensures op == Compare ==> dev[..] == old(dev[..])
      ensures ok == ((len == 0 || off0 + len <= dev.Length) && (len == 0 || old(pos) + len <= |inp|))
      ensures ok ==> pos == old(pos) + len
      ensures ok && len > 0 ==> T() == Visit(op, old(T()), off0, Known(inp[old(pos)..old(pos) + len]))
      ensures ok && len == 0 ==> T() == old(T())
    {
      hide Visit, Known;
      ghost var t0, p0 := T(), pos;
      var left, off := len, off0;
      if p0 <= |inp| {
        NothingRaw(inp, p0, op, t0, off0);
      }
      while left > 0
        invariant op == Compare ==> dev[..] == old(dev[..])
        invariant 0 <= left <= len && off == off0 + (len - left) && pos == p0 + (len - left)
        invariant off > off0 ==> off <= dev.Length && pos <= |inp|
        invariant left == len ==> T() == t0
        invariant left < len ==> T() == Visit(op, t0, off0, Known(inp[p0..pos]))
      {
        var n := if left > buf.Length then buf.Length else left;
        if pos + n > |inp| {
          return false;
        }
        RawMore(inp, p0, pos, n, op, t0, off0);
        ok := SpanImage(off, data, n);
        if !ok {
          return;
        }
        off, left := off + n, left - n;
      }
      ok := true;
    }

    // A raw image: all of the file, until it ends.
    method WalkRaw(off0: nat, data: array<byte>) returns (ok: bool)
      requires Buffer(data) && pos == 0
      modifies `bad, `firstBad, `done, `pos, dev, buf, data
      ensures op == Compare ==> dev[..] == old(dev[..])
      ensures ok == (inp == [] || off0 + |inp| <= dev.Length)
      ensures ok ==> T() == Visit(op, old(T()), off0, Known(inp))
    {
      hide Visit, Known;
      ghost var t0 := T();
      var off := off0;
      NothingRaw(inp, 0, op, t0, off0);
      while pos < |inp|
        invariant op == Compare ==> dev[..] == old(dev[..])
        invariant pos <= |inp| && off == off0 + pos && (pos > 0 ==> off <= dev.Length)
        invariant T() == Visit(op, t0, off0, Known(inp[0..pos]))
      {
        var got := if |inp| - pos > buf.Length then buf.Length else |inp| - pos;
        RawMore(inp, 0, pos, got, op, t0, off0);
        ok := SpanImage(off, data, got);
        if !ok {
          return;
        }
        off := off + got;
      }
      assert inp[0..pos] == inp;
      ok := true;
    }

    // android_sparse_chunk: the head of the next chunk, and past it.
    method NextHead(h: Header) returns (r: Option<Head>)
      modifies `pos
      ensures r == ReadHead(inp, old(pos), h) && (r.Some? ==> pos == r.value.at)
    {
      hide GetLe16, GetLe32, Product;
      var hdr := pos;
      if pos + CHUNK_HEADER_SZ > |inp| {
        return None;
      }
      var kind, len, total := GetLe16(inp, hdr), Product(GetLe32(inp, hdr + 4), h.blkSz), GetLe32(inp, hdr + 8);
      pos := pos + CHUNK_HEADER_SZ;
      if total < h.chunkHdrSz {
        return None;
      }
      var body := total - h.chunkHdrSz;
      if h.chunkHdrSz > CHUNK_HEADER_SZ {
        pos := hdr + h.chunkHdrSz;
      }
      if kind == TYPE_RAW {
        return if body == len then Some(Head(kind, len, [], pos)) else None;
      } else if kind == TYPE_FILL {
        if body != 4 || pos + 4 > |inp| {
          return None;
        }
        pos := pos + 4;
        return Some(Head(kind, len, inp[pos - 4..pos], pos));
      } else if kind == TYPE_DONT_CARE {
        return if body == 0 then Some(Head(kind, len, [], pos)) else None;
      } else if kind == TYPE_CRC32 {
        pos := pos + body;
        return Some(Head(kind, len, [], pos));
      }
      r := None;
    }

    // One chunk at at: its spans, and how far the output is then.
    method WalkChunk(h: Header, at0: nat, data: array<byte>) returns (ok: bool, at: nat)
      requires Buffer(data)
      modifies `bad, `firstBad, `done, `pos, dev, buf, data
      ensures op == Compare ==> dev[..] == old(dev[..])
      ensures var c := ReadChunk(inp, old(pos), h);
              && ok == (c.Some? && ChunkFits(c.value.chunk, at0, dev.Length))
              && (ok ==> pos == c.value.next && at == (at0 + c.value.chunk.Len()) % TWO64 &&
                         T() == Visit(op, old(T()), at0, ChunkCells(c.value.chunk, buf.Length)))
    {
      hide Visit, Known, FillSpan, ReadHead;
      at := at0;
      ghost var t0 := T();
      var head := NextHead(h);
      if head.None? {
        return false, at;
      }
      var len := head.value.len;
      ok := true;
      if head.value.kind == TYPE_RAW {
        VisitHole(op, t0, at, 0);
        assert Known([]) == [];
        ok := SpanRaw(at, len, data);
      } else if head.value.kind == TYPE_FILL {
        ok := SpanFill(at, len, head.value.pattern, data);
      } else if head.value.kind == TYPE_DONT_CARE {
        VisitHole(op, t0, at, len);
      } else {
        len := 0;
        VisitHole(op, t0, at, 0);
      }
      at := (at + len) % TWO64;
    }

    // A sparse image: its chunks one after the other.
    method WalkSparse(off: nat, data: array<byte>) returns (ok: bool)
      requires Buffer(data) && IsSparse(inp)
      modifies `bad, `firstBad, `done, `pos, dev, buf, data
      ensures op == Compare ==> dev[..] == old(dev[..])
      ensures ok == Passes(inp, off, dev.Length)
      ensures ok ==> T() == Walked(op, old(T()), off, inp, buf.Length)
    {
      hide Visit, VisitChunks, ReadChunk, ChunkCells, ReadHeader, Product, Place, ChunkFits, TotalLen;
      var img := ReadHeader(inp);
      if img.None? {
        return false;
      }
      var h, size := img.value, Product(img.value.blks, img.value.blkSz);
      if off + size > dev.Length {
        return false;
      }
      pos := h.hdrSz;
      var at, i := off, 0;
      ghost var t0, seen: seq<Chunk> := T(), [];
      NothingSeen(inp, h, op, t0, off, dev.Length, buf.Length);
      while i < h.chunks
        invariant op == Compare ==> dev[..] == old(dev[..])
        invariant i <= h.chunks && Seen(inp, h, seen, pos, i) && at == Place(off, seen)
        invariant ChunksFit(seen, off, dev.Length) && T() == VisitChunks(op, t0, off, seen, buf.Length)
      {
        ghost var p := pos;
        ok, at := WalkChunk(h, at, data);
        if !ok {
          NoMoreSeen(inp, h, seen, p, i, off, dev.Length);
          return;
        }
        ghost var c := ReadChunk(inp, p, h).value.chunk;
        OneMoreSeen(inp, h, seen, p, i);
        OneMorePlace(off, seen, c);
        OneMoreFits(seen, c, off, dev.Length);
        OneMoreVisited(op, t0, off, seen, c, buf.Length);
        seen := seen + [c];
        i := i + 1;
      }
      AllSeen(inp, h, seen, pos, off);
      // the difference of two 64-bit numbers
      ok := (at + TWO64 - off) % TWO64 == size;
    }

    // walk_image: sparse if it says so, raw otherwise.
    method WalkImage(off: nat) returns (ok: bool)
      requires Valid()
      modifies `bad, `firstBad, `done, `pos, dev, buf
      ensures op == Compare ==> dev[..] == old(dev[..])
      ensures ok == Passes(inp, off, dev.Length)
      ensures ok ==> T() == Walked(op, old(T()), off, inp, buf.Length)
    {
      hide Visit, VisitChunks, ListedChunks;
      var data := buf;
      if op == Compare {
        data := new byte[buf.Length](_ => 0);
      }
      if IsSparse(inp) {
        ok := WalkSparse(off, data);
      } else {
        pos := 0;
        ok := WalkRaw(off, data);
      }
    }
  }

  // ----- Progress through the chunks -----

  // The chunks seen are the front of those in the file; the rest is read from pos on.
  ghost predicate Seen(file: seq<byte>, h: Header, seen: seq<Chunk>, pos: nat, i: nat) {
    i <= h.chunks && AllValid(seen) &&
    ReadChunks(file, h.hdrSz, h, h.chunks) ==
      match ReadChunks(file, pos, h, h.chunks - i)
      case None => None
      case Some(rest) => Some(seen + rest)
  }

  lemma {:induction false} NothingSeen(file: seq<byte>, h: Header, op: Op, t: Tally, off: nat, size: nat, bs: nat)
    requires bs > 0 && off < TWO64
    ensures Seen(file, h, [], h.hdrSz, 0) && Place(off, []) == off && ChunksFit([], off, size)
    ensures VisitChunks(op, t, off, [], bs) == t
  {
    hide ReadChunks, Visit, ChunkCells, ChunkFits;
    match ReadChunks(file, h.hdrSz, h, h.chunks)
    case None =>
    case Some(rest) => assert [] + rest == rest;
  }

  lemma {:induction false} OneMorePlace(off: nat, seen: seq<Chunk>, c: Chunk)
    ensures Place(off, seen + [c]) == (Place(off, seen) + c.Len()) % TWO64
  {
    assert (seen + [c])[..|seen|] == seen;
  }

  lemma {:induction false} OneMoreFits(seen: seq<Chunk>, c: Chunk, off: nat, size: nat)
    requires ChunksFit(seen, off, size) && ChunkFits(c, Place(off, seen), size)
    ensures ChunksFit(seen + [c], off, size)
  {
    hide ChunkFits, Place;
    var more := seen + [c];
    forall k | 0 <= k < |more| ensures ChunkFits(more[k], Place(off, more[..k]), size) {
      assert more[..k] == seen[..k];
      assert k == |seen| ==> seen[..k] == seen;
    }
  }

  lemma {:induction false} OneMoreVisited(op: Op, t: Tally, off: nat, seen: seq<Chunk>, c: Chunk, bs: nat)
    requires AllValid(seen) && c.Valid() && bs > 0
    ensures AllValid(seen + [c])
    ensures VisitChunks(op, t, off, seen + [c], bs) ==
            Visit(op, VisitChunks(op, t, off, seen, bs), Place(off, seen), ChunkCells(c, bs))
  {
    hide Visit, ChunkCells, Place;
    assert (seen + [c])[..|seen|] == seen;
  }

  lemma {:induction false} OneMoreSeen(file: seq<byte>, h: Header, seen: seq<Chunk>, pos: nat, i: nat)
    requires i < h.chunks && Seen(file, h, seen, pos, i) && ReadChunk(file, pos, h).Some?
    ensures var c := ReadChunk(file, pos, h).value; Seen(file, h, seen + [c.chunk], c.next, i + 1)
  {
    hide ReadChunk;
    var c := ReadChunk(file, pos, h).value;
    match ReadChunks(file, c.next, h, h.chunks - i - 1)
    case None =>
    case Some(rest) => assert seen + ([c.chunk] + rest) == seen + [c.chunk] + rest;
  }

  // A chunk that cannot be walked is in no image a walk gets through.
  lemma NoMoreSeen(file: seq<byte>, h: Header, seen: seq<Chunk>, pos: nat, i: nat, off: nat, size: nat)
    requires ReadHeader(file) == Some(h) && IsSparse(file) && i < h.chunks && Seen(file, h, seen, pos, i)
    requires var c := ReadChunk(file, pos, h); c.None? || !ChunkFits(c.value.chunk, Place(off, seen), size)
    ensures !Passes(file, off, size)
  {
    hide ReadChunk, ReadHeader, Product, ChunkFits, Place, TotalLen;
    var c := ReadChunk(file, pos, h);
    if c.Some? {
      match ReadChunks(file, c.value.next, h, h.chunks - i - 1)
      case None =>
      case Some(rest) =>
        var all := seen + ([c.value.chunk] + rest);
        assert all[|seen|] == c.value.chunk && all[..|seen|] == seen;
    }
  }

  lemma AllSeen(file: seq<byte>, h: Header, seen: seq<Chunk>, pos: nat, off: nat)
    requires ReadHeader(file) == Some(h) && Seen(file, h, seen, pos, h.chunks) && off < TWO64
    ensures ListedChunks(file) == Some(seen)
    ensures (Place(off, seen) + TWO64 - off) % TWO64 == TotalLen(seen) % TWO64
  {
    hide ReadChunk, ReadHeader, TotalLen;
    assert ReadChunks(file, pos, h, 0) == Some([]);
    assert seen + [] == seen;
  }

  // ----- When the place does not wrap -----

  lemma {:induction false} PrefixTotal(chunks: seq<Chunk>, i: nat)
    requires i < |chunks|
    ensures TotalLen(chunks[..i]) + chunks[i].Len() <= TotalLen(chunks)
    decreases |chunks|
  {
    var n := |chunks| - 1;
    if i < n {
      assert chunks[..n][..i] == chunks[..i];
      PrefixTotal(chunks[..n], i);
    }
  }

  lemma {:induction false} VisitStraight(op: Op, t: Tally, off: nat, chunks: seq<Chunk>, bs: nat)
    requires AllValid(chunks) && bs > 0 && off + TotalLen(chunks) < TWO64
    ensures VisitChunks(op, t, off, chunks, bs) == Visit(op, t, off, ExpandBs(chunks, bs))
    decreases |chunks|
  {
    hide Visit, ChunkCells;
    if chunks != [] {
      var n := |chunks| - 1;
      VisitStraight(op, t, off, chunks[..n], bs);
      VisitCut(op, t, off, ExpandBs(chunks[..n], bs), ChunkCells(chunks[n], bs));
    } else {
      VisitHole(op, t, off, 0);
    }
  }

  // Images the device can take are walked, and their cells are what is visited.
  lemma AcceptedIsWalked(op: Op, t: Tally, off: nat, file: seq<byte>, size: nat, bs: nat)
    requires Accepts(file, off, size) && size < TWO64 && bs > 0
    ensures Passes(file, off, size) && Walked(op, t, off, file, bs) == Visit(op, t, off, ImageCells(file, bs))
  {
    hide Visit, VisitChunks, ReadHeader, ReadChunks, ExpandBs, TotalLen, Product;
    if IsSparse(file) {
      var chunks := SparseChunks(file).value;
      forall i | 0 <= i < |chunks| ensures ChunkFits(chunks[i], Place(off, chunks[..i]), size) {
        PrefixTotal(chunks, i);
      }
      VisitStraight(op, t, off, chunks, bs);
    }
  }

  // A walk that gets through was of an image the device can take if and only if its place never
  // reached 2^64.
  lemma PassesExactly(file: seq<byte>, off: nat, size: nat)
    requires Passes(file, off, size) && off < TWO64 && size < TWO64
    ensures Accepts(file, off, size) <==> off + Reach(file) < 0x1_0000_0000_0000_0000
  {
    hide ReadHeader, ReadChunks, TotalLen, Product, ChunksFit;
  }

  lemma {:induction false} VisitHole(op: Op, t: Tally, off: nat, len: nat)
    ensures Visit(op, t, off, DontCare(len).Cells()) == t && Visit(op, t, off, []) == t
    decreases len
  {
    if len > 0 {
      assert DontCare(len).Cells()[..len - 1] == DontCare(len - 1).Cells();
      VisitHole(op, t, off, len - 1);
    }
  }

  lemma NothingRaw(inp: seq<byte>, p: nat, op: Op, t: Tally, off: nat)
    requires p <= |inp|
    ensures Visit(op, t, off, Known(inp[p..p])) == t
  {
  }

  lemma RawMore(inp: seq<byte>, p0: nat, pos: nat, n: nat, op: Op, t: Tally, off: nat)
    requires p0 <= pos && pos + n <= |inp|
    ensures Visit(op, t, off, Known(inp[p0..pos + n])) ==
            Visit(op, Visit(op, t, off, Known(inp[p0..pos])), off + (pos - p0), Known(inp[pos..pos + n]))
  {
    hide Visit;
    assert Known(inp[p0..pos + n]) == Known(inp[p0..pos]) + Known(inp[pos..pos + n]);
    VisitCut(op, t, off, Known(inp[p0..pos]), Known(inp[pos..pos + n]));
  }

  lemma VisitDone(op: Op, t: Tally, off: nat, data: seq<byte>)
    ensures Visit(op, t, off, Known(data)).done == t.done + |data|
    decreases |data|
  {
    if data != [] {
      var less := data[..|data| - 1];
      assert Known(data)[..|data| - 1] == Known(less);
      VisitDone(op, t, off, less);
    }
  }

  lemma NoFill(fill: seq<byte>, bs: nat, op: Op, t: Tally, off: nat)
    requires |fill| == 4 && bs > 0
    ensures Mod(0, bs) == 0 && Visit(op, t, off, Known(FillSpan(fill, 0, bs))) == t
  {
    ModSmall(0, bs);
  }

  lemma {:induction false} FillSpanMore(fill: seq<byte>, len: nat, n: nat, bs: nat, data: seq<byte>)
    requires |fill| == 4 && bs > 0 && Mod(len, bs) == 0 && |data| == n <= bs
    requires forall i :: 0 <= i < n ==> data[i] == fill[i % 4]
    ensures Known(FillSpan(fill, len + n, bs)) == Known(FillSpan(fill, len, bs)) + Known(data)
    ensures n == bs ==> Mod(len + n, bs) == 0
  {
    hide Mod;
    var span := FillSpan(fill, len + n, bs);
    forall i | 0 <= i < n ensures span[len + i] == data[i] {
      FillSpanAt(fill, len, n, bs, i);
    }
    assert span == FillSpan(fill, len, bs) + data;
    if n == bs {
      ModStep(len, 0, bs);
    }
  }

  lemma FillSpanAt(fill: seq<byte>, len: nat, n: nat, bs: nat, i: nat)
    requires |fill| == 4 && bs > 0 && Mod(len, bs) == 0 && i < n <= bs
    ensures FillSpan(fill, len + n, bs)[len + i] == fill[i % 4]
  {
    hide Mod;
    ModStep(len, i, bs);
  }

  lemma VisitNothing(op: Op, t: Tally, off: nat, cells: seq<Option<byte>>)
    ensures Visit(op, t, off, cells[..0]) == t
  {
  }

  lemma SameBytes(t: Tally, off: nat, data: seq<byte>)
    requires off + |data| <= |t.dev| && t.dev[off..off + |data|] == data
    ensures Visit(Compare, t, off, Known(data)).(done := t.done) == t
  {
    var cells := Known(data);
    CompareCounts(t, off, cells);
    forall i: nat ensures !Differs(t.dev, off, cells, i) {
      if off <= i < off + |data| {
        assert t.dev[off..off + |data|][i - off] == data[i - off];
      }
    }
    assert Differences(t.dev, off, cells) == {};
  }
}
