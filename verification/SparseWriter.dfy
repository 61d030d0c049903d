/** The streaming sparse image writer of inc/android_sparse_img.h. */
module SparseWriter {
  import opened Bytes
  import opened SparseFormat

  const UINT32_MAX: nat := 0xffff_ffff

  // ----- The file -----

  // lseek and write_full: writing past the end leaves a hole of zeros.
  function Overwrite(data: seq<byte>, off: nat, bytes: seq<byte>): (r: seq<byte>)
    ensures |r| == if off + |bytes| > |data| then off + |bytes| else |data|
  {
    var base := if off > |data| then data + seq(off - |data|, _ => 0) else data;
    base[..off] + bytes + (if off + |bytes| < |base| then base[off + |bytes|..] else [])
  }

  lemma OverwriteHolds(data: seq<byte>, off: nat, bytes: seq<byte>)
    ensures StartsAt(Overwrite(data, off, bytes), off, bytes)
  {
  }

  lemma OverwriteKeeps(data: seq<byte>, off: nat, bytes: seq<byte>, at: nat, part: seq<byte>)
    requires StartsAt(data, at, part) && (at + |part| <= off || off + |bytes| <= at)
    ensures StartsAt(Overwrite(data, off, bytes), at, part)
  {
    var r := Overwrite(data, off, bytes);
    var window := data[at..at + |part|];
    forall i | 0 <= i < |part| ensures r[at..at + |part|][i] == part[i] {
      assert part[i] == window[i] == data[at + i];
      assert r[at + i] == data[at + i];
    }
  }

  lemma OverwriteNothing(data: seq<byte>, at: nat, part: seq<byte>)
    requires StartsAt(data, at, part)
    ensures Overwrite(data, at + |part|, []) == data
  {
  }

  class File {
    var data: seq<byte>

    constructor (data: seq<byte>)
      ensures this.data == data
    {
      this.data := data;
    }

    method WriteAt(off: nat, bytes: seq<byte>)
      modifies this
      ensures data == Overwrite(old(data), off, bytes)
    {
      data := Overwrite(data, off, bytes);
    }
  }

  // ----- What the writer's calls mean -----

  function Kind(c: Chunk): nat {
    match c
    case Raw(_) => TYPE_RAW
    case Fill(_, _) => TYPE_FILL
    case DontCare(_) => TYPE_DONT_CARE
    case Crc32 => TYPE_CRC32
  }

  // One chunk for two neighbours, if they are alike and its sizes still fit 32 bits.
  function Merged(a: Chunk, b: Chunk): Option<Chunk> {
    if a.Raw? && b.Raw? && CHUNK_HEADER_SZ + |a.data| + |b.data| < TWO32 then Some(Raw(a.data + b.data))
    else if a.Fill? && b.Fill? && a.pattern == b.pattern && a.len / BLK_SZ + b.len / BLK_SZ < TWO32
    then Some(Fill(a.pattern, a.len + b.len))
    else None
  }

  // The limits are those of the 32-bit fields: the chunk's size in bytes, and its size in blocks.
  lemma MergedExactly(a: Chunk, b: Chunk)
    ensures Merged(a, b).Some? <==>
            (a.Raw? && b.Raw? && 12 + |a.data| + |b.data| <= 0xffff_ffff) ||
            (a.Fill? && b.Fill? && a.pattern == b.pattern && a.len / 4096 + b.len / 4096 <= 0xffff_ffff)
  {
  }

  // A call adds its blocks to the last chunk or opens a new one.
  function Put(chunks: seq<Chunk>, c: Chunk): seq<Chunk> {
    if chunks == [] then [c]
    else match Merged(chunks[|chunks| - 1], c)
      case Some(m) => chunks[..|chunks| - 1] + [m]
      case None => chunks + [c]
  }

  // Appending to the last chunk's body and writing its header again leaves one larger chunk.
  lemma ChunkInPlace(f0: seq<byte>, pre: seq<Chunk>, header: seq<byte>, body: seq<byte>, more: seq<byte>, c: Chunk)
    requires StartsAt(f0, HEADER_SZ, Layout(pre)) && |header| == CHUNK_HEADER_SZ
    requires var last := HEADER_SZ + |Layout(pre)|; body == [] || StartsAt(f0, last + CHUNK_HEADER_SZ, body)
    requires ChunkBytes(c) == header + (body + more)
    ensures var last := HEADER_SZ + |Layout(pre)|;
            var f1 := Overwrite(f0, last + CHUNK_HEADER_SZ + |body|, more);
            StartsAt(Overwrite(f1, last, header), HEADER_SZ, Layout(pre + [c]))
    ensures |Layout(pre + [c])| == |Layout(pre)| + CHUNK_HEADER_SZ + |body| + |more|
  {
    hide StartsAt, Overwrite, ChunkBytes;
    var last := HEADER_SZ + |Layout(pre)|;
    var at := last + CHUNK_HEADER_SZ;
    var f1 := Overwrite(f0, at + |body|, more);
    var f2 := Overwrite(f1, last, header);
    assert (pre + [c])[..|pre|] == pre;
    OverwriteKeeps(f0, at + |body|, more, HEADER_SZ, Layout(pre));
    OverwriteKeeps(f1, last, header, HEADER_SZ, Layout(pre));
    OverwriteHolds(f0, at + |body|, more);
    OverwriteKeeps(f1, last, header, at + |body|, more);
    OverwriteHolds(f1, last, header);
    if body == [] {
      assert body + more == more;
    } else {
      OverwriteKeeps(f0, at + |body|, more, at, body);
      OverwriteKeeps(f1, last, header, at, body);
      StartsJoin(f2, at, body, more);
    }
    StartsJoin(f2, last, header, body + more);
    StartsJoin(f2, HEADER_SZ, Layout(pre), ChunkBytes(c));
  }

  lemma BlocksAdd(total: nat, n: nat)
    ensures (total / BLK_SZ % TWO32 + n) % TWO32 == (total + n * BLK_SZ) / BLK_SZ % TWO32
  {
    assert (total + n * BLK_SZ) / BLK_SZ == total / BLK_SZ + n;
    CountsAdd(total / BLK_SZ, n);
  }

  lemma CountsAdd(x: nat, n: nat)
    ensures (x % TWO32 + n) % TWO32 == (x + n) % TWO32
  {
    WholeTurns(x / TWO32, x % TWO32 + n);
  }

  lemma WholeTurns(q: nat, y: nat)
    ensures (TWO32 * q + y) % TWO32 == y % TWO32
  {
    assert TWO32 * q + y == TWO32 * (q + y / TWO32) + y % TWO32;
  }

  lemma WholeBlocks(a: nat, b: nat)
    requires a % BLK_SZ == 0 && b % BLK_SZ == 0
    ensures (a + b) / BLK_SZ == a / BLK_SZ + b / BLK_SZ && (a / BLK_SZ + b / BLK_SZ) * BLK_SZ == a + b
  {
  }

  // ----- The writer's book-keeping -----

  datatype Books = Books(last: nat, lastBlks: nat, blks: nat, chunks: nat, lastType: nat, lastFill: seq<byte>)

  // What the writer keeps about the chunks it has written.
  ghost predicate Kept(w: seq<Chunk>, b: Books) {
    AllWritable(w) && b.blks == TotalLen(w) / BLK_SZ % TWO32 && b.chunks == |w| % TWO32 && |b.lastFill| == 4 &&
    if w == [] then b.lastType == 0 && b.lastBlks == 0
    else
      var c := w[|w| - 1];
      b.last == HEADER_SZ + |Layout(w[..|w| - 1])| && b.lastType == Kind(c) && b.lastBlks == c.Len() / BLK_SZ &&
      (c.Fill? ==> b.lastFill == c.pattern)
  }

  lemma KeptWhenGrown(w: seq<Chunk>, b: Books, c: Chunk)
    requires Kept(w, b) && Writable(c) && w != [] && Merged(w[|w| - 1], c).Some?
    ensures Kept(Put(w, c), b.(lastBlks := b.lastBlks + c.Len() / BLK_SZ, blks := (b.blks + c.Len() / BLK_SZ) % TWO32))
  {
    hide Layout, TotalLen;
    TotalOfPut(w, c);
    BlocksAdd(TotalLen(w), c.Len() / BLK_SZ);
    var pre, m := w[..|w| - 1], Merged(w[|w| - 1], c).value;
    assert (pre + [m])[..|pre|] == pre;
    assert Writable(w[|w| - 1]);
  }

  lemma KeptWhenNew(w: seq<Chunk>, b: Books, c: Chunk, fill: seq<byte>)
    requires Kept(w, b) && Writable(c) && Put(w, c) == w + [c] && (|fill| == 4 || fill == b.lastFill)
    requires c.Fill? ==> c.pattern == fill
    ensures var n := c.Len() / BLK_SZ;
            Kept(w + [c], Books(HEADER_SZ + |Layout(w)|, n,
                                (b.blks + n) % TWO32, (b.chunks + 1) % TWO32, Kind(c), fill))
  {
    hide Layout, TotalLen, Put, Merged;
    assert c.Len() / BLK_SZ * BLK_SZ == c.Len();
    CountsAdd(|w|, 1);
    TotalOfPut(w, c);
    BlocksAdd(TotalLen(w), c.Len() / BLK_SZ);
    assert (w + [c])[..|w|] == w;
  }

  // __android_sparse_grows: same kind, and sizes that fit 32 bits.
  predicate Fits(b: Books, kind: nat, n: nat) {
    b.lastType == kind && b.lastBlks + n <= UINT32_MAX &&
    CHUNK_HEADER_SZ + (if kind == TYPE_RAW then (b.lastBlks + n) * BLK_SZ else 4) <= UINT32_MAX
  }

  lemma {:induction false} RawBytes(data: seq<byte>)
    requires |data| % BLK_SZ == 0
    ensures var n := |data| / BLK_SZ; ChunkBytes(Raw(data)) == ChunkHeader(TYPE_RAW, n, n * BLK_SZ) + data
  {
    hide ChunkHeader;
  }

  lemma {:induction false} RawMerges(c: Chunk, data: seq<byte>)
    requires Writable(c) && Writable(Raw(data))
    ensures var m := c.Len() / BLK_SZ + |data| / BLK_SZ;
            && Merged(c, Raw(data)) ==
               (if c.Raw? && CHUNK_HEADER_SZ + m * BLK_SZ <= UINT32_MAX then Some(Raw(c.data + data)) else None)
            && (c.Raw? ==> ChunkBytes(Raw(c.data + data)) == ChunkHeader(TYPE_RAW, m, m * BLK_SZ) + (c.data + data))
  {
    hide ChunkHeader, ChunkBytes;
    if c.Raw? {
      WholeBlocks(|c.data|, |data|);
      RawBytes(c.data + data);
    }
  }

  lemma {:induction false} RawCase(w: seq<Chunk>, b: Books, data: seq<byte>)
    requires Kept(w, b) && Writable(Raw(data))
    ensures var n, m := |data| / BLK_SZ, b.lastBlks + |data| / BLK_SZ;
            if Fits(b, TYPE_RAW, n) then
              w != [] && w[|w| - 1].Raw? && Merged(w[|w| - 1], Raw(data)).Some? &&
              var body := w[|w| - 1].data;
              Put(w, Raw(data)) == w[..|w| - 1] + [Raw(body + data)] &&
              ChunkBytes(Raw(body + data)) == ChunkHeader(TYPE_RAW, m, m * BLK_SZ) + (body + data)
            else
              Put(w, Raw(data)) == w + [Raw(data)] &&
              ChunkBytes(Raw(data)) == ChunkHeader(TYPE_RAW, n, n * BLK_SZ) + ([] + data)
  {
    hide Kept, Writable, Merged, ChunkBytes, ChunkHeader;
    assert [] + data == data;
    WritableRaw(data);
    RawBytes(data);
    LastKept(w, b);
    if w != [] {
      RawMerges(w[|w| - 1], data);
    }
  }

  lemma WritableRaw(data: seq<byte>)
    requires Writable(Raw(data))
    ensures |data| % BLK_SZ == 0
  {
  }

  lemma {:induction false} FillCase(w: seq<Chunk>, b: Books, fill: seq<byte>, n: nat)
    requires Kept(w, b) && Writable(Fill(fill, n * BLK_SZ))
    ensures |fill| == 4
    ensures var c := Fill(fill, n * BLK_SZ);
            if Fits(b, TYPE_FILL, n) && fill == b.lastFill then
              w != [] && w[|w| - 1].Fill? && Merged(w[|w| - 1], c).Some? &&
              w[|w| - 1].pattern == fill &&
              var m := Fill(fill, (b.lastBlks + n) * BLK_SZ);
              Put(w, c) == w[..|w| - 1] + [m] &&
              ChunkBytes(m) == ChunkHeader(TYPE_FILL, b.lastBlks + n, 4) + (fill + [])
            else
              Put(w, c) == w + [c] && ChunkBytes(c) == ChunkHeader(TYPE_FILL, n, 4) + ([] + fill)
  {
    hide Layout, TotalLen, ChunkHeader;
    assert [] + fill == fill == fill + [];
    if w != [] {
      var c := w[|w| - 1];
      assert Writable(c);
    }
  }

  lemma LastKept(w: seq<Chunk>, b: Books)
    requires Kept(w, b)
    ensures |b.lastFill| == 4 && (w == [] ==> b.lastType == 0 && b.lastBlks == 0)
    ensures w != [] ==>
      var c := w[|w| - 1];
      Writable(c) && b.last == HEADER_SZ + |Layout(w[..|w| - 1])| && b.lastType == Kind(c) &&
      b.lastBlks == c.Len() / BLK_SZ && (c.Fill? ==> b.lastFill == c.pattern)
  {
  }

  // ----- The writer -----

  function Larger(a: nat, b: nat): nat {
    if a > b then a else b
  }

  class SparseOut {
    const file: File
    var end: nat         // length of the image so far
    var last: nat        // position of the chunk that may still grow
    var lastBlks: nat
    var blks: nat
    var chunks: nat
    var lastType: nat
    var lastFill: seq<byte>
    ghost var written: seq<Chunk>
    ghost const size0: nat   // how long the file was

    ghost function Book(): Books
      reads this
    {
      Books(last, lastBlks, blks, chunks, lastType, lastFill)
    }

    ghost predicate Valid()
      reads this, file
    {
      Kept(written, Book()) && StartsAt(file.data, HEADER_SZ, Layout(written)) &&
          end == HEADER_SZ + |Layout(written)| &&
      |file.data| == Larger(size0, end)
    }

    // android_sparse_create; whatever is in the file beyond the image stays there.
    constructor (file: File)
      modifies file
      ensures Valid() && this.file == file && written == [] && size0 == |old(file.data)|
    {
      this.file, size0 := file, |file.data|;
      last, lastBlks, blks, chunks, lastType := 0, 0, 0, 0, 0;
      lastFill := [0, 0, 0, 0];
      end := HEADER_SZ;
      written := [];
      new;
      WriteHeader();
      assert Layout([]) == [];
    }

    method WriteHeader()
      modifies file
      ensures file.data == Overwrite(old(file.data), 0, ImageHeader(blks, chunks))
    {
      file.WriteAt(0, ImageHeader(blks, chunks));
    }

    method Grows(kind: nat, n: nat) returns (r: bool)
      ensures r == Fits(Book(), kind, n)
    {
      var total := lastBlks + n;
      var body := 4;
      if lastType != kind || total > UINT32_MAX {
        return false;
      }
      if kind == TYPE_RAW {
        body := total * BLK_SZ;
      }
      r := CHUNK_HEADER_SZ + body <= UINT32_MAX;
    }

    method NewChunk(kind: nat)
      modifies this
      ensures last == old(end) && lastType == kind && lastBlks == 0 && end == old(end) + CHUNK_HEADER_SZ
      ensures chunks == (old(chunks) + 1) % TWO32
      ensures blks == old(blks) && lastFill == old(lastFill) && written == old(written)
    {
      last, lastType, lastBlks := end, kind, 0;
      end := end + CHUNK_HEADER_SZ;
      chunks := (chunks + 1) % TWO32;
    }

    method WriteChunkHeader(kind: nat, body: nat)
      modifies file
      ensures file.data == Overwrite(old(file.data), last, ChunkHeader(kind, lastBlks, body))
    {
      file.WriteAt(last, ChunkHeader(kind, lastBlks, body));
    }

    // The last chunk has its header at last and ends at end; its body so far is body.
    ghost predicate Open(pre: seq<Chunk>, body: seq<byte>)
      reads this, file
    {
      StartsAt(file.data, HEADER_SZ, Layout(pre)) && last == HEADER_SZ + |Layout(pre)| &&
      end == last + CHUNK_HEADER_SZ + |body| && (body == [] || StartsAt(file.data, last + CHUNK_HEADER_SZ, body))
    }

    // More for the last chunk: its bytes at the end, then its header once more.
    method Append(kind: nat, more: seq<byte>, n: nat, size: nat, ghost pre: seq<Chunk>, ghost body: seq<byte>,
                  ghost c: Chunk)
      requires |file.data| == Larger(size0, end) || (body == [] && |file.data| == Larger(size0, last))
      requires Open(pre, body) && body + more != []
      requires ChunkBytes(c) == ChunkHeader(kind, lastBlks + n, size) + (body + more)
      modifies this, file
      ensures StartsAt(file.data, HEADER_SZ, Layout(pre + [c])) && end == HEADER_SZ + |Layout(pre + [c])|
      ensures |file.data| == Larger(size0, end)
      ensures last == old(last) && lastBlks == old(lastBlks) + n && blks == (old(blks) + n) % TWO32
      ensures lastType == old(lastType) && lastFill == old(lastFill) && chunks == old(chunks) && written == old(written)
    {
      hide StartsAt, Overwrite, Layout, ChunkBytes;
      ChunkInPlace(file.data, pre, ChunkHeader(kind, lastBlks + n, size), body, more, c);
      if more != [] {
        file.WriteAt(end, more);
        end := end + |more|;
      } else {
        OverwriteNothing(file.data, last + CHUNK_HEADER_SZ, body);
      }
      lastBlks := lastBlks + n;
      blks := (blks + n) % TWO32;
      WriteChunkHeader(kind, size);
    }

    // Adds data that has no repeating blocks.
    method PutRaw(data: seq<byte>)
      requires Valid() && Writable(Raw(data)) && data != []
      modifies this, file
      ensures Valid() && written == Put(old(written), Raw(data))
    {
      hide StartsAt, Layout, TotalLen, ChunkHeader, ChunkBytes, Kept, Merged, Put, Writable;
      var n := |data| / BLK_SZ;
      RawCase(written, Book(), data);
      var grows := Grows(TYPE_RAW, n);
      if grows {
        KeptWhenGrown(written, Book(), Raw(data));
        LastChunk(file.data, written);
        LastKept(written, Book());
        ghost var pre, body := written[..|written| - 1], written[|written| - 1].data;
        Append(TYPE_RAW, data, n, (lastBlks + n) * BLK_SZ, pre, body, Raw(body + data));
        written := pre + [Raw(body + data)];
      } else {
        KeptWhenNew(written, Book(), Raw(data), lastFill);
        NewChunk(TYPE_RAW);
        Append(TYPE_RAW, data, n, (lastBlks + n) * BLK_SZ, written, [], Raw(data));
        written := written + [Raw(data)];
      }
    }

    // Adds n blocks that repeat fill.
    method PutFill(fill: seq<byte>, n: nat)
      requires Valid() && Writable(Fill(fill, n * BLK_SZ))
      modifies this, file
      ensures Valid() && written == Put(old(written), Fill(fill, n * BLK_SZ))
    {
      hide StartsAt, Layout, TotalLen, ChunkHeader, ChunkBytes, Kept, Merged, Put, Writable;
      FillCase(written, Book(), fill, n);
      var grows := Grows(TYPE_FILL, n);
      if !grows || fill != lastFill {
        KeptWhenNew(written, Book(), Fill(fill, n * BLK_SZ), fill);
        NewChunk(TYPE_FILL);
        lastFill := fill;
        Append(TYPE_FILL, fill, n, 4, written, [], Fill(fill, n * BLK_SZ));
        written := written + [Fill(fill, n * BLK_SZ)];
      } else {
        KeptWhenGrown(written, Book(), Fill(fill, n * BLK_SZ));
        LastChunk(file.data, written);
        LastKept(written, Book());
        ghost var pre, m := written[..|written| - 1], Fill(fill, (lastBlks + n) * BLK_SZ);
        Append(TYPE_FILL, [], n, 4, pre, fill, m);
        written := pre + [m];
      }
    }

    // Until now the header on the file said zero blocks in zero chunks.
    method Finish()
      requires Valid()
      modifies file
      ensures StartsAt(file.data, 0, ImageHeader(TotalLen(written) / BLK_SZ % TWO32, |written| % TWO32))
      ensures StartsAt(file.data, HEADER_SZ, Layout(written))
      ensures |file.data| == Larger(size0, HEADER_SZ + |Layout(written)|)
    {
      hide StartsAt, Overwrite, Layout, TotalLen;
      assert blks == TotalLen(written) / BLK_SZ % TWO32 && chunks == |written| % TWO32;
      OverwriteHolds(file.data, 0, ImageHeader(blks, chunks));
      OverwriteKeeps(file.data, 0, ImageHeader(blks, chunks), HEADER_SZ, Layout(written));
      WriteHeader();
    }
  }

  lemma LayoutLast(chunks: seq<Chunk>)
    requires chunks != []
    ensures Layout(chunks) == Layout(chunks[..|chunks| - 1]) + ChunkBytes(chunks[|chunks| - 1])
  {
    hide ChunkBytes;
  }

  // Where the last chunk and its data are.
  lemma LastChunk(file: seq<byte>, chunks: seq<Chunk>)
    requires chunks != [] && StartsAt(file, HEADER_SZ, Layout(chunks))
    ensures var pre, c := chunks[..|chunks| - 1], chunks[|chunks| - 1];
            StartsAt(file, HEADER_SZ, Layout(pre)) && StartsAt(file, HEADER_SZ + |Layout(pre)|, ChunkBytes(c)) &&
            |Layout(chunks)| == |Layout(pre)| + |ChunkBytes(c)| &&
            (c.Raw? ==> |ChunkBytes(c)| == CHUNK_HEADER_SZ + |c.data| &&
                        StartsAt(file, HEADER_SZ + |Layout(pre)| + CHUNK_HEADER_SZ, c.data)) &&
            (c.Fill? ==> |ChunkBytes(c)| == CHUNK_HEADER_SZ + |c.pattern| &&
                         StartsAt(file, HEADER_SZ + |Layout(pre)| + CHUNK_HEADER_SZ, c.pattern))
  {
    hide StartsAt, ChunkHeader, Layout;
    var pre, c := chunks[..|chunks| - 1], chunks[|chunks| - 1];
    LayoutLast(chunks);
    var last := HEADER_SZ + |Layout(pre)|;
    StartsSplit(file, HEADER_SZ, Layout(pre), ChunkBytes(c));
    if c.Raw? {
      StartsSplit(file, last, ChunkHeader(TYPE_RAW, |c.data| / BLK_SZ, |c.data|), c.data);
    } else if c.Fill? {
      StartsSplit(file, last, ChunkHeader(TYPE_FILL, c.len / BLK_SZ, 4), c.pattern);
    }
  }

  lemma TotalOfPut(chunks: seq<Chunk>, c: Chunk)
    ensures TotalLen(Put(chunks, c)) == TotalLen(chunks) + c.Len()
  {
    if chunks == [] {
      assert [c][..0] == [];
    } else {
      var pre := chunks[..|chunks| - 1];
      match Merged(chunks[|chunks| - 1], c)
      case Some(m) => assert (pre + [m])[..|pre|] == pre;
      case None => assert (chunks + [c])[..|chunks|] == chunks;
    }
  }
}
