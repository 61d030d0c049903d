/** blkwak's commands: reading a region into a sparse image, and writing and comparing images. */
module BlkCommands {
  import opened Bytes
  import opened SparseFormat
  import opened SparseWriter
  import opened SparseRuns
  import opened BlockWalk
  import opened BlkOverlaps
  import opened Blkwak

  const EX_IOERR: nat := 74

  // ----- What the chunks written so far say -----

  // They stand for data and nothing in them could be merged; if no run of data is too long for
  // one chunk they are its canonical encoding.
  ghost predicate Encodes(w: seq<Chunk>, data: seq<byte>) {
    && |data| % BLK_SZ == 0 && AllWritable(w) && AllValid(w) && Expand(w) == Known(data)
    && NoneMergeable(w) && (AllWritable(Canon(data)) ==> w == Canon(data))
    && |w| * BLK_SZ <= |data|
  }

  lemma NothingEncoded()
    ensures Encodes([], [])
  {
  }

  lemma RunWritable(run: seq<byte>)
    requires IsRun(run) && CHUNK_HEADER_SZ + |run| < TWO32
    ensures Writable(RunChunk(run)) && RunChunk(run).Len() == |run| >= BLK_SZ
  {
  }

  lemma CanonChunks(data: seq<byte>)
    requires |data| % BLK_SZ == 0
    ensures forall i :: 0 <= i < |Canon(data)| ==> Canon(data)[i].Len() % BLK_SZ == 0 && Canon(data)[i].Valid()
  {
    hide Canon;
    CanonIsNormal(data);
  }

  lemma AtMostOneMore(w: seq<Chunk>, c: Chunk)
    ensures |Put(w, c)| <= |w| + 1
  {
  }

  lemma EncodesMore(w: seq<Chunk>, data: seq<byte>, run: seq<byte>)
    requires Encodes(w, data) && IsRun(run) && CHUNK_HEADER_SZ + |run| < TWO32
    ensures Encodes(Put(w, RunChunk(run)), data + run)
  {
    hide Put, Canon, NoneMergeable, IsRun, Expand, Known, Writable, RunChunk, Join;
    RunLength(run);
    var c := RunChunk(run);
    RunWritable(run);
    RunCells(run);
    ExpandPut(w, c);
    KnownJoins(data, run);
    PutLeavesNoneMergeable(w, c);
    AtMostOneMore(w, c);
    CanonRun(data, run);
    if AllWritable(Canon(data + run)) {
      CanonChunks(data);
      PutIsJoin(Canon(data), c);
    }
  }

  // ----- Runs in the buffer -----

  lemma OneBlockRun(b: seq<byte>)
    requires |b| == BLK_SZ
    ensures IsRun(b)
  {
    forall at: nat | at % BLK_SZ == 0 && at + BLK_SZ <= |b| ensures SameChunk(BlockOf(b, 0), BlockOf(b, at)) {
      assert at == 0;
    }
  }

  lemma LongerRun(run: seq<byte>, b: seq<byte>)
    requires IsRun(run) && |b| == BLK_SZ && SameChunk(BlockOf(run, 0), b)
    ensures IsRun(run + b)
  {
    hide SameChunk;
    assert BlockOf(run + b, 0) == BlockOf(run, 0);
    forall at: nat | at % BLK_SZ == 0 && at + BLK_SZ <= |run + b|
      ensures SameChunk(BlockOf(run + b, 0), BlockOf(run + b, at))
    {
      if at == |run| {
        assert BlockOf(run + b, at) == b;
      } else {
        assert at + BLK_SZ <= |run| by {
          BlockBefore(at, |run|);
        }
        assert BlockOf(run + b, at) == BlockOf(run, at);
      }
    }
  }

  lemma BlockBefore(at: nat, n: nat)
    requires at % BLK_SZ == 0 && n % BLK_SZ == 0 && at < n + BLK_SZ && at != n
    ensures at + BLK_SZ <= n
  {
  }

  lemma WhatRunPuts(run: seq<byte>)
    requires IsRun(run)
    ensures |run| >= BLK_SZ && |run| / BLK_SZ * BLK_SZ == |run|
    ensures RunChunk(run) == if IsFill(BlockOf(run, 0)) then Fill(run[..4], |run|) else Raw(run)
  {
    assert BlockOf(run, 0)[..4] == run[..4];
  }

  // put_blocks: a run that shares a chunk.
  method PutBlocks(o: SparseOut, run: seq<byte>)
    requires o.Valid() && IsRun(run) && CHUNK_HEADER_SZ + |run| < TWO32
    modifies o, o.file
    ensures o.Valid() && o.written == Put(old(o.written), RunChunk(run))
  {
    hide Put, IsRun, IsFill, BlockOf, RunChunk, Writable, Kept, Layout, StartsAt;
    RunWritable(run);
    WhatRunPuts(run);
    var blks := |run| / BLK_SZ;
    if IsFill(BlockOf(run, 0)) {
      o.PutFill(run[..4], blks);
    } else {
      o.PutRaw(run);
    }
  }

  // A bufferful of blocks, the next ones of the region after data.
  method PutBuffer(o: SparseOut, buf: array<byte>, n: nat, ghost data: seq<byte>)
    requires o.Valid() && Encodes(o.written, data)
    requires 0 < n <= buf.Length && n % BLK_SZ == 0 && CHUNK_HEADER_SZ + n < TWO32
    modifies o, o.file
    ensures o.Valid() && Encodes(o.written, data + buf[..n])
  {
    hide Encodes, IsRun, SameChunk, BlockOf, Put, RunChunk, Kept, Layout, StartsAt;
    var start, i := 0, BLK_SZ;
    FirstRun(buf[..], n, data);
    while i <= n
      invariant start % BLK_SZ == 0 && i % BLK_SZ == 0 && start <= n && start < i
      invariant if i <= n then IsRun(buf[start..i]) else start == n
      invariant o.Valid() && Encodes(o.written, data + buf[..start])
      decreases n + BLK_SZ - i
    {
      var same := false;
      if i < n {
        BlockBefore(i, n);
        BlockBefore(start, i);
        same := SameChunk(BlockOf(buf[..], start), BlockOf(buf[..], i));
        NextRun(buf[..], start, i);
      }
      if !same {
        assert buf[..][start..i] == buf[start..i];
        RunInBuffer(buf[..], start, i, o.written, data);
        PutBlocks(o, buf[start..i]);
        start := i;
      }
      i := i + BLK_SZ;
    }
  }

  lemma FirstRun(buf: seq<byte>, n: nat, data: seq<byte>)
    requires 0 < n <= |buf| && n % BLK_SZ == 0
    ensures BLK_SZ <= n && IsRun(buf[0..BLK_SZ]) && data + buf[..0] == data
  {
    hide IsRun;
    OneBlockRun(buf[0..BLK_SZ]);
  }

  lemma NextRun(buf: seq<byte>, start: nat, i: nat)
    requires start + BLK_SZ <= i && i + BLK_SZ <= |buf| && IsRun(buf[start..i])
    ensures SameChunk(BlockOf(buf, start), BlockOf(buf, i)) ==> IsRun(buf[start..i + BLK_SZ])
    ensures IsRun(buf[i..i + BLK_SZ])
  {
    hide IsRun, SameChunk;
    OneBlockRun(buf[i..i + BLK_SZ]);
    assert BlockOf(buf[start..i], 0) == BlockOf(buf, start);
    assert buf[start..i] + BlockOf(buf, i) == buf[start..i + BLK_SZ];
    if SameChunk(BlockOf(buf, start), BlockOf(buf, i)) {
      LongerRun(buf[start..i], BlockOf(buf, i));
    }
  }

  lemma RunInBuffer(buf: seq<byte>, start: nat, i: nat, w: seq<Chunk>, data: seq<byte>)
    requires start <= i <= |buf| && IsRun(buf[start..i]) && CHUNK_HEADER_SZ + i < TWO32
    requires Encodes(w, data + buf[..start])
    ensures |buf[start..i]| >= BLK_SZ
    ensures Encodes(Put(w, RunChunk(buf[start..i])), data + buf[..i])
  {
    hide IsRun, Encodes, RunChunk, Put;
    RunLength(buf[start..i]);
    EncodesMore(w, data + buf[..start], buf[start..i]);
    assert data + buf[..start] + buf[start..i] == data + buf[..i];
  }

  // ----- read -s -----

  // The image of these chunks at the front of a file.
  ghost predicate ImageOf(file: seq<byte>, w: seq<Chunk>) {
    StartsAt(file, 0, ImageHeader(TotalLen(w) / BLK_SZ % TWO32, |w| % TWO32)) && StartsAt(file, HEADER_SZ, Layout(w))
  }

  // read_sparse up to the read-back: the region, a bufferful at a time.
  method PutRegion(dev: array<byte>, buf: array<byte>, file: File, off: nat, len: nat) returns (ghost w: seq<Chunk>)
    requires dev != buf && off + len <= dev.Length && len % BLK_SZ == 0
    requires 0 < buf.Length && buf.Length % BLK_SZ == 0 && CHUNK_HEADER_SZ + buf.Length < TWO32
    modifies buf, file
    ensures Encodes(w, dev[off..off + len]) && ImageOf(file.data, w)
    ensures |file.data| == Larger(|old(file.data)|, HEADER_SZ + |Layout(w)|)
  {
    hide Encodes, Layout, StartsAt, TotalLen, SparseOut.Valid, ImageHeader;
    var o := new SparseOut(file);
    var done := 0;
    NothingEncoded();
    assert dev[off..off] == [];
    while done < len
      invariant done <= len && done % BLK_SZ == 0
      invariant o.Valid() && o.file == file && fresh(o) && o.size0 == |old(file.data)|
      invariant Encodes(o.written, dev[off..off + done])
    {
      var n := if len - done > buf.Length then buf.Length else len - done;
      NextBuffer(dev[..], off, len, done, buf.Length, n);
      ReadAt(dev, buf, off + done, n);
      PutBuffer(o, buf, n, dev[off..off + done]);
      done := done + n;
    }
    o.Finish();
    w := o.written;
  }

  lemma NextBuffer(dev: seq<byte>, off: nat, len: nat, done: nat, bs: nat, n: nat)
    requires done < len && done % BLK_SZ == 0 && len % BLK_SZ == 0 && 0 < bs && bs % BLK_SZ == 0 && off + len <= |dev|
    requires n == if len - done > bs then bs else len - done
    ensures 0 < n && n % BLK_SZ == 0 && (done + n) % BLK_SZ == 0
    ensures dev[off..off + done] + dev[off + done..off + done + n] == dev[off..off + (done + n)]
  {
  }

  // ----- Reading it back -----

  lemma {:induction false} ExpandLen(w: seq<Chunk>)
    requires AllValid(w)
    ensures |Expand(w)| == TotalLen(w)
    decreases |w|
  {
    if w != [] {
      ExpandLen(w[..|w| - 1]);
    }
  }

  // With a buffer of whole words a walk produces what the chunks stand for.
  lemma {:induction false} ExpandWhole(w: seq<Chunk>, bs: nat)
    requires AllValid(w) && bs > 0 && bs % 4 == 0
    ensures ExpandBs(w, bs) == Expand(w)
    decreases |w|
  {
    hide FillSpan, FillBytes;
    if w != [] {
      ExpandWhole(w[..|w| - 1], bs);
      var c := w[|w| - 1];
      if c.Fill? {
        RightWhenTurned(c.pattern, c.len, bs);
      }
    }
  }

  // With any buffer it does if and only if every fill on its own comes out right.
  ghost predicate RightFills(w: seq<Chunk>, bs: nat)
    requires AllValid(w)
  {
    forall i :: 0 <= i < |w| && w[i].Fill? ==> RightFill(w[i].pattern, w[i].len, bs)
  }

  ghost predicate WordFills(w: seq<Chunk>) {
    forall i :: 0 <= i < |w| && w[i].Fill? ==> w[i].len % 4 == 0
  }

  lemma {:induction false} ExpandExactly(w: seq<Chunk>, bs: nat)
    requires AllValid(w) && bs > 0 && WordFills(w)
    ensures ExpandBs(w, bs) == Expand(w) <==> RightFills(w, bs)
    decreases |w|
  {
    hide RightFill, ChunkCells, Chunk.Cells;
    if w != [] {
      var less, c := w[..|w| - 1], w[|w| - 1];
      ExpandExactly(less, bs);
      ExpandLen(less);
      SameParts(ExpandBs(less, bs), ChunkCells(c, bs), Expand(less), c.Cells());
      SameCells(c, bs);
      assert RightFills(w, bs) <==> RightFills(less, bs) && (c.Fill? ==> RightFill(c.pattern, c.len, bs)) by {
        assert w == less + [c];
      }
    }
  }

  lemma SameParts(a: seq<Option<byte>>, b: seq<Option<byte>>, c: seq<Option<byte>>, d: seq<Option<byte>>)
    requires |a| == |c|
    ensures a + b == c + d <==> a == c && b == d
  {
    if a + b == c + d {
      assert a == (a + b)[..|a|] && b == (a + b)[|a|..];
    }
  }

  lemma SameCells(c: Chunk, bs: nat)
    requires c.Valid() && bs > 0 && (c.Fill? ==> c.len % 4 == 0)
    ensures ChunkCells(c, bs) == c.Cells() <==> (c.Fill? ==> RightFill(c.pattern, c.len, bs))
  {
    hide FillSpan, FillBytes, RightFill, Known;
    if c.Fill? {
      FillSpanIsFill(c.pattern, c.len, bs);
      KnownOnce(FillSpan(c.pattern, c.len, bs), FillBytes(c.pattern, c.len));
    }
  }

  lemma KnownOnce(a: seq<byte>, b: seq<byte>)
    requires |a| == |b|
    ensures Known(a) == Known(b) <==> a == b
  {
    if Known(a) == Known(b) {
      forall i | 0 <= i < |a| ensures a[i] == b[i] {
        assert Known(a)[i] == Known(b)[i];
      }
    }
  }

  // Fills in a file are whole words: its block size is.
  lemma {:induction false} FillsAreWords(file: seq<byte>, pos: nat, h: Header, n: nat)
    requires h.blkSz % 4 == 0 && ReadChunks(file, pos, h, n).Some?
    ensures WordFills(ReadChunks(file, pos, h, n).value)
    decreases n
  {
    hide ReadHead;
    if n > 0 {
      var c := ReadChunk(file, pos, h).value;
      FillIsWords(file, pos, h);
      FillsAreWords(file, c.next, h, n - 1);
    }
  }

  lemma FillIsWords(file: seq<byte>, pos: nat, h: Header)
    requires h.blkSz % 4 == 0 && ReadChunk(file, pos, h).Some?
    ensures var c := ReadChunk(file, pos, h).value.chunk; c.Fill? ==> c.len % 4 == 0
  {
    hide GetLe16, GetLe32;
    if ReadHead(file, pos, h).Some? {
      WordsOfBlocks(GetLe32(file, pos + 4), h.blkSz);
    }
  }

  lemma WordsOfBlocks(n: nat, blkSz: nat)
    requires blkSz % 4 == 0
    ensures Product(n, blkSz) % 4 == 0
  {
    assert n * blkSz == 4 * (n * (blkSz / 4));
  }

  lemma ImageHeaderIsSparse(file: seq<byte>, blks: nat, chunks: nat)
    requires StartsAt(file, 0, ImageHeader(blks, chunks)) && blks < TWO32 && chunks < TWO32
    ensures IsSparse(file) && ReadHeader(file) == Some(Header(HEADER_SZ, CHUNK_HEADER_SZ, BLK_SZ, blks, chunks))
  {
    hide StartsAt, ImageHeader, GetLe16, GetLe32;
    ReadHeaderInverts(file, blks, chunks);
  }

  lemma LengthOf(w: seq<Chunk>, data: seq<byte>)
    requires Encodes(w, data)
    ensures TotalLen(w) == |data| && |w| * BLK_SZ <= |data| && |data| % BLK_SZ == 0
    ensures AllValid(w) && AllWritable(w) && Expand(w) == Known(data)
  {
    hide TotalLen, Expand, Canon;
    ExpandLen(w);
  }

  // Below 2^32 blocks the counts are exact and the chunks are read back as they were written.
  lemma ChunksReadBack(file: seq<byte>, w: seq<Chunk>, data: seq<byte>)
    requires Encodes(w, data) && ImageOf(file, w) && |data| / BLK_SZ < TWO32
    ensures IsSparse(file) && SparseChunks(file) == Some(w)
    ensures ReadHeader(file) == Some(Header(HEADER_SZ, CHUNK_HEADER_SZ, BLK_SZ, |data| / BLK_SZ, |w|))
  {
    hide Encodes, StartsAt, ImageHeader, ReadHeader, ReadChunks, Layout, TotalLen, Expand, Known, IsSparse, Writable;
    LengthOf(w, data);
    ImageHeaderIsSparse(file, |data| / BLK_SZ, |w|);
    var h := ReadHeader(file).value;
    ReadLayout(file, HEADER_SZ, w, h, 0);
    assert w[0..] == w;
    assert |Layout(w[..0])| == 0 by {
      NoLayout(w[..0]);
    }
    assert Product(h.blks, h.blkSz) == |data|;
  }

  lemma NoLayout(w: seq<Chunk>)
    requires w == []
    ensures Layout(w) == []
  {
  }

  // The image expands to its region exactly when the block count fits its field.
  lemma ImageExpandsExactly(file: seq<byte>, w: seq<Chunk>, data: seq<byte>, bs: nat)
    requires Encodes(w, data) && ImageOf(file, w) && bs > 0 && bs % 4 == 0
    ensures IsSparse(file)
    ensures SparseChunks(file).Some? && ImageCells(file, bs) == Known(data) <==> |data| / BLK_SZ < 0x1_0000_0000
  {
    hide Encodes, StartsAt, ImageHeader, ReadChunks, ReadHeader, Layout, TotalLen, Expand, Known, IsSparse, ExpandBs;
    LengthOf(w, data);
    var blks := |data| / BLK_SZ;
    if blks < TWO32 {
      ChunksReadBack(file, w, data);
      ExpandWhole(w, bs);
    } else {
      ImageHeaderIsSparse(file, blks % TWO32, |w| % TWO32);
    }
  }

  // The file as a whole, when nothing was in it before.
  lemma ImageIsWholeFile(file: seq<byte>, w: seq<Chunk>)
    requires ImageOf(file, w) && |file| == HEADER_SZ + |Layout(w)|
    ensures file == ImageHeader(TotalLen(w) / BLK_SZ % TWO32, |w| % TWO32) + Layout(w)
  {
    hide ImageHeader, Layout, TotalLen;
    var header := ImageHeader(TotalLen(w) / BLK_SZ % TWO32, |w| % TWO32);
    assert file == file[..HEADER_SZ] + file[HEADER_SZ..];
    assert file[0..0 + |header|] == header;
    assert file[HEADER_SZ..HEADER_SZ + |Layout(w)|] == Layout(w);
  }

  // Two buffer sizes, one image: as long as no run of the region is too long for a chunk.
  lemma BufferSizeDoesNotMatter(f1: seq<byte>, w1: seq<Chunk>, f2: seq<byte>, w2: seq<Chunk>, data: seq<byte>)
    requires Encodes(w1, data) && ImageOf(f1, w1) && |f1| == HEADER_SZ + |Layout(w1)|
    requires Encodes(w2, data) && ImageOf(f2, w2) && |f2| == HEADER_SZ + |Layout(w2)|
    requires AllWritable(Canon(data))
    ensures f1 == f2
  {
    hide ImageOf, ImageHeader, Layout, TotalLen, Canon, Writable, Expand, Merged, Known;
    ImageIsWholeFile(f1, w1);
    ImageIsWholeFile(f2, w2);
  }

  // ----- The commands; the result is their exit code -----

  // finish_compare; like cmp, 1 says the two differ.
  method FinishCompare(w: Walk) returns (r: nat)
    ensures r == if w.bad > 0 then 1 else 0
  {
    r := if w.bad > 0 then 1 else 0;
  }

  // What the read-back makes of the image, whose counts are modulo 2^32: it looks at that many
  // chunks, and they have to add up to that many blocks.
  predicate CountsAgree(w: seq<Chunk>, data: seq<byte>) {
    TotalLen(Front(w)) == |data| / BLK_SZ % TWO32 * BLK_SZ
  }

  function Front(w: seq<Chunk>): (f: seq<Chunk>)
    ensures |f| == |w| % TWO32 <= |w| && f == w[..|f|]
  {
    w[..|w| % TWO32]
  }

  method ReadSparse(dev: array<byte>, buf: array<byte>, file: File, off: nat, len: nat, verify: bool)
    returns (r: nat, ghost w: seq<Chunk>)
    requires dev != buf && dev.Length < TWO64 && off + len <= dev.Length && len % BLK_SZ == 0
    requires 0 < buf.Length && buf.Length % BLK_SZ == 0 && CHUNK_HEADER_SZ + buf.Length < TWO32
    modifies buf, file, dev
    ensures dev[..] == old(dev[..])
    ensures Encodes(w, dev[off..off + len]) && ImageOf(file.data, w)
    ensures |file.data| == Larger(|old(file.data)|, HEADER_SZ + |Layout(w)|)
    ensures r == if !verify || CountsAgree(w, dev[off..off + len]) then 0 else 74
    ensures len / BLK_SZ < TWO32 ==> r == 0
  {
    hide Encodes, ImageOf, Layout, CountsAgree;
    w := PutRegion(dev, buf, file, off, len);
    r := 0;
    if len / BLK_SZ < TWO32 {
      CountsBelowLimit(w, dev[off..off + len]);
    }
    if verify {
      r := ReadBack(dev, buf, file.data, off, len, w);
    }
  }

  // -v: the image that was just written against the device.
  method ReadBack(dev: array<byte>, buf: array<byte>, image: seq<byte>, off: nat, len: nat, ghost w: seq<Chunk>)
    returns (r: nat)
    requires dev != buf && dev.Length < TWO64 && off + len <= dev.Length && len % BLK_SZ == 0
    requires 0 < buf.Length && buf.Length % BLK_SZ == 0
    requires Encodes(w, dev[off..off + len]) && ImageOf(image, w)
    modifies buf, dev
    ensures dev[..] == old(dev[..])
    ensures r == if CountsAgree(w, dev[off..off + len]) then 0 else 74
  {
    hide Encodes, ImageOf, Passes, Walked, CountsAgree;
    var walk := new Walk(dev, buf, image, Compare);
    WholeWords(buf.Length);
    ReadBackMeans(image, w, walk.T(), off, dev[off..off + len], buf.Length);
    var ok := walk.WalkImage(off);
    if !ok {
      return EX_IOERR;
    }
    r := FinishCompare(walk);
  }

  lemma CountsBelowLimit(w: seq<Chunk>, data: seq<byte>)
    requires Encodes(w, data) && |data| / BLK_SZ < TWO32
    ensures CountsAgree(w, data)
  {
    hide Encodes, TotalLen, Front;
    LengthOf(w, data);
    CountsFit(|w|, |data|);
    assert w[..|w|] == w;
  }

  lemma CountsFit(n: nat, len: nat)
    requires n * BLK_SZ <= len && len % BLK_SZ == 0 && len / BLK_SZ < TWO32
    ensures n % TWO32 == n && len / BLK_SZ % TWO32 * BLK_SZ == len
  {
    assert n < TWO32;
  }

  lemma {:induction false} TotalOfSingles(w: seq<Chunk>)
    requires forall i :: 0 <= i < |w| ==> w[i].Len() == BLK_SZ
    ensures TotalLen(w) == |w| * BLK_SZ
    decreases |w|
  {
    if w != [] {
      TotalOfSingles(w[..|w| - 1]);
    }
  }

  // From 2^32 blocks on the read-back can be content with an image that is not the region's: with
  // chunks of one block each it always is.
  lemma SinglesAgree(w: seq<Chunk>, data: seq<byte>)
    requires Encodes(w, data) && forall i :: 0 <= i < |w| ==> w[i].Len() == BLK_SZ
    ensures CountsAgree(w, data)
  {
    hide Encodes, TotalLen, Front;
    LengthOf(w, data);
    TotalOfSingles(w);
    TotalOfSingles(Front(w));
  }

  lemma {:induction false} LayoutFront(w: seq<Chunk>, n: nat)
    requires n <= |w|
    ensures |Layout(w[..n])| <= |Layout(w)| && Layout(w)[..|Layout(w[..n])|] == Layout(w[..n])
    decreases |w|
  {
    hide ChunkBytes;
    if n < |w| {
      assert w[..|w| - 1][..n] == w[..n];
      LayoutFront(w[..|w| - 1], n);
    } else {
      assert w[..n] == w;
    }
  }

  // The front of the chunks that its header tells the reader of.
  lemma FrontReadBack(file: seq<byte>, w: seq<Chunk>, data: seq<byte>)
    requires Encodes(w, data) && ImageOf(file, w)
    ensures IsSparse(file) && ListedChunks(file) == Some(Front(w))
    ensures ReadHeader(file).Some? && ReadHeader(file).value.blkSz == BLK_SZ
    ensures ReadHeader(file).value.blks == |data| / BLK_SZ % TWO32
  {
    hide Encodes, StartsAt, ImageHeader, ReadHeader, ReadChunks, Layout, TotalLen;
    hide Expand, Known, IsSparse, Writable, Front;
    LengthOf(w, data);
    var front := Front(w);
    ImageHeaderIsSparse(file, |data| / BLK_SZ % TWO32, |front|);
    LayoutFront(w, |front|);
    var rest := Layout(w)[|Layout(front)|..];
    assert Layout(w) == Layout(front) + rest;
    StartsSplit(file, HEADER_SZ, Layout(front), rest);
    ReadLayout(file, HEADER_SZ, front, ReadHeader(file).value, 0);
    assert front[0..] == front;
    NoLayout(front[..0]);
  }

  lemma {:induction false} ExpandFront(w: seq<Chunk>, data: seq<byte>, n: nat)
    requires AllValid(w) && Expand(w) == Known(data) && n <= |w|
    ensures TotalLen(w[..n]) <= |data| && Expand(w[..n]) == Known(data[..TotalLen(w[..n])])
    decreases |w|
  {
    hide Known, Chunk.Cells;
    if n < |w| {
      var less, last := w[..|w| - 1], w[|w| - 1];
      assert less[..n] == w[..n];
      KnownFront(Expand(less), last.Cells(), data);
      ExpandFront(less, data[..|Expand(less)|], n);
      assert data[..|Expand(less)|][..TotalLen(w[..n])] == data[..TotalLen(w[..n])];
    } else {
      assert w[..n] == w;
      ExpandLen(w);
      assert |Known(data)| == |data|;
      assert data[..|data|] == data;
    }
  }

  lemma KnownFront(a: seq<Option<byte>>, b: seq<Option<byte>>, data: seq<byte>)
    requires a + b == Known(data)
    ensures |a| <= |data| && a == Known(data[..|a|])
  {
    assert |Known(data)| == |a| + |b|;
    forall i | 0 <= i < |a| ensures a[i] == Some(data[i]) {
      assert a[i] == (a + b)[i];
    }
  }

  // Chunks of the region stay on the device that the region is on.
  lemma FrontFits(w: seq<Chunk>, n: nat, off: nat, size: nat)
    requires n <= |w| && off + TotalLen(w) <= size < TWO64
    ensures ChunksFit(w[..n], off, size)
  {
    hide TotalLen;
    var front := w[..n];
    forall i | 0 <= i < |front| ensures ChunkFits(front[i], Place(off, front[..i]), size) {
      assert front[..i] == w[..i];
      PrefixTotal(w, i);
    }
  }

  lemma ReadBackMeans(file: seq<byte>, w: seq<Chunk>, t: Tally, off: nat, data: seq<byte>, bs: nat)
    requires Encodes(w, data) && ImageOf(file, w) && bs > 0 && bs % 4 == 0 && |t.dev| < TWO64
    requires off + |data| <= |t.dev| && data == t.dev[off..off + |data|] && t.bad == 0
    ensures Passes(file, off, |t.dev|) <==> CountsAgree(w, data)
    ensures IsSparse(file) && ListedChunks(file).Some?
    ensures CountsAgree(w, data) ==> Walked(Compare, t, off, file, bs).bad == 0
  {
    hide Encodes, ImageOf, ReadHeader, ListedChunks, TotalLen, Expand, ExpandBs;
    hide Known, Visit, VisitChunks, IsSparse, ChunksFit, Front;
    var n := |Front(w)|;
    LengthOf(w, data);
    FrontReadBack(file, w, data);
    FrontFits(w, n, off, |t.dev|);
    ExpandFront(w, data, n);
    var total := TotalLen(w[..n]);
    assert Product(|data| / BLK_SZ % TWO32, BLK_SZ) == |data| / BLK_SZ % TWO32 * BLK_SZ;
    assert |data| / BLK_SZ % TWO32 * BLK_SZ <= |data|;
    VisitStraight(Compare, t, off, w[..n], bs);
    ExpandWhole(w[..n], bs);
    FrontOfSlice(t.dev, off, |data|, total);
    OwnBytesMatch(t, off, data[..total]);
  }

  lemma FrontOfSlice(s: seq<byte>, off: nat, n: nat, k: nat)
    requires off + n <= |s| && k <= n
    ensures s[off..off + n][..k] == s[off..off + k]
  {
  }

  lemma WholeWords(bs: nat)
    requires bs % BLK_SZ == 0
    ensures bs % 4 == 0
  {
    assert bs == 4 * (1024 * (bs / BLK_SZ));
  }

  lemma OwnBytesMatch(t: Tally, off: nat, data: seq<byte>)
    requires off + |data| <= |t.dev| && data == t.dev[off..off + |data|] && t.bad == 0
    ensures Visit(Compare, t, off, Known(data)).bad == 0
  {
    hide Visit;
    CompareCounts(t, off, Known(data));
    forall i: nat ensures !Differs(t.dev, off, Known(data), i) {
      if off <= i < off + |data| {
        assert data[i - off] == t.dev[i];
      }
    }
    assert Differences(t.dev, off, Known(data)) == {};
  }

  // A walk from the start, with nothing counted yet.
  function Fresh(dev: seq<byte>): Tally {
    Tally(dev, 0, 0, 0)
  }

  lemma {:induction false} ChunksKeepCounts(t: Tally, off: nat, chunks: seq<Chunk>, bs: nat)
    requires AllValid(chunks) && bs > 0
    ensures var r := VisitChunks(Op.Write, t, off, chunks, bs);
            r.bad == t.bad && r.firstBad == t.firstBad && |r.dev| == |t.dev|
    decreases |chunks|
  {
    hide Visit, ChunkCells, Overlay, Place;
    if chunks != [] {
      var n := |chunks| - 1;
      ChunksKeepCounts(t, off, chunks[..n], bs);
      WriteOverlays(VisitChunks(Op.Write, t, off, chunks[..n], bs), Place(off, chunks[..n]), ChunkCells(chunks[n], bs));
    }
  }

  lemma WritesKeepCounts(t: Tally, off: nat, file: seq<byte>, bs: nat)
    requires (IsSparse(file) ==> ListedChunks(file).Some?) && bs > 0
    ensures var r := Walked(Op.Write, t, off, file, bs);
            r.bad == t.bad && r.firstBad == t.firstBad && |r.dev| == |t.dev|
  {
    hide Visit, VisitChunks, Known, Overlay, ListedChunks;
    if IsSparse(file) {
      ChunksKeepCounts(t, off, ListedChunks(file).value, bs);
    } else {
      WriteOverlays(t, off, Known(file));
    }
  }

  // What a write of an image the device can take leaves there; comparing finds no difference.
  lemma WriteMeans(dev: seq<byte>, off: nat, file: seq<byte>, bs: nat)
    requires Accepts(file, off, |dev|) && |dev| < TWO64 && bs > 0
    ensures Passes(file, off, |dev|)
    ensures var now := Walked(Op.Write, Fresh(dev), off, file, bs).dev;
            now == Overlay(dev, off, ImageCells(file, bs)) && Walked(Compare, Fresh(now), off, file, bs).bad == 0
  {
    hide Visit, Walked, Overlay, Differences, ImageCells, SparseChunks;
    var cells := ImageCells(file, bs);
    AcceptedIsWalked(Op.Write, Fresh(dev), off, file, |dev|, bs);
    WriteOverlays(Fresh(dev), off, cells);
    var now := Overlay(dev, off, cells);
    AcceptedIsWalked(Compare, Fresh(now), off, file, |dev|, bs);
    CompareCounts(Fresh(now), off, cells);
    NothingDiffersAfterWrite(dev, off, cells);
  }

  // No two chunks of the image put different bytes in one place.
  ghost predicate NoClash(file: seq<byte>, off: nat, bs: nat)
    requires bs > 0
  {
    IsSparse(file) && ListedChunks(file).Some? ==> Agree(off, ListedChunks(file).value, bs)
  }

  // What -v finds after a write, whatever the image.
  lemma {:induction false} VerifyMeans(dev: seq<byte>, off: nat, file: seq<byte>, bs: nat)
    requires Passes(file, off, |dev|) && bs > 0
    ensures var now := Walked(Op.Write, Fresh(dev), off, file, bs).dev;
            Walked(Compare, Fresh(now), off, file, bs).bad == 0 <==> NoClash(file, off, bs)
  {
    hide Visit, VisitChunks, Overlay, Differences, ListedChunks, ChunksFit, Agree, Known;
    if IsSparse(file) {
      VerifiedExactly(dev, off, ListedChunks(file).value, bs);
    } else {
      var cells := Known(file);
      WriteOverlays(Fresh(dev), off, cells);
      CompareCounts(Fresh(Overlay(dev, off, cells)), off, cells);
      NothingDiffersAfterWrite(dev, off, cells);
    }
  }

  // cmd_write; what the kernel does on fsync and on dropping its caches is not modelled. Images
  // whose place wraps are walked like any other; then chunks may land on one another.
  method Write(dev: array<byte>, buf: array<byte>, inp: seq<byte>, off: nat, verify: bool) returns (r: nat)
    requires dev != buf && buf.Length > 0 && dev.Length < TWO64
    modifies dev, buf
    ensures r == 74 <==> !Passes(inp, off, dev.Length)
    ensures r != 74 ==>
      var bs := buf.Length;
      && dev[..] == Walked(Op.Write, Fresh(old(dev[..])), off, inp, bs).dev
      && r == (if verify && Walked(Compare, Fresh(dev[..]), off, inp, bs).bad > 0 then 1 else 0)
      && (r == 0 <==> !verify || NoClash(inp, off, bs))
    ensures Accepts(inp, off, dev.Length) ==>
      r == 0 && dev[..] == Overlay(old(dev[..]), off, ImageCells(inp, buf.Length))
  {
    hide SparseChunks, ListedChunks, ChunksFit, Walked, ImageCells, Visit, Overlay, Accepts, NoClash;
    ghost var was := dev[..];
    if Accepts(inp, off, dev.Length) {
      WriteMeans(was, off, inp, buf.Length);
    }
    var walk := new Walk(dev, buf, inp, Op.Write);
    var ok := walk.WalkImage(off);
    if !ok {
      return EX_IOERR;
    }
    WritesKeepCounts(Fresh(was), off, inp, buf.Length);
    VerifyMeans(was, off, inp, buf.Length);
    if !verify {
      return 0;
    }
    walk.op := Compare;
    walk.done := 0;
    ok := walk.WalkImage(off);
    if !ok {
      return EX_IOERR;
    }
    r := FinishCompare(walk);
  }

  // cmd_cmp; also what it reports: how many bytes differ and where the first of them is.
  method Cmp(dev: array<byte>, buf: array<byte>, inp: seq<byte>, off: nat) returns (r: nat, bad: nat, first: nat)
    requires dev != buf && buf.Length > 0 && dev.Length < TWO64
    modifies dev, buf
    ensures dev[..] == old(dev[..])
    ensures r == 74 <==> !Passes(inp, off, dev.Length)
    ensures r != 74 ==>
      var t := Walked(Compare, Fresh(dev[..]), off, inp, buf.Length);
      bad == t.bad && first == t.firstBad && r == if bad > 0 then 1 else 0
    ensures Accepts(inp, off, dev.Length) ==>
      var d := Differences(dev[..], off, ImageCells(inp, buf.Length));
      && r != 74 && bad == |d| && r == (if d == {} then 0 else 1)
      && (d != {} ==> first in d && forall i :: i in d ==> first <= i)
  {
    hide SparseChunks, ListedChunks, ChunksFit, Walked, ImageCells, Visit, Differences, Accepts;
    ghost var t0 := Fresh(dev[..]);
    if Accepts(inp, off, dev.Length) {
      AcceptedIsWalked(Compare, t0, off, inp, dev.Length, buf.Length);
      AcceptedHasCells(inp, off, dev.Length);
      CompareCounts(t0, off, ImageCells(inp, buf.Length));
    }
    var walk := new Walk(dev, buf, inp, Compare);
    var ok := walk.WalkImage(off);
    bad, first := walk.bad, walk.firstBad;
    if !ok {
      return EX_IOERR, bad, first;
    }
    r := FinishCompare(walk);
  }

  lemma AcceptedHasCells(file: seq<byte>, off: nat, size: nat)
    requires Accepts(file, off, size)
    ensures IsSparse(file) ==> SparseChunks(file).Some?
  {
  }

  // What is put in place: for a raw image its bytes, for a sparse one what its chunks stand for,
  // exactly when each of its fills comes out right; with a buffer of whole words they all do.
  lemma WrittenDevice(dev: seq<byte>, off: nat, inp: seq<byte>, bs: nat)
    requires Accepts(inp, off, |dev|) && bs > 0
    ensures !IsSparse(inp) ==> ImageCells(inp, bs) == Known(inp)
    ensures IsSparse(inp) ==>
      var chunks := SparseChunks(inp).value;
      (ImageCells(inp, bs) == Expand(chunks) <==> RightFills(chunks, bs)) && (bs % 4 == 0 ==> RightFills(chunks, bs))
  {
    hide ReadHeader, ReadChunks, ExpandBs, Expand, Known;
    if IsSparse(inp) {
      BlocksAreWords(inp);
      var h := ReadHeader(inp).value;
      FillsAreWords(inp, h.hdrSz, h, h.chunks);
      ExpandExactly(SparseChunks(inp).value, bs);
    }
  }

  lemma BlocksAreWords(file: seq<byte>)
    ensures ReadHeader(file).Some? ==> ReadHeader(file).value.blkSz % 4 == 0
  {
    hide GetLe16, GetLe32;
  }

  // An image read from one region and written to another place carries the region there.
  lemma ReadThenWrite(file: seq<byte>, w: seq<Chunk>, data: seq<byte>, dev: seq<byte>, off: nat, bs: nat)
    requires Encodes(w, data) && ImageOf(file, w) && |data| / BLK_SZ < TWO32 && off + |data| <= |dev|
    requires bs > 0 && bs % 4 == 0
    ensures Accepts(file, off, |dev|)
    ensures Overlay(dev, off, ImageCells(file, bs)) == dev[..off] + data + dev[off + |data|..]
  {
    hide Encodes, ImageOf, SparseChunks, ExpandBs, Expand, TotalLen;
    ChunksReadBack(file, w, data);
    LengthOf(w, data);
    ImageExpandsExactly(file, w, data, bs);
  }
}
