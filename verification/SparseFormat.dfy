/**
 The Android sparse image format of inc/android_sparse_img.h: a header and chunks, what they
 stand for, and how the reader finds them in a file.
 */
module SparseFormat {
  import opened Bytes

  const MAGIC: nat := 0xed26ff3a
  const HEADER_SZ: nat := 28
  const CHUNK_HEADER_SZ: nat := 12

  const TYPE_RAW: nat := 0xcac1
  const TYPE_FILL: nat := 0xcac2
  const TYPE_DONT_CARE: nat := 0xcac3
  const TYPE_CRC32: nat := 0xcac4

  // ----- Chunks and what they stand for -----

  datatype Chunk =
    | Raw(data: seq<byte>)
    | Fill(pattern: seq<byte>, len: nat)
    | DontCare(len: nat)
    | Crc32
  {
    // How much of the device it accounts for.
    function Len(): nat {
      match this
      case Raw(data) => |data|
      case Fill(_, len) => len
      case DontCare(len) => len
      case Crc32 => 0
    }

    predicate Valid() {
      Fill? ==> |pattern| == 4
    }

    // What the output has to hold there; None where the image does not say.
    function Cells(): (cells: seq<Option<byte>>)
      requires Valid()
      ensures |cells| == Len()
    {
      match this
      case Raw(data) => Known(data)
      case Fill(pattern, len) => Known(FillBytes(pattern, len))
      case DontCare(len) => seq(len, _ => None)
      case Crc32 => []
    }
  }

  function Known(data: seq<byte>): (cells: seq<Option<byte>>)
    ensures |cells| == |data| && forall i :: 0 <= i < |data| ==> cells[i] == Some(data[i])
  {
    seq(|data|, i requires 0 <= i < |data| => Some(data[i]))
  }

  // Four bytes over and over.
  function FillBytes(pattern: seq<byte>, len: nat): (data: seq<byte>)
    requires |pattern| == 4
    ensures |data| == len && forall i :: 0 <= i < len ==> data[i] == pattern[i % 4]
  {
    seq(len, i => pattern[i % 4])
  }

  ghost predicate AllValid(chunks: seq<Chunk>) {
    forall i :: 0 <= i < |chunks| ==> chunks[i].Valid()
  }

  function Expand(chunks: seq<Chunk>): seq<Option<byte>>
    requires AllValid(chunks)
  {
    if chunks == [] then [] else Expand(chunks[..|chunks| - 1]) + chunks[|chunks| - 1].Cells()
  }

  // ----- Reading a file -----

  datatype Header = Header(hdrSz: nat, chunkHdrSz: nat, blkSz: nat, blks: nat, chunks: nat)

  // android_sparse_is and android_sparse_open.
  function ReadHeader(file: seq<byte>): Option<Header> {
    if |file| < HEADER_SZ || GetLe32(file, 0) != MAGIC then None
    else
      var h := Header(GetLe16(file, 8), GetLe16(file, 10), GetLe32(file, 12), GetLe32(file, 16), GetLe32(file, 20));
      if GetLe16(file, 4) != 1 || h.hdrSz < HEADER_SZ || h.chunkHdrSz < CHUNK_HEADER_SZ then None
      else if h.blkSz == 0 || h.blkSz % 4 != 0 then None
      else Some(h)
  }

  datatype ChunkAt = ChunkAt(chunk: Chunk, next: nat)

  function Product(a: nat, b: nat): nat {
    a * b
  }

  // What android_sparse_chunk finds out about the chunk at pos, and where it leaves the file.
  datatype Head = Head(kind: nat, len: nat, pattern: seq<byte>, at: nat)

  function ReadHead(file: seq<byte>, pos: nat, h: Header): (r: Option<Head>)
    ensures r.Some? ==> r.value.kind in {TYPE_RAW, TYPE_FILL, TYPE_DONT_CARE, TYPE_CRC32}
    ensures r.Some? && r.value.kind == TYPE_FILL ==> |r.value.pattern| == 4
  {
    if pos + CHUNK_HEADER_SZ > |file| || GetLe32(file, pos + 8) < h.chunkHdrSz then None
    else
      var kind := GetLe16(file, pos);
      var len := Product(GetLe32(file, pos + 4), h.blkSz);
      var body := GetLe32(file, pos + 8) - h.chunkHdrSz;
      var at := if h.chunkHdrSz > CHUNK_HEADER_SZ then pos + h.chunkHdrSz else pos + CHUNK_HEADER_SZ;
      if kind == TYPE_RAW then
        if body == len then Some(Head(kind, len, [], at)) else None
      else if kind == TYPE_FILL then
        if body == 4 && at + 4 <= |file| then Some(Head(kind, len, file[at..at + 4], at + 4)) else None
      else if kind == TYPE_DONT_CARE then
        if body == 0 then Some(Head(kind, len, [], at)) else None
      else if kind == TYPE_CRC32 then Some(Head(kind, len, [], at + body))
      else None
  }

  // The chunk with its data, which has to be there in full.
  function ReadChunk(file: seq<byte>, pos: nat, h: Header): (r: Option<ChunkAt>)
    ensures r.Some? ==> r.value.chunk.Valid()
  {
    match ReadHead(file, pos, h)
    case None => None
    case Some(d) =>
      if d.kind == TYPE_FILL then Some(ChunkAt(Fill(d.pattern, d.len), d.at))
      else if d.kind == TYPE_DONT_CARE then Some(ChunkAt(DontCare(d.len), d.at))
      else if d.kind == TYPE_CRC32 then Some(ChunkAt(Crc32, d.at))
      else if d.len == 0 then Some(ChunkAt(Raw([]), d.at))
      else if d.at + d.len <= |file| then Some(ChunkAt(Raw(file[d.at..d.at + d.len]), d.at + d.len))
      else None
  }

  // The first n chunks from pos on.
  function ReadChunks(file: seq<byte>, pos: nat, h: Header, n: nat): (r: Option<seq<Chunk>>)
    ensures r.Some? ==> |r.value| == n && AllValid(r.value)
    decreases n
  {
    if n == 0 then Some([])
    else match ReadChunk(file, pos, h)
      case None => None
      case Some(c) =>
        match ReadChunks(file, c.next, h, n - 1)
        case None => None
        case Some(rest) => Some([c.chunk] + rest)
  }

  // ----- Writing it down, the way the writer does -----

  const BLK_SZ: nat := 4096

  function ImageHeader(blks: nat, chunks: nat): (r: seq<byte>)
    ensures |r| == HEADER_SZ
  {
    PutLe32(MAGIC) + (PutLe16(1) + (PutLe16(0) + (PutLe16(HEADER_SZ) + (PutLe16(CHUNK_HEADER_SZ) +
      (PutLe32(BLK_SZ) + (PutLe32(blks) + (PutLe32(chunks) + PutLe32(0))))))))
  }

  function ChunkHeader(kind: nat, blks: nat, body: nat): (r: seq<byte>)
    ensures |r| == CHUNK_HEADER_SZ
  {
    PutLe16(kind) + (PutLe16(0) + (PutLe32(blks) + PutLe32(CHUNK_HEADER_SZ + body)))
  }

  // What the writer makes: whole blocks, raw or filled, with sizes that fit their fields.
  predicate Writable(c: Chunk) {
    c.Valid() && (c.Raw? || c.Fill?) && c.Len() % BLK_SZ == 0 && c.Len() / BLK_SZ < TWO32 &&
    (c.Raw? ==> CHUNK_HEADER_SZ + |c.data| < TWO32)
  }

  function ChunkBytes(c: Chunk): seq<byte> {
    match c
    case Raw(data) => ChunkHeader(TYPE_RAW, |data| / BLK_SZ, |data|) + data
    case Fill(pattern, len) => ChunkHeader(TYPE_FILL, len / BLK_SZ, 4) + pattern
    case _ => []
  }

  function Layout(chunks: seq<Chunk>): seq<byte> {
    if chunks == [] then [] else Layout(chunks[..|chunks| - 1]) + ChunkBytes(chunks[|chunks| - 1])
  }

  function TotalLen(chunks: seq<Chunk>): nat {
    if chunks == [] then 0 else TotalLen(chunks[..|chunks| - 1]) + chunks[|chunks| - 1].Len()
  }

  // ----- The bytes of it -----

  lemma {:induction false} ImageHeaderBytes(blks: nat, chunks: nat)
    ensures ImageHeader(blks, chunks) ==
            [0x3a, 0xff, 0x26, 0xed] + ([1, 0, 0, 0, 28, 0, 12, 0] +
              ([0, 16, 0, 0] + (Le32Bytes(blks) + (Le32Bytes(chunks) + [0, 0, 0, 0]))))
  {
    BytesOfFields(blks);
    BytesOfFields(chunks);
    SizesInBytes();
    hide PutLe16, PutLe32, Le32Bytes;
    var tail := [0, 16, 0, 0] + (Le32Bytes(blks) + (Le32Bytes(chunks) + [0, 0, 0, 0]));
    assert PutLe16(HEADER_SZ) + (PutLe16(CHUNK_HEADER_SZ) + tail) == [28, 0, 12, 0] + tail;
    Glue([0, 0], [28, 0, 12, 0], tail);
    Glue([1, 0], [0, 0, 28, 0, 12, 0], tail);
  }

  lemma {:induction false} SizesInBytes()
    ensures PutLe32(MAGIC) == [0x3a, 0xff, 0x26, 0xed] && PutLe16(1) == [1, 0] && PutLe16(0) == [0, 0]
    ensures PutLe16(HEADER_SZ) == [28, 0] && PutLe16(CHUNK_HEADER_SZ) == [12, 0]
    ensures PutLe32(BLK_SZ) == [0, 16, 0, 0] && PutLe32(0) == [0, 0, 0, 0] && PutLe32(16) == [16, 0, 0, 0]
    ensures PutLe16(TYPE_RAW) == [0xc1, 0xca] && PutLe16(TYPE_FILL) == [0xc2, 0xca]
    ensures PutLe16(TYPE_DONT_CARE) == [0xc3, 0xca] && PutLe16(TYPE_CRC32) == [0xc4, 0xca]
  {
  }

  lemma {:induction false} RawChunkBytes(data: seq<byte>)
    ensures ChunkBytes(Raw(data)) ==
            [0xc1, 0xca, 0, 0] + (Le32Bytes(|data| / 4096) + Le32Bytes(12 + |data|)) + data
  {
    BytesOfFields(|data| / BLK_SZ);
    BytesOfFields(CHUNK_HEADER_SZ + |data|);
    SizesInBytes();
    hide PutLe16, PutLe32, Le32Bytes;
    Glue([0xc1, 0xca], [0, 0], Le32Bytes(|data| / 4096) + Le32Bytes(12 + |data|));
  }

  lemma {:induction false} FillChunkBytes(pattern: seq<byte>, len: nat)
    ensures ChunkBytes(Fill(pattern, len)) == [0xc2, 0xca, 0, 0] + (Le32Bytes(len / 4096) + [16, 0, 0, 0]) + pattern
  {
    BytesOfFields(len / BLK_SZ);
    SizesInBytes();
    hide PutLe16, PutLe32, Le32Bytes;
    Glue([0xc2, 0xca], [0, 0], Le32Bytes(len / 4096) + [16, 0, 0, 0]);
  }

  // ----- Reading back what was written -----

  lemma ReadHeaderInverts(file: seq<byte>, blks: nat, chunks: nat)
    requires StartsAt(file, 0, ImageHeader(blks, chunks)) && blks < TWO32 && chunks < TWO32
    ensures ReadHeader(file) == Some(Header(HEADER_SZ, CHUNK_HEADER_SZ, BLK_SZ, blks, chunks))
  {
    hide PutLe16, PutLe32, GetLe16, GetLe32;
    HeaderFields(file, blks, chunks);
    GetPut32(file, 0, MAGIC);
    GetPut16(file, 4, 1);
    GetPut16(file, 8, HEADER_SZ);
    GetPut16(file, 10, CHUNK_HEADER_SZ);
    GetPut32(file, 12, BLK_SZ);
    GetPut32(file, 16, blks);
    GetPut32(file, 20, chunks);
  }

  lemma HeaderFields(file: seq<byte>, blks: nat, chunks: nat)
    requires StartsAt(file, 0, ImageHeader(blks, chunks))
    ensures |file| >= HEADER_SZ
    ensures StartsAt(file, 0, PutLe32(MAGIC)) && StartsAt(file, 4, PutLe16(1)) && StartsAt(file, 8, PutLe16(HEADER_SZ))
    ensures StartsAt(file, 10, PutLe16(CHUNK_HEADER_SZ)) && StartsAt(file, 12, PutLe32(BLK_SZ))
    ensures StartsAt(file, 16, PutLe32(blks)) && StartsAt(file, 20, PutLe32(chunks))
  {
    hide PutLe16, PutLe32, StartsAt;
    assert |file| >= HEADER_SZ by {
      StartsAtSlice(file, 0, ImageHeader(blks, chunks));
    }
    var p7 := PutLe32(chunks) + PutLe32(0);
    var p6 := PutLe32(blks) + p7;
    var p5 := PutLe32(BLK_SZ) + p6;
    var p4 := PutLe16(CHUNK_HEADER_SZ) + p5;
    var p3 := PutLe16(HEADER_SZ) + p4;
    var p2 := PutLe16(0) + p3;
    var p1 := PutLe16(1) + p2;
    StartsSplit(file, 0, PutLe32(MAGIC), p1);
    StartsSplit(file, 4, PutLe16(1), p2);
    StartsSplit(file, 6, PutLe16(0), p3);
    StartsSplit(file, 8, PutLe16(HEADER_SZ), p4);
    StartsSplit(file, 10, PutLe16(CHUNK_HEADER_SZ), p5);
    StartsSplit(file, 12, PutLe32(BLK_SZ), p6);
    StartsSplit(file, 16, PutLe32(blks), p7);
    StartsSplit(file, 20, PutLe32(chunks), PutLe32(0));
  }

  lemma ChunkFields(file: seq<byte>, pos: nat, kind: nat, blks: nat, body: nat)
    requires StartsAt(file, pos, ChunkHeader(kind, blks, body)) && kind < 65536 && blks < TWO32 &&
        CHUNK_HEADER_SZ + body < TWO32
    ensures pos + CHUNK_HEADER_SZ <= |file| && GetLe16(file, pos) == kind
    ensures GetLe32(file, pos + 4) == blks && GetLe32(file, pos + 8) == CHUNK_HEADER_SZ + body
  {
    hide PutLe16, PutLe32, GetLe16, GetLe32, StartsAt;
    var p2 := PutLe32(blks) + PutLe32(CHUNK_HEADER_SZ + body);
    assert pos + CHUNK_HEADER_SZ <= |file| by {
      StartsAtSlice(file, pos, ChunkHeader(kind, blks, body));
    }
    StartsSplit(file, pos, PutLe16(kind), PutLe16(0) + p2);
    StartsSplit(file, pos + 2, PutLe16(0), p2);
    StartsSplit(file, pos + 4, PutLe32(blks), PutLe32(CHUNK_HEADER_SZ + body));
    GetPut16(file, pos, kind);
    GetPut32(file, pos + 4, blks);
    GetPut32(file, pos + 8, CHUNK_HEADER_SZ + body);
  }

  lemma ReadChunkInverts(file: seq<byte>, pos: nat, c: Chunk, h: Header)
    requires Writable(c) && StartsAt(file, pos, ChunkBytes(c)) && h.chunkHdrSz == CHUNK_HEADER_SZ && h.blkSz == BLK_SZ
    ensures ReadChunk(file, pos, h) == Some(ChunkAt(c, pos + |ChunkBytes(c)|))
  {
    hide GetLe16, GetLe32, ChunkHeader;
    match c
    case Raw(data) =>
      StartsSplit(file, pos, ChunkHeader(TYPE_RAW, |data| / BLK_SZ, |data|), data);
      ChunkFields(file, pos, TYPE_RAW, |data| / BLK_SZ, |data|);
    case Fill(pattern, len) =>
      StartsSplit(file, pos, ChunkHeader(TYPE_FILL, len / BLK_SZ, 4), pattern);
      ChunkFields(file, pos, TYPE_FILL, len / BLK_SZ, 4);
  }

  ghost predicate AllWritable(chunks: seq<Chunk>) {
    forall i :: 0 <= i < |chunks| ==> Writable(chunks[i])
  }

  lemma {:induction false} LayoutPrefix(chunks: seq<Chunk>, k: nat)
    requires k < |chunks|
    ensures StartsAt(Layout(chunks), |Layout(chunks[..k])|, ChunkBytes(chunks[k]))
    ensures |Layout(chunks[..k + 1])| == |Layout(chunks[..k])| + |ChunkBytes(chunks[k])|
    decreases |chunks|
  {
    hide ChunkBytes;
    assert chunks[..k + 1][..k] == chunks[..k];
    if k + 1 == |chunks| {
      assert chunks[..k + 1] == chunks;
    } else {
      var before := chunks[..|chunks| - 1];
      assert before[..k] == chunks[..k] && before[..k + 1] == chunks[..k + 1];
      LayoutPrefix(before, k);
      var at, c := |Layout(chunks[..k])|, ChunkBytes(chunks[k]);
      assert Layout(chunks)[at..at + |c|] == Layout(before)[at..at + |c|];
    }
  }

  // The reader finds the chunks that were laid out, whatever comes behind them.
  lemma {:induction false} ReadLayout(file: seq<byte>, pos: nat, chunks: seq<Chunk>, h: Header, k: nat)
    requires AllWritable(chunks) && StartsAt(file, pos, Layout(chunks)) && k <= |chunks|
    requires h.chunkHdrSz == CHUNK_HEADER_SZ && h.blkSz == BLK_SZ
    ensures ReadChunks(file, pos + |Layout(chunks[..k])|, h, |chunks| - k) == Some(chunks[k..])
    decreases |chunks| - k
  {
    hide ReadChunk, ChunkBytes, StartsAt, Layout, Writable;
    if k < |chunks| {
      LayoutPrefix(chunks, k);
      StartsInside(file, pos, Layout(chunks), |Layout(chunks[..k])|, ChunkBytes(chunks[k]));
      ReadChunkInverts(file, pos + |Layout(chunks[..k])|, chunks[k], h);
      ReadLayout(file, pos, chunks, h, k + 1);
      assert chunks[k..] == [chunks[k]] + chunks[k + 1..];
    } else {
      assert chunks[k..] == [];
    }
  }
}
