/**
 Any image of the format, not only what this writer makes: larger headers, holes, checksums. The
 reader finds in it exactly the chunks it is made of.
 */
module SparseImages {
  import opened Arith
  import opened Bytes
  import opened SparseFormat
  import opened SparseWriter
  import opened BlockWalk
  import opened Blkwak

  // A chunk as it may stand in a file: the header may be longer than its fields, and a checksum
  // may follow the header of its kind, which covers nothing whatever number of blocks it tells.
  datatype Part = Part(chunk: Chunk, reserved: nat, pad: seq<byte>, sum: seq<byte>, told: nat) {
    function Body(): seq<byte> {
      match chunk
      case Raw(data) => data
      case Fill(pattern, _) => pattern
      case DontCare(_) => []
      case Crc32 => sum
    }

    function Blocks(h: Header): nat
      requires h.blkSz > 0
    {
      if chunk.Crc32? then told else chunk.Len() / h.blkSz
    }

    // Whole blocks, and sizes that fit their fields.
    predicate Sound(h: Header) {
      && chunk.Valid() && h.blkSz > 0 && h.chunkHdrSz == CHUNK_HEADER_SZ + |pad|
      && chunk.Len() % h.blkSz == 0 && Blocks(h) < TWO32 && h.chunkHdrSz + |Body()| < TWO32
    }

    function Bytes(h: Header): seq<byte>
      requires h.blkSz > 0
    {
      PutLe16(Kind(chunk)) + (PutLe16(reserved) + (PutLe32(Blocks(h)) +
        (PutLe32(h.chunkHdrSz + |Body()|) + (pad + Body()))))
    }
  }

  lemma KindFits(c: Chunk)
    ensures Kind(c) < 65536
  {
  }

  lemma {:induction false} PartFields(file: seq<byte>, pos: nat, p: Part, h: Header)
    requires p.Sound(h) && StartsAt(file, pos, p.Bytes(h))
    ensures pos + |p.Bytes(h)| <= |file| && |p.Bytes(h)| == h.chunkHdrSz + |p.Body()|
    ensures GetLe16(file, pos) == Kind(p.chunk) && GetLe32(file, pos + 4) == p.Blocks(h)
    ensures GetLe32(file, pos + 8) == h.chunkHdrSz + |p.Body()|
    ensures file[pos + h.chunkHdrSz..pos + h.chunkHdrSz + |p.Body()|] == p.Body()
  {
    hide StartsAt, PutLe16, PutLe32, GetLe16, GetLe32, Part.Blocks, Part.Body;
    KindFits(p.chunk);
    var blks, total, end := p.Blocks(h), h.chunkHdrSz + |p.Body()|, p.pad + p.Body();
    StartsAtSlice(file, pos, p.Bytes(h));
    StartsSplit(file, pos, PutLe16(Kind(p.chunk)), PutLe16(p.reserved) + (PutLe32(blks) + (PutLe32(total) + end)));
    StartsSplit(file, pos + 2, PutLe16(p.reserved), PutLe32(blks) + (PutLe32(total) + end));
    StartsSplit(file, pos + 4, PutLe32(blks), PutLe32(total) + end);
    StartsSplit(file, pos + 8, PutLe32(total), end);
    StartsSplit(file, pos + 12, p.pad, p.Body());
    StartsAtSlice(file, pos + h.chunkHdrSz, p.Body());
    GetPut16(file, pos, Kind(p.chunk));
    GetPut32(file, pos + 4, blks);
    GetPut32(file, pos + 8, total);
  }

  lemma WholeLength(len: nat, blkSz: nat)
    requires blkSz > 0 && len % blkSz == 0
    ensures Product(len / blkSz, blkSz) == len
  {
    assert len == blkSz * (len / blkSz);
  }

  lemma PartRead(file: seq<byte>, pos: nat, p: Part, h: Header)
    requires p.Sound(h) && StartsAt(file, pos, p.Bytes(h))
    ensures ReadChunk(file, pos, h) == Some(ChunkAt(p.chunk, pos + |p.Bytes(h)|))
  {
    hide StartsAt, GetLe16, GetLe32, Product, Part.Bytes;
    PartFields(file, pos, p, h);
    WholeLength(p.chunk.Len(), h.blkSz);
  }

  // The bytes of a part, whatever its kind.
  lemma {:induction false} PartInBytes(p: Part, h: Header)
    requires h.blkSz > 0
    ensures var kind: byte := if p.chunk.Raw? then 0xc1 else if p.chunk.Fill? then 0xc2
                              else if p.chunk.DontCare? then 0xc3 else 0xc4;
            p.Bytes(h) ==
            [kind, 0xca, p.reserved % 256, p.reserved / 256 % 256] +
            (Le32Bytes(p.Blocks(h)) + (Le32Bytes(h.chunkHdrSz + |p.Body()|) + (p.pad + p.Body())))
  {
    var blks, total := p.Blocks(h), h.chunkHdrSz + |p.Body()|;
    BytesOfFields(p.reserved);
    BytesOfFields(blks);
    BytesOfFields(total);
    SizesInBytes();
    hide PutLe16, PutLe32, Le32Bytes;
    Glue(PutLe16(Kind(p.chunk)), PutLe16(p.reserved), Le32Bytes(blks) + (Le32Bytes(total) + (p.pad + p.Body())));
  }

  // And nothing else is read: behind a chunk that was read stands the file such a part put there.
  lemma {:induction false} PartFound(file: seq<byte>, pos: nat, h: Header) returns (p: Part)
    requires SoundHeader(h) && ReadChunk(file, pos, h).Some? && ReadChunk(file, pos, h).value.next <= |file|
    ensures p.Sound(h) && StartsAt(file, pos, p.Bytes(h))
    ensures ReadChunk(file, pos, h) == Some(ChunkAt(p.chunk, pos + |p.Bytes(h)|))
  {
    hide ReadChunk, Part.Sound, Part.Body, StartsAt, PutLe16, PutLe32, GetLe16, GetLe32, Part.Blocks;
    var c := ReadChunk(file, pos, h).value;
    FoundFields(file, pos, h);
    FieldBounds(file, pos);
    var sum := if c.chunk.Crc32? then file[pos + h.chunkHdrSz..c.next] else [];
    p := Part(c.chunk, GetLe16(file, pos + 2), file[pos + 12..pos + h.chunkHdrSz], sum, GetLe32(file, pos + 4));
    assert p.pad + p.Body() == file[pos + 12..c.next];
    SliceStarts(file, pos + 12, c.next);
    FieldsStand(file, pos, Kind(p.chunk), p.reserved, p.Blocks(h), h.chunkHdrSz + |p.Body()|, p.pad + p.Body());
  }

  lemma {:induction false} HeadFound(file: seq<byte>, pos: nat, h: Header)
    requires SoundHeader(h) && ReadHead(file, pos, h).Some?
    ensures pos + CHUNK_HEADER_SZ <= |file| && GetLe32(file, pos + 8) >= h.chunkHdrSz
    ensures var d, at, body := ReadHead(file, pos, h).value, pos + h.chunkHdrSz, GetLe32(file, pos + 8) - h.chunkHdrSz;
            && d.kind == GetLe16(file, pos) && d.len == Product(GetLe32(file, pos + 4), h.blkSz)
            && (d.kind == TYPE_RAW ==> body == d.len && d.at == at)
            && (d.kind == TYPE_FILL ==> body == 4 && d.at == at + 4 <= |file| && d.pattern == file[at..at + 4])
            && (d.kind == TYPE_DONT_CARE ==> body == 0 && d.at == at)
            && (d.kind == TYPE_CRC32 ==> d.at == at + body)
  {
    hide GetLe16, GetLe32, Product;
  }

  lemma {:induction false} FoundFields(file: seq<byte>, pos: nat, h: Header)
    requires SoundHeader(h) && ReadChunk(file, pos, h).Some? && ReadChunk(file, pos, h).value.next <= |file|
    ensures pos + h.chunkHdrSz <= ReadChunk(file, pos, h).value.next && pos + CHUNK_HEADER_SZ <= |file|
    ensures var c, at := ReadChunk(file, pos, h).value, pos + h.chunkHdrSz;
            var sum := if c.chunk.Crc32? then file[at..c.next] else [];
            var p := Part(c.chunk, GetLe16(file, pos + 2), file[pos + 12..at], sum, GetLe32(file, pos + 4));
            p.Sound(h) && p.Body() == file[at..c.next] && GetLe16(file, pos) == Kind(c.chunk) &&
            p.Blocks(h) == GetLe32(file, pos + 4) && h.chunkHdrSz + |p.Body()| == GetLe32(file, pos + 8)
  {
    hide GetLe16, GetLe32, Product, ReadHead, Part.Sound, Part.Blocks;
    HeadFound(file, pos, h);
    FieldBounds(file, pos);
    var c, at, blks := ReadChunk(file, pos, h).value, pos + h.chunkHdrSz, GetLe32(file, pos + 4);
    var sum := if c.chunk.Crc32? then file[at..c.next] else [];
    PartIsSound(Part(c.chunk, GetLe16(file, pos + 2), file[pos + 12..at], sum, blks), h);
  }

  lemma {:induction false} PartIsSound(p: Part, h: Header)
    requires SoundHeader(h) && p.chunk.Valid() && p.told < TWO32 && |p.pad| == h.chunkHdrSz - CHUNK_HEADER_SZ
    requires (!p.chunk.Crc32? ==> p.chunk.Len() == Product(p.told, h.blkSz)) && h.chunkHdrSz + |p.Body()| < TWO32
    ensures p.Sound(h) && p.Blocks(h) == p.told
  {
    hide Product;
    WholeProduct(p.told, h.blkSz);
    WholeProduct(0, h.blkSz);
  }

  lemma {:induction false} FieldsStand(file: seq<byte>, pos: nat, kind: nat, reserved: nat, blks: nat, total: nat,
                                       end: seq<byte>)
    requires pos + CHUNK_HEADER_SZ <= |file| && GetLe16(file, pos) == kind && GetLe16(file, pos + 2) == reserved
    requires GetLe32(file, pos + 4) == blks && GetLe32(file, pos + 8) == total && StartsAt(file, pos + 12, end)
    ensures StartsAt(file, pos, PutLe16(kind) + (PutLe16(reserved) + (PutLe32(blks) + (PutLe32(total) + end))))
  {
    hide StartsAt, PutLe16, PutLe32, GetLe16, GetLe32;
    PutGet32(file, pos + 8);
    PutGet32(file, pos + 4);
    PutGet16(file, pos + 2);
    PutGet16(file, pos);
    StartsJoin(file, pos + 8, PutLe32(total), end);
    StartsJoin(file, pos + 4, PutLe32(blks), PutLe32(total) + end);
    StartsJoin(file, pos + 2, PutLe16(reserved), PutLe32(blks) + (PutLe32(total) + end));
    StartsJoin(file, pos, PutLe16(kind), PutLe16(reserved) + (PutLe32(blks) + (PutLe32(total) + end)));
  }

  // Only what has no bytes to be read may lie beyond the end of the file.
  lemma {:induction false} NothingMissing(file: seq<byte>, pos: nat, h: Header)
    requires ReadChunk(file, pos, h).Some? && ReadChunk(file, pos, h).value.next > |file|
    ensures var c := ReadChunk(file, pos, h).value.chunk; c.DontCare? || c.Crc32? || c == Raw([])
  {
    hide GetLe16, GetLe32, Product;
  }

  lemma SliceStarts(s: seq<byte>, from: nat, end: nat)
    requires from <= end <= |s|
    ensures StartsAt(s, from, s[from..end])
  {
  }

  lemma FieldBounds(file: seq<byte>, pos: nat)
    requires pos + CHUNK_HEADER_SZ <= |file|
    ensures GetLe32(file, pos + 4) < TWO32 && GetLe32(file, pos + 8) < TWO32
  {
  }

  lemma WholeProduct(blks: nat, blkSz: nat)
    requires blkSz > 0
    ensures Product(blks, blkSz) % blkSz == 0 && Product(blks, blkSz) / blkSz == blks
  {
    ModUnique(blks * blkSz, blkSz, blks, 0);
    var q := blks * blkSz / blkSz;
    assert blkSz * (blks - q) == 0;
    Multiple(blkSz, blks - q);
  }

  function PartsBytes(ps: seq<Part>, h: Header): seq<byte>
    requires h.blkSz > 0
  {
    if ps == [] then [] else ps[0].Bytes(h) + PartsBytes(ps[1..], h)
  }

  function Chunks(ps: seq<Part>): (cs: seq<Chunk>)
    ensures |cs| == |ps| && forall i :: 0 <= i < |ps| ==> cs[i] == ps[i].chunk
  {
    seq(|ps|, i requires 0 <= i < |ps| => ps[i].chunk)
  }

  lemma {:induction false} PartsRead(file: seq<byte>, pos: nat, ps: seq<Part>, h: Header)
    requires h.blkSz > 0 && (forall i :: 0 <= i < |ps| ==> ps[i].Sound(h)) && StartsAt(file, pos, PartsBytes(ps, h))
    ensures ReadChunks(file, pos, h, |ps|) == Some(Chunks(ps))
    decreases |ps|
  {
    hide StartsAt, ReadChunk, Part.Bytes, Part.Sound;
    if ps != [] {
      StartsSplit(file, pos, ps[0].Bytes(h), PartsBytes(ps[1..], h));
      PartRead(file, pos, ps[0], h);
      PartsRead(file, pos + |ps[0].Bytes(h)|, ps[1..], h);
      assert Chunks(ps) == [ps[0].chunk] + Chunks(ps[1..]);
    } else {
      assert Chunks(ps) == [];
    }
  }

  // The file header, longer if it says so; minor version and checksum do not matter.
  function HeaderBytes(h: Header, minor: nat, sum: nat, more: seq<byte>): seq<byte> {
    PutLe32(MAGIC) + (PutLe16(1) + (PutLe16(minor) + (PutLe16(h.hdrSz) + (PutLe16(h.chunkHdrSz) +
      (PutLe32(h.blkSz) + (PutLe32(h.blks) + (PutLe32(h.chunks) + (PutLe32(sum) + more))))))))
  }

  lemma {:induction false} HeaderInBytes(h: Header, minor: nat, sum: nat, more: seq<byte>)
    ensures HeaderBytes(h, minor, sum, more) ==
            [0x3a, 0xff, 0x26, 0xed] + ([1, 0, minor % 256, minor / 256 % 256] +
              ([h.hdrSz % 256, h.hdrSz / 256 % 256, h.chunkHdrSz % 256, h.chunkHdrSz / 256 % 256] +
                (Le32Bytes(h.blkSz) + (Le32Bytes(h.blks) + (Le32Bytes(h.chunks) + (Le32Bytes(sum) + more))))))
  {
    BytesOfFields(minor);
    BytesOfFields(h.hdrSz);
    BytesOfFields(h.chunkHdrSz);
    BytesOfFields(h.blkSz);
    BytesOfFields(h.blks);
    BytesOfFields(h.chunks);
    BytesOfFields(sum);
    SizesInBytes();
    hide PutLe16, PutLe32, Le32Bytes;
    var tail := Le32Bytes(h.blkSz) + (Le32Bytes(h.blks) + (Le32Bytes(h.chunks) + (Le32Bytes(sum) + more)));
    Glue(PutLe16(h.hdrSz), PutLe16(h.chunkHdrSz), tail);
    Glue(PutLe16(1), PutLe16(minor), (PutLe16(h.hdrSz) + PutLe16(h.chunkHdrSz)) + tail);
  }

  predicate SoundHeader(h: Header) {
    HEADER_SZ <= h.hdrSz < 65536 && CHUNK_HEADER_SZ <= h.chunkHdrSz < 65536 && h.blkSz % 4 == 0 &&
    0 < h.blkSz < TWO32 && h.blks < TWO32 && h.chunks < TWO32
  }

  lemma {:induction false} HeaderPieces(file: seq<byte>, h: Header, minor: nat, sum: nat, more: seq<byte>)
    requires StartsAt(file, 0, HeaderBytes(h, minor, sum, more))
    ensures HEADER_SZ <= |file|
    ensures StartsAt(file, 0, PutLe32(MAGIC)) && StartsAt(file, 4, PutLe16(1))
    ensures StartsAt(file, 8, PutLe16(h.hdrSz)) && StartsAt(file, 10, PutLe16(h.chunkHdrSz))
    ensures StartsAt(file, 12, PutLe32(h.blkSz)) && StartsAt(file, 16, PutLe32(h.blks))
    ensures StartsAt(file, 20, PutLe32(h.chunks))
  {
    hide StartsAt, PutLe16, PutLe32, GetLe16, GetLe32;
    StartsAtSlice(file, 0, HeaderBytes(h, minor, sum, more));
    var p8 := PutLe32(sum) + more;
    var p7 := PutLe32(h.chunks) + p8;
    var p6 := PutLe32(h.blks) + p7;
    var p5 := PutLe32(h.blkSz) + p6;
    var p4 := PutLe16(h.chunkHdrSz) + p5;
    var p3 := PutLe16(h.hdrSz) + p4;
    var p2 := PutLe16(minor) + p3;
    StartsSplit(file, 0, PutLe32(MAGIC), PutLe16(1) + p2);
    StartsSplit(file, 4, PutLe16(1), p2);
    StartsSplit(file, 6, PutLe16(minor), p3);
    StartsSplit(file, 8, PutLe16(h.hdrSz), p4);
    StartsSplit(file, 10, PutLe16(h.chunkHdrSz), p5);
    StartsSplit(file, 12, PutLe32(h.blkSz), p6);
    StartsSplit(file, 16, PutLe32(h.blks), p7);
    StartsSplit(file, 20, PutLe32(h.chunks), p8);
  }

  lemma {:induction false} HeaderRead(file: seq<byte>, h: Header, minor: nat, sum: nat, more: seq<byte>)
    requires SoundHeader(h) && StartsAt(file, 0, HeaderBytes(h, minor, sum, more))
    ensures IsSparse(file) && ReadHeader(file) == Some(h)
  {
    hide StartsAt, PutLe16, PutLe32, GetLe16, GetLe32, HeaderBytes;
    HeaderPieces(file, h, minor, sum, more);
    GetPut32(file, 0, MAGIC);
    GetPut16(file, 4, 1);
    GetPut16(file, 8, h.hdrSz);
    GetPut16(file, 10, h.chunkHdrSz);
    GetPut32(file, 12, h.blkSz);
    GetPut32(file, 16, h.blks);
    GetPut32(file, 20, h.chunks);
  }

  // And only such headers are.
  lemma {:induction false} HeaderFound(file: seq<byte>, h: Header)
    requires ReadHeader(file) == Some(h)
    ensures SoundHeader(h) && StartsAt(file, 0, HeaderBytes(h, GetLe16(file, 6), GetLe32(file, 24), []))
  {
    hide StartsAt, PutLe16, PutLe32, GetLe16, GetLe32;
    HeaderBounds(file);
    var minor, sum, none: seq<byte> := GetLe16(file, 6), GetLe32(file, 24), [];
    SliceStarts(file, 28, 28);
    assert file[28..28] == none;
    PutGet16(file, 4);
    PutGet16(file, 6);
    PutGet16(file, 8);
    PutGet16(file, 10);
    PutGet32(file, 0);
    PutGet32(file, 12);
    PutGet32(file, 16);
    PutGet32(file, 20);
    PutGet32(file, 24);
    var p8 := PutLe32(sum) + none;
    var p7 := PutLe32(h.chunks) + p8;
    var p6 := PutLe32(h.blks) + p7;
    var p5 := PutLe32(h.blkSz) + p6;
    var p4 := PutLe16(h.chunkHdrSz) + p5;
    var p3 := PutLe16(h.hdrSz) + p4;
    var p2 := PutLe16(minor) + p3;
    StartsJoin(file, 24, PutLe32(sum), none);
    StartsJoin(file, 20, PutLe32(h.chunks), p8);
    StartsJoin(file, 16, PutLe32(h.blks), p7);
    StartsJoin(file, 12, PutLe32(h.blkSz), p6);
    StartsJoin(file, 10, PutLe16(h.chunkHdrSz), p5);
    StartsJoin(file, 8, PutLe16(h.hdrSz), p4);
    StartsJoin(file, 6, PutLe16(minor), p3);
    StartsJoin(file, 4, PutLe16(1), p2);
    StartsJoin(file, 0, PutLe32(MAGIC), PutLe16(1) + p2);
  }

  lemma HeaderBounds(file: seq<byte>)
    requires |file| >= HEADER_SZ
    ensures GetLe16(file, 8) < 65536 && GetLe16(file, 10) < 65536
    ensures GetLe32(file, 12) < TWO32 && GetLe32(file, 16) < TWO32 && GetLe32(file, 20) < TWO32
  {
  }

  // A file is taken for an image by its first four bytes.
  lemma {:induction false} SparseByMagic(file: seq<byte>)
    ensures IsSparse(file) <==> |file| >= 28 && file[..4] == [0x3a, 0xff, 0x26, 0xed]
  {
    if |file| >= 28 {
      FieldsFromBytes(file, 0);
      var b0: int, b1: int, b2: int, b3: int := file[0], file[1], file[2], file[3];
      assert file[..4] == [file[0], file[1], file[2], file[3]];
      assert b0 + 0x100 * b1 + 0x1_0000 * b2 + 0x100_0000 * b3 == 0xed26ff3a <==>
             b0 == 0x3a && b1 == 0xff && b2 == 0x26 && b3 == 0xed;
    }
  }

  // The chunks of an image, whatever they add up to and whatever comes behind them.
  lemma ImageListed(h: Header, minor: nat, sum: nat, more: seq<byte>, ps: seq<Part>, rest: seq<byte>)
    requires SoundHeader(h) && h.hdrSz == HEADER_SZ + |more| && h.chunks == |ps|
    requires forall i :: 0 <= i < |ps| ==> ps[i].Sound(h)
    ensures var file := HeaderBytes(h, minor, sum, more) + (PartsBytes(ps, h) + rest);
            IsSparse(file) && ReadHeader(file) == Some(h) && ListedChunks(file) == Some(Chunks(ps))
  {
    hide StartsAt, HeaderBytes, PartsBytes, ReadHeader, ReadChunks, Chunks, IsSparse, Part.Sound;
    var head, body := HeaderBytes(h, minor, sum, more), PartsBytes(ps, h);
    var file := head + (body + rest);
    WholeFile(file);
    StartsSplit(file, 0, head, body + rest);
    HeaderRead(file, h, minor, sum, more);
    HeaderLength(h, minor, sum, more);
    StartsSplit(file, |head|, body, rest);
    PartsRead(file, |head|, ps, h);
  }

  // If they add up to what the header says it is an image a device can take.
  lemma ImageRead(h: Header, minor: nat, sum: nat, more: seq<byte>, ps: seq<Part>, rest: seq<byte>)
    requires SoundHeader(h) && h.hdrSz == HEADER_SZ + |more| && h.chunks == |ps|
    requires (forall i :: 0 <= i < |ps| ==> ps[i].Sound(h)) && TotalLen(Chunks(ps)) == Product(h.blks, h.blkSz)
    ensures var file := HeaderBytes(h, minor, sum, more) + (PartsBytes(ps, h) + rest);
            IsSparse(file) && SparseChunks(file) == Some(Chunks(ps))
  {
    hide HeaderBytes, PartsBytes, ReadHeader, ReadChunks, Chunks, TotalLen, IsSparse, Product, Part.Sound;
    ImageListed(h, minor, sum, more, ps, rest);
  }

  lemma WholeFile(file: seq<byte>)
    ensures StartsAt(file, 0, file)
  {
  }

  lemma HeaderLength(h: Header, minor: nat, sum: nat, more: seq<byte>)
    ensures |HeaderBytes(h, minor, sum, more)| == HEADER_SZ + |more|
  {
    hide PutLe16, PutLe32;
  }

  // ----- An image whose place wraps -----

  const GIB: nat := 0x4000_0000

  const WRAPPING: Header := Header(HEADER_SZ, CHUNK_HEADER_SZ, 2 * GIB, 1, 4)

  // Two holes of 2^32 - 1 blocks each, a fill of one block, and a hole of two.
  function WrappingParts(pattern: seq<byte>): seq<Part> {
    var hole := Part(DontCare((TWO32 - 1) * (2 * GIB)), 0, [], [], 0);
    [hole, hole, Part(Fill(pattern, 2 * GIB), 0, [], [], 0), Part(DontCare(4 * GIB), 0, [], [], 0)]
  }

  function WrappingImage(pattern: seq<byte>): seq<byte> {
    HeaderBytes(WRAPPING, 0, 0, []) + (PartsBytes(WrappingParts(pattern), WRAPPING) + [])
  }

  lemma WrappingListed(pattern: seq<byte>)
    requires |pattern| == 4
    ensures var file := WrappingImage(pattern);
            && IsSparse(file) && ReadHeader(file) == Some(WRAPPING)
            && ListedChunks(file) == Some(Chunks(WrappingParts(pattern)))
  {
    hide HeaderBytes, PartsBytes, ReadHeader, ReadChunks, IsSparse;
    ImageListed(WRAPPING, 0, 0, [], WrappingParts(pattern), []);
  }

  lemma WrappingPlaces(pattern: seq<byte>)
    ensures var cs := Chunks(WrappingParts(pattern));
            && |cs| == 4 && Place(4 * GIB, cs[..0]) == 4 * GIB && Place(4 * GIB, cs[..2]) == 0 && cs[..4] == cs
            && TotalLen(cs) == TWO64 + 2 * GIB
  {
    var cs := Chunks(WrappingParts(pattern));
    assert cs[..1][..0] == cs[..0] && cs[..2][..1] == cs[..1] && cs[..3][..2] == cs[..2] && cs[..3] == cs[..4][..3];
    assert cs[..4] == cs;
    assert TotalLen(cs[..1]) == (TWO32 - 1) * (2 * GIB);
    assert TotalLen(cs[..2]) == 2 * ((TWO32 - 1) * (2 * GIB)) == TWO64 - 4 * GIB;
    assert TotalLen(cs[..3]) == TWO64 - 2 * GIB;
  }

  lemma WrappingVisit(op: Op, t: Tally, pattern: seq<byte>, bs: nat)
    requires |pattern| == 4 && bs > 0
    ensures var cs := Chunks(WrappingParts(pattern));
            AllValid(cs) &&
            VisitChunks(op, t, 4 * GIB, cs, bs) == Visit(op, t, 0, Known(FillSpan(pattern, 2 * GIB, bs)))
  {
    hide Visit, Known, FillSpan, Place, TotalLen;
    var cs := Chunks(WrappingParts(pattern));
    assert cs[..1][..0] == cs[..0] && cs[..2][..1] == cs[..1] && cs[..3][..2] == cs[..2] && cs[..3] == cs[..4][..3];
    WrappingPlaces(pattern);
    var hole := (TWO32 - 1) * (2 * GIB);
    VisitHole(op, t, Place(4 * GIB, cs[..0]), hole);
    assert VisitChunks(op, t, 4 * GIB, cs[..1], bs) == t;
    VisitHole(op, t, Place(4 * GIB, cs[..1]), hole);
    assert VisitChunks(op, t, 4 * GIB, cs[..2], bs) == t;
    var filled := Visit(op, t, 0, Known(FillSpan(pattern, 2 * GIB, bs)));
    assert VisitChunks(op, t, 4 * GIB, cs[..3], bs) == filled;
    VisitHole(op, filled, Place(4 * GIB, cs[..3]), 4 * GIB);
  }

  // At 4 GiB it goes through on any device of 6 GiB, though no device can take it anywhere; and
  // its fill lands at the front, where the image does not reach.
  lemma WrappedImageLandsElsewhere(pattern: seq<byte>, t: Tally, bs: nat)
    requires |pattern| == 4 && 6 * GIB <= |t.dev| < TWO64 && bs > 0
    ensures var file := WrappingImage(pattern);
            && IsSparse(file) && ListedChunks(file).Some? && Passes(file, 4 * GIB, |t.dev|)
            && (forall off: nat, size: nat :: !Accepts(file, off, size))
            && Walked(Op.Write, t, 4 * GIB, file, bs).dev == Overlay(t.dev, 0, Known(FillSpan(pattern, 2 * GIB, bs)))
  {
    hide WrappingImage, ReadHeader, ReadChunks, IsSparse, TotalLen, Place, Visit, VisitChunks, Overlay, Known, FillSpan;
    WrappingListed(pattern);
    WrappingPlaces(pattern);
    WrappingVisit(Op.Write, t, pattern, bs);
    WriteOverlays(t, 0, Known(FillSpan(pattern, 2 * GIB, bs)));
  }
}
