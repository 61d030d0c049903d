/**
 The run-length encoding of a region in blocks: neighbouring raw blocks are one run, and so are
 neighbouring blocks that repeat the same word.
 */
module SparseRuns {
  import opened Arith
  import opened Bytes
  import opened SparseFormat
  import opened SparseWriter

  // ----- Blocks (block_is_fill and same_chunk of blkwak.c) -----

  predicate IsFill(b: seq<byte>)
    requires |b| == BLK_SZ
  {
    b[..BLK_SZ - 4] == b[4..]
  }

  predicate SameChunk(a: seq<byte>, b: seq<byte>)
    requires |a| == |b| == BLK_SZ
  {
    IsFill(a) == IsFill(b) && (IsFill(a) ==> a[..4] == b[..4])
  }

  // The chunk a block makes on its own.
  function BlockChunk(b: seq<byte>): (c: Chunk)
    requires |b| == BLK_SZ
  {
    if IsFill(b) then Fill(b[..4], BLK_SZ) else Raw(b)
  }

  lemma {:induction false} FillBlockAt(b: seq<byte>, i: nat)
    requires |b| == BLK_SZ && i < BLK_SZ && IsFill(b)
    ensures b[i] == b[..4][i % 4]
    decreases i
  {
    if i >= 4 {
      FillBlockAt(b, i - 4);
      assert b[..BLK_SZ - 4][i - 4] == b[4..][i - 4];
    }
  }

  // A block is a fill block exactly if it repeats its first word.
  lemma IsFillMeaning(b: seq<byte>, pattern: seq<byte>)
    requires |b| == BLK_SZ && |pattern| == 4
    ensures IsFill(b) && b[..4] == pattern <==> b == FillBytes(pattern, BLK_SZ)
  {
    if IsFill(b) && b[..4] == pattern {
      forall i | 0 <= i < BLK_SZ ensures b[i] == pattern[i % 4] {
        FillBlockAt(b, i);
      }
    }
    if b == FillBytes(pattern, BLK_SZ) {
      FillRepeats(pattern);
    }
  }

  lemma FillRepeats(pattern: seq<byte>)
    requires |pattern| == 4
    ensures IsFill(FillBytes(pattern, BLK_SZ)) && FillBytes(pattern, BLK_SZ)[..4] == pattern
  {
    var f := FillBytes(pattern, BLK_SZ);
    forall i | 0 <= i < BLK_SZ - 4 ensures f[..BLK_SZ - 4][i] == f[4..][i] {
      assert (i + 4) % 4 == i % 4;
    }
  }

  // ----- The canonical encoding -----

  // Merging as if sizes had no limit.
  function Joined(a: Chunk, b: Chunk): Option<Chunk> {
    if a.Raw? && b.Raw? then Some(Raw(a.data + b.data))
    else if a.Fill? && b.Fill? && a.pattern == b.pattern then Some(Fill(a.pattern, a.len + b.len))
    else None
  }

  function Join(chunks: seq<Chunk>, c: Chunk): seq<Chunk> {
    if chunks == [] then [c]
    else match Joined(chunks[|chunks| - 1], c)
      case Some(m) => chunks[..|chunks| - 1] + [m]
      case None => chunks + [c]
  }

  // Block by block.
  function Canon(data: seq<byte>): seq<Chunk>
    requires |data| % BLK_SZ == 0
  {
    if data == [] then []
    else
      assert |data| >= BLK_SZ;
      Join(Canon(data[..|data| - BLK_SZ]), BlockChunk(data[|data| - BLK_SZ..]))
  }

  // ----- Runs -----

  function BlockOf(data: seq<byte>, at: nat): (b: seq<byte>)
    requires at + BLK_SZ <= |data|
    ensures |b| == BLK_SZ
  {
    data[at..at + BLK_SZ]
  }

  // Blocks that all go in one chunk with the first.
  ghost predicate IsRun(run: seq<byte>) {
    |run| >= BLK_SZ && |run| % BLK_SZ == 0 &&
    forall at: nat :: at % BLK_SZ == 0 && at + BLK_SZ <= |run| ==> SameChunk(BlockOf(run, 0), BlockOf(run, at))
  }

  // What put_blocks puts for a run.
  function RunChunk(run: seq<byte>): (c: Chunk)
    requires |run| >= BLK_SZ
  {
    var first := BlockOf(run, 0);
    if IsFill(first) then Fill(first[..4], |run|) else Raw(run)
  }

  lemma ShorterRun(run: seq<byte>)
    requires IsRun(run) && |run| > BLK_SZ
    ensures IsRun(run[..|run| - BLK_SZ]) && BlockOf(run[..|run| - BLK_SZ], 0) == BlockOf(run, 0)
    ensures SameChunk(BlockOf(run, 0), run[|run| - BLK_SZ..])
  {
    var less := run[..|run| - BLK_SZ];
    forall at: nat | at % BLK_SZ == 0 && at + BLK_SZ <= |less|
      ensures BlockOf(less, at) == BlockOf(run, at)
    {
    }
    assert BlockOf(run, |run| - BLK_SZ) == run[|run| - BLK_SZ..];
  }

  lemma JoinTwice(chunks: seq<Chunk>, a: Chunk, b: Chunk)
    requires Joined(a, b).Some?
    ensures Join(Join(chunks, a), b) == Join(chunks, Joined(a, b).value)
  {
    if chunks == [] {
    } else {
      var pre, c := chunks[..|chunks| - 1], chunks[|chunks| - 1];
      match Joined(c, a)
      case Some(m) =>
        assert (pre + [m])[..|pre|] == pre;
        if c.Raw? {
          assert c.data + a.data + b.data == c.data + (a.data + b.data);
        }
      case None =>
        assert (chunks + [a])[..|chunks|] == chunks;
    }
  }

  lemma RunAndBlock(run: seq<byte>)
    requires IsRun(run) && |run| > BLK_SZ
    ensures var less, last := run[..|run| - BLK_SZ], run[|run| - BLK_SZ..];
            Joined(RunChunk(less), BlockChunk(last)) == Some(RunChunk(run))
  {
    hide IsFill, IsRun;
    ShorterRun(run);
    assert run == run[..|run| - BLK_SZ] + run[|run| - BLK_SZ..];
  }

  // A run put in one call is its blocks put one by one.
  lemma {:induction false} CanonRun(data: seq<byte>, run: seq<byte>)
    requires |data| % BLK_SZ == 0 && IsRun(run)
    ensures Canon(data + run) == Join(Canon(data), RunChunk(run))
    decreases |run|
  {
    hide IsFill, Join, Joined, IsRun;
    assert |run| >= BLK_SZ && |run| % BLK_SZ == 0 by {
      RunLength(run);
    }
    var less, last := run[..|run| - BLK_SZ], run[|run| - BLK_SZ..];
    CanonLast(data + run);
    assert (data + run)[..|data + run| - BLK_SZ] == data + less;
    assert (data + run)[|data + run| - BLK_SZ..] == last;
    if |run| == BLK_SZ {
      assert data + less == data && BlockOf(run, 0) == run == last;
    } else {
      ShorterRun(run);
      CanonRun(data, less);
      RunAndBlock(run);
      JoinTwice(Canon(data), RunChunk(less), BlockChunk(last));
    }
  }

  lemma RunLength(run: seq<byte>)
    requires IsRun(run)
    ensures |run| >= BLK_SZ && |run| % BLK_SZ == 0
  {
  }

  lemma CanonLast(data: seq<byte>)
    requires data != [] && |data| % BLK_SZ == 0
    ensures |data| >= BLK_SZ && (|data| - BLK_SZ) % BLK_SZ == 0
    ensures Canon(data) == Join(Canon(data[..|data| - BLK_SZ]), BlockChunk(data[|data| - BLK_SZ..]))
  {
  }

  // ----- What runs stand for -----

  lemma {:induction false} FillRunBytes(run: seq<byte>)
    requires IsRun(run) && IsFill(BlockOf(run, 0))
    ensures run == FillBytes(BlockOf(run, 0)[..4], |run|)
  {
    var pattern := BlockOf(run, 0)[..4];
    forall i | 0 <= i < |run| ensures run[i] == pattern[i % 4] {
      var at := i / BLK_SZ * BLK_SZ;
      var b := BlockOf(run, at);
      assert SameChunk(BlockOf(run, 0), b);
      FillBlockAt(b, i - at);
      assert b[i - at] == run[i];
      InBlock(i);
    }
  }

  lemma InBlock(i: nat)
    ensures (i - i / BLK_SZ * BLK_SZ) % 4 == i % 4
  {
    var q, r := i / BLK_SZ, i - i / BLK_SZ * BLK_SZ;
    ModUnique(i, 4, 1024 * q + r / 4, r % 4);
  }

  lemma RunCells(run: seq<byte>)
    requires IsRun(run)
    ensures RunChunk(run).Valid() && RunChunk(run).Cells() == Known(run)
  {
    if IsFill(BlockOf(run, 0)) {
      FillRunBytes(run);
    }
  }

  // ----- What the writer's chunks stand for, limits and all -----

  lemma KnownJoins(a: seq<byte>, b: seq<byte>)
    ensures Known(a + b) == Known(a) + Known(b)
  {
  }

  lemma MergedCells(a: Chunk, b: Chunk)
    requires a.Valid() && b.Valid() && a.Len() % BLK_SZ == 0 && Merged(a, b).Some?
    ensures var m := Merged(a, b).value; m.Valid() && m.Cells() == a.Cells() + b.Cells()
  {
    if a.Raw? {
      KnownJoins(a.data, b.data);
    } else {
      FillsJoin(a.pattern, a.len, b.len);
      KnownJoins(FillBytes(a.pattern, a.len), FillBytes(a.pattern, b.len));
    }
  }

  lemma FillsJoin(pattern: seq<byte>, a: nat, b: nat)
    requires |pattern| == 4 && a % BLK_SZ == 0
    ensures FillBytes(pattern, a + b) == FillBytes(pattern, a) + FillBytes(pattern, b)
  {
    assert a % 4 == 0 by {
      InBlock(a);
    }
    forall i | 0 <= i < b ensures FillBytes(pattern, a + b)[a + i] == FillBytes(pattern, b)[i] {
      Phase(a, i);
    }
  }

  lemma Phase(a: nat, i: nat)
    requires a % 4 == 0
    ensures (a + i) % 4 == i % 4
  {
    assert a + i == 4 * (a / 4 + i / 4) + i % 4;
  }

  lemma ExpandOneMore(chunks: seq<Chunk>, c: Chunk)
    requires AllValid(chunks + [c])
    ensures AllValid(chunks) && c.Valid() && Expand(chunks + [c]) == Expand(chunks) + c.Cells()
  {
    assert (chunks + [c])[|chunks|] == c;
    assert forall i :: 0 <= i < |chunks| ==> chunks[i] == (chunks + [c])[i];
    assert (chunks + [c])[..|chunks|] == chunks;
  }

  // A call appends what its chunk stands for, merged or not.
  lemma ExpandPut(chunks: seq<Chunk>, c: Chunk)
    requires AllWritable(chunks) && Writable(c)
    ensures AllWritable(Put(chunks, c))
    ensures AllValid(chunks) && AllValid(Put(chunks, c)) && Expand(Put(chunks, c)) == Expand(chunks) + c.Cells()
  {
    hide Expand, Merged, Writable, Chunk.Cells, Chunk.Valid, Chunk.Len;
    assert AllWritable(Put(chunks, c)) by {
      PutWritable(chunks, c);
    }
    ValidWhenWritable(chunks);
    ValidWhenWritable(Put(chunks, c));
    if chunks != [] && Merged(chunks[|chunks| - 1], c).Some? {
      var pre, z := chunks[..|chunks| - 1], chunks[|chunks| - 1];
      WritableMeans(z);
      WritableMeans(c);
      MergedCells(z, c);
      assert chunks == pre + [z];
      ExpandOneMore(pre, z);
      ExpandOneMore(pre, Merged(z, c).value);
    } else {
      assert Put(chunks, c) == chunks + [c];
      ExpandOneMore(chunks, c);
    }
  }

  lemma WritableMeans(c: Chunk)
    requires Writable(c)
    ensures c.Valid() && c.Len() % BLK_SZ == 0
  {
  }

  lemma ValidWhenWritable(chunks: seq<Chunk>)
    requires AllWritable(chunks)
    ensures AllValid(chunks)
  {
  }

  lemma PutWritable(chunks: seq<Chunk>, c: Chunk)
    requires AllWritable(chunks) && Writable(c)
    ensures AllWritable(Put(chunks, c))
  {
    hide Writable, Merged;
    if chunks != [] && Merged(chunks[|chunks| - 1], c).Some? {
      MergedWritable(chunks[|chunks| - 1], c);
    }
  }

  lemma MergedWritable(a: Chunk, b: Chunk)
    requires Writable(a) && Writable(b) && Merged(a, b).Some?
    ensures Writable(Merged(a, b).value)
  {
    WholeBlocks(a.Len(), b.Len());
  }

  // No two neighbours could have been one chunk.
  ghost predicate NoneMergeable(chunks: seq<Chunk>) {
    forall i :: 0 <= i < |chunks| - 1 ==> Merged(chunks[i], chunks[i + 1]).None?
  }

  lemma PutLeavesNoneMergeable(chunks: seq<Chunk>, c: Chunk)
    requires AllWritable(chunks) && Writable(c) && NoneMergeable(chunks)
    ensures NoneMergeable(Put(chunks, c))
  {
    if chunks != [] {
      var n, w := |chunks|, Put(chunks, c);
      assert Writable(chunks[n - 1]);
      if Merged(chunks[n - 1], c).Some? && n >= 2 {
        assert Writable(chunks[n - 2]);
        assert Merged(chunks[n - 2], chunks[n - 1]).None?;
        StillNotMerged(chunks[n - 2], chunks[n - 1], c);
      }
    }
  }

  // A chunk that did not fit does not fit after growing either.
  lemma StillNotMerged(a: Chunk, b: Chunk, c: Chunk)
    requires Writable(b) && Writable(c) && Merged(a, b).None? && Merged(b, c).Some?
    ensures Merged(a, Merged(b, c).value).None?
  {
    WholeBlocks(b.Len(), c.Len());
  }

  // ----- When no chunk reaches its limit -----

  // Then the writer's chunks are the canonical ones; and if a longer list fits, so did the shorter.
  lemma PutIsJoin(chunks: seq<Chunk>, c: Chunk)
    requires Writable(c) && AllWritable(Join(chunks, c))
    requires forall i :: 0 <= i < |chunks| ==> chunks[i].Len() % BLK_SZ == 0 && chunks[i].Valid()
    ensures AllWritable(chunks) && Put(chunks, c) == Join(chunks, c)
  {
    if chunks != [] {
      var n, w := |chunks|, Join(chunks, c);
      var z := chunks[n - 1];
      assert Writable(w[n - 1]);
      WholeBlocks(z.Len(), c.Len());
      forall i | 0 <= i < n ensures Writable(chunks[i]) {
        assert i < n - 1 ==> w[i] == chunks[i];
      }
    }
  }

  // ----- Canonical: the one encoding of its region that nothing could be merged in -----

  ghost predicate NormalChunk(c: Chunk) {
    c.Valid() && (c.Raw? || c.Fill?) && c.Len() > 0 && c.Len() % BLK_SZ == 0 && (c.Raw? ==> NoFillIn(c.data))
  }

  ghost predicate NoFillIn(data: seq<byte>) {
    forall at: nat :: at % BLK_SZ == 0 && at + BLK_SZ <= |data| ==> !IsFill(BlockOf(data, at))
  }

  ghost predicate Normal(chunks: seq<Chunk>) {
    (forall i :: 0 <= i < |chunks| ==> NormalChunk(chunks[i])) &&
    (forall i :: 0 <= i < |chunks| - 1 ==> Joined(chunks[i], chunks[i + 1]).None?)
  }

  lemma BlockChunkNormal(b: seq<byte>)
    requires |b| == BLK_SZ
    ensures NormalChunk(BlockChunk(b)) && BlockChunk(b).Cells() == Known(b)
  {
    if IsFill(b) {
      IsFillMeaning(b, b[..4]);
    } else {
      forall at: nat | at % BLK_SZ == 0 && at + BLK_SZ <= |b| ensures BlockOf(b, at) == b {
      }
    }
  }

  lemma JoinedNormal(a: Chunk, b: Chunk)
    requires NormalChunk(a) && NormalChunk(b) && Joined(a, b).Some?
    ensures var m := Joined(a, b).value; NormalChunk(m) && m.Cells() == a.Cells() + b.Cells()
  {
    hide IsFill;
    assert (a.Len() + b.Len()) % BLK_SZ == 0;
    if a.Raw? {
      KnownJoins(a.data, b.data);
      var data := a.data + b.data;
      forall at: nat | at % BLK_SZ == 0 && at + BLK_SZ <= |data| ensures !IsFill(BlockOf(data, at)) {
        BlockOfTwo(a.data, b.data, at);
      }
    } else {
      FillsJoin(a.pattern, a.len, b.len);
      KnownJoins(FillBytes(a.pattern, a.len), FillBytes(a.pattern, b.len));
    }
  }

  lemma BlockOfTwo(a: seq<byte>, b: seq<byte>, at: nat)
    requires |a| % BLK_SZ == 0 && at % BLK_SZ == 0 && at + BLK_SZ <= |a| + |b|
    ensures if at < |a| then at + BLK_SZ <= |a| && BlockOf(a + b, at) == BlockOf(a, at)
            else (at - |a|) % BLK_SZ == 0 && BlockOf(a + b, at) == BlockOf(b, at - |a|)
  {
  }

  lemma {:induction false} StillUnmergeable(p: Chunk, z: Chunk, c: Chunk)
    requires Joined(z, c).Some? && Joined(p, z).None?
    ensures Joined(p, Joined(z, c).value).None?
  {
  }

  lemma {:induction false} JoinKeepsNormal(chunks: seq<Chunk>, c: Chunk)
    requires Normal(chunks) && NormalChunk(c)
    ensures Normal(Join(chunks, c))
  {
    hide NormalChunk, Joined;
    if chunks != [] && Joined(chunks[|chunks| - 1], c).Some? {
      var n := |chunks| - 1;
      JoinedNormal(chunks[n], c);
      if n > 0 {
        assert Joined(chunks[n - 1], chunks[n - 1 + 1]).None?;
        StillUnmergeable(chunks[n - 1], chunks[n], c);
      }
    }
  }

  lemma JoinNormal(chunks: seq<Chunk>, c: Chunk)
    requires Normal(chunks) && NormalChunk(c)
    ensures Normal(Join(chunks, c)) && AllValid(chunks) && AllValid(Join(chunks, c))
    ensures c.Valid() && Expand(Join(chunks, c)) == Expand(chunks) + c.Cells()
  {
    hide Expand, Normal, NormalChunk, Joined, Chunk.Cells, Chunk.Valid, Chunk.Len;
    JoinKeepsNormal(chunks, c);
    ChunksOfNormal(Join(chunks, c));
    ChunksOfNormal(chunks);
    if chunks != [] && Joined(chunks[|chunks| - 1], c).Some? {
      var pre, z := chunks[..|chunks| - 1], chunks[|chunks| - 1];
      JoinedNormal(z, c);
      assert chunks == pre + [z];
      ExpandOneMore(pre, z);
      ExpandOneMore(pre, Joined(z, c).value);
      NormalMeans(c);
    } else {
      assert Join(chunks, c) == chunks + [c];
      ExpandOneMore(chunks, c);
    }
  }

  lemma NormalMeans(c: Chunk)
    requires NormalChunk(c)
    ensures c.Valid() && c.Len() > 0 && c.Len() % BLK_SZ == 0 && (c.Raw? || c.Fill?)
  {
  }

  lemma ChunksOfNormal(chunks: seq<Chunk>)
    requires Normal(chunks)
    ensures AllValid(chunks) && forall i :: 0 <= i < |chunks| ==> NormalChunk(chunks[i])
  {
    ValidWhenNormal(chunks);
  }

  lemma ValidWhenNormal(chunks: seq<Chunk>)
    requires forall i :: 0 <= i < |chunks| ==> NormalChunk(chunks[i])
    ensures AllValid(chunks)
  {
  }

  lemma {:induction false} CanonIsNormal(data: seq<byte>)
    requires |data| % BLK_SZ == 0
    ensures Normal(Canon(data)) && AllValid(Canon(data)) && Expand(Canon(data)) == Known(data)
    decreases |data|
  {
    hide Normal, NormalChunk, Join, BlockChunk, Canon, Expand, Known, AllValid;
    if data != [] {
      CanonLast(data);
      var less, last := data[..|data| - BLK_SZ], data[|data| - BLK_SZ..];
      CanonIsNormal(less);
      CanonMore(data, less, last);
    } else {
      NothingIsNormal(data);
    }
  }

  lemma NothingIsNormal(data: seq<byte>)
    requires data == []
    ensures Canon(data) == [] && Normal([]) && AllValid([]) && Expand([]) == Known(data)
  {
  }

  lemma CanonMore(data: seq<byte>, less: seq<byte>, last: seq<byte>)
    requires |less| % BLK_SZ == 0 && |last| == BLK_SZ && data == less + last && |data| % BLK_SZ == 0
    requires Canon(data) == Join(Canon(less), BlockChunk(last))
    requires Normal(Canon(less)) && AllValid(Canon(less)) && Expand(Canon(less)) == Known(less)
    ensures Normal(Canon(data)) && AllValid(Canon(data)) && Expand(Canon(data)) == Known(data)
  {
    hide *;
    BlockChunkNormal(last);
    JoinNormal(Canon(less), BlockChunk(last));
    KnownJoins(less, last);
  }

  lemma ShaveRaw(data: seq<byte>, n: nat)
    requires NoFillIn(data) && n % BLK_SZ == 0 && |data| == n + BLK_SZ
    ensures NoFillIn(data[..n]) && !IsFill(data[n..])
  {
    hide IsFill;
    assert BlockOf(data, n) == data[n..];
    forall at: nat | at % BLK_SZ == 0 && at + BLK_SZ <= n ensures !IsFill(BlockOf(data[..n], at)) {
      assert BlockOf(data[..n], at) == BlockOf(data, at);
    }
  }

  // The last block of a chunk, and the chunk without it.
  lemma Shave(z: Chunk) returns (less: Chunk, b: seq<byte>)
    requires NormalChunk(z)
    ensures |b| == BLK_SZ && z.Len() >= BLK_SZ
    ensures z.Len() == BLK_SZ ==> z == BlockChunk(b) && z.Cells() == Known(b)
    ensures z.Len() > BLK_SZ ==>
      NormalChunk(less) && Joined(less, BlockChunk(b)) == Some(z) && z.Cells() == less.Cells() + Known(b)
    ensures z.Len() > BLK_SZ ==> (z.Raw? <==> less.Raw?) && (z.Fill? ==> less.Fill? && less.pattern == z.pattern)
  {
    hide IsFill, Known, FillBytes, NoFillIn;
    assert z.Len() >= BLK_SZ;
    var n := z.Len() - BLK_SZ;
    if z.Raw? {
      less, b := Raw(z.data[..n]), z.data[n..];
      ShaveRaw(z.data, n);
      assert z.data == z.data[..n] + b;
      KnownJoins(z.data[..n], b);
    } else {
      less, b := Fill(z.pattern, n), FillBytes(z.pattern, BLK_SZ);
      IsFillMeaning(b, z.pattern);
      FillsJoin(z.pattern, n, BLK_SZ);
      KnownJoins(FillBytes(z.pattern, n), b);
    }
  }

  lemma EndOfKnown(cells: seq<Option<byte>>, b: seq<byte>, data: seq<byte>)
    requires cells + Known(b) == Known(data)
    ensures |data| == |cells| + |b| && data[|cells|..] == b && cells == Known(data[..|cells|])
  {
    var k := Known(data);
    assert |k| == |cells| + |b|;
    forall i | 0 <= i < |b| ensures data[|cells|..][i] == b[i] {
      assert k[|cells| + i] == Known(b)[i];
    }
    forall i | 0 <= i < |cells| ensures cells[i] == Some(data[i]) {
      assert k[i] == cells[i];
    }
  }

  // What is left of a normal encoding without its last block; joining that block restores it.
  lemma Peel(pre: seq<Chunk>, z: Chunk) returns (rest: seq<Chunk>, b: seq<byte>)
    requires Normal(pre + [z])
    ensures Normal(rest) && |b| == BLK_SZ && Join(rest, BlockChunk(b)) == pre + [z]
    ensures AllValid(rest) && AllValid(pre + [z]) && Expand(pre + [z]) == Expand(rest) + Known(b)
  {
    hide NormalChunk, BlockChunk, Chunk.Cells, Chunk.Valid, Chunk.Len, Joined, Expand, Normal, Known;
    ChunksOfNormal(pre + [z]);
    assert (pre + [z])[|pre|] == z;
    var less;
    less, b := Shave(z);
    NormalMeans(z);
    ExpandOneMore(pre, z);
    if z.Len() == BLK_SZ {
      rest := pre;
      WithoutLast(pre, z);
      ChunksOfNormal(pre);
    } else {
      rest := pre + [less];
      ShavedNormal(pre, z, less);
      ChunksOfNormal(rest);
      ExpandOneMore(pre, less);
      assert Expand(rest) + Known(b) == Expand(pre) + (less.Cells() + Known(b));
      assert rest[..|pre|] == pre && rest[|pre|] == less;
    }
  }

  lemma WithoutLast(pre: seq<Chunk>, z: Chunk)
    requires Normal(pre + [z])
    ensures Normal(pre) && (pre != [] ==> Joined(pre[|pre| - 1], z).None?)
  {
    hide NormalChunk, Joined;
    var was := pre + [z];
    assert forall i :: 0 <= i < |pre| ==> pre[i] == was[i];
    assert pre != [] ==> Joined(was[|pre| - 1], was[|pre|]).None?;
  }

  // Any normal encoding of the region is the canonical one.
  lemma {:induction false} NormalIsCanon(chunks: seq<Chunk>, data: seq<byte>)
    requires Normal(chunks) && AllValid(chunks) && Expand(chunks) == Known(data)
    ensures |data| % BLK_SZ == 0 && chunks == Canon(data)
    decreases |data|
  {
    hide NormalChunk, BlockChunk, Canon, Normal, Join;
    if chunks == [] {
      assert |Known(data)| == 0;
      EmptyCanon();
    } else {
      assert chunks == chunks[..|chunks| - 1] + [chunks[|chunks| - 1]];
      var rest, b := Peel(chunks[..|chunks| - 1], chunks[|chunks| - 1]);
      EndOfKnown(Expand(rest), b, data);
      NormalIsCanon(rest, data[..|Expand(rest)|]);
      CanonStep(data, b);
    }
  }

  lemma EmptyCanon()
    ensures Canon([]) == []
  {
  }

  lemma CanonStep(data: seq<byte>, b: seq<byte>)
    requires |b| == BLK_SZ && |data| >= BLK_SZ && data[|data| - BLK_SZ..] == b && (|data| - BLK_SZ) % BLK_SZ == 0
    ensures |data| % BLK_SZ == 0 && Canon(data) == Join(Canon(data[..|data| - BLK_SZ]), BlockChunk(b))
  {
    hide Join, BlockChunk, Canon;
    OneBlockMore(|data| - BLK_SZ);
    CanonLast(data);
  }

  lemma OneBlockMore(n: nat)
    requires n % BLK_SZ == 0
    ensures (n + BLK_SZ) % BLK_SZ == 0
  {
  }

  lemma ShavedNormal(pre: seq<Chunk>, z: Chunk, less: Chunk)
    requires Normal(pre + [z]) && NormalChunk(less)
    requires (z.Raw? <==> less.Raw?) && (z.Fill? <==> less.Fill?) && (z.Fill? ==> less.pattern == z.pattern)
    ensures Normal(pre + [less])
  {
    hide NormalChunk;
    var was, now := pre + [z], pre + [less];
    forall i | 0 <= i < |now| ensures NormalChunk(now[i]) {
      assert i < |pre| ==> now[i] == was[i];
    }
    forall i | 0 <= i < |now| - 1 ensures Joined(now[i], now[i + 1]).None? {
      assert Joined(was[i], was[i + 1]).None?;
    }
  }
}
