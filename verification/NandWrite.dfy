/** mtd.c's nandwrite: a file onto the good blocks of a flash device, page by page. */
module NandWrite {
  import opened Arith
  import opened Bytes

  const CHUNK_SIZE: nat := 16384

  const EX_USAGE: nat := 64
  const EX_DATAERR: nat := 65
  const EX_IOERR: nat := 74

  // The device: its sizes, and where its bad blocks begin (none if it is not NAND).
  datatype Info = Info(size: nat, erasesize: nat, writesize: nat, bad: set<nat>) {
    // Whole pages in whole eraseblocks.
    ghost predicate Valid() {
      0 < writesize && 0 < erasesize && erasesize % writesize == 0
    }
  }

  function BlockStart(i: nat, es: nat): (r: nat)
    requires es > 0
    ensures r <= i < r + es
  {
    i - i % es
  }

  predicate IsGood(info: Info, i: nat)
    requires info.erasesize > 0
  {
    BlockStart(i, info.erasesize) !in info.bad
  }

  // What the good blocks hold in [from, to), in order.
  function Live(mem: seq<byte>, info: Info, from: nat, to0: nat): (r: seq<byte>)
    requires info.erasesize > 0 && to0 <= |mem|
    decreases to0
  {
    if to0 <= from then []
    else Live(mem, info, from, to0 - 1) + (if IsGood(info, to0 - 1) then [mem[to0 - 1]] else [])
  }

  // Up to a whole page, with ones.
  function Padding(n: nat, ws: nat): (p: nat)
    requires ws > 0
  {
    (ws - n % ws) % ws
  }

  function Padded(file: seq<byte>, ws: nat): seq<byte>
    requires ws > 0
  {
    file + seq(Padding(|file|, ws), _ => 0xff)
  }

  // ----- Blocks and pages -----

  lemma SameBlock(start: nat, i: nat, es: nat)
    requires es > 0 && BlockStart(start, es) <= i < BlockStart(start, es) + es
    ensures BlockStart(i, es) == BlockStart(start, es)
  {
    var b := BlockStart(start, es);
    assert b == es * (start / es);
    ModUnique(i, es, start / es, i - b);
  }

  lemma NextBlock(start: nat, es: nat)
    requires es > 0
    ensures var next := BlockStart(start, es) + es; BlockStart(next, es) == next
  {
    var q := start / es;
    assert BlockStart(start, es) == es * q;
    ModUnique(es * q + es, es, q + 1, 0);
  }

  lemma Difference(a: nat, b: nat, m: nat)
    requires m > 0 && a % m == 0 && b % m == 0 && b <= a
    ensures (a - b) % m == 0 && (a + b) % m == 0
  {
    assert a == m * (a / m) && b == m * (b / m);
    ModUnique(a - b, m, a / m - b / m, 0);
    ModUnique(a + b, m, a / m + b / m, 0);
  }

  lemma BlockOnPage(start: nat, es: nat, ws: nat)
    requires es > 0 && ws > 0 && es % ws == 0
    ensures BlockStart(start, es) % ws == 0 && (BlockStart(start, es) + es) % ws == 0
  {
    assert BlockStart(start, es) == es * (start / es);
    MultipleOnPage(es, start / es, ws);
    MultipleOnPage(es, start / es + 1, ws);
    assert es * (start / es + 1) == BlockStart(start, es) + es;
  }

  lemma MultipleOnPage(es: nat, q: nat, ws: nat)
    requires ws > 0 && es % ws == 0
    ensures es * q % ws == 0
  {
    var k := es / ws;
    assert es == ws * k;
    Regroup(ws, k, q);
    ModUnique(es * q, ws, k * q, 0);
  }

  lemma Regroup(a: nat, b: nat, c: nat)
    ensures a * b * c == a * (b * c)
  {
  }

  lemma Monotone(m: nat, a: nat, b: nat)
    requires a <= b
    ensures m * a <= m * b
  {
    assert m * b == m * a + m * (b - a);
  }

  lemma Steps(m: nat, a: nat, b: nat)
    requires m * a < m * b
    ensures m * a + m <= m * b
  {
    if b <= a {
      Monotone(m, b, a);
    } else {
      Monotone(m, a + 1, b);
      assert m * (a + 1) == m * a + m;
    }
  }

  lemma PadsToPage(n: nat, ws: nat, most: nat)
    requires ws > 0 && most % ws == 0 && n <= most
    ensures (n + Padding(n, ws)) % ws == 0 && n + Padding(n, ws) <= most
    ensures Padding(n, ws) == 0 <==> n % ws == 0
  {
    var q, r := n / ws, n % ws;
    assert n == ws * q + r && most == ws * (most / ws);
    if r == 0 {
      ModUnique(ws, ws, 1, 0);
    } else {
      ModUnique(ws - r, ws, 0, ws - r);
      Steps(ws, q, most / ws);
      NextPage(n, ws, q, r);
    }
  }

  lemma NextPage(n: nat, ws: nat, q: nat, r: nat)
    requires 0 < r < ws && n == ws * q + r
    ensures (n + (ws - r)) % ws == 0
  {
    assert n + (ws - r) == ws * (q + 1);
    ModUnique(n + (ws - r), ws, q + 1, 0);
  }

  lemma SamePadding(a: nat, n: nat, ws: nat)
    requires ws > 0 && a % ws == 0
    ensures Padding(a + n, ws) == Padding(n, ws)
  {
    assert a + n == ws * (a / ws + n / ws) + n % ws;
    ModUnique(a + n, ws, a / ws + n / ws, n % ws);
  }

  // What is written of a file: the file, and as many bytes of ones as fill its last page.
  lemma PaddedMeans(file: seq<byte>, ws: nat)
    requires ws > 0
    ensures var p := Padded(file, ws);
            && |file| <= |p| < |file| + ws && |p| % ws == 0 && p[..|file|] == file
            && forall i :: |file| <= i < |p| ==> p[i] == 255
  {
    var n, q, r := |file|, |file| / ws, |file| % ws;
    if r == 0 {
      ModUnique(ws, ws, 1, 0);
    } else {
      ModUnique(ws - r, ws, 0, ws - r);
      NextPage(n, ws, q, r);
    }
  }

  // A byte is good exactly when no bad block covers it.
  lemma GoodMeans(info: Info, i: nat)
    requires info.erasesize > 0
    ensures IsGood(info, i) <==> !exists b :: b in info.bad && b % info.erasesize == 0 && b <= i < b + info.erasesize
  {
    hide BlockStart;
    var es, start := info.erasesize, BlockStart(i, info.erasesize);
    StartIsAligned(i, es);
    forall b | b in info.bad && b % es == 0 && b <= i < b + es ensures b == start {
      OneStart(i, es, b);
    }
  }

  lemma StartIsAligned(i: nat, es: nat)
    requires es > 0
    ensures BlockStart(i, es) % es == 0 && BlockStart(i, es) <= i < BlockStart(i, es) + es
  {
    assert BlockStart(i, es) == es * (i / es) + 0;
    ModUnique(BlockStart(i, es), es, i / es, 0);
  }

  lemma OneStart(i: nat, es: nat, b: nat)
    requires es > 0 && b % es == 0 && b <= i < b + es
    ensures b == BlockStart(i, es)
  {
    assert b == es * (b / es);
    ModUnique(i, es, b / es, i - b);
  }

  // ----- Live bytes -----

  lemma {:induction false} LiveSkips(mem: seq<byte>, info: Info, from: nat, a: nat, b: nat)
    requires info.erasesize > 0 && from <= a <= b <= |mem| && forall i :: a <= i < b ==> !IsGood(info, i)
    ensures Live(mem, info, from, b) == Live(mem, info, from, a)
    decreases b
  {
    hide IsGood;
    if a < b {
      LiveSkips(mem, info, from, a, b - 1);
    }
  }

  lemma {:induction false} LiveGrows(mem: seq<byte>, info: Info, from: nat, a: nat, b: nat)
    requires info.erasesize > 0 && from <= a <= b <= |mem| && forall i :: a <= i < b ==> IsGood(info, i)
    ensures Live(mem, info, from, b) == Live(mem, info, from, a) + mem[a..b]
    decreases b
  {
    hide IsGood;
    if a < b {
      LiveGrows(mem, info, from, a, b - 1);
      assert mem[a..b] == mem[a..b - 1] + [mem[b - 1]];
    } else {
      assert mem[a..b] == [];
    }
  }

  lemma {:induction false} LiveSame(m1: seq<byte>, m2: seq<byte>, info: Info, from: nat, to0: nat)
    requires info.erasesize > 0 && to0 <= |m1| && to0 <= |m2| && forall i :: from <= i < to0 ==> m1[i] == m2[i]
    ensures Live(m1, info, from, to0) == Live(m2, info, from, to0)
    decreases to0
  {
    hide IsGood;
    if from < to0 {
      LiveSame(m1, m2, info, from, to0 - 1);
    }
  }

  lemma {:induction false} LiveMonotone(m1: seq<byte>, m2: seq<byte>, info: Info, from: nat, a: nat, b: nat)
    requires info.erasesize > 0 && a <= b <= |m1| == |m2|
    ensures |Live(m1, info, from, a)| <= |Live(m2, info, from, b)|
    decreases a + b
  {
    hide IsGood;
    if a < b {
      LiveMonotone(m1, m2, info, from, a, b - 1);
    } else if from < a {
      LiveMonotone(m1, m2, info, from, a - 1, b - 1);
    }
  }

  // ----- The device -----

  class Flash {
    const info: Info
    const mem: array<byte>
    ghost var writes: seq<(nat, nat)>   // where the writes went, and how long they were

    constructor (info: Info, mem: array<byte>)
      requires mem.Length == info.size
      ensures this.info == info && this.mem == mem && writes == []
    {
      this.info, this.mem, writes := info, mem, [];
    }

    method IsBadBlock(off: nat) returns (r: bool)
      ensures r == (off in info.bad)
    {
      r := off in info.bad;
    }

    method WriteAt(off: nat, bytes: seq<byte>)
      requires off + |bytes| <= mem.Length
      modifies this, mem
      ensures mem[off..off + |bytes|] == bytes && writes == old(writes) + [(off, |bytes|)]
      ensures forall i :: 0 <= i < mem.Length && !(off <= i < off + |bytes|) ==> mem[i] == old(mem[i])
    {
      forall i | 0 <= i < |bytes| {
        mem[off + i] := bytes[i];
      }
      writes := writes + [(off, |bytes|)];
    }
  }

  // Whole pages, inside one good block.
  ghost predicate ProperWrite(info: Info, w: (nat, nat)) {
    && info.erasesize > 0 && info.writesize > 0
    && w.0 % info.writesize == 0 && w.1 % info.writesize == 0
    && (forall i: nat :: w.0 <= i < w.0 + w.1 ==>
          BlockStart(i, info.erasesize) == BlockStart(w.0, info.erasesize) && IsGood(info, i))
  }

  // The file so far is on the good blocks from start0 up to start, and nothing else has changed.
  ghost predicate Written(info: Info, was: seq<byte>, now: seq<byte>, start0: nat, start: nat, so: seq<byte>) {
    && info.Valid() && |was| == |now| == info.size && start0 <= start <= info.size
    && Live(now, info, start0, start) == Padded(so, info.writesize)
    && (forall i :: 0 <= i < info.size && (i < start0 || start <= i || !IsGood(info, i)) ==> now[i] == was[i])
  }

  // To the first block that is not bad.
  method SkipBad(flash: Flash, start0: nat) returns (start: nat)
    requires flash.info.Valid() && start0 <= flash.info.size && start0 % flash.info.writesize == 0
    ensures start0 <= start && start % flash.info.writesize == 0
    ensures start < flash.info.size ==> IsGood(flash.info, start)
    ensures forall i :: start0 <= i < start ==> !IsGood(flash.info, i)
    ensures start == start0 || BlockStart(start, flash.info.erasesize) == start
  {
    hide BlockStart;
    var es := flash.info.erasesize;
    start := start0;
    while start < flash.info.size
      invariant start0 <= start && start % flash.info.writesize == 0
      invariant forall i :: start0 <= i < start ==> !IsGood(flash.info, i)
      invariant start == start0 || BlockStart(start, es) == start
      decreases flash.info.size - start
    {
      var bad := flash.IsBadBlock(BlockStart(start, es));
      if !bad {
        return;
      }
      BlockOnPage(start, es, flash.info.writesize);
      NextBlock(start, es);
      forall i | start <= i < BlockStart(start, es) + es ensures !IsGood(flash.info, i) {
        SameBlock(start, i, es);
      }
      start := BlockStart(start, es) + es;
    }
  }

  // A chunk of the file for the page at start: at most up to the end of an eraseblock.
  lemma ChunkFits(start: nat, es: nat, ws: nat, got: nat, n: nat)
    requires ws > 0 && es > 0 && es % ws == 0 && WholePages(CHUNK_SIZE, ws) && WholePages(start, ws)
    requires got <= n
    requires var left := es - (start - BlockStart(start, es)); n == if left > CHUNK_SIZE then CHUNK_SIZE else left
    ensures 0 < n && WholePages(got + Padding(got, ws), ws) && got + Padding(got, ws) <= n
    ensures (Padding(got, ws) == 0 <==> WholePages(got, ws)) && (got == n ==> Padding(got, ws) == 0)
  {
    hide BlockStart;
    BlockOnPage(start, es, ws);
    Difference(BlockStart(start, es) + es, start, ws);
    PadsToPage(got, ws, n);
  }

  // The chunk stays in the block it was cut for, or in the one it was moved to.
  lemma ChunkInBlock(info: Info, start: nat, len: nat)
    requires info.Valid() && IsGood(info, start)
    requires start + len <= BlockStart(start, info.erasesize) + info.erasesize
    ensures forall i: nat :: start <= i < start + len ==>
      BlockStart(i, info.erasesize) == BlockStart(start, info.erasesize) && IsGood(info, i)
  {
    hide BlockStart;
    forall i: nat | start <= i < start + len
      ensures BlockStart(i, info.erasesize) == BlockStart(start, info.erasesize) && IsGood(info, i)
    {
      SameBlock(start, i, info.erasesize);
    }
  }

  // What is written next, behind what is written so far.
  lemma PaddedMore(file: seq<byte>, pos: nat, got: nat, ws: nat)
    requires ws > 0 && pos + got <= |file| && pos % ws == 0
    ensures Padded(file[..pos], ws) == file[..pos]
    ensures Padded(file[..pos + got], ws) == file[..pos] + (file[pos..pos + got] + seq(Padding(got, ws), _ => 0xff))
  {
    ModUnique(ws, ws, 1, 0);
    SamePadding(pos, got, ws);
    assert file[..pos + got] == file[..pos] + file[pos..pos + got];
  }

  lemma WrittenMore(info: Info, was: seq<byte>, m1: seq<byte>, m2: seq<byte>, start0: nat, a: nat, b: nat,
                    chunk: seq<byte>, before: seq<byte>, after: seq<byte>)
    requires Written(info, was, m1, start0, a, before) && a <= b && b + |chunk| <= info.size == |m2|
    requires forall i :: a <= i < b ==> !IsGood(info, i)
    requires forall i :: b <= i < b + |chunk| ==> IsGood(info, i)
    requires m2[b..b + |chunk|] == chunk && forall i :: 0 <= i < info.size && !(b <= i < b + |chunk|) ==> m2[i] == m1[i]
    requires Padded(after, info.writesize) == Padded(before, info.writesize) + chunk
    ensures Written(info, was, m2, start0, b + |chunk|, after)
  {
    hide IsGood, Padded;
    LiveSame(m1, m2, info, start0, a);
    LiveSkips(m2, info, start0, a, b);
    LiveGrows(m2, info, start0, b, b + |chunk|);
  }

  // How much the good blocks from start on have room for.
  function Room(mem: seq<byte>, info: Info, start: nat): nat
    requires info.erasesize > 0 && info.size <= |mem|
  {
    |Live(mem, info, start, info.size)|
  }

  lemma NothingWritten(info: Info, was: seq<byte>, start: nat)
    requires info.Valid() && |was| == info.size && start <= info.size
    ensures Written(info, was, was, start, start, []) && Padded([], info.writesize) == []
  {
    ModUnique(info.writesize, info.writesize, 1, 0);
  }

  lemma RestNotWhole(pos: nat, got: nat, ws: nat)
    requires ws > 0 && pos % ws == 0 && got % ws != 0
    ensures (pos + got) % ws != 0
  {
    assert pos + got == ws * (pos / ws + got / ws) + got % ws;
    ModUnique(pos + got, ws, pos / ws + got / ws, got % ws);
  }

  lemma KeptInBlock(info: Info, from: nat, start: nat, len: nat)
    requires info.Valid() && IsGood(info, start)
    requires start == from || BlockStart(start, info.erasesize) == start
    requires len <= info.erasesize - (from - BlockStart(from, info.erasesize))
    ensures forall i: nat :: start <= i < start + len ==>
      BlockStart(i, info.erasesize) == BlockStart(start, info.erasesize) && IsGood(info, i)
  {
    hide BlockStart, IsGood;
    ChunkInBlock(info, start, len);
  }

  // The next chunk runs over the end of the device: no good block has room for it.
  lemma NoRoom(info: Info, was: seq<byte>, mem: seq<byte>, start0: nat, from: nat, next: nat, len: nat,
               file: seq<byte>, pos: nat)
    requires pos <= |file| && Written(info, was, mem, start0, from, file[..pos]) && pos % info.writesize == 0 && len > 0
    requires from <= next && info.size < next + len && forall i :: from <= i < next ==> !IsGood(info, i)
    requires next < info.size ==> forall i :: next <= i < next + len ==> IsGood(info, i)
    requires pos + len <= |Padded(file, info.writesize)|
    ensures Room(was, info, start0) < |Padded(file, info.writesize)|
  {
    hide IsGood, Live, BlockStart;
    PaddedMore(file, pos, 0, info.writesize);
    LiveMonotone(was, mem, info, start0, info.size, info.size);
    if next < info.size {
      LiveSkips(mem, info, start0, from, next);
      LiveGrows(mem, info, start0, next, info.size);
    } else {
      LiveSkips(mem, info, start0, from, info.size);
    }
  }

  lemma PaddedAtLeast(file: seq<byte>, pos: nat, got: nat, ws: nat)
    requires ws > 0 && pos + got <= |file| && pos % ws == 0 && (pos + got < |file| ==> Padding(got, ws) == 0)
    ensures pos + got + Padding(got, ws) <= |Padded(file, ws)|
  {
    hide Padding;
    PaddedMore(file, pos, got, ws);
    assert file[..|file|] == file;
  }

  lemma HadRoom(info: Info, was: seq<byte>, now: seq<byte>, start0: nat, start: nat, file: seq<byte>)
    requires Written(info, was, now, start0, start, file)
    ensures |Padded(file, info.writesize)| <= Room(was, info, start0)
  {
    hide IsGood, Live, BlockStart;
    LiveMonotone(now, was, info, start0, start, info.size);
  }

  predicate WholePages(n: nat, ws: nat)
    requires ws > 0
  {
    n % ws == 0
  }

  ghost predicate AllProper(info: Info, writes: seq<(nat, nat)>) {
    forall k :: 0 <= k < |writes| ==> ProperWrite(info, writes[k])
  }

  // Where the loop is: the file up to pos is written, up to start.
  ghost predicate Going(flash: Flash, was: seq<byte>, start0: nat, start: nat, file: seq<byte>, pos: nat, pad: bool)
    reads flash, flash.mem
  {
    && flash.info.Valid() && pos <= |file| && WholePages(start, flash.info.writesize)
    && (pos < |file| || !pad ==> WholePages(pos, flash.info.writesize))
    && Written(flash.info, was, flash.mem[..], start0, start, file[..pos]) && AllProper(flash.info, flash.writes)
  }

  // Once around the loop, with a chunk to write: got bytes of the file and what pads them.
  method PutChunk(flash: Flash, file: seq<byte>, pos: nat, start: nat, got: nat, padding: nat,
                  ghost was: seq<byte>, ghost start0: nat, pad: bool)
    returns (ok: bool, next: nat)
    requires Going(flash, was, start0, start, file, pos, pad) && pos < pos + got <= |file|
    requires got + padding <= flash.info.erasesize - (start - BlockStart(start, flash.info.erasesize))
    requires padding == Padding(got, flash.info.writesize) && WholePages(got + padding, flash.info.writesize)
    requires pos + got < |file| || !pad ==> padding == 0
    modifies flash, flash.mem
    ensures ok ==> Going(flash, was, start0, next, file, pos + got, pad)
    ensures !ok ==> Going(flash, was, start0, start, file, pos, pad)
    ensures !ok ==> Room(was, flash.info, start0) < |Padded(file, flash.info.writesize)|
  {
    hide BlockStart, IsGood, Live, Padding, Padded, Written, ProperWrite;
    var info, ws := flash.info, flash.info.writesize;
    var chunk := file[pos..pos + got] + seq(padding, _ => 0xff);
    ghost var mem := flash.mem[..];
    Sizes(info, was, mem, start0, start, file[..pos]);
    next := SkipBad(flash, start);
    if next + |chunk| > info.size {
      if next < info.size {
        KeptInBlock(info, start, next, |chunk|);
      }
      PaddedAtLeast(file, pos, got, ws);
      NoRoom(info, was, mem, start0, start, next, |chunk|, file, pos);
      return false, next;
    }
    KeptInBlock(info, start, next, |chunk|);
    flash.WriteAt(next, chunk);
    PaddedMore(file, pos, got, ws);
    WrittenMore(info, was, mem, flash.mem[..], start0, start, next, chunk, file[..pos], file[..pos + got]);
    ProperChunk(info, next, |chunk|);
    PagesAdd(next, |chunk|, ws);
    PagesAdd(pos, got, ws);
    next := next + |chunk|;
    ok := true;
  }

  lemma Sizes(info: Info, was: seq<byte>, mem: seq<byte>, start0: nat, start: nat, so: seq<byte>)
    requires Written(info, was, mem, start0, start, so)
    ensures |was| == |mem| == info.size && start0 <= start <= info.size
  {
  }

  lemma ProperChunk(info: Info, start: nat, len: nat)
    requires info.Valid() && WholePages(start, info.writesize) && WholePages(len, info.writesize)
    requires forall i: nat :: start <= i < start + len ==>
      BlockStart(i, info.erasesize) == BlockStart(start, info.erasesize) && IsGood(info, i)
    ensures ProperWrite(info, (start, len))
  {
    hide BlockStart, IsGood;
  }

  lemma SumOfPages(a: nat, b: nat, ws: nat)
    requires ws > 0 && a % ws == 0 && b % ws == 0
    ensures (a + b) % ws == 0
  {
    if a >= b {
      Difference(a, b, ws);
    } else {
      Difference(b, a, ws);
    }
  }

  lemma PagesAdd(a: nat, b: nat, ws: nat)
    requires ws > 0 && WholePages(a, ws)
    ensures WholePages(a + b, ws) <==> WholePages(b, ws)
  {
    if WholePages(b, ws) {
      SumOfPages(a, b, ws);
    } else {
      RestNotWhole(a, b, ws);
    }
  }

  // nandwrite: it fails exactly when the arguments are no use or the file, padded, has no room on
  // the good blocks. The good blocks hold the first pos bytes of it, padded: all of it when it
  // succeeds, whole pages when it fails on the way.
  method NandWrite(flash: Flash, file: seq<byte>, start0: nat, pad: bool)
    returns (r: nat, start: nat, ghost pos: nat)
    requires flash.info.Valid() && flash.mem.Length == flash.info.size && flash.writes == []
    modifies flash, flash.mem
    ensures forall i :: 0 <= i < flash.info.size && (i < start0 || !IsGood(flash.info, i)) ==>
        flash.mem[i] == old(flash.mem[i])
    ensures AllProper(flash.info, flash.writes)
    ensures r == 0 ==> Written(flash.info, old(flash.mem[..]), flash.mem[..], start0, start, file)
    ensures pos <= |file| && (r == 0 ==> pos == |file|) && (r != 0 ==> WholePages(pos, flash.info.writesize))
    ensures if start0 < flash.info.size
            then Written(flash.info, old(flash.mem[..]), flash.mem[..], start0, start, file[..pos])
            else pos == 0 && flash.writes == []
    ensures var ws := flash.info.writesize;
            r == 0 <==>
              (WholePages(CHUNK_SIZE, ws) && ws <= CHUNK_SIZE && WholePages(start0, ws) && start0 < flash.info.size &&
               (pad || WholePages(|file|, ws)) && |Padded(file, ws)| <= Room(old(flash.mem[..]), flash.info, start0))
    ensures var ws, usable := flash.info.writesize, WholePages(CHUNK_SIZE, flash.info.writesize);
            && (r == 65 <==> ws > CHUNK_SIZE || !usable)
            && (r == 74 ==> Room(old(flash.mem[..]), flash.info, start0) < |Padded(file, ws)|)
            && (r == 64 ==>
                !WholePages(start0, ws) || start0 >= flash.info.size || (!pad && !WholePages(|file|, ws)))
            && r in {0, 64, 65, 74}
  {
    hide BlockStart, IsGood, Live, Padding, Padded, Written, WholePages;
    var info, ws, es := flash.info, flash.info.writesize, flash.info.erasesize;
    ghost var was := flash.mem[..];
    start, pos := start0, 0;
    if start <= info.size {
      NothingWritten(info, was, start);
    }
    PagesOfNothing(ws);
    assert file[..0] == [];
    if ws > CHUNK_SIZE || !WholePages(CHUNK_SIZE, ws) {
      return EX_DATAERR, start, pos;
    }
    if !WholePages(start, ws) || start >= info.size {
      return EX_USAGE, start, pos;
    }
    var at := 0;
    while true
      invariant at == pos && Going(flash, was, start0, start, file, pos, pad)
      decreases |file| - at
    {
      OnlyGood(info, was, flash.mem[..], start0, start, file[..pos]);
      var left := es - (start - BlockStart(start, es));
      var n := if left > CHUNK_SIZE then CHUNK_SIZE else left;
      var got := if |file| - at < n then |file| - at else n;
      ChunkFits(start, es, ws, got, n);
      if got == 0 {
        break;
      }
      var padding := Padding(got, ws);
      if padding > 0 && !pad {
        PagesAdd(at, got, ws);
        return EX_USAGE, start, pos;
      }
      var ok, next := PutChunk(flash, file, at, start, got, padding, was, start0, pad);
      if !ok {
        OnlyGood(info, was, flash.mem[..], start0, start, file[..pos]);
        return EX_IOERR, start, pos;
      }
      start, at, pos := next, at + got, at + got;
    }
    assert file[..pos] == file;
    HadRoom(info, was, flash.mem[..], start0, start, file);
    r := 0;
  }

  lemma PagesOfNothing(ws: nat)
    requires ws > 0
    ensures WholePages(0, ws)
  {
  }

  lemma OnlyGood(info: Info, was: seq<byte>, now: seq<byte>, start0: nat, start: nat, so: seq<byte>)
    requires Written(info, was, now, start0, start, so)
    ensures |was| == |now| == info.size
    ensures forall i :: 0 <= i < info.size && (i < start0 || !IsGood(info, i)) ==> now[i] == was[i]
  {
    hide IsGood;
  }
}
