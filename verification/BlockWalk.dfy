/**
 What walking an image over a device means (blkwak.c): writing puts every known byte in its
 place, comparing counts the ones that differ and remembers the first.
 */
module BlockWalk {
  import opened Arith
  import opened Bytes
  import opened SparseFormat

  datatype Op = Write | Compare

  // The device and the counters of struct walk.
  datatype Tally = Tally(dev: seq<byte>, bad: nat, firstBad: nat, done: nat)

  function VisitCell(op: Op, t: Tally, at: nat, cell: Option<byte>): Tally {
    match cell
    case None => t
    case Some(b) =>
      var t' := t.(done := t.done + 1);
      if at >= |t.dev| || t.dev[at] == b then t'
      else if op == Write then t'.(dev := t.dev[at := b])
      else t'.(bad := t.bad + 1, firstBad := if t.bad == 0 then at else t.firstBad)
  }

  function Visit(op: Op, t: Tally, off: nat, cells: seq<Option<byte>>): Tally
    decreases |cells|
  {
    if cells == [] then t
    else
      var n := |cells| - 1;
      VisitCell(op, Visit(op, t, off, cells[..n]), off + n, cells[n])
  }

  // Spans may be cut anywhere.
  lemma {:induction false} VisitCut(op: Op, t: Tally, off: nat, a: seq<Option<byte>>, b: seq<Option<byte>>)
    ensures Visit(op, t, off, a + b) == Visit(op, Visit(op, t, off, a), off + |a|, b)
    decreases |b|
  {
    if b == [] {
      assert a + b == a;
    } else {
      var b' := b[..|b| - 1];
      assert (a + b)[..|a + b| - 1] == a + b';
      VisitCut(op, t, off, a, b');
    }
  }

  lemma VisitOneMore(op: Op, t: Tally, off: nat, cells: seq<Option<byte>>, i: nat)
    requires i < |cells|
    ensures Visit(op, t, off, cells[..i + 1]) == VisitCell(op, Visit(op, t, off, cells[..i]), off + i, cells[i])
  {
    assert cells[..i + 1][..i] == cells[..i];
  }

  // ----- Writing -----

  // The device with the known cells in place from off on, and everything else as it was.
  function Overlay(dev: seq<byte>, off: nat, cells: seq<Option<byte>>): (r: seq<byte>)
    ensures |r| == |dev|
    ensures forall i :: 0 <= i < |dev| ==>
      r[i] == if off <= i < off + |cells| && cells[i - off].Some? then cells[i - off].value else dev[i]
  {
    seq(|dev|, i requires 0 <= i < |dev| =>
      if off <= i < off + |cells| && cells[i - off].Some? then cells[i - off].value else dev[i])
  }

  lemma {:induction false} WriteOverlays(t: Tally, off: nat, cells: seq<Option<byte>>)
    ensures var r := Visit(Write, t, off, cells);
            r.dev == Overlay(t.dev, off, cells) && r.bad == t.bad && r.firstBad == t.firstBad
    decreases |cells|
  {
    if cells != [] {
      WriteOverlays(t, off, cells[..|cells| - 1]);
    }
  }

  // ----- Comparing -----

  predicate Differs(dev: seq<byte>, off: nat, cells: seq<Option<byte>>, i: nat) {
    off <= i < off + |cells| && i < |dev| && cells[i - off].Some? && dev[i] != cells[i - off].value
  }

  // Where the device does not hold what the image says.
  function Differences(dev: seq<byte>, off: nat, cells: seq<Option<byte>>): (d: set<nat>)
    ensures forall i: nat :: i in d <==> Differs(dev, off, cells, i)
  {
    set i: nat | i < |dev| && Differs(dev, off, cells, i)
  }

  lemma {:induction false} CompareCounts(t: Tally, off: nat, cells: seq<Option<byte>>)
    ensures var r, d := Visit(Compare, t, off, cells), Differences(t.dev, off, cells);
            && r.dev == t.dev && r.bad == t.bad + |d|
            && (t.bad == 0 && d != {} ==> r.firstBad in d && forall i :: i in d ==> r.firstBad <= i)
            && (t.bad > 0 || d == {} ==> r.firstBad == t.firstBad)
    decreases |cells|
  {
    if cells == [] {
      assert Differences(t.dev, off, cells) == {};
    } else {
      var n := |cells| - 1;
      CompareCounts(t, off, cells[..n]);
      DifferencesOneMore(t.dev, off, cells);
    }
  }

  lemma DifferencesOneMore(dev: seq<byte>, off: nat, cells: seq<Option<byte>>)
    requires cells != []
    ensures var n := |cells| - 1; var before := Differences(dev, off, cells[..n]);
            off + n !in before && (forall i :: i in before ==> i < off + n) &&
            Differences(dev, off, cells) == before + (if Differs(dev, off, cells, off + n) then {off + n} else {})
  {
    var n := |cells| - 1;
    forall i: nat ensures Differs(dev, off, cells[..n], i) <==> i != off + n && Differs(dev, off, cells, i) {
    }
  }

  // After a successful write nothing differs.
  lemma NothingDiffersAfterWrite(dev: seq<byte>, off: nat, cells: seq<Option<byte>>)
    ensures Differences(Overlay(dev, off, cells), off, cells) == {}
  {
  }

  // ----- Fills, in a buffer of bs bytes that starts with the pattern every time -----

  function FillSpan(pattern: seq<byte>, len: nat, bs: nat): (data: seq<byte>)
    requires |pattern| == 4 && bs > 0
    ensures |data| == len
  {
    seq(len, j requires 0 <= j < len => pattern[Mod(j, bs) % 4])
  }

  // The same pattern turned by r bytes.
  predicate TurnsOntoItself(pattern: seq<byte>, r: nat)
    requires |pattern| == 4
  {
    pattern[0] == pattern[r % 4] && pattern[1] == pattern[(1 + r) % 4] &&
    pattern[2] == pattern[(2 + r) % 4] && pattern[3] == pattern[(3 + r) % 4]
  }

  lemma {:induction false} TurnedFillAt(pattern: seq<byte>, bs: nat, j: nat)
    requires |pattern| == 4 && bs > 0 && (bs % 4 == 0 || TurnsOntoItself(pattern, bs % 4))
    ensures pattern[Mod(j, bs) % 4] == pattern[j % 4]
    decreases j
  {
    hide Mod;
    if j < bs {
      ModSmall(j, bs);
    } else {
      TurnedFillAt(pattern, bs, j - bs);
      ModWraps(j - bs, bs);
      TurnByBs(pattern, bs, j - bs);
    }
  }

  lemma TurnByBs(pattern: seq<byte>, bs: nat, i: nat)
    requires |pattern| == 4 && (bs % 4 == 0 || TurnsOntoItself(pattern, bs % 4))
    ensures pattern[i % 4] == pattern[(i + bs) % 4]
  {
    assert (i + bs) % 4 == (i % 4 + bs % 4) % 4;
  }

  // What a right fill says about the pattern at a place t bytes into the second buffer.
  lemma SlipAt(pattern: seq<byte>, len: nat, bs: nat, t: nat)
    requires |pattern| == 4 && t < 4 && t < bs && bs + t < len
    ensures FillSpan(pattern, len, bs)[bs + t] == FillBytes(pattern, len)[bs + t] <==>
            pattern[t] == pattern[(bs % 4 + t) % 4]
  {
    hide Mod;
    ModWraps(t, bs);
    ModSmall(t, bs);
    assert FillSpan(pattern, len, bs)[bs + t] == pattern[t % 4];
    assert (bs + t) % 4 == (bs % 4 + t) % 4;
  }

  predicate RightFill(pattern: seq<byte>, len: nat, bs: nat)
    requires |pattern| == 4
  {
    bs % 4 == 0 || len <= bs || TurnsOntoItself(pattern, bs % 4) || (len == bs + 1 && pattern[0] == pattern[3])
  }

  // span_fill is right for a buffer of whole words. For others it is right exactly for fills
  // that fit the buffer, or whose pattern does not show the slip.
  lemma FillSpanIsFill(pattern: seq<byte>, len: nat, bs: nat)
    requires |pattern| == 4 && bs > 0 && len % 4 == 0
    ensures FillSpan(pattern, len, bs) == FillBytes(pattern, len) <==> RightFill(pattern, len, bs)
  {
    hide Mod;
    if bs % 4 == 0 || TurnsOntoItself(pattern, bs % 4) {
      RightWhenTurned(pattern, len, bs);
    } else if len <= bs + 1 {
      FillThatFits(pattern, len, bs);
    } else if FillSpan(pattern, len, bs) == FillBytes(pattern, len) {
      FillTooLong(pattern, len, bs);
    }
  }

  lemma RightWhenTurned(pattern: seq<byte>, len: nat, bs: nat)
    requires |pattern| == 4 && bs > 0 && (bs % 4 == 0 || TurnsOntoItself(pattern, bs % 4))
    ensures FillSpan(pattern, len, bs) == FillBytes(pattern, len)
  {
    hide Mod, TurnsOntoItself;
    forall j | 0 <= j < len ensures FillSpan(pattern, len, bs)[j] == FillBytes(pattern, len)[j] {
      TurnedFillAt(pattern, bs, j);
    }
  }

  lemma FillThatFits(pattern: seq<byte>, len: nat, bs: nat)
    requires |pattern| == 4 && bs > 0 && len % 4 == 0 && len <= bs + 1
    ensures FillSpan(pattern, len, bs) == FillBytes(pattern, len) <==> len <= bs || pattern[0] == pattern[3]
  {
    hide FillSpan, FillBytes, Mod;
    if len <= bs {
      FillInOne(pattern, len, bs);
    } else {
      LastSlips(pattern, bs);
    }
  }

  lemma FillInOne(pattern: seq<byte>, len: nat, bs: nat)
    requires |pattern| == 4 && bs > 0
    ensures forall j :: 0 <= j < len && j < bs ==> FillSpan(pattern, len, bs)[j] == FillBytes(pattern, len)[j]
    ensures len <= bs ==> FillSpan(pattern, len, bs) == FillBytes(pattern, len)
  {
    hide Mod;
    forall j | 0 <= j < len && j < bs ensures FillSpan(pattern, len, bs)[j] == FillBytes(pattern, len)[j] {
      ModSmall(j, bs);
    }
  }

  // One byte more than the buffer holds.
  lemma LastSlips(pattern: seq<byte>, bs: nat)
    requires |pattern| == 4 && bs % 4 == 3
    ensures FillSpan(pattern, bs + 1, bs) == FillBytes(pattern, bs + 1) <==> pattern[0] == pattern[3]
  {
    hide FillSpan, FillBytes, Mod;
    var span, fill := FillSpan(pattern, bs + 1, bs), FillBytes(pattern, bs + 1);
    FillInOne(pattern, bs + 1, bs);
    SlipAt(pattern, bs + 1, bs, 0);
    assert span[bs] == fill[bs] ==> span == fill;
  }

  lemma FillTooLong(pattern: seq<byte>, len: nat, bs: nat)
    requires |pattern| == 4 && bs > 0 && bs % 4 != 0 && len % 4 == 0 && len > bs + 1
    requires FillSpan(pattern, len, bs) == FillBytes(pattern, len)
    ensures TurnsOntoItself(pattern, bs % 4)
  {
    hide Mod, FillSpan, FillBytes;
    SlipAt(pattern, len, bs, 0);
    if bs == 1 {
      OneByteBuffer(pattern, len);
    } else {
      SlipAt(pattern, len, bs, 1);
      if bs % 4 != 2 {
        SlipAt(pattern, len, bs, 2);
        Turned3(pattern, bs % 4);
      }
    }
  }

  lemma Turned3(pattern: seq<byte>, r: nat)
    requires |pattern| == 4 && (r == 1 || r == 3)
    requires pattern[0] == pattern[r % 4] && pattern[1] == pattern[(r + 1) % 4] && pattern[2] == pattern[(r + 2) % 4]
    ensures TurnsOntoItself(pattern, r)
  {
  }

  lemma OneByteBuffer(pattern: seq<byte>, len: nat)
    requires |pattern| == 4 && len >= 4 && FillSpan(pattern, len, 1) == FillBytes(pattern, len)
    ensures TurnsOntoItself(pattern, 1)
  {
    var span, fill := FillSpan(pattern, len, 1), FillBytes(pattern, len);
    assert span[1] == fill[1] && span[2] == fill[2] && span[3] == fill[3];
  }

  // An odd buffer size that writes the wrong bytes.
  lemma FillGoesWrong()
    ensures FillSpan([1, 2, 3, 4], 4096, 1002) != FillBytes([1, 2, 3, 4], 4096)
  {
    assert FillSpan([1, 2, 3, 4], 4096, 1002)[1002] == 1;
    assert FillBytes([1, 2, 3, 4], 4096)[1002] == 3;
  }
}
