/**
 Matches that overlap themselves: lz4.c copies them in words all the same, after moving the
 source back to a distance that is a multiple of the offset and at least a word.
 */
module Lz4Overlap {
  import opened Bytes
  import opened Lz4Format
  import opened Lz4Memory

  const INC32TABLE: seq<nat> := [0, 1, 2, 1, 0, 4, 4, 4]
  const DEC64TABLE: seq<int> := [0, 0, 0, -1, -4, 1, 2, 3]

  // How far back the copy reads once the first 8 bytes are there.
  function SpreadDistance(offset: nat): nat
    requires offset < 8
  {
    8 + offset - INC32TABLE[offset] + DEC64TABLE[offset]
  }

  // The tables' purpose: whole turns of the pattern, at least a word, at most a word more than one.
  lemma SpreadIsWholeTurns(offset: nat) returns (turns: nat)
    requires offset < 8
    ensures 8 <= SpreadDistance(offset) <= 8 + offset
    ensures offset > 0 ==> turns >= 1 && SpreadDistance(offset) == turns * offset
  {
    turns := if offset == 0 then 0 else SpreadDistance(offset) / offset;
  }

  // Going back several offsets at once inside a repeating stretch finds the same byte.
  lemma {:induction false} TurnsBack(r: seq<byte>, op: nat, k: nat, offset: nat, turns: nat)
    requires 0 < offset <= op && k <= |r| && Repeats(r, op, k, offset)
    requires turns >= 1 && op - offset <= k - turns * offset && k - offset < |r|
    ensures k - turns * offset < |r| && r[k - turns * offset] == r[k - offset]
    decreases turns
  {
    if turns > 1 {
      var at := k - (turns - 1) * offset;
      assert (turns - 1) * offset == turns * offset - offset && (turns - 1) * offset >= offset by {
        Turns(turns - 1, offset);
      }
      TurnsBack(r, op, k, offset, turns - 1);
      assert RepeatsAt(r, at, offset);
    }
  }

  lemma Turns(turns: nat, offset: nat)
    requires turns >= 1
    ensures turns * offset >= offset
  {
    assert turns * offset == offset + (turns - 1) * offset;
  }

  // Copying on from a multiple of the offset carries the pattern on.
  lemma {:induction false} PatternGoesOn(r: seq<byte>, op: nat, end: nat, offset: nat, dist: nat, turns: nat)
    requires 0 < offset <= op && turns >= 1 && dist == turns * offset && 0 < dist <= 8 + offset
    requires op + 8 <= end <= |r| && Repeats(r, op, op + 8, offset)
    requires forall k :: op + 8 <= k < end ==> r[k] == r[k - dist]
    ensures Repeats(r, op, end, offset)
    decreases end
  {
    if op + 8 < end {
      var k := end - 1;
      PatternGoesOn(r, op, k, offset, dist, turns);
      TurnsBack(r, op, k, offset, turns);
      assert RepeatsAt(r, k, offset);
    }
  }

  lemma {:induction false} ZerosGoOn(r: seq<byte>, op: nat, end: nat, dist: nat)
    requires 0 < dist <= 8 <= op + 8 <= end <= |r| && Repeats(r, op, op + 8, 0)
    requires forall k :: op + 8 <= k < end ==> r[k] == r[k - dist]
    ensures Repeats(r, op, end, 0)
    decreases end
  {
    if op + 8 < end {
      var k := end - 1;
      ZerosGoOn(r, op, k, dist);
      assert RepeatsAt(r, k - dist, 0);
      assert RepeatsAt(r, k, 0);
    }
  }

  // Both: the bytes behind the first eight come from SpreadDistance back.
  lemma SpreadGoesOn(r: seq<byte>, op: nat, end: nat, offset: nat)
    requires offset < 8 && offset <= op && op + 8 <= end <= |r| && Repeats(r, op, op + 8, offset)
    requires SpreadDistance(offset) <= op + 8
    requires forall k :: op + 8 <= k < end ==> r[k] == r[k - SpreadDistance(offset)]
    ensures Repeats(r, op, end, offset)
  {
    var turns := SpreadIsWholeTurns(offset);
    if offset == 0 {
      ZerosGoOn(r, op, end, SpreadDistance(offset));
    } else {
      PatternGoesOn(r, op, end, offset, SpreadDistance(offset), turns);
    }
  }

  // The first eight bytes of a match closer than a word: four stores, then a word half.
  method FirstEight(dst: array<byte>, op: nat, offset: nat)
    requires offset < 8 && offset <= op && op + 8 <= dst.Length
    modifies dst
    ensures KeepsOutside(dst, op, op + 8) && Repeats(dst[..], op, op + 8, offset)
  {
    var match_ := op - offset;
    dst[op], dst[op + 1], dst[op + 2], dst[op + 3] := 0, 0, 0, 0;
    dst[op] := dst[match_];
    dst[op + 1] := dst[match_ + 1];
    dst[op + 2] := dst[match_ + 2];
    dst[op + 3] := dst[match_ + 3];
    match_ := match_ + INC32TABLE[offset];
    CopyBack(dst, op + 4, op + 4 - match_, 4);
    EightRepeat(dst[..], op, offset);
  }

  lemma EightRepeat(r: seq<byte>, op: nat, offset: nat)
    requires offset < 8 && offset <= op && op + 8 <= |r|
    requires forall k :: op <= k < op + 4 ==> if offset == 0 then r[k] == 0 else r[k] == r[k - offset]
    requires forall k :: op + 4 <= k < op + 8 ==> r[k] == r[k - (4 + offset - INC32TABLE[offset])]
    ensures Repeats(r, op, op + 8, offset)
  {
    var dist := 4 + offset - INC32TABLE[offset];
    assert r[op + 4] == r[op + 4 - dist] && r[op + 5] == r[op + 5 - dist];
    assert r[op + 6] == r[op + 6 - dist] && r[op + 7] == r[op + 7 - dist];
    if offset > 0 {
      assert r[op] == r[op - offset] && r[op + 1] == r[op + 1 - offset];
      assert r[op + 2] == r[op + 2 - offset] && r[op + 3] == r[op + 3 - offset];
    }
  }

  // ----- Copying a whole match -----

  // What a match copy owes: the match behind op, nothing touched before it.
  twostate predicate MatchCopied(dst: array<byte>, op: nat, cpy: nat, offset: nat)
    requires cpy <= dst.Length
    reads dst
  {
    KeepsOutside(dst, op, dst.Length) && Repeats(dst[..], op, cpy, offset)
  }

  // The first word of a match, and the distance from which to go on.
  method FirstWord(dst: array<byte>, op: nat, offset: nat) returns (dist: nat)
    requires offset <= op && op + 8 <= dst.Length
    modifies dst
    ensures KeepsOutside(dst, op, op + 8) && Repeats(dst[..], op, op + 8, offset)
    ensures 8 <= dist <= op + 8 && dist == if offset < 8 then SpreadDistance(offset) else offset
  {
    if offset < 8 {
      FirstEight(dst, op, offset);
      var _ := SpreadIsWholeTurns(offset);
      dist := 8 + offset - INC32TABLE[offset] + DEC64TABLE[offset];
    } else {
      CopyBack(dst, op, offset, 8);
      dist := offset;
    }
  }

  lemma GoesOn(r: seq<byte>, op: nat, end: nat, offset: nat, dist: nat)
    requires offset <= op && op + 8 <= |r| && end <= |r| && Repeats(r, op, op + 8, offset)
    requires dist == (if offset < 8 then SpreadDistance(offset) else offset) && dist <= op + 8
    requires forall k :: op + 8 <= k < end ==> r[k] == r[k - dist]
    ensures Repeats(r, op, end, offset)
  {
    if op + 8 <= end {
      if offset < 8 {
        SpreadGoesOn(r, op, end, offset);
      } else {
        forall k | op <= k < end ensures RepeatsAt(r, k, offset) {
        }
      }
    }
  }

  // The rest of a match, in words.
  method SafeMatchRest(dst: array<byte>, op: nat, dist: nat, cpy: nat)
    requires 8 <= dist <= op && op + 8 <= dst.Length && cpy + MFLIMIT <= dst.Length
    modifies dst
    ensures KeepsOutside(dst, op, dst.Length) && CopiedBack(dst, op, cpy, dist)
  {
    CopyBack(dst, op, dist, 8);
    if cpy > op + 8 {
      WildCopy8Back(dst, op + 8, dist, cpy);
    }
  }

  // The rest of a match near the end of the destination: words while they fit, then bytes.
  method SafeMatchEnd(dst: array<byte>, op0: nat, dist: nat, cpy: nat)
    requires 8 <= dist <= op0 <= dst.Length && cpy + LASTLITERALS <= dst.Length
    modifies dst
    ensures KeepsOutside(dst, op0, dst.Length) && CopiedBack(dst, op0, cpy, dist)
  {
    var op := op0;
    var oCopyLimit := dst.Length - 7;
    if op < oCopyLimit {
      WildCopy8Back(dst, op, dist, oCopyLimit);
      op := oCopyLimit;
    }
    while op < cpy
      invariant op0 <= op <= dst.Length && KeepsOutside(dst, op0, dst.Length) && CopiedBack(dst, op0, op, dist)
    {
      dst[op] := dst[op - dist];
      op := op + 1;
    }
  }

  // The match copy of the safe loop. It refuses a match that reaches into the last five bytes.
  method SafeMatchCopy(dst: array<byte>, op: nat, offset: nat, length: nat) returns (ok: bool)
    requires offset <= op && op + MFLIMIT <= dst.Length && length >= MINMATCH
    modifies dst
    ensures ok <==> op + length + LASTLITERALS <= dst.Length
    ensures ok ==> MatchCopied(dst, op, op + length, offset)
  {
    hide RepeatsAt, SpreadDistance;
    var cpy := op + length;
    var dist := FirstWord(dst, op, offset);
    ghost var word := dst[..];
    if cpy + MFLIMIT <= dst.Length {
      SafeMatchRest(dst, op + 8, dist, cpy);
    } else if cpy + LASTLITERALS <= dst.Length {
      SafeMatchEnd(dst, op + 8, dist, cpy);
    } else {
      return false;
    }
    WordStays(word, dst[..], op, offset);
    GoesOn(dst[..], op, cpy, offset, dist);
    ok := true;
  }

  // Repetition is about the bytes up to the end of the stretch only.
  lemma WordStays(r: seq<byte>, r': seq<byte>, op: nat, offset: nat)
    requires offset <= op && op + 8 <= |r| == |r'| && Repeats(r, op, op + 8, offset)
    requires forall k :: 0 <= k < op + 8 ==> r'[k] == r[k]
    ensures Repeats(r', op, op + 8, offset)
  {
    forall k | op <= k < op + 8 ensures RepeatsAt(r', k, offset) {
      assert RepeatsAt(r, k, offset);
    }
  }

  // LZ4_memcpy_using_offset: patterns of 1, 2 and 4 from a word of their own, others as above.
  method MemcpyUsingOffset(dst: array<byte>, op: nat, offset: nat, cpy: nat)
    requires offset < 16 && offset <= op && op + MINMATCH <= cpy && cpy + MFLIMIT <= dst.Length
    modifies dst
    ensures MatchCopied(dst, op, cpy, offset)
  {
    hide RepeatsAt, SpreadDistance;
    if offset in {1, 2, 4} {
      var v := PatternWord(dst, op, offset);
      RepeatWord(dst, op, v, cpy);
      PatternRepeats(dst[..], op, cpy, offset, v);
    } else {
      var dist := FirstWord(dst, op, offset);
      ghost var word := dst[..];
      WildCopy8Back(dst, op + 8, dist, cpy);
      WordStays(word, dst[..], op, offset);
      GoesOn(dst[..], op, cpy, offset, dist);
    }
  }

  method PatternWord(dst: array<byte>, op: nat, offset: nat) returns (v: seq<byte>)
    requires offset in {1, 2, 4} && offset <= op <= dst.Length
    ensures |v| == 8 && v[..offset] == dst[op - offset..op]
    ensures forall i :: offset <= i < 8 ==> v[i] == v[i - offset]
  {
    var match_ := op - offset;
    if offset == 1 {
      v := [dst[match_], dst[match_], dst[match_], dst[match_], dst[match_], dst[match_], dst[match_], dst[match_]];
    } else if offset == 2 {
      v := dst[match_..match_ + 2] + dst[match_..match_ + 2];
      v := v + v;
    } else {
      v := dst[match_..match_ + 4] + dst[match_..match_ + 4];
    }
    assert v[..offset] == dst[match_..match_ + offset];
  }

  // The word over and over, up to 7 bytes past the end.
  method RepeatWord(dst: array<byte>, op: nat, v: seq<byte>, cpy: nat)
    requires |v| == 8 && op + 8 <= dst.Length && cpy + 7 <= dst.Length
    modifies dst
    ensures KeepsOutside(dst, op, dst.Length)
    ensures forall k :: op <= k < op + 8 ==> dst[k] == v[k - op]
    ensures forall k :: op + 8 <= k < cpy ==> dst[k] == dst[k - 8]
  {
    var dstPtr := op;
    CopyFrom(dst, dstPtr, v, 0, 8);
    dstPtr := dstPtr + 8;
    while dstPtr < cpy
      invariant op + 8 <= dstPtr <= dst.Length && KeepsOutside(dst, op, dstPtr)
      invariant forall k :: op <= k < op + 8 ==> dst[k] == v[k - op]
      invariant forall k :: dstPtr - 8 <= k < dstPtr ==> dst[k] == v[k - (dstPtr - 8)]
      invariant forall k :: op + 8 <= k < dstPtr ==> dst[k] == dst[k - 8]
    {
      CopyFrom(dst, dstPtr, v, 0, 8);
      dstPtr := dstPtr + 8;
    }
  }

  lemma PatternRepeats(r: seq<byte>, op: nat, end: nat, offset: nat, v: seq<byte>)
    requires offset in {1, 2, 4} && offset <= op && op + 8 <= |r| && end <= |r| && |v| == 8
    requires forall k :: op <= k < op + 8 ==> r[k] == v[k - op]
    requires v[..offset] == r[op - offset..op]
    requires forall i :: offset <= i < 8 ==> v[i] == v[i - offset]
    requires forall k :: op + 8 <= k < end ==> r[k] == r[k - 8]
    ensures Repeats(r, op, end, offset)
  {
    forall k | op <= k < op + 8 ensures RepeatsAt(r, k, offset) {
      assert r[k] == v[k - op];
      if k < op + offset {
        assert r[op - offset..op][k - op] == v[..offset][k - op];
      }
    }
    if op + 8 <= end {
      PatternGoesOn(r, op, end, offset, 8, 8 / offset);
    }
  }

  // The match copies of the fast loop.
  method FastMatchCopy(dst: array<byte>, op: nat, offset: nat, cpy: nat)
    requires offset <= op && op + MINMATCH <= cpy && cpy + 32 <= dst.Length
    modifies dst
    ensures MatchCopied(dst, op, cpy, offset)
  {
    if offset < 16 {
      MemcpyUsingOffset(dst, op, offset, cpy);
    } else {
      WildCopy32Back(dst, op, offset, cpy);
    }
  }

  // Both loops take a short match that does not overlap a word in three copies.
  method ShortMatchCopy(dst: array<byte>, op: nat, offset: nat, length: nat)
    requires 8 <= offset <= op && op + 18 <= dst.Length && length <= 18
    modifies dst
    ensures MatchCopied(dst, op, op + length, offset)
  {
    CopyBack(dst, op, offset, 8);
    CopyBack(dst, op + 8, offset, 8);
    CopyBack(dst, op + 16, offset, 2);
  }
}
