/**
 LZ4_decompress_generic for a full block without a dictionary: the fast loop, the safe loop
 and the jumps from the one into the middle of the other.
 */
module Lz4Decompress {
  import opened Bytes
  import opened Lz4Format
  import opened Lz4Memory
  import opened Lz4Overlap

  const FASTLOOP_SAFE_DISTANCE: nat := 64

  // ----- What the decoder takes -----

  // Both loops copy a few literals without looking at what comes behind them.
  predicate FewLiterals(s: seq<byte>, len: nat, from: nat, op: nat, cap: nat) {
    len < NIBBLE_MAX && from + 17 <= |s| && op + 32 <= cap
  }

  predicate LiteralsTaken(s: seq<byte>, len: nat, from: nat, op: nat, cap: nat) {
    FewLiterals(s, len, from, op, cap) || (op + len + MFLIMIT <= cap && from + len + 2 + 1 + LASTLITERALS <= |s|)
  }

  predicate LengthTaken(s: seq<byte>, matchLen: nat, next: nat) {
    matchLen < NIBBLE_MAX + MINMATCH || next + LASTLITERALS <= |s| + 1
  }

  // Behind a few literals a short match that does not overlap a word may end where the destination does.
  predicate MatchTaken(s: seq<byte>, p: Parsed, op: nat, cap: nat)
    requires p.Match?
  {
    (FewLiterals(s, p.len, p.from, op, cap) && p.matchLen < NIBBLE_MAX + MINMATCH && p.offset >= 8) ||
    op + p.len + p.matchLen + LASTLITERALS <= cap
  }

  // The blocks that are decoded, from ip on, into a destination of cap bytes that holds op already.
  predicate Takes(s: seq<byte>, ip: nat, op: nat, cap: nat)
    requires ip <= |s|
    decreases |s| - ip
  {
    match Parse(s, ip)
    case Malformed => false
    case Last(from, len) => op + len <= cap
    case Match(from, len, offset, matchLen, next) =>
      offset <= op + len && LiteralsTaken(s, len, from, op, cap) && LengthTaken(s, matchLen, next) &&
      MatchTaken(s, Match(from, len, offset, matchLen, next), op, cap) && Takes(s, next, op + len + matchLen, cap)
  }

  predicate Accepted(s: seq<byte>, cap: nat) {
    if cap == 0 then s == [0] else Takes(s, 0, 0, cap)
  }

  lemma TakesMatch(s: seq<byte>, ip: nat, op: nat, cap: nat)
    requires ip <= |s| && Parse(s, ip).Match?
    ensures var p := Parse(s, ip);
            Takes(s, ip, op, cap) <==>
            p.offset <= op + p.len && LiteralsTaken(s, p.len, p.from, op, cap) && LengthTaken(s, p.matchLen, p.next) &&
            MatchTaken(s, p, op, cap) && Takes(s, p.next, op + p.len + p.matchLen, cap)
  {
    hide Parse;
  }

  // Whatever is taken decodes, and fits.
  lemma {:induction false} TakenDecodes(s: seq<byte>, ip: nat, out: seq<byte>, cap: nat)
    requires ip <= |s| && Takes(s, ip, |out|, cap)
    ensures Decode(s, ip, out).Some? && |Decode(s, ip, out).value| <= cap
    decreases |s| - ip
  {
    hide Parse, CopyMatch, Decode;
    var p := Parse(s, ip);
    if p.Match? {
      DecodeMatch(s, ip, out, cap);
      TakesMatch(s, ip, |out|, cap);
      TakenDecodes(s, p.next, CopyMatch(out + s[p.from..p.from + p.len], p.offset, p.matchLen), cap);
    } else {
      DecodeLast(s, ip, out, cap);
    }
  }

  // And the parsing restrictions of the format are enough to be taken.
  lemma {:induction false} StrictIsTaken(s: seq<byte>, ip: nat, op: nat, cap: nat)
    requires ip <= |s| && Strict(s, ip, op, cap)
    ensures Takes(s, ip, op, cap)
    decreases |s| - ip
  {
    hide Parse;
    var p := Parse(s, ip);
    if p.Match? {
      StrictIsTaken(s, p.next, op + p.len + p.matchLen, cap);
    }
  }

  // It takes more than the format allows: a block that ends in a match of the last 18 bytes.
  lemma {:induction false} LooseBlockIsTaken(lits: seq<byte>)
    requires |lits| == 14
    ensures var s := [0xee] + lits + [8, 0, 0]; Accepted(s, 32) && !Acceptable(s, 32)
  {
    var s := [0xee] + lits + [8, 0, 0];
    assert s[0] == 0xee && s[15] == 8 && s[16] == 0 && s[17] == 0;
    assert Parse(s, 0) == Match(1, 14, 8, 18, 17);
    assert Parse(s, 17) == Last(18, 0);
    hide Parse;
    TakesMatch(s, 0, 0, 32);
  }

  // ----- Where a decoder stands -----

  // The first ip bytes of s decode to out, and are no reason to refuse it.
  ghost predicate Decoded(s: seq<byte>, ip: nat, out: seq<byte>, cap: nat) {
    ip <= |s| && Decode(s, 0, []) == Decode(s, ip, out) && (Takes(s, 0, 0, cap) <==> Takes(s, ip, |out|, cap))
  }

  // In the sequence at ip0: the literal length is read, len literals start at from.
  ghost predicate AtLiterals(s: seq<byte>, ip0: nat, out: seq<byte>, cap: nat, token: byte, len: nat, from: nat) {
    Decoded(s, ip0, out, cap) && ip0 < |s| && token == s[ip0] &&
    ReadLength(s, ip0 + 1, token / 16) == Some(Length(len, from))
  }

  // Further on: a match follows, everything about it is known, and what precedes it is fine.
  ghost predicate AtMatch(s: seq<byte>, ip0: nat, out: seq<byte>, cap: nat, lits: seq<byte>, offset: nat,
                          length: nat, ip: nat)
  {
    Decoded(s, ip0, out, cap) &&
    var p := Parse(s, ip0);
    p.Match? && p.offset == offset && p.matchLen == length && p.next == ip && lits == out + s[p.from..p.from + p.len] &&
    LiteralsTaken(s, p.len, p.from, |out|, cap) && LengthTaken(s, length, ip)
  }

  // It ends where there is room, unless it is too far back: the safe copy loses nothing.
  ghost predicate SafeIsRight(s: seq<byte>, ip0: nat, out: seq<byte>, cap: nat, offset: nat, length: nat, op: nat) {
    ip0 <= |s| && Parse(s, ip0).Match? &&
    (MatchTaken(s, Parse(s, ip0), |out|, cap) ==> offset > op || op + length + LASTLITERALS <= cap)
  }

  // What one sequence leads to.
  datatype Step = Next(ip: nat, op: nat) | Finished(op: nat) | Failed

  ghost predicate StepOk(s: seq<byte>, dst: seq<byte>, step: Step) {
    match step
    case Next(ip, op) => ip < |s| && op <= |dst| && Decoded(s, ip, dst[..op], |dst|)
    case Finished(op) => op <= |dst| && Decode(s, 0, []) == Some(dst[..op]) && Takes(s, 0, 0, |dst|)
    case Failed => !Takes(s, 0, 0, |dst|)
  }

  // ----- Lengths -----

  // read_variable_length: fails when the input ends, or reaches past ilimit.
  method ReadVariableLength(s: seq<byte>, ip0: nat, ilimit: int, initialCheck: bool)
    returns (ok: bool, length: nat, ip: nat)
    requires ilimit < |s| && (initialCheck || ip0 < |s|)
    ensures var r := ReadExtension(s, ip0);
            ok == (r.Some? && r.value.next <= ilimit) && (ok ==> r.value == Length(length, ip))
  {
    ip, length := ip0, 0;
    if initialCheck && ip >= ilimit {
      return false, length, ip;
    }
    while true
      invariant ip0 <= ip < |s|
      invariant ReadExtension(s, ip0) == match ReadExtension(s, ip)
        case None => None
        case Some(l) => Some(Length(length + l.value, l.next))
      decreases |s| - ip
    {
      var b := s[ip];
      ip := ip + 1;
      length := length + b;
      if ip > ilimit {
        return false, length, ip;
      }
      if b != 255 {
        return true, length, ip;
      }
    }
  }

  // ----- One sequence, stage by stage -----

  lemma ReachedMatch(s: seq<byte>, ip0: nat, out: seq<byte>, cap: nat, token: byte, len: nat, from: nat)
    requires AtLiterals(s, ip0, out, cap, token, len, from) && from + len + 2 <= |s|
    requires LiteralsTaken(s, len, from, |out|, cap)
    ensures var at := from + len; var r := ReadLength(s, at + 2, token % 16);
            if r.None? then !Takes(s, 0, 0, cap)
            else
              var offset, length, ip := Le16(s[at], s[at + 1]), r.value.value + MINMATCH, r.value.next;
              Parse(s, ip0) == Match(from, len, offset, length, ip) &&
              if LengthTaken(s, length, ip) then AtMatch(s, ip0, out, cap, out + s[from..at], offset, length, ip)
              else !Takes(s, 0, 0, cap)
  {
    hide ReadLength, Decode;
  }

  // The last stage: a match copied behind its literals ends the sequence.
  lemma MatchDone(s: seq<byte>, ip0: nat, out: seq<byte>, cap: nat, lits: seq<byte>, offset: nat, length: nat,
                  ip: nat, dst: seq<byte>)
    requires AtMatch(s, ip0, out, cap, lits, offset, length, ip) && offset <= |lits|
    requires MatchTaken(s, Parse(s, ip0), |out|, cap) || |lits| + length + LASTLITERALS <= cap
    requires |lits| + length <= cap == |dst|
    requires dst[..|lits|] == lits && Repeats(dst, |lits|, |lits| + length, offset)
    ensures Decoded(s, ip, dst[..|lits| + length], cap) && ip0 < ip
  {
    hide Parse, Decode, Takes, CopyMatch, FewLiterals, LengthTaken;
    DecodeMatch(s, ip0, out, cap);
    TakesMatch(s, ip0, |out|, cap);
    var r := dst[..|lits| + length];
    assert r[..|lits|] == lits;
    forall k | |lits| <= k < |r| ensures RepeatsAt(r, k, offset) {
      assert RepeatsAt(dst, k, offset);
    }
    CopyMatchIsRepeating(lits, offset, length, r);
  }

  lemma MatchRefused(s: seq<byte>, ip0: nat, out: seq<byte>, cap: nat, lits: seq<byte>, offset: nat, length: nat,
                     ip: nat)
    requires AtMatch(s, ip0, out, cap, lits, offset, length, ip)
    requires offset > |lits| || !MatchTaken(s, Parse(s, ip0), |out|, cap)
    ensures !Takes(s, 0, 0, cap)
  {
    hide Parse, Decode, Takes;
    TakesMatch(s, ip0, |out|, cap);
  }

  // A match of at most 18 bytes, with no distinction between its end and what is beyond it.
  method ShortMatch(s: seq<byte>, dst: array<byte>, offset: nat, length: nat, ip: nat, op: nat, ghost ip0: nat,
                    ghost out: seq<byte>)
    returns (step: Step)
    requires op + 18 <= dst.Length && AtMatch(s, ip0, out, dst.Length, dst[..op], offset, length, ip)
    requires ip < |s| && length <= 18 && 8 <= offset <= op && Parse(s, ip0).Match?
    requires MatchTaken(s, Parse(s, ip0), |out|, dst.Length)
    modifies dst
    ensures StepOk(s, dst[..], step) && step == Next(ip, op + length) && ip0 < ip
  {
    hide Parse, Decode, Takes, RepeatsAt, AtMatch, Decoded;
    ghost var lits := dst[..op];
    ShortMatchCopy(dst, op, offset, length);
    assert dst[..op] == lits;
    MatchDone(s, ip0, out, dst.Length, lits, offset, length, ip, dst[..]);
    assert dst[..][..op + length] == dst[..op + length];
    step := Next(ip, op + length);
  }

  // safe_match_copy: in the safe loop.
  method SafeMatch(s: seq<byte>, dst: array<byte>, offset: nat, length: nat, ip: nat, op: nat, ghost ip0: nat,
                   ghost out: seq<byte>)
    returns (step: Step)
    requires op + MFLIMIT <= dst.Length && AtMatch(s, ip0, out, dst.Length, dst[..op], offset, length, ip)
    requires ip < |s| && length >= MINMATCH && SafeIsRight(s, ip0, out, dst.Length, offset, length, op)
    modifies dst
    ensures StepOk(s, dst[..], step) && (step.Next? ==> ip0 < step.ip)
  {
    hide Parse, Decode, Takes, RepeatsAt, AtMatch, Decoded;
    ghost var lits := dst[..op];
    if offset > op {
      MatchRefused(s, ip0, out, dst.Length, lits, offset, length, ip);
      return Failed;
    }
    var ok := SafeMatchCopy(dst, op, offset, length);
    if !ok {
      MatchRefused(s, ip0, out, dst.Length, lits, offset, length, ip);
      return Failed;
    }
    assert dst[..op] == lits;
    MatchDone(s, ip0, out, dst.Length, lits, offset, length, ip, dst[..]);
    assert dst[..][..op + length] == dst[..op + length];
    step := Next(ip, op + length);
  }

  // _copy_match: read the rest of the match length.
  method CopyMatchLength(s: seq<byte>, dst: array<byte>, token: byte, offset: nat, at: nat, op: nat,
                         ghost ip0: nat, ghost out: seq<byte>, ghost from: nat)
    returns (step: Step)
    requires from <= at && at + 2 < |s| && AtLiterals(s, ip0, out, dst.Length, token, at - from, from)
    requires offset == Le16(s[at], s[at + 1]) && op + MFLIMIT <= dst.Length && dst[..op] == out + s[from..at]
    requires LiteralsTaken(s, at - from, from, |out|, dst.Length)
    requires FewLiterals(s, at - from, from, |out|, dst.Length) && token % 16 != NIBBLE_MAX ==>
             offset < 8 || offset > op
    modifies dst
    ensures StepOk(s, dst[..], step) && (step.Next? ==> ip0 < step.ip)
  {
    hide Parse, Decode, ReadExtension, AtLiterals, AtMatch, Decoded;
    ReachedMatch(s, ip0, out, dst.Length, token, at - from, from);
    var length: nat, ip: nat := token % 16, at + 2;
    if length == NIBBLE_MAX {
      var ok, addl;
      ok, addl, ip := ReadVariableLength(s, ip, |s| - LASTLITERALS + 1, false);
      if !ok {
        return Failed;
      }
      length := length + addl;
    }
    length := length + MINMATCH;
    step := SafeMatch(s, dst, offset, length, ip, op, ip0, out);
  }

  // Literals that end neither where the input does nor where a match is taken.
  lemma LiteralsRefused(s: seq<byte>, ip0: nat, out: seq<byte>, cap: nat, token: byte, len: nat, from: nat)
    requires AtLiterals(s, ip0, out, cap, token, len, from)
    requires if from + len == |s| then |out| + len > cap else !LiteralsTaken(s, len, from, |out|, cap)
    ensures !Takes(s, 0, 0, cap)
  {
    hide ReadLength, Decode;
  }

  lemma LiteralsEnd(s: seq<byte>, ip0: nat, out: seq<byte>, cap: nat, token: byte, len: nat, from: nat)
    requires AtLiterals(s, ip0, out, cap, token, len, from) && from + len == |s| && |out| + len <= cap
    ensures Decode(s, 0, []) == Some(out + s[from..]) && Takes(s, 0, 0, cap)
  {
    hide ReadLength, Decode;
    DecodeLast(s, ip0, out, cap);
  }

  // safe_literal_copy: the literals, and what follows them.
  method SafeLiterals(s: seq<byte>, dst: array<byte>, token: byte, len: nat, from: nat, op: nat, ghost ip0: nat,
                      ghost out: seq<byte>)
    returns (step: Step)
    requires op <= dst.Length && dst[..op] == out && AtLiterals(s, ip0, out, dst.Length, token, len, from)
    requires !FewLiterals(s, len, from, op, dst.Length)
    modifies dst
    ensures StepOk(s, dst[..], step) && (step.Next? ==> ip0 < step.ip)
  {
    hide Parse, Decode, Takes, AtLiterals;
    var cpy, at := op + len, from + len;
    if cpy + MFLIMIT > dst.Length || at + 2 + 1 + LASTLITERALS > |s| {
      // No match behind it: only the end of the block may look like this.
      if at != |s| || cpy > dst.Length {
        LiteralsRefused(s, ip0, out, dst.Length, token, len, from);
        return Failed;
      }
      LiteralsEnd(s, ip0, out, dst.Length, token, len, from);
      CopyFrom(dst, op, s, from, len);
      assert dst[..cpy] == out + s[from..];
      return Finished(cpy);
    }
    WildCopy8From(dst, op, s, from, len);
    assert dst[..cpy] == out + s[from..at];
    step := CopyMatchLength(s, dst, token, Le16(s[at], s[at + 1]), at, cpy, ip0, out, from);
  }

  lemma AtToken(s: seq<byte>, ip0: nat, out: seq<byte>, cap: nat)
    requires ip0 < |s| && Decoded(s, ip0, out, cap)
    ensures var r := ReadLength(s, ip0 + 1, s[ip0] / 16);
            if r.None? then !Takes(s, 0, 0, cap)
            else AtLiterals(s, ip0, out, cap, s[ip0], r.value.value, r.value.next)
  {
    hide Decode, ReadLength;
  }

  // A long literal length; with initial_check the last 15 bytes of the input cannot be part of it.
  method ReadLiteralLength(s: seq<byte>, token: byte, ghost ip0: nat, ghost out: seq<byte>, ghost cap: nat, ip: nat)
    returns (ok: bool, len: nat, from: nat)
    requires ip0 < |s| && Decoded(s, ip0, out, cap) && ip == ip0 + 1 && token == s[ip0] && token / 16 == NIBBLE_MAX
    ensures if ok then AtLiterals(s, ip0, out, cap, token, len, from) && len >= NIBBLE_MAX else !Takes(s, 0, 0, cap)
  {
    hide Decode, Takes, ReadExtension, Decoded;
    AtToken(s, ip0, out, cap);
    var addl;
    ok, addl, from := ReadVariableLength(s, ip, |s| - NIBBLE_MAX, true);
    len := NIBBLE_MAX + addl;
    if !ok && ReadExtension(s, ip).Some? {
      var l := ReadExtension(s, ip).value;
      LiteralsBeyondInput(s, ip0, out, cap, token, NIBBLE_MAX + l.value, l.next);
    }
  }

  lemma LiteralsBeyondInput(s: seq<byte>, ip0: nat, out: seq<byte>, cap: nat, token: byte, len: nat, from: nat)
    requires AtLiterals(s, ip0, out, cap, token, len, from) && from + len > |s|
    ensures !Takes(s, 0, 0, cap)
  {
    hide ReadLength, Decode;
  }

  // One sequence of the safe loop, with its two-stage shortcut.
  method SafeSequence(s: seq<byte>, dst: array<byte>, ip0: nat, op: nat) returns (step: Step)
    requires ip0 < |s| && op <= dst.Length && Decoded(s, ip0, dst[..op], dst.Length)
    modifies dst
    ensures StepOk(s, dst[..], step) && (step.Next? ==> ip0 < step.ip)
  {
    hide Decode, Takes, ReadExtension, Parse, Decoded, AtLiterals;
    ghost var out := dst[..op];
    AtToken(s, ip0, out, dst.Length);
    var token, ip: nat := s[ip0], ip0 + 1;
    var len: nat := token / 16;
    if len != NIBBLE_MAX && ip + 16 < |s| && op + 32 <= dst.Length {
      step := Shortcut(s, dst, token, len, ip, op, ip0, out);
      return;
    }
    if len == NIBBLE_MAX {
      var ok;
      ok, len, ip := ReadLiteralLength(s, token, ip0, out, dst.Length, ip);
      if !ok {
        return Failed;
      }
    }
    step := SafeLiterals(s, dst, token, len, ip, op, ip0, out);
  }

  // The shortcut: one store of 16 for few literals, and 18 for a short match that is not close.
  method Shortcut(s: seq<byte>, dst: array<byte>, token: byte, len: nat, from: nat, op: nat, ghost ip0: nat,
                  ghost out: seq<byte>)
    returns (step: Step)
    requires op + 32 <= dst.Length && from + 16 < |s| && len < NIBBLE_MAX
    requires dst[..op] == out && AtLiterals(s, ip0, out, dst.Length, token, len, from)
    modifies dst
    ensures StepOk(s, dst[..], step) && (step.Next? ==> ip0 < step.ip)
  {
    hide Decode, Takes, ReadExtension, Parse, AtLiterals, AtMatch, RepeatsAt;
    CopyFrom(dst, op, s, from, 16);
    var at, cpy := from + len, op + len;
    assert dst[..cpy] == out + s[from..at];
    var offset := Le16(s[at], s[at + 1]);
    if token % 16 != NIBBLE_MAX && offset >= 8 && offset <= cpy {
      ReachedMatch(s, ip0, out, dst.Length, token, len, from);
      step := ShortMatch(s, dst, offset, token % 16 + MINMATCH, at + 2, cpy, ip0, out);
    } else {
      step := CopyMatchLength(s, dst, token, offset, at, cpy, ip0, out, from);
    }
  }

  lemma LiteralsCopied(s: seq<byte>, dst: seq<byte>, out: seq<byte>, op: nat, from: nat, len: nat)
    requires op + len <= |dst| && from + len <= |s| && dst[..op] == out
    requires forall k :: op <= k < op + len ==> dst[k] == s[from + (k - op)]
    ensures dst[..op + len] == out + s[from..from + len]
  {
    assert dst[..op + len] == dst[..op] + dst[op..op + len];
  }

  // ----- The fast loop -----

  // Where a sequence of the fast loop leads: on, or into the safe loop half way through.
  datatype FastStep =
    | FastNext(ip: nat, op: nat)
    | ToLiterals(token: byte, len: nat, from: nat, op: nat)
    | ToMatch(offset: nat, length: nat, ip: nat, op: nat)
    | FastFailed

  ghost predicate FastStepOk(s: seq<byte>, dst: seq<byte>, step: FastStep, ip0: nat, out: seq<byte>) {
    match step
    case FastNext(ip, op) =>
      ip0 < ip < |s| && op + FASTLOOP_SAFE_DISTANCE <= |dst| && Decoded(s, ip, dst[..op], |dst|)
    case ToLiterals(token, len, from, op) =>
      op <= |dst| && dst[..op] == out && AtLiterals(s, ip0, out, |dst|, token, len, from) &&
      !FewLiterals(s, len, from, op, |dst|)
    case ToMatch(offset, length, ip, op) =>
      op + MFLIMIT <= |dst| && AtMatch(s, ip0, out, |dst|, dst[..op], offset, length, ip) && ip < |s| &&
      length >= MINMATCH && SafeIsRight(s, ip0, out, |dst|, offset, length, op)
    case FastFailed => !Takes(s, 0, 0, |dst|)
  }

  method FastSequence(s: seq<byte>, dst: array<byte>, ip0: nat, op: nat) returns (step: FastStep)
    requires ip0 < |s| && op + FASTLOOP_SAFE_DISTANCE <= dst.Length && Decoded(s, ip0, dst[..op], dst.Length)
    modifies dst
    ensures FastStepOk(s, dst[..], step, ip0, old(dst[..op]))
  {
    hide Decode, Takes, ReadExtension, Parse, Decoded, AtLiterals, AtMatch;
    ghost var out := dst[..op];
    AtToken(s, ip0, out, dst.Length);
    var token, ip: nat := s[ip0], ip0 + 1;
    var len: nat := token / 16;
    if len == NIBBLE_MAX {
      var ok;
      ok, len, ip := ReadLiteralLength(s, token, ip0, out, dst.Length, ip);
      if !ok {
        return FastFailed;
      }
      if op + len + 32 > dst.Length || ip + len + 32 > |s| {
        return ToLiterals(token, len, ip, op);
      }
      WildCopy32From(dst, op, s, ip, len);
      LiteralsCopied(s, dst[..], out, op, ip, len);
    } else if ip + 17 <= |s| {
      CopyFrom(dst, op, s, ip, 16);
      LiteralsCopied(s, dst[..], out, op, ip, len);
    } else {
      return ToLiterals(token, len, ip, op);
    }
    step := FastMatchLength(s, dst, token, ip + len, op + len, ip0, out, ip);
  }

  method FastMatchLength(s: seq<byte>, dst: array<byte>, token: byte, at: nat, op: nat, ghost ip0: nat,
                         ghost out: seq<byte>, ghost from: nat)
    returns (step: FastStep)
    requires from <= at && at + 2 < |s| && AtLiterals(s, ip0, out, dst.Length, token, at - from, from)
    requires op + 32 <= dst.Length && dst[..op] == out + s[from..at]
    requires |out| + FASTLOOP_SAFE_DISTANCE <= dst.Length && LiteralsTaken(s, at - from, from, |out|, dst.Length)
    modifies dst
    ensures FastStepOk(s, dst[..], step, ip0, out)
  {
    hide Parse, Decode, Takes, ReadExtension, AtLiterals, AtMatch, Decoded;
    ReachedMatch(s, ip0, out, dst.Length, token, at - from, from);
    var offset := Le16(s[at], s[at + 1]);
    var length: nat, ip: nat := token % 16, at + 2;
    if length == NIBBLE_MAX {
      var ok, addl;
      ok, addl, ip := ReadVariableLength(s, ip, |s| - LASTLITERALS + 1, false);
      if !ok {
        return FastFailed;
      }
      length := length + addl + MINMATCH;
      if op + length + FASTLOOP_SAFE_DISTANCE >= dst.Length {
        return ToMatch(offset, length, ip, op);
      }
    } else {
      length := length + MINMATCH;
      if op + length + FASTLOOP_SAFE_DISTANCE >= dst.Length {
        return ToMatch(offset, length, ip, op);
      }
      if offset <= op && offset >= 8 {
        var short := ShortMatch(s, dst, offset, length, ip, op, ip0, out);
        return FastNext(short.ip, short.op);
      }
    }
    step := FastMatch(s, dst, offset, length, ip, op, ip0, out);
  }

  method FastMatch(s: seq<byte>, dst: array<byte>, offset: nat, length: nat, ip: nat, op: nat, ghost ip0: nat,
                   ghost out: seq<byte>)
    returns (step: FastStep)
    requires op + length + FASTLOOP_SAFE_DISTANCE < dst.Length
    requires AtMatch(s, ip0, out, dst.Length, dst[..op], offset, length, ip)
    requires ip < |s| && length >= MINMATCH
    modifies dst
    ensures FastStepOk(s, dst[..], step, ip0, out)
  {
    hide Parse, Decode, Takes, RepeatsAt, AtMatch, Decoded;
    ghost var lits := dst[..op];
    if offset > op {
      MatchRefused(s, ip0, out, dst.Length, lits, offset, length, ip);
      return FastFailed;
    }
    FastMatchCopy(dst, op, offset, op + length);
    assert dst[..op] == lits;
    MatchDone(s, ip0, out, dst.Length, lits, offset, length, ip, dst[..]);
    assert dst[..][..op + length] == dst[..op + length];
    step := FastNext(ip, op + length);
  }

  // ----- The decoder -----

  // The fast loop until it has to leave, and the rest of the sequence it left in.
  method FastLoop(s: seq<byte>, dst: array<byte>) returns (step: Step)
    requires |s| > 0 && dst.Length >= FASTLOOP_SAFE_DISTANCE
    modifies dst
    ensures StepOk(s, dst[..], step)
  {
    hide Decode, Takes, Decoded, AtLiterals, AtMatch;
    var ip: nat, op: nat := 0, 0;
    AtStart(s, dst[..op], dst.Length);
    while true
      invariant ip < |s| && op + FASTLOOP_SAFE_DISTANCE <= dst.Length && Decoded(s, ip, dst[..op], dst.Length)
      decreases |s| - ip
    {
      ghost var out := dst[..op];
      var fast := FastSequence(s, dst, ip, op);
      match fast {
        case FastFailed =>
          return Failed;
        case ToLiterals(token, len, from, at) =>
          step := SafeLiterals(s, dst, token, len, from, at, ip, out);
          return;
        case ToMatch(offset, length, next, at) =>
          step := SafeMatch(s, dst, offset, length, next, at, ip, out);
          return;
        case FastNext(next, at) =>
          ip, op := next, at;
      }
    }
  }

  lemma AtStart(s: seq<byte>, out: seq<byte>, cap: nat)
    requires out == []
    ensures Decoded(s, 0, out, cap)
  {
  }

  // Everything decode_full_block, noDict. fastLoop is LZ4_FAST_DEC_LOOP, chosen by platform.
  method Decompress(s: seq<byte>, dst: array<byte>, fastLoop: bool) returns (r: int)
    modifies dst
    ensures r >= 0 ==> r <= dst.Length && Decode(s, 0, []) == Some(dst[..r])
    ensures r >= 0 <==> Accepted(s, dst.Length)
    ensures Acceptable(s, dst.Length) ==> r >= 0
  {
    hide Decode, Takes, Decoded, Strict;
    if Strict(s, 0, 0, dst.Length) {
      StrictIsTaken(s, 0, 0, dst.Length);
    }
    if dst.Length == 0 {
      EmptyBlockDecodes();
      assert dst[..0] == [];
      if |s| == 1 && s[0] == 0 {
        assert s == [0];
        return 0;
      }
      return -1;
    }
    if |s| == 0 {
      NothingToDecode(s, dst.Length);
      return -1;
    }
    AtStart(s, dst[..0], dst.Length);
    var step := Next(0, 0);
    if fastLoop && dst.Length >= FASTLOOP_SAFE_DISTANCE {
      step := FastLoop(s, dst);
    }
    while step.Next?
      invariant StepOk(s, dst[..], step)
      decreases if step.Next? then |s| - step.ip + 1 else 0
    {
      step := SafeSequence(s, dst, step.ip, step.op);
    }
    r := if step.Finished? then step.op else -1;
  }

  lemma EmptyBlockDecodes()
    ensures Decode([0], 0, []) == Some([])
  {
  }

  lemma NothingToDecode(s: seq<byte>, cap: nat)
    requires s == []
    ensures !Takes(s, 0, 0, cap)
  {
  }
}
