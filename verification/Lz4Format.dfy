/**
 The LZ4 block format: what a block is, how it is written down, and a naive decoder that
 appends literals and copies matches byte by byte.
 */
module Lz4Format {
  import opened Bytes

  const MINMATCH: nat := 4
  const LASTLITERALS: nat := 5
  const MFLIMIT: nat := 12
  const NIBBLE_MAX: nat := 15

  // ----- Matches -----

  // The next byte of a match that reaches back offset bytes. Offset 0 is not valid in the
  // format; lz4.c decodes it as zero bytes on every path.
  function MatchByte(out: seq<byte>, offset: nat): byte {
    if offset == 0 || offset > |out| then 0 else out[|out| - offset]
  }

  function CopyMatch(out: seq<byte>, offset: nat, len: nat): (r: seq<byte>)
    ensures |r| == |out| + len
    decreases len
  {
    if len == 0 then out else CopyMatch(out + [MatchByte(out, offset)], offset, len - 1)
  }

  predicate RepeatsAt(r: seq<byte>, k: nat, offset: nat)
    requires k < |r|
  {
    r[k] == if offset == 0 || offset > k then 0 else r[k - offset]
  }

  // A stretch of bytes that repeats what lies offset bytes before it.
  ghost predicate Repeats(r: seq<byte>, from: nat, to: nat, offset: nat)
    requires to <= |r|
  {
    forall k :: from <= k < to ==> RepeatsAt(r, k, offset)
  }

  lemma {:induction false} CopyMatchIsRepeating(out: seq<byte>, offset: nat, len: nat, r: seq<byte>)
    requires |r| == |out| + len && r[..|out|] == out && Repeats(r, |out|, |r|, offset)
    ensures r == CopyMatch(out, offset, len)
    decreases len
  {
    if len > 0 {
      var b := r[|out|];
      var out' := out + [b];
      assert RepeatsAt(r, |out|, offset);
      assert MatchByte(out, offset) == b by {
        if 0 < offset <= |out| {
          assert r[|out| - offset] == r[..|out|][|out| - offset];
        }
      }
      assert r[..|out'|] == r[..|out|] + [r[|out|]];
      CopyMatchIsRepeating(out', offset, len - 1, r);
    } else {
      assert r[..|out|] == r;
    }
  }

  lemma {:induction false} CopyMatchRepeats(out: seq<byte>, offset: nat, len: nat)
    ensures var r := CopyMatch(out, offset, len); r[..|out|] == out && Repeats(r, |out|, |r|, offset)
    decreases len
  {
    if len > 0 {
      var out' := out + [MatchByte(out, offset)];
      var r := CopyMatch(out, offset, len);
      CopyMatchRepeats(out', offset, len - 1);
      assert r[..|out|] == r[..|out'|][..|out|] == out;
      assert r[|out|] == r[..|out'|][|out|];
      assert 0 < offset <= |out| ==> r[|out| - offset] == r[..|out|][|out| - offset];
    }
  }

  // ----- Lengths -----

  function Nibble(n: nat): nat {
    if n < NIBBLE_MAX then n else NIBBLE_MAX
  }

  // What a length adds behind a nibble of 15.
  function Extension(n: nat): (e: seq<byte>)
    ensures |e| == n / 255 + 1
  {
    if n < 255 then [n] else [255] + Extension(n - 255)
  }

  function LengthBytes(n: nat): seq<byte> {
    if n < NIBBLE_MAX then [] else Extension(n - NIBBLE_MAX)
  }

  datatype Length = Length(value: nat, next: nat)

  function ReadExtension(s: seq<byte>, ip: nat): (r: Option<Length>)
    ensures r.Some? ==> ip < r.value.next <= |s|
    decreases |s| - ip
  {
    if ip >= |s| then None
    else if s[ip] != 255 then Some(Length(s[ip], ip + 1))
    else match ReadExtension(s, ip + 1)
      case None => None
      case Some(l) => Some(Length(255 + l.value, l.next))
  }

  function ReadLength(s: seq<byte>, ip: nat, nibble: nat): (r: Option<Length>)
    requires ip <= |s|
    ensures r.Some? ==> ip <= r.value.next <= |s|
  {
    if nibble < NIBBLE_MAX then Some(Length(nibble, ip))
    else match ReadExtension(s, ip)
      case None => None
      case Some(l) => Some(Length(NIBBLE_MAX + l.value, l.next))
  }

  lemma {:induction false} ReadExtensionInverts(s: seq<byte>, ip: nat, n: nat)
    requires StartsAt(s, ip, Extension(n))
    ensures ReadExtension(s, ip) == Some(Length(n, ip + |Extension(n)|))
    decreases n
  {
    assert s[ip] == Extension(n)[0];
    if n >= 255 {
      assert s[ip + 1..ip + |Extension(n)|] == Extension(n)[1..];
      ReadExtensionInverts(s, ip + 1, n - 255);
    }
  }

  lemma ReadLengthInverts(s: seq<byte>, ip: nat, n: nat)
    requires StartsAt(s, ip, LengthBytes(n))
    ensures ReadLength(s, ip, Nibble(n)) == Some(Length(n, ip + |LengthBytes(n)|))
  {
    if n >= NIBBLE_MAX {
      ReadExtensionInverts(s, ip, n - NIBBLE_MAX);
    }
  }

  // ----- Blocks -----

  datatype Sequence = Sequence(literals: seq<byte>, offset: nat, matchLen: nat) {
    predicate Encodable() {
      1 <= offset < 65536 && matchLen >= MINMATCH
    }

    // The match length as it is written: the minimum is not counted.
    function MatchCode(): nat {
      if matchLen < MINMATCH then 0 else matchLen - MINMATCH
    }

    function Token(): byte {
      16 * Nibble(|literals|) + Nibble(MatchCode())
    }

    function Offset(): seq<byte> {
      [offset % 256, offset / 256 % 256]
    }

    function Encode(): seq<byte> {
      [Token()] + (LengthBytes(|literals|) + (literals + (Offset() + LengthBytes(MatchCode()))))
    }
  }

  function EncodeLast(literals: seq<byte>): seq<byte> {
    [16 * Nibble(|literals|)] + (LengthBytes(|literals|) + literals)
  }

  // The bytes a list of sequences stands for.
  function Expand(ss: seq<Sequence>): seq<byte> {
    if ss == [] then []
    else
      var last := ss[|ss| - 1];
      CopyMatch(Expand(ss[..|ss| - 1]) + last.literals, last.offset, last.matchLen)
  }

  // Matches reach back no further than the start, begin at least 12 and end at least 5
  // bytes before the end of the block's n bytes.
  predicate WellPlaced(ss: seq<Sequence>, n: nat) {
    ss == [] ||
    (var before, last := ss[..|ss| - 1], ss[|ss| - 1];
     var at := |Expand(before)| + |last.literals|;
     WellPlaced(before, n) && last.Encodable() && last.offset <= at &&
     at + MFLIMIT <= n && at + last.matchLen + LASTLITERALS <= n)
  }

  // So the last match begins 12 bytes or more before the end, and the last 5 bytes are literals.
  lemma EndOfBlock(ss: seq<Sequence>, last: seq<byte>)
    requires ss != [] && WellPlaced(ss, |Expand(ss)| + |last|)
    ensures var q := ss[|ss| - 1];
            |last| >= 5 && q.matchLen >= 4 && q.matchLen + |last| >= 12 && 1 <= q.offset <= 0xffff
  {
    var q := ss[|ss| - 1];
    CopyMatchRepeats(Expand(ss[..|ss| - 1]) + q.literals, q.offset, q.matchLen);
  }

  function EncodeSequences(ss: seq<Sequence>): seq<byte> {
    if ss == [] then [] else EncodeSequences(ss[..|ss| - 1]) + ss[|ss| - 1].Encode()
  }

  function EncodeBlock(ss: seq<Sequence>, last: seq<byte>): seq<byte> {
    EncodeSequences(ss) + EncodeLast(last)
  }

  // ----- One step of decoding -----

  datatype Parsed =
    | Malformed
    | Last(from: nat, len: nat)
    | Match(from: nat, len: nat, offset: nat, matchLen: nat, next: nat)

  // Reads the sequence at ip. Literals that end the input end the block.
  function Parse(s: seq<byte>, ip: nat): (p: Parsed)
    requires ip <= |s|
    ensures p.Last? ==> p.from + p.len == |s|
    ensures p.Match? ==> ip < p.from && p.from + p.len < p.next <= |s|
  {
    if ip >= |s| then Malformed
    else match ReadLength(s, ip + 1, s[ip] / 16)
      case None => Malformed
      case Some(l) => ParseMatch(s, l.next, l.value, s[ip] % 16)
  }

  // The same behind the literal length.
  function ParseMatch(s: seq<byte>, from: nat, len: nat, nibble: nat): (p: Parsed)
    requires from <= |s|
    ensures p.Last? ==> p.from + p.len == |s|
    ensures p.Match? ==> p.from == from && p.from + p.len < p.next <= |s|
  {
    var at := from + len;
    if at == |s| then Last(from, len)
    else if at + 2 > |s| then Malformed
    else match ReadLength(s, at + 2, nibble)
      case None => Malformed
      case Some(m) => Match(from, len, Le16(s[at], s[at + 1]), m.value + MINMATCH, m.next)
  }

  // The naive decoder: everything from ip on, given what was decoded before it.
  function Decode(s: seq<byte>, ip: nat, out: seq<byte>): Option<seq<byte>>
    requires ip <= |s|
    decreases |s| - ip
  {
    match Parse(s, ip)
    case Malformed => None
    case Last(from, len) => Some(out + s[from..from + len])
    case Match(from, len, offset, matchLen, next) =>
      var lits := out + s[from..from + len];
      if offset > |lits| then None else Decode(s, next, CopyMatch(lits, offset, matchLen))
  }

  // The parsing restrictions a decoder may insist on, for a destination of cap bytes.
  predicate Strict(s: seq<byte>, ip: nat, op: nat, cap: nat)
    requires ip <= |s|
    decreases |s| - ip
  {
    match Parse(s, ip)
    case Malformed => false
    case Last(from, len) => op + len <= cap
    case Match(from, len, offset, matchLen, next) =>
      offset <= op + len &&
      op + len + MFLIMIT <= cap && from + len + 2 + 1 + LASTLITERALS <= |s| &&
      op + len + matchLen + LASTLITERALS <= cap && next + LASTLITERALS <= |s| + 1 &&
      Strict(s, next, op + len + matchLen, cap)
  }

  // An empty destination takes the one-byte empty block only.
  predicate Acceptable(s: seq<byte>, cap: nat) {
    if cap == 0 then s == [0] else Strict(s, 0, 0, cap)
  }

  lemma DecodeMatch(s: seq<byte>, ip: nat, out: seq<byte>, cap: nat)
    requires ip <= |s| && Parse(s, ip).Match?
    ensures var p := Parse(s, ip); var lits := out + s[p.from..p.from + p.len];
            var more := CopyMatch(lits, p.offset, p.matchLen);
            && Decode(s, ip, out) == (if p.offset > |lits| then None else Decode(s, p.next, more))
            && (Strict(s, ip, |out|, cap) <==>
                p.offset <= |lits| && |lits| + MFLIMIT <= cap && p.from + p.len + 2 + 1 + LASTLITERALS <= |s| &&
                |more| + LASTLITERALS <= cap && p.next + LASTLITERALS <= |s| + 1 && Strict(s, p.next, |more|, cap))
  {
    hide Parse, CopyMatch;
  }

  lemma DecodeLast(s: seq<byte>, ip: nat, out: seq<byte>, cap: nat)
    requires ip <= |s| && Parse(s, ip).Last?
    ensures var p := Parse(s, ip);
            Decode(s, ip, out) == Some(out + s[p.from..]) && (Strict(s, ip, |out|, cap) <==> |out| + p.len <= cap)
  {
    var p := Parse(s, ip);
    assert s[p.from..p.from + p.len] == s[p.from..];
  }

  // ----- The bytes of it -----

  // Behind a nibble of 15 every 255 adds itself and goes on; the first other byte ends the length.
  lemma {:induction false} ExtensionInBytes(s: seq<byte>, ip: nat, k: nat)
    requires ip + k < |s| && s[ip + k] != 255 && forall i :: ip <= i < ip + k ==> s[i] == 255
    ensures ReadExtension(s, ip) == Some(Length(255 * k + s[ip + k], ip + k + 1))
    decreases k
  {
    if k > 0 {
      ExtensionInBytes(s, ip + 1, k - 1);
    }
  }

  // The token's high half counts literals, its low half the match beyond four; the offset has its
  // low byte first.
  lemma {:induction false} SequenceInBytes(s: seq<byte>)
    requires |s| > 5 && s[0] == 0x14
    ensures var low: int, high: int := s[2], s[3]; Parse(s, 0) == Match(1, 1, low + 256 * high, 8, 4)
  {
  }

  // A byte nine times, and another.
  lemma {:induction false} SmallBlock(a: byte, b: byte)
    ensures Decode([0x14, a, 1, 0, 0x10, b], 0, []) == Some(Times(a, 9) + [b])
  {
    hide Parse, Decode, Strict, CopyMatch, Times;
    var s, none: seq<byte> := [0x14, a, 1, 0, 0x10, b], [];
    SequenceInBytes(s);
    LastInBytes(s, 4);
    NineTimes(a);
    DecodeMatch(s, 0, none, 10);
    assert none + s[1..2] == [a] && s[5..] == [b];
    DecodeLast(s, 4, Times(a, 9), 10);
  }

  function Times(a: byte, n: nat): (s: seq<byte>)
    ensures |s| == n && forall i :: 0 <= i < n ==> s[i] == a
  {
    seq(n, _ => a)
  }

  lemma {:induction false} NineTimes(a: byte)
    ensures CopyMatch([a], 1, 8) == Times(a, 9)
  {
    hide CopyMatch, Times;
    var r := Times(a, 9);
    forall k | 1 <= k < 9 ensures RepeatsAt(r, k, 1) {
    }
    CopyMatchIsRepeating([a], 1, 8, r);
  }

  lemma {:induction false} LastInBytes(s: seq<byte>, ip: nat)
    requires ip + 2 == |s| && s[ip] == 0x10
    ensures Parse(s, ip) == Last(ip + 1, 1)
  {
  }

  // ----- Decoding undoes encoding -----

  lemma ParseMatchInverts(s: seq<byte>, from: nat, q: Sequence)
    requires q.Encodable() && from + |q.literals| < |s|
    requires StartsAt(s, from + |q.literals|, q.Offset() + LengthBytes(q.MatchCode()))
    ensures ParseMatch(s, from, |q.literals|, Nibble(q.MatchCode())) ==
            Match(from, |q.literals|, q.offset, q.matchLen, from + |q.literals| + 2 + |LengthBytes(q.MatchCode())|)
  {
    hide LengthBytes, ReadLength;
    var at := from + |q.literals|;
    StartsSplit(s, at, q.Offset(), LengthBytes(q.MatchCode()));
    assert s[at] == q.Offset()[0] && s[at + 1] == q.Offset()[1] by {
      assert s[at..at + 2] == q.Offset();
    }
    ReadLengthInverts(s, at + 2, q.MatchCode());
  }

  lemma SequenceParts(s: seq<byte>, ip: nat, q: Sequence)
    requires StartsAt(s, ip, q.Encode())
    ensures ip < |s| && s[ip] == q.Token()
    ensures var l := LengthBytes(|q.literals|);
            StartsAt(s, ip + 1, l) && StartsAt(s, ip + 1 + |l|, q.literals) &&
            StartsAt(s, ip + 1 + |l| + |q.literals|, q.Offset() + LengthBytes(q.MatchCode()))
  {
    hide LengthBytes, StartsAt, Sequence.Token, Sequence.Offset, Sequence.MatchCode;
    var l, tail := LengthBytes(|q.literals|), q.Offset() + LengthBytes(q.MatchCode());
    StartsSplit(s, ip, [q.Token()], l + (q.literals + tail));
    StartsSplit(s, ip + 1, l, q.literals + tail);
    StartsSplit(s, ip + 1 + |l|, q.literals, tail);
    StartsWith(s, ip, q.Token());
  }

  lemma ParseSequence(s: seq<byte>, ip: nat, q: Sequence)
    requires q.Encodable() && StartsAt(s, ip, q.Encode()) && ip + |q.Encode()| < |s|
    ensures var from := ip + 1 + |LengthBytes(|q.literals|)|;
            StartsAt(s, from, q.literals) &&
            Parse(s, ip) == Match(from, |q.literals|, q.offset, q.matchLen, ip + |q.Encode()|)
  {
    hide LengthBytes, ReadLength, ParseMatch, StartsAt;
    var from := ip + 1 + |LengthBytes(|q.literals|)|;
    assert |q.Encode()| == 1 + |LengthBytes(|q.literals|)| + |q.literals| + 2 + |LengthBytes(q.MatchCode())|;
    SequenceParts(s, ip, q);
    ReadLengthInverts(s, ip + 1, |q.literals|);
    ParseMatchInverts(s, from, q);
    assert q.Token() / 16 == Nibble(|q.literals|) && q.Token() % 16 == Nibble(q.MatchCode());
  }

  lemma ParseLast(s: seq<byte>, ip: nat, literals: seq<byte>)
    requires StartsAt(s, ip, EncodeLast(literals)) && ip + |EncodeLast(literals)| == |s|
    ensures Parse(s, ip) == Last(|s| - |literals|, |literals|) && s[|s| - |literals|..] == literals
  {
    hide LengthBytes, ReadLength;
    var l := LengthBytes(|literals|);
    var token: byte := 16 * Nibble(|literals|);
    StartsSplit(s, ip, [token], l + literals);
    StartsSplit(s, ip + 1, l, literals);
    assert s[ip] == token by {
      assert s[ip..ip + 1] == [token];
    }
    ReadLengthInverts(s, ip + 1, |literals|);
  }

  lemma {:induction false} Prefixes(ss: seq<Sequence>, n: nat, k: nat)
    requires WellPlaced(ss, n) && k <= |ss|
    ensures WellPlaced(ss[..k], n)
    ensures StartsAt(EncodeSequences(ss), 0, EncodeSequences(ss[..k]))
    decreases |ss|
  {
    if k == |ss| {
      assert ss[..k] == ss;
    } else {
      assert ss[..|ss| - 1][..k] == ss[..k];
      Prefixes(ss[..|ss| - 1], n, k);
    }
  }

  lemma Placing(ss: seq<Sequence>, n: nat, k: nat)
    requires k < |ss| && WellPlaced(ss, n)
    ensures var lits := Expand(ss[..k]) + ss[k].literals;
            Expand(ss[..k + 1]) == CopyMatch(lits, ss[k].offset, ss[k].matchLen) &&
            ss[k].offset <= |lits| && |lits| + MFLIMIT <= n && |lits| + ss[k].matchLen + LASTLITERALS <= n
  {
    Prefixes(ss, n, k + 1);
    assert ss[..k + 1][..k] == ss[..k];
  }

  lemma ParseFrom(ss: seq<Sequence>, last: seq<byte>, k: nat)
    requires k < |ss| && WellPlaced(ss, |Expand(ss)| + |last|)
    ensures var s, ip, q := EncodeBlock(ss, last), |EncodeSequences(ss[..k])|, ss[k];
            ip + |q.Encode()| == |EncodeSequences(ss[..k + 1])| &&
            |EncodeSequences(ss[..k + 1])| + LASTLITERALS + 1 <= |s| &&
            var from := ip + 1 + |LengthBytes(|q.literals|)|;
            from + |q.literals| + 2 <= ip + |q.Encode()| &&
            s[from..from + |q.literals|] == q.literals &&
            Parse(s, ip) == Match(from, |q.literals|, q.offset, q.matchLen, ip + |q.Encode()|)
  {
    hide LengthBytes, Parse, Expand, StartsAt, EncodeLast;
    CodeAt(ss, last, k);
    var block, at := EncodeBlock(ss, last), |EncodeSequences(ss[..k])|;
    ParseSequence(block, at, ss[k]);
    StartsAtSlice(block, at + 1 + |LengthBytes(|ss[k].literals|)|, ss[k].literals);
  }

  lemma CodeAt(ss: seq<Sequence>, last: seq<byte>, k: nat)
    requires k < |ss| && WellPlaced(ss, |Expand(ss)| + |last|)
    ensures var s, ip, q := EncodeBlock(ss, last), |EncodeSequences(ss[..k])|, ss[k];
            q.Encodable() && StartsAt(s, ip, q.Encode()) && ip + |q.Encode()| + LASTLITERALS + 1 <= |s| &&
            ip + |q.Encode()| == |EncodeSequences(ss[..k + 1])|
  {
    hide Sequence.Encode, LengthBytes;
    var s, ip, q := EncodeBlock(ss, last), |EncodeSequences(ss[..k])|, ss[k];
    Prefixes(ss, |Expand(ss)| + |last|, k + 1);
    assert ss[..k + 1][..k] == ss[..k];
    var upTo := EncodeSequences(ss[..k + 1]);
    assert upTo == EncodeSequences(ss[..k]) + q.Encode();
    assert s[..|upTo|] == EncodeSequences(ss)[..|upTo|] == upTo;
    assert s[ip..|upTo|] == s[..|upTo|][ip..];
    assert |last| >= LASTLITERALS;
  }

  // Decoding picks up the k-th sequence where the first k left off.
  ghost predicate DecodesFrom(ss: seq<Sequence>, last: seq<byte>, k: nat, cap: nat)
    requires k <= |ss|
  {
    var s, ip := EncodeBlock(ss, last), |EncodeSequences(ss[..k])|;
    ip <= |s| && Decode(s, ip, Expand(ss[..k])) == Some(Expand(ss) + last) && Strict(s, ip, |Expand(ss[..k])|, cap)
  }

  lemma LastStep(ss: seq<Sequence>, last: seq<byte>, cap: nat)
    requires |Expand(ss)| + |last| <= cap
    ensures DecodesFrom(ss, last, |ss|, cap)
  {
    hide Expand, WellPlaced, EncodeSequences, EncodeLast, Parse, Decode, Strict;
    assert ss[..|ss|] == ss;
    var s, ip := EncodeBlock(ss, last), |EncodeSequences(ss)|;
    assert StartsAt(s, ip, EncodeLast(last));
    ParseLast(s, ip, last);
    DecodeLast(s, ip, Expand(ss), cap);
  }

  lemma OneStep(ss: seq<Sequence>, last: seq<byte>, k: nat, cap: nat)
    requires k < |ss| && WellPlaced(ss, |Expand(ss)| + |last|) && |Expand(ss)| + |last| <= cap
    requires DecodesFrom(ss, last, k + 1, cap)
    ensures DecodesFrom(ss, last, k, cap)
  {
    hide EncodeBlock, Expand, WellPlaced, Parse, LengthBytes, Sequence.Encode, EncodeSequences, CopyMatch, Decode,
        Strict;
    ParseFrom(ss, last, k);
    Placing(ss, |Expand(ss)| + |last|, k);
    DecodeMatch(EncodeBlock(ss, last), |EncodeSequences(ss[..k])|, Expand(ss[..k]), cap);
  }

  lemma {:induction false} DecodeFrom(ss: seq<Sequence>, last: seq<byte>, k: nat, cap: nat)
    requires k <= |ss| && WellPlaced(ss, |Expand(ss)| + |last|) && |Expand(ss)| + |last| <= cap
    ensures DecodesFrom(ss, last, k, cap)
    decreases |ss| - k
  {
    hide DecodesFrom, WellPlaced, Expand;
    if k == |ss| {
      LastStep(ss, last, cap);
    } else {
      DecodeFrom(ss, last, k + 1, cap);
      OneStep(ss, last, k, cap);
    }
  }

  // Every block of well-placed sequences decodes to its text, and no decoder may refuse it.
  lemma {:induction false} DecodeInvertsEncode(ss: seq<Sequence>, last: seq<byte>, cap: nat)
    requires WellPlaced(ss, |Expand(ss)| + |last|) && |Expand(ss)| + |last| <= cap
    ensures Decode(EncodeBlock(ss, last), 0, []) == Some(Expand(ss) + last)
    ensures Acceptable(EncodeBlock(ss, last), cap)
  {
    DecodeFrom(ss, last, 0, cap);
    assert ss[..0] == [];
    assert Expand([]) == [] && EncodeSequences([]) == [];
    hide Decode, Strict, Expand, EncodeSequences;
    if cap == 0 {
      EmptyBlock(ss, last);
    }
  }

  lemma EmptyBlock(ss: seq<Sequence>, last: seq<byte>)
    requires WellPlaced(ss, 0) && last == []
    ensures EncodeBlock(ss, last) == [0]
  {
  }
}
