/**
 LZ4_compress_generic for one block without a dictionary: a greedy encoder that writes each
 sequence in place, with unlimited output (the destination has the compress bound).
 */
module Lz4Compress {
  import opened Bytes
  import opened Lz4Format
  import opened Lz4Memory
  import opened Lz4Match

  const MAX_INPUT_SIZE: nat := 0x7E000000
  const MIN_LENGTH: nat := MFLIMIT + 1

  function CompressBound(n: nat): nat {
    n + n / 255 + 16
  }

  // ----- What has been written so far -----

  // The sequences written so far are the source up to anchor, and took no more than the
  // compress bound has for it.
  ghost predicate Written(src: seq<byte>, code: seq<byte>, ss: seq<Sequence>, anchor: nat) {
    anchor <= |src| && Expand(ss) == src[..anchor] && code == EncodeSequences(ss) &&
    WellPlaced(ss, |src|) && 255 * |code| <= 256 * anchor
  }

  // The head of a sequence: its token without the match length, and its literals.
  ghost predicate HeadWritten(src: seq<byte>, code: seq<byte>, ss: seq<Sequence>, anchor: nat, ip: nat) {
    anchor <= ip <= |src| && |EncodeSequences(ss)| < |code| && Written(src, EncodeSequences(ss), ss, anchor) &&
    code == EncodeSequences(ss) + EncodeLast(src[anchor..ip])
  }

  lemma SequenceSize(q: Sequence)
    requires q.Encodable()
    ensures 255 * |q.Encode()| <= 256 * (|q.literals| + q.matchLen)
    ensures |q.Encode()| == |EncodeLast(q.literals)| + 2 + |LengthBytes(q.MatchCode())|
  {
  }

  // Room for a head, with the 8 bytes a wild copy may add.
  lemma RoomForHead(n: nat, written: nat, anchor: nat, ip: nat)
    requires anchor <= ip && ip + MFLIMIT <= n && 255 * written <= 256 * anchor
    ensures written + 1 + |LengthBytes(ip - anchor)| + (ip - anchor) + 8 <= CompressBound(n)
  {
  }

  lemma RoomForMatch(n: nat, written: nat, anchor: nat, ip: nat, matchCode: nat)
    requires anchor <= ip && ip + MINMATCH + matchCode + LASTLITERALS <= n && 255 * written <= 256 * anchor
    ensures written + 1 + |LengthBytes(ip - anchor)| + (ip - anchor) + 2 + |LengthBytes(matchCode)| + 4
            <= CompressBound(n)
  {
  }

  lemma RoomForLast(n: nat, written: nat, anchor: nat)
    requires anchor <= n && 255 * written <= 256 * anchor
    ensures written + 1 + |LengthBytes(n - anchor)| + (n - anchor) <= CompressBound(n)
  {
  }

  // A match written behind a head makes one more sequence.
  lemma OneMoreSequence(src: seq<byte>, ss: seq<Sequence>, anchor: nat, ip: nat, offset: nat, matchLen: nat)
    requires anchor <= ip && Written(src, EncodeSequences(ss), ss, anchor)
    requires 1 <= offset <= ip && offset < 65536 && matchLen >= MINMATCH
    requires ip + MFLIMIT <= |src| && ip + matchLen + LASTLITERALS <= |src|
    requires Repeats(src, ip, ip + matchLen, offset)
    ensures var q := Sequence(src[anchor..ip], offset, matchLen);
            Written(src, EncodeSequences(ss) + q.Encode(), ss + [q], ip + matchLen)
  {
    hide LengthBytes, Sequence.Encode;
    var q := Sequence(src[anchor..ip], offset, matchLen);
    assert (ss + [q])[..|ss|] == ss;
    var out := Expand(ss) + q.literals;
    assert out == src[..ip];
    assert Expand(ss + [q]) == src[..ip + matchLen] by {
      CopyPrefix(src, ip, offset, matchLen);
    }
    SequenceSize(q);
  }

  lemma CopyPrefix(src: seq<byte>, ip: nat, offset: nat, matchLen: nat)
    requires ip + matchLen <= |src| && Repeats(src, ip, ip + matchLen, offset)
    ensures CopyMatch(src[..ip], offset, matchLen) == src[..ip + matchLen]
  {
    var r := src[..ip + matchLen];
    assert r[..ip] == src[..ip];
    forall k | ip <= k < ip + matchLen ensures RepeatsAt(r, k, offset) {
      assert RepeatsAt(src, k, offset);
    }
    CopyMatchIsRepeating(src[..ip], offset, matchLen, r);
  }

  // ----- Writing lengths -----

  // A length is full bytes of 255 and one byte with the rest.
  lemma {:induction false} ExtensionIs(e: seq<byte>, n: nat)
    requires |e| == n / 255 + 1 && e[|e| - 1] == n % 255
    requires forall k :: 0 <= k < |e| - 1 ==> e[k] == 255
    ensures e == Extension(n)
    decreases n
  {
    if n >= 255 {
      assert e[0] == 255;
      ExtensionIs(e[1..], n - 255);
    }
  }

  // One byte at a time, for literals.
  method WriteLiteralLength(dst: array<byte>, op0: nat, n: nat) returns (op: nat)
    requires op0 + |Extension(n)| <= dst.Length
    modifies dst
    ensures op == op0 + |Extension(n)| && dst[op0..op] == Extension(n)
    ensures KeepsOutside(dst, op0, op)
  {
    hide Extension;
    op := op0;
    var len := n;
    while len >= 255
      invariant 0 <= len && op0 <= op && 255 * (op - op0) + len == n
      invariant forall k :: op0 <= k < op ==> dst[k] == 255
      invariant KeepsOutside(dst, op0, op)
    {
      dst[op] := 255;
      op := op + 1;
      len := len - 255;
    }
    dst[op] := len;
    op := op + 1;
    ExtensionIs(dst[op0..op], n);
  }

  method Write32(dst: array<byte>, op: nat)
    requires op + 4 <= dst.Length
    modifies dst
    ensures KeepsOutside(dst, op, op + 4)
    ensures forall k :: op <= k < op + 4 ==> dst[k] == 255
  {
    dst[op], dst[op + 1], dst[op + 2], dst[op + 3] := 255, 255, 255, 255;
  }

  // Four bytes at a time, for matches: the last store runs past the end of the length.
  method WriteMatchLength(dst: array<byte>, op0: nat, n: nat) returns (op: nat)
    requires op0 + |Extension(n)| + 4 <= dst.Length
    modifies dst
    ensures op == op0 + |Extension(n)| && dst[op0..op] == Extension(n)
    ensures KeepsOutside(dst, op0, dst.Length)
  {
    hide Extension;
    op := op0;
    var code := n;
    Write32(dst, op);
    while code >= 4 * 255
      invariant 0 <= code && op0 <= op && 255 * (op - op0) + code == n
      invariant forall k :: op0 <= k < op + 4 ==> dst[k] == 255
      invariant KeepsOutside(dst, op0, op + 4)
    {
      op := op + 4;
      Write32(dst, op);
      code := code - 4 * 255;
    }
    op := op + code / 255;
    dst[op] := code % 255;
    op := op + 1;
    ExtensionIs(dst[op0..op], n);
  }

  // ----- Writing sequences -----

  // A length: behind a full nibble, the bytes that are left over.
  method WriteTokenAndLength(dst: array<byte>, op0: nat, litLength: nat) returns (op: nat)
    requires op0 + 1 + |LengthBytes(litLength)| <= dst.Length
    modifies dst
    ensures op == op0 + 1 + |LengthBytes(litLength)| && KeepsOutside(dst, op0, op)
    ensures dst[op0] == 16 * Nibble(litLength) && dst[op0 + 1..op] == LengthBytes(litLength)
  {
    hide Extension;
    op := op0 + 1;
    if litLength >= NIBBLE_MAX {
      dst[op0] := 16 * NIBBLE_MAX;
      op := WriteLiteralLength(dst, op, litLength - NIBBLE_MAX);
    } else {
      dst[op0] := 16 * litLength;
    }
  }

  lemma HeadIs(dst: seq<byte>, before: seq<byte>, literals: seq<byte>, at: nat)
    requires at == |before| + 1 + |LengthBytes(|literals|)| && at + |literals| <= |dst|
    requires dst[..|before|] == before && dst[|before|] == 16 * Nibble(|literals|)
    requires dst[|before| + 1..at] == LengthBytes(|literals|) && dst[at..at + |literals|] == literals
    ensures dst[..at + |literals|] == before + EncodeLast(literals)
    ensures at + |literals| == |before| + |EncodeLast(literals)|
  {
    hide LengthBytes;
    var l := LengthBytes(|literals|);
    assert dst[|before|..at + |literals|] == [dst[|before|]] + (dst[|before| + 1..at] + dst[at..at + |literals|]);
    assert dst[..at + |literals|] == dst[..|before|] + dst[|before|..at + |literals|];
  }

  // Token and literals; the literals by a wild copy.
  method WriteHead(src: seq<byte>, dst: array<byte>, anchor: nat, ip: nat, op0: nat) returns (op: nat)
    requires anchor <= ip && ip + 8 <= |src|
    requires op0 + 1 + |LengthBytes(ip - anchor)| + (ip - anchor) + 8 <= dst.Length
    modifies dst
    ensures op == op0 + |EncodeLast(src[anchor..ip])| && op <= dst.Length
    ensures dst[..op] == old(dst[..op0]) + EncodeLast(src[anchor..ip])
  {
    hide LengthBytes, EncodeLast, Extension;
    var litLength := ip - anchor;
    op := WriteTokenAndLength(dst, op0, litLength);
    WildCopy8From(dst, op, src, anchor, litLength);
    HeadIs(dst[..], old(dst[..op0]), src[anchor..ip], op);
    op := op + litLength;
  }

  // The same for the literals that end the block; nothing may be written behind these.
  method WriteLast(src: seq<byte>, dst: array<byte>, anchor: nat, op0: nat) returns (op: nat)
    requires anchor <= |src|
    requires op0 + 1 + |LengthBytes(|src| - anchor)| + (|src| - anchor) <= dst.Length
    modifies dst
    ensures op == op0 + |EncodeLast(src[anchor..])| && op <= dst.Length
    ensures dst[..op] == old(dst[..op0]) + EncodeLast(src[anchor..])
  {
    hide LengthBytes, EncodeLast, Extension;
    var lastRun := |src| - anchor;
    op := WriteTokenAndLength(dst, op0, lastRun);
    CopyFrom(dst, op, src, anchor, lastRun);
    HeadIs(dst[..], old(dst[..op0]), src[anchor..], op);
    op := op + lastRun;
  }

  // Offset and match length, behind the head whose token they complete.
  method WriteMatch(dst: array<byte>, token: nat, op0: nat, offset: nat, matchCode: nat) returns (op: nat)
    requires token < op0 && op0 + 2 + |LengthBytes(matchCode)| + 4 <= dst.Length && offset < 65536
    requires dst[token] + NIBBLE_MAX < 256
    modifies dst
    ensures op == op0 + 2 + |LengthBytes(matchCode)|
    ensures dst[..op0] == old(dst[..op0])[token := old(dst[token]) + Nibble(matchCode)]
    ensures dst[op0..op] == [offset % 256, offset / 256] + LengthBytes(matchCode)
  {
    hide Extension;
    dst[op0], dst[op0 + 1] := offset % 256, offset / 256;
    op := op0 + 2;
    if matchCode >= NIBBLE_MAX {
      dst[token] := dst[token] + NIBBLE_MAX;
      op := WriteMatchLength(dst, op, matchCode - NIBBLE_MAX);
    } else {
      dst[token] := dst[token] + matchCode;
    }
    assert dst[op0..op] == [dst[op0], dst[op0 + 1]] + dst[op0 + 2..op];
  }

  // With its match length in the token, the head is the front of the whole sequence.
  lemma HeadBecomesSequence(before: seq<byte>, head: seq<byte>, q: Sequence)
    requires q.offset < 65536 && head == before + EncodeLast(q.literals)
    ensures |head| > |before| && head[|before|] == 16 * Nibble(|q.literals|)
    ensures head[|before| := q.Token()] + (q.Offset() + LengthBytes(q.MatchCode())) == before + q.Encode()
  {
    hide LengthBytes;
    var l, tail := LengthBytes(|q.literals|), q.Offset() + LengthBytes(q.MatchCode());
    assert head[|before| := q.Token()] == before + ([q.Token()] + (l + q.literals));
    assert before + ([q.Token()] + (l + q.literals)) + tail == before + ([q.Token()] + (l + (q.literals + tail)));
  }

  // ----- The encoder -----

  // One match, from its offset to the end of its length. It covers at least the four
  // bytes the search found at filled.
  method EncodeMatch(src: seq<byte>, dst: array<byte>, token: nat, op0: nat, anchor: nat, ip0: nat, match_: nat,
                     ghost filled: nat, ghost ss: seq<Sequence>)
    returns (ip: nat, op: nat, ghost more: seq<Sequence>)
    requires dst.Length >= CompressBound(|src|) && op0 <= dst.Length
    requires HeadWritten(src, dst[..op0], ss, anchor, ip0) && token == |EncodeSequences(ss)|
    requires match_ < ip0 && ip0 - match_ <= DISTANCE_MAX && ip0 <= filled && filled + MFLIMIT <= |src|
    requires Repeats(src, ip0, filled + MINMATCH, ip0 - match_)
    modifies dst
    ensures filled + MINMATCH <= ip && ip + LASTLITERALS <= |src| && op <= dst.Length
    ensures Written(src, dst[..op], more, ip)
    ensures more == ss + [Sequence(src[anchor..ip0], ip0 - match_, ip - ip0)]
    ensures ip + LASTLITERALS < |src| ==> !RepeatsAt(src, ip, ip0 - match_)
  {
    hide Expand, WellPlaced, EncodeSequences, LengthBytes, RepeatsAt, EncodeLast, Sequence.Encode;
    var matchlimit := |src| - LASTLITERALS;
    var matchCode := Count(src, ip0 + MINMATCH, match_ + MINMATCH, matchlimit);
    ip := ip0 + MINMATCH + matchCode;
    assert filled + MINMATCH <= ip;
    more := ss + [Sequence(src[anchor..ip0], ip0 - match_, MINMATCH + matchCode)];
    HeadSize(src[anchor..ip0]);
    RoomForMatch(|src|, token, anchor, ip0, matchCode);
    ghost var head := dst[..op0];
    HeadToken(src, head, ss, anchor, ip0);
    op := WriteMatch(dst, token, op0, ip0 - match_, matchCode);
    assert dst[..op] == dst[..op0] + dst[op0..op];
    MatchWritten(src, head, dst[..op], ss, anchor, ip0, ip0 - match_, matchCode);
  }

  lemma HeadToken(src: seq<byte>, head: seq<byte>, ss: seq<Sequence>, anchor: nat, ip: nat)
    requires HeadWritten(src, head, ss, anchor, ip)
    ensures head[|EncodeSequences(ss)|] == 16 * Nibble(ip - anchor)
  {
    hide EncodeSequences, LengthBytes, Written;
  }

  // Completing a head with offset and match length makes one more sequence.
  lemma MatchWritten(src: seq<byte>, head: seq<byte>, code: seq<byte>, ss: seq<Sequence>,
                     anchor: nat, ip: nat, offset: nat, matchCode: nat)
    requires HeadWritten(src, head, ss, anchor, ip) && 1 <= offset <= ip && offset < 65536
    requires ip + MFLIMIT <= |src| && ip + MINMATCH + matchCode + LASTLITERALS <= |src|
    requires Repeats(src, ip, ip + MINMATCH + matchCode, offset)
    requires code == head[|EncodeSequences(ss)| := 16 * Nibble(ip - anchor) + Nibble(matchCode)] +
                     ([offset % 256, offset / 256] + LengthBytes(matchCode))
    ensures var q := Sequence(src[anchor..ip], offset, MINMATCH + matchCode);
            Written(src, code, ss + [q], ip + MINMATCH + matchCode)
  {
    hide Expand, WellPlaced, EncodeSequences, LengthBytes, EncodeLast, Sequence.Encode, Written;
    var q := Sequence(src[anchor..ip], offset, MINMATCH + matchCode);
    HeadBecomesSequence(EncodeSequences(ss), head, q);
    OneMoreSequence(src, ss, anchor, ip, offset, MINMATCH + matchCode);
    assert q.Offset() == [offset % 256, offset / 256];
  }

  lemma HeadSize(literals: seq<byte>)
    ensures |EncodeLast(literals)| == 1 + |LengthBytes(|literals|)| + |literals|
  {
  }

  // Behind a match: note two positions, and see whether another match starts right here.
  method TestNextPosition(src: seq<byte>, table: array<nat>, ip: nat, tt: TableType, hash: Hash)
    returns (hit: bool, match_: nat)
    requires 2 <= ip && ip + MFLIMIT <= |src| && table.Length > 0
    requires Before(table[..], ip) && (tt == ByU16 ==> |src| < LIMIT_64K)
    modifies table
    ensures Before(table[..], ip + 1) && match_ < ip
    ensures hit <==> Hits(src, ip, match_, tt)
    ensures match_ == old(table[..])[HashPosition(hash, src, ip - 2, table.Length) := ip - 2]
                      [HashPosition(hash, src, ip, table.Length)]
    ensures hit ==> ip - match_ <= DISTANCE_MAX && Repeats(src, ip, ip + MINMATCH, ip - match_)
  {
    var h := HashPosition(hash, src, ip - 2, table.Length);
    PutIndexOnHash(table, ip - 2, h, tt);
    h := HashPosition(hash, src, ip, table.Length);
    hit, match_ := TryPosition(src, table, h, ip, tt);
  }

  // A head is in place: write its match, and further matches as long as they follow at once.
  method EncodeMatches(src: seq<byte>, dst: array<byte>, table: array<nat>, tt: TableType, hash: Hash,
                       token0: nat, op0: nat, anchor0: nat, ip0: nat, match0: nat, ghost filled0: nat,
                       ghost ss0: seq<Sequence>)
    returns (ip: nat, op: nat, ghost ss: seq<Sequence>)
    requires dst.Length >= CompressBound(|src|) && op0 <= dst.Length && table.Length > 0
    requires tt == ByU16 ==> |src| < LIMIT_64K
    requires HeadWritten(src, dst[..op0], ss0, anchor0, ip0) && token0 == |EncodeSequences(ss0)|
    requires Before(table[..], filled0 + 1)
    requires match0 < ip0 && ip0 - match0 <= DISTANCE_MAX && ip0 <= filled0 && filled0 + MFLIMIT <= |src|
    requires Repeats(src, ip0, filled0 + MINMATCH, ip0 - match0)
    modifies dst, table
    ensures ip0 < ip && ip + LASTLITERALS <= |src| && op <= dst.Length
    ensures Written(src, dst[..op], ss, ip)
    ensures ip + MFLIMIT <= |src| ==> Before(table[..], ip + 1)
  {
    hide Expand, WellPlaced, EncodeSequences, LengthBytes, RepeatsAt, EncodeLast;
    var token: nat, anchor: nat, match_: nat := token0, anchor0, match0;
    ghost var filled: nat := filled0;
    ip, op, ss := ip0, op0, ss0;
    while true
      invariant ip0 <= ip && op <= dst.Length && token == |EncodeSequences(ss)|
      invariant HeadWritten(src, dst[..op], ss, anchor, ip) && Before(table[..], filled + 1)
      invariant match_ < ip && ip - match_ <= DISTANCE_MAX && ip <= filled && filled + MFLIMIT <= |src|
      invariant Repeats(src, ip, filled + MINMATCH, ip - match_)
      decreases |src| - ip
    {
      ip, op, ss := EncodeMatch(src, dst, token, op, anchor, ip, match_, filled, ss);
      anchor := ip;
      if ip + MFLIMIT > |src| {
        return;
      }
      var hit;
      hit, match_ := TestNextPosition(src, table, ip, tt, hash);
      if !hit {
        return;
      }
      EmptyHead(src, dst[..op], ss, ip);
      token := op;
      dst[op] := 0;
      op := op + 1;
      filled := ip;
    }
  }

  lemma EmptyHead(src: seq<byte>, code: seq<byte>, ss: seq<Sequence>, ip: nat)
    requires Written(src, code, ss, ip)
    ensures HeadWritten(src, code + [0], ss, ip, ip)
    ensures |code| < CompressBound(|src|)
  {
    assert EncodeLast([]) == [0];
    assert src[ip..ip] == [];
  }

  // The whole block: the search, its matches, and the literals that are left.
  method CompressValidated(src: seq<byte>, dst: array<byte>, table: array<nat>, tt: TableType, acceleration: nat,
                           hash: Hash)
    returns (result: nat, ghost ss: seq<Sequence>, ghost last: seq<byte>)
    requires dst.Length >= CompressBound(|src|) && table.Length > 0 && acceleration >= 1
    requires tt == ByU16 ==> |src| < LIMIT_64K
    requires forall h :: 0 <= h < table.Length ==> table[h] == 0
    modifies dst, table
    ensures WellPlaced(ss, |src|) && src == Expand(ss) + last
    ensures 0 < result <= CompressBound(|src|) && dst[..result] == EncodeBlock(ss, last)
  {
    hide Expand, WellPlaced, EncodeSequences, LengthBytes, RepeatsAt, EncodeLast;
    var anchor: nat, op: nat := 0, 0;
    NothingWritten(src);
    ss := [];
    if |src| >= MIN_LENGTH {
      ghost var tried, left;
      anchor, op, ss, tried, left := CompressSequences(src, dst, table, tt, acceleration, hash);
    }
    last := src[anchor..];
    RoomForLast(|src|, op, anchor);
    HeadSize(last);
    assert Written(src, dst[..op], ss, anchor);
    result := WriteLast(src, dst, anchor, op);
    assert src == src[..anchor] + last;
  }

  lemma NothingWritten(src: seq<byte>)
    ensures Written(src, [], [], 0)
  {
  }

  // Everything up to the last literals.
  method CompressSequences(src: seq<byte>, dst: array<byte>, table: array<nat>, tt: TableType, acceleration: nat,
                           hash: Hash)
    returns (anchor: nat, op: nat, ghost ss: seq<Sequence>, ghost tried: seq<nat>, ghost left: seq<nat>)
    requires |src| >= MIN_LENGTH && dst.Length >= CompressBound(|src|) && table.Length > 0 && acceleration >= 1
    requires tt == ByU16 ==> |src| < LIMIT_64K
    requires forall h :: 0 <= h < table.Length ==> table[h] == 0
    modifies dst, table
    ensures op <= dst.Length && Written(src, dst[..op], ss, anchor)
    ensures anchor + MFLIMIT <= |src| ==>
      NothingFound(left, table[..], hash, src, anchor + 1, tried, acceleration, tt)
  {
    hide Expand, WellPlaced, EncodeSequences, LengthBytes, RepeatsAt, EncodeLast, InVain, Filled, Candidate;
    var ip: nat := 0;
    anchor, op, ss, tried, left := 0, 0, [], [], [];
    NothingWritten(src);
    assert dst[..0] == [];
    PutIndexOnHash(table, 0, HashPosition(hash, src, ip, table.Length), tt);
    ip := ip + 1;
    var forwardH: nat := HashPosition(hash, src, ip, table.Length);
    while true
      invariant ip == anchor + 1 && ip + MFLIMIT <= |src| + 1 && op <= dst.Length
      invariant forwardH == HashPosition(hash, src, ip, table.Length)
      invariant Written(src, dst[..op], ss, anchor) && Before(table[..], ip)
      decreases |src| - anchor
    {
      var found, match_;
      left := table[..];
      found, ip, match_, tried := FindMatch(src, table, ip, forwardH, acceleration, tt, hash);
      if !found {
        return;
      }
      ghost var filled := ip;
      ip, match_ := CatchUp(src, anchor, ip, match_);
      var token := op;
      op := EncodeHead(src, dst, anchor, ip, op, ss);
      ip, op, ss := EncodeMatches(src, dst, table, tt, hash, token, op, anchor, ip, match_, filled, ss);
      anchor := ip;
      if ip + MFLIMIT > |src| {
        return;
      }
      ip := ip + 1;
      forwardH := HashPosition(hash, src, ip, table.Length);
    }
  }

  method EncodeHead(src: seq<byte>, dst: array<byte>, anchor: nat, ip: nat, op0: nat,
                    ghost ss: seq<Sequence>) returns (op: nat)
    requires anchor <= ip && ip + MFLIMIT <= |src| && dst.Length >= CompressBound(|src|) && op0 <= dst.Length
    requires Written(src, dst[..op0], ss, anchor)
    modifies dst
    ensures op <= dst.Length && HeadWritten(src, dst[..op], ss, anchor, ip)
  {
    hide Expand, WellPlaced, EncodeSequences, LengthBytes, EncodeLast;
    RoomForHead(|src|, op0, anchor, ip);
    HeadSize(src[anchor..ip]);
    op := WriteHead(src, dst, anchor, ip, op0);
  }

  // LZ4_compress_generic, noDict, notLimited. Inputs that are too large are refused with 0.
  method Compress(src: seq<byte>, dst: array<byte>, table: array<nat>, tt: TableType, acceleration: nat, hash: Hash)
    returns (result: nat)
    requires dst.Length >= CompressBound(|src|) && table.Length > 0 && acceleration >= 1
    requires tt == ByU16 ==> |src| < LIMIT_64K
    requires forall h :: 0 <= h < table.Length ==> table[h] == 0
    modifies dst, table
    ensures |src| > MAX_INPUT_SIZE <==> result == 0
    ensures result <= CompressBound(|src|)
    ensures |src| <= MAX_INPUT_SIZE ==> Decode(dst[..result], 0, []) == Some(src)
    ensures |src| <= MAX_INPUT_SIZE ==> forall cap: nat :: |src| <= cap ==> Acceptable(dst[..result], cap)
  {
    hide Expand, WellPlaced, EncodeSequences, LengthBytes, EncodeLast, Decode, Strict;
    if |src| > MAX_INPUT_SIZE {
      return 0;
    }
    ghost var ss, last;
    if |src| == 0 {
      dst[0] := 0;
      result := 1;
      ss, last := [], [];
      NothingWritten(src);
      EmptyBlock(ss, last);
      assert dst[..1] == [0];
    } else {
      result, ss, last := CompressValidated(src, dst, table, tt, acceleration, hash);
    }
    forall cap: nat | |src| <= cap
      ensures Decode(dst[..result], 0, []) == Some(src) && Acceptable(dst[..result], cap)
    {
      DecodeInvertsEncode(ss, last, cap);
    }
    assert Acceptable(dst[..result], |src|);
  }
}
