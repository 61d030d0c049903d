/** Two ways to write choice and majority. */
module BitTricks {
  lemma ChoiceTrick(e: bv32, f: bv32, g: bv32)
    ensures g ^ (e & (f ^ g)) == (e & f) ^ (!e & g)
  {
  }

  lemma MajorityTrick(a: bv32, b: bv32, c: bv32)
    ensures ((a | b) & c) | (a & b) == (a & b) ^ (a & c) ^ (b & c)
  {
  }
}

/** SHA-256 the way thirdparty/lonesha256.h computes it, over arrays that are updated in place. */
module Lonesha256 {
  import opened Arith
  import opened BitTricks
  import opened Sha256Spec

  // ----- The macros -----

  function Gamma0(x: bv32): (r: bv32)
    ensures r == SmallSigma0(x)
  {
    ((((x & 0xffff_ffff) >> 7) | (x << 25)) & 0xffff_ffff) ^
    ((((x & 0xffff_ffff) >> 18) | (x << 14)) & 0xffff_ffff) ^
    ((x & 0xffff_ffff) >> 3)
  }

  function Gamma1(x: bv32): (r: bv32)
    ensures r == SmallSigma1(x)
  {
    ((((x & 0xffff_ffff) >> 17) | (x << 15)) & 0xffff_ffff) ^
    ((((x & 0xffff_ffff) >> 19) | (x << 13)) & 0xffff_ffff) ^
    ((x & 0xffff_ffff) >> 10)
  }

  function T0Sum(e: bv32): (r: bv32)
    ensures r == BigSigma1(e)
  {
    ((((e & 0xffff_ffff) >> 6) | (e << 26)) & 0xffff_ffff) ^
    ((((e & 0xffff_ffff) >> 11) | (e << 21)) & 0xffff_ffff) ^
    ((((e & 0xffff_ffff) >> 25) | (e << 7)) & 0xffff_ffff)
  }

  function T1Sum(a: bv32): (r: bv32)
    ensures r == BigSigma0(a)
  {
    ((((a & 0xffff_ffff) >> 2) | (a << 30)) & 0xffff_ffff) ^
    ((((a & 0xffff_ffff) >> 13) | (a << 19)) & 0xffff_ffff) ^
    ((((a & 0xffff_ffff) >> 22) | (a << 10)) & 0xffff_ffff)
  }

  // Choice and majority are written with fewer operations.
  function Choice(e: bv32, f: bv32, g: bv32): (r: bv32)
    ensures r == Ch(e, f, g)
  {
    ChoiceTrick(e, f, g);
    g ^ (e & (f ^ g))
  }

  function Majority(a: bv32, b: bv32, c: bv32): (r: bv32)
    ensures r == Maj(a, b, c)
  {
    MajorityTrick(a, b, c);
    ((a | b) & c) | (a & b)
  }

  const TWO64: nat := 0x1_0000_0000_0000_0000

  // ----- The last one or two blocks -----

  function Tail(rest: seq<bv8>, bits: nat): (t: seq<bv8>)
    requires |rest| < 64
    ensures |t| == if |rest| < 56 then 64 else 128
  {
    rest + [0x80] + Zeros(Filling(|rest|)) + LengthBytes(bits)
  }

  function Final(s: State, tail: seq<bv8>): State
    requires |tail| == 64 || |tail| == 128
  {
    if |tail| == 64 then Compress(s, tail) else Compress(Compress(s, tail[..64]), tail[64..])
  }

  lemma TailParts(rest: seq<bv8>, bits: nat)
    requires |rest| < 64
    ensures var t := Tail(rest, bits);
            if |rest| < 56 then t == rest + [0x80] + Zeros(56 - (|rest| + 1)) + LengthBytes(bits)
            else t[..64] == rest + [0x80] + Zeros(64 - (|rest| + 1)) && t[64..] == [] + Zeros(56) + LengthBytes(bits)
  {
    hide LengthBytes;
  }

  // They finish the padded message.
  lemma FinalIsPad(m: seq<bv8>, rest: nat)
    requires rest < 64 && rest <= |m| && (|m| - rest) % 64 == 0
    ensures Final(Blocks(m[..|m| - rest]), Tail(m[|m| - rest..], 8 * |m|)) == Blocks(Pad(m))
  {
    hide Compress, Zeros, LengthBytes, Blocks;
    var front, t := m[..|m| - rest], Tail(m[|m| - rest..], 8 * |m|);
    assert |m| % 64 == rest;
    assert m == front + m[|m| - rest..];
    assert Pad(m) == front + t;
    if |t| == 64 {
      BlocksOfTwo(front, t);
    } else {
      BlocksOfTwo(front, t[..64]);
      BlocksOfTwo(front + t[..64], t[64..]);
      assert front + t == front + t[..64] + t[64..];
    }
  }

  // ----- The working arrays -----

  function AsState(s: seq<bv32>): State
    requires |s| == 8
  {
    State(s[0], s[1], s[2], s[3], s[4], s[5], s[6], s[7])
  }

  class Hash {
    const state: array<bv32>
    const s: array<bv32>
    const w: array<bv32>
    const buf: array<bv8>
    var length: nat          // in bits, 64 bits of them

    constructor ()
      ensures Valid() && AsState(state[..]) == H0 && length == 0
      ensures fresh(state) && fresh(s) && fresh(w) && fresh(buf)
    {
      state := new bv32[8];
      s, w, buf := new bv32[8](_ => 0), new bv32[64](_ => 0), new bv8[64](_ => 0);
      length := 0;
      new;
      state[0], state[1], state[2], state[3] := 0x6a09e667, 0xbb67ae85, 0x3c6ef372, 0xa54ff53a;
      state[4], state[5], state[6], state[7] := 0x510e527f, 0x9b05688c, 0x1f83d9ab, 0x5be0cd19;
    }

    ghost predicate Valid()
    {
      state.Length == s.Length == 8 && w.Length == buf.Length == 64 && state != s && state != w && s != w
    }

    // W: the words of the block, and what is made of them.
    method Expand(block: seq<bv8>)
      requires Valid() && |block| == 64
      modifies w
      ensures forall t :: 0 <= t < 64 ==> w[t] == Schedule(block, t)
    {
      hide Add, SmallSigma0, SmallSigma1, Gamma0, Gamma1, Load;
      var i := 0;
      while i < 16
        invariant i <= 16 && forall t :: 0 <= t < i ==> w[t] == Schedule(block, t)
      {
        w[i] := Load(block, i);
        i := i + 1;
      }
      while i < 64
        invariant 16 <= i <= 64 && forall t :: 0 <= t < i ==> w[t] == Schedule(block, t)
      {
        w[i] := Add(Add(Add(Gamma1(w[i - 2]), w[i - 7]), Gamma0(w[i - 15])), w[i - 16]);
        i := i + 1;
      }
    }

    // RND, and every word moved up by one.
    method OneRound(i: nat)
      requires Valid() && i < 64
      modifies s
      ensures AsState(s[..]) == Round(old(AsState(s[..])), Constant(i), w[i])
    {
      hide Add, BigSigma0, BigSigma1, Ch, Maj, T0Sum, T1Sum, Choice, Majority, Constant;
      var t0 := Add(Add(Add(Add(s[7], T0Sum(s[4])), Choice(s[4], s[5], s[6])), Constant(i)), w[i]);
      var t1 := Add(T1Sum(s[0]), Majority(s[0], s[1], s[2]));
      s[3] := Add(s[3], t0);
      s[7] := Add(t0, t1);
      var t := s[7];
      s[7] := s[6];
      s[6] := s[5];
      s[5] := s[4];
      s[4] := s[3];
      s[3] := s[2];
      s[2] := s[1];
      s[1] := s[0];
      s[0] := t;
    }

    // SHA256_COMPRESS
    method CompressBlock(block: seq<bv8>)
      requires Valid() && |block| == 64
      modifies state, s, w
      ensures AsState(state[..]) == Compress(old(AsState(state[..])), block)
    {
      hide Add, Schedule, Round, Constant;
      ghost var h := AsState(state[..]);
      forall i | 0 <= i < 8 {
        s[i] := state[i];
      }
      Expand(block);
      var i := 0;
      while i < 64
        invariant i <= 64 && AsState(s[..]) == Rounds(h, block, i) && AsState(state[..]) == h
        invariant forall t :: 0 <= t < 64 ==> w[t] == Schedule(block, t)
      {
        OneRound(i);
        i := i + 1;
      }
      forall j | 0 <= j < 8 {
        state[j] := Add(state[j], s[j]);
      }
    }

    // ----- The end of the message -----

    method ZeroUpTo(from: nat, to0: nat)
      requires Valid() && from <= to0 <= 64
      modifies buf
      ensures buf[..to0] == old(buf[..from]) + Zeros(to0 - from)
    {
      ghost var was := buf[..from];
      var len := from;
      while len < to0
        invariant from <= len <= to0 && buf[..len] == was + Zeros(len - from)
      {
        buf[len] := 0;
        len := len + 1;
      }
    }

    method StoreLength()
      requires Valid()
      modifies buf
      ensures buf[..] == old(buf[..56]) + LengthBytes(length)
    {
      var bytes := LengthBytes(length);
      forall i | 0 <= i < 8 {
        buf[56 + i] := bytes[i];
      }
    }

    method StoreDigest(out: array<bv8>)
      requires Valid() && out.Length == 32 && out != buf
      modifies out
      ensures out[..] == Digest(AsState(state[..]))
    {
      hide Store, StoreAll;
      var i := 0;
      StoreOneMore(state[..], 0);
      while i < 8
        invariant i <= 8 && out[..4 * i] == StoreAll(state[..i])
      {
        ghost var before := out[..4 * i];
        var bytes := Store(state[i]);
        out[4 * i], out[4 * i + 1], out[4 * i + 2], out[4 * i + 3] := bytes[0], bytes[1], bytes[2], bytes[3];
        StoreOneMore(state[..], i);
        assert state[..][..i] == state[..i] && state[..][..i + 1] == state[..i + 1];
        i := i + 1;
        assert out[..4 * i] == before + bytes;
      }
      assert out[..] == out[..32] && state[..8] == state[..];
      assert state[..] == [state[0], state[1], state[2], state[3], state[4], state[5], state[6], state[7]];
    }

    // Padding and length behind the last bytes of the message, which are in buf.
    method Finish(out: array<bv8>, rest: nat)
      requires Valid() && out.Length == 32 && out != buf && rest < 64
      modifies this, state, s, w, buf, out
      ensures var tail := Tail(old(buf[..rest]), (old(length) + 8 * rest) % TWO64);
              out[..] == Digest(Final(old(AsState(state[..])), tail))
    {
      hide Compress, Zeros, LengthBytes, Digest;
      ghost var bytes := buf[..rest];
      var len := rest;
      length := (length + len * 8) % TWO64;
      TailParts(bytes, length);
      buf[len] := 0x80;
      len := len + 1;
      assert buf[..len] == bytes + [0x80];
      if len > 56 {
        ZeroUpTo(len, 64);
        assert buf[..] == buf[..64];
        CompressBlock(buf[..]);
        len := 0;
      }
      ghost var front := buf[..len];
      ZeroUpTo(len, 56);
      StoreLength();
      CompressBlock(buf[..]);
      StoreDigest(out);
    }

    // The state is that of the first at bytes of m.
    ghost predicate Did(m: seq<bv8>, at: nat)
      reads this, state
    {
      Valid() && at % 64 == 0 && at <= |m| < 0x2000_0000_0000_0000 && length == 8 * at &&
          AsState(state[..]) == Blocks(m[..at])
    }

    lemma DidNothing(m: seq<bv8>)
      requires Valid() && AsState(state[..]) == H0 && length == 0 && |m| < 0x2000_0000_0000_0000
      ensures Did(m, 0)
    {
      NoBlocks(m);
    }

    // What is left to do is what Finish does.
    lemma DidAll(m: seq<bv8>, at: nat)
      requires Did(m, at) && at <= |m| < at + 64
      ensures Digest(Final(AsState(state[..]), Tail(m[at..], (length + 8 * (|m| - at)) % TWO64))) == Sha256(m)
    {
      hide Blocks, Compress, Tail, Final, Digest, Pad;
      FinalIsPad(m, |m| - at);
    }

    method Absorb(block: seq<bv8>, ghost m: seq<bv8>, ghost at: nat)
      requires Valid() && |block| == 64
      modifies this, state, s, w
      ensures old(Did(m, at)) && at + 64 <= |m| && block == m[at..at + 64] ==> Did(m, at + 64)
    {
      hide Blocks, Compress;
      if Did(m, at) && at + 64 <= |m| {
        MoreBlocks(m, at);
      }
      CompressBlock(block);
      length := (length + 64 * 8) % TWO64;
    }

    method KeepRest(inp: array<bv8>, at: nat, len: nat)
      requires Valid() && len < 64 && at + len <= inp.Length && inp != buf
      modifies buf
      ensures buf[..len] == inp[at..at + len]
    {
      forall i | 0 <= i < len {
        buf[i] := inp[at + i];
      }
    }

    // lonesha256_fixed
    method Fixed(out: array<bv8>, inp: array<bv8>, len0: nat)
      requires Valid() && out.Length == 32 && out != buf && len0 <= inp.Length && inp != buf && inp != out
      requires AsState(state[..]) == H0 && length == 0 && len0 < 0x2000_0000_0000_0000
      modifies this, state, s, w, buf, out
      ensures out[..] == Sha256(inp[..len0])
    {
      hide Blocks, Compress, Tail, Final, Digest, Did;
      ghost var m := inp[..][..len0];
      assert m == inp[..len0];
      var at: nat, len: nat := 0, len0;
      DidNothing(m);
      while len >= 64
        invariant at + len == len0 && Did(m, at)
      {
        SliceOf(inp[..], len0, at, 64);
        Absorb(inp[at..at + 64], m, at);
        at, len := at + 64, len - 64;
      }
      KeepRest(inp, at, len);
      SliceOf(inp[..], len0, at, len);
      DidAll(m, at);
      Finish(out, len);
    }

    // lonesha256_stream; the file may end early, which leaves the rest of buf as it was. Then fewer
    // bytes were read than asked for, and only then: what sha256sum looks at before it prints.
    method Stream(out: array<bv8>, file: Source, len0: nat) returns (r: int)
      requires Valid() && out.Length == 32 && out != buf && file.pos == 0
      requires AsState(state[..]) == H0 && length == 0 && len0 < 0x2000_0000_0000_0000
      modifies this, state, s, w, buf, out, file
      ensures r == 0 ==> (file.pos >= len0 <==> |file.data| >= len0)
      ensures r == 0 && |file.data| >= len0 ==> out[..] == Sha256(file.data[..len0])
      ensures r == if ReadsFine(old(file.failures), len0 / 64 + 1) then 0 else 1
    {
      hide Blocks, Compress, Tail, Final, Digest, Did, Sha256, Zeros, AsState, ReadsFine, After;
      ghost var m := if len0 <= |file.data| then file.data[..len0] else Zeros(len0);
      var len: nat := len0;
      ghost var at: nat, n: nat, fails := 0, 0, file.failures;
      DidNothing(m);
      NoReads(fails);
      while len >= 64
        invariant at + len == len0 && |m| == len0
        invariant file.pos == Lesser(at, |file.data|) && at == 64 * n
        invariant ReadsFine(fails, n) && file.failures == After(fails, n)
        invariant len0 <= |file.data| ==> Did(m, at)
      {
        NextRead(fails, n, len0 / 64 + 1);
        r := file.ReadBlock(buf);
        if r != 0 {
          return 1;
        }
        assert len0 <= |file.data| ==> buf[..] == m[at..at + 64];
        Absorb(buf[..], m, at);
        len, at, n := len - 64, at + 64, n + 1;
      }
      NextRead(fails, n, len0 / 64 + 1);
      r := file.ReadBlock(buf);
      if r != 0 {
        return 1;
      }
      if len0 <= |file.data| {
        assert buf[..len] == m[at..];
        DidAll(m, at);
      }
      Finish(out, len);
      r := 0;
    }
  }

  // None of the first n reads fails.
  predicate ReadsFine(failures: seq<bool>, n: nat) {
    true !in failures[..Lesser(n, |failures|)]
  }

  function After(failures: seq<bool>, n: nat): seq<bool> {
    failures[Lesser(n, |failures|)..]
  }

  lemma NoReads(failures: seq<bool>)
    ensures ReadsFine(failures, 0) && After(failures, 0) == failures
  {
  }

  lemma {:induction false} NextRead(failures: seq<bool>, n: nat, all: nat)
    requires ReadsFine(failures, n) && n < all
    ensures ReadsFine(failures, n + 1) <==> ReadsFine(After(failures, n), 1)
    ensures After(After(failures, n), 1) == After(failures, n + 1)
    ensures !ReadsFine(failures, n + 1) ==> !ReadsFine(failures, all)
  {
    if n < |failures| {
      assert failures[..n + 1] == failures[..n] + [failures[n]];
      assert After(failures, n)[..1] == [failures[n]];
      assert failures[n] in failures[..Lesser(all, |failures|)];
    }
  }

  // The callback of sha256sum.c: a block of the file, short only at its end, and failures.
  class Source {
    const data: seq<bv8>
    var pos: nat
    var failures: seq<bool>

    constructor (data: seq<bv8>, failures: seq<bool>)
      ensures this.data == data && pos == 0 && this.failures == failures
    {
      this.data, pos, this.failures := data, 0, failures;
    }

    method ReadBlock(block: array<bv8>) returns (r: int)
      requires block.Length == 64 && pos <= |data|
      modifies this, block
      ensures r == 0 <==> ReadsFine(old(failures), 1)
      ensures failures == After(old(failures), 1)
      ensures r == 0 ==> pos == Lesser(old(pos) + 64, |data|)
      ensures r == 0 ==> forall i :: 0 <= i < 64 ==>
        block[i] == if old(pos) + i < |data| then data[old(pos) + i] else old(block[i])
    {
      if failures != [] {
        var fails := failures[0];
        failures := failures[1..];
        if fails {
          return 1;
        }
      }
      var got := if pos + 64 > |data| then |data| - pos else 64;
      forall i | 0 <= i < got {
        block[i] := data[pos + i];
      }
      pos := pos + got;
      r := 0;
    }
  }

  lemma SliceOf(inp: seq<bv8>, len: nat, at: nat, n: nat)
    requires at + n <= len <= |inp|
    ensures inp[at..at + n] == inp[..len][at..at + n] && inp[..len][at..at + n] == inp[..at + n][at..]
  {
  }

  lemma NoBlocks(m: seq<bv8>)
    ensures Blocks(m[..0]) == H0
  {
  }

  lemma MoreBlocks(m: seq<bv8>, at: nat)
    requires at % 64 == 0 && at + 64 <= |m|
    ensures Blocks(m[..at + 64]) == Compress(Blocks(m[..at]), m[at..at + 64])
  {
    BlocksOfTwo(m[..at], m[at..at + 64]);
    assert m[..at + 64] == m[..at] + m[at..at + 64];
  }

  lemma BlocksOfTwo(p: seq<bv8>, b: seq<bv8>)
    requires |p| % 64 == 0 && |b| == 64
    ensures Blocks(p + b) == Compress(Blocks(p), b)
  {
    hide Compress;
    assert (p + b)[..|p + b| - 64] == p && (p + b)[|p + b| - 64..] == b;
  }
}
