/** Bytes, where they stand in a larger sequence, and the integers they make up. */
module Bytes {
  import opened Arith

  type byte = b: int | 0 <= b < 256

  datatype Option<+T> = None | Some(value: T)

  // ----- Parts of a sequence -----

  predicate StartsAt(s: seq<byte>, ip: nat, part: seq<byte>) {
    ip + |part| <= |s| && s[ip..ip + |part|] == part
  }

  lemma StartsSplit(s: seq<byte>, ip: nat, a: seq<byte>, b: seq<byte>)
    requires StartsAt(s, ip, a + b)
    ensures StartsAt(s, ip, a) && StartsAt(s, ip + |a|, b)
  {
    var ab := s[ip..ip + |a| + |b|];
    assert ab == a + b;
    assert s[ip..ip + |a|] == ab[..|a|];
    assert s[ip + |a|..ip + |a| + |b|] == ab[|a|..];
  }

  lemma StartsJoin(s: seq<byte>, ip: nat, a: seq<byte>, b: seq<byte>)
    requires StartsAt(s, ip, a) && StartsAt(s, ip + |a|, b)
    ensures StartsAt(s, ip, a + b)
  {
    assert s[ip..ip + |a| + |b|] == s[ip..ip + |a|] + s[ip + |a|..ip + |a| + |b|];
  }

  lemma StartsWith(s: seq<byte>, ip: nat, b: byte)
    requires StartsAt(s, ip, [b])
    ensures ip < |s| && s[ip] == b
  {
    assert s[ip..ip + 1][0] == b;
  }

  lemma StartsAtSlice(s: seq<byte>, from: nat, part: seq<byte>)
    requires StartsAt(s, from, part)
    ensures from + |part| <= |s| && s[from..from + |part|] == part
    ensures forall i :: 0 <= i < |part| ==> s[from + i] == part[i]
  {
    forall i | 0 <= i < |part| ensures s[from + i] == part[i] {
      assert s[from..from + |part|][i] == part[i];
    }
  }

  lemma StartsInside(s: seq<byte>, from: nat, whole: seq<byte>, at: nat, part: seq<byte>)
    requires StartsAt(s, from, whole) && StartsAt(whole, at, part)
    ensures StartsAt(s, from + at, part)
  {
    var window := s[from..from + |whole|];
    assert window == whole;
    var a := s[from + at..from + at + |part|];
    forall i | 0 <= i < |part| ensures a[i] == part[i] {
      assert part[i] == window[at + i];
    }
  }

  // The first place of b, or the length.
  function Find(s: seq<byte>, b: byte): (n: nat)
    ensures n <= |s| && (n < |s| ==> s[n] == b) && forall i :: 0 <= i < n ==> s[i] != b
  {
    if s == [] then 0 else if s[0] == b then 0 else 1 + Find(s[1..], b)
  }

  lemma FindIn(s: seq<byte>, t: seq<byte>, b: byte)
    ensures Find(s + t, b) == if Find(s, b) < |s| then Find(s, b) else |s| + Find(t, b)
  {
    var st, n := s + t, Find(s, b);
    FindIs(st, b, if n < |s| then n else |s| + Find(t, b));
  }

  lemma FindIs(s: seq<byte>, b: byte, n: nat)
    requires n <= |s| && (n < |s| ==> s[n] == b) && forall i :: 0 <= i < n ==> s[i] != b
    ensures Find(s, b) == n
  {
  }

  // ----- Big-endian integers -----

  function PutBe16(v: nat): (r: seq<byte>)
    ensures |r| == 2
  {
    [v / 256 % 256, v % 256]
  }

  function GetBe16(s: seq<byte>, at: nat): (v: nat)
    requires at + 2 <= |s|
    ensures v < 65536
  {
    256 * s[at] as int + s[at + 1] as int
  }

  // ----- Little-endian integers -----

  function Le16(lo: byte, hi: byte): nat {
    lo as int + 256 * (hi as int)
  }

  function PutLe16(v: nat): (r: seq<byte>)
    ensures |r| == 2
  {
    [v % 256, v / 256 % 256]
  }

  function GetLe16(s: seq<byte>, at: nat): nat
    requires at + 2 <= |s|
  {
    Le16(s[at], s[at + 1])
  }

  const TWO32: nat := 0x1_0000_0000

  // The low 32 bits of v, as a 32-bit field takes them.
  function PutLe32(v: nat): (r: seq<byte>)
    ensures |r| == 4
  {
    PutLe16(v % 65536) + PutLe16(v / 65536)
  }

  function GetLe32(s: seq<byte>, at: nat): nat
    requires at + 4 <= |s|
  {
    GetLe16(s, at) + 65536 * GetLe16(s, at + 2)
  }

  function Le32Bytes(v: nat): (r: seq<byte>)
    ensures |r| == 4
  {
    [v % 256, v / 256 % 256, v / 0x1_0000 % 256, v / 0x100_0000 % 256]
  }

  lemma {:induction false} Glue(a: seq<byte>, b: seq<byte>, rest: seq<byte>)
    ensures a + (b + rest) == (a + b) + rest
  {
  }

  // Which byte is which.
  lemma {:induction false} BytesOfFields(v: nat)
    ensures PutBe16(v) == [v / 256 % 256, v % 256] && PutLe16(v) == [v % 256, v / 256 % 256]
    ensures PutLe32(v) == Le32Bytes(v)
  {
    var low, high := v % 65536, v / 65536;
    assert v == 256 * (256 * high + low / 256) + low % 256;
    assert low / 256 == v / 256 % 256 by {
      ModUnique(v / 256, 256, high, low / 256);
    }
    assert high / 256 == v / 0x100_0000;
  }

  lemma {:induction false} FieldsFromBytes(s: seq<byte>, at: nat)
    requires at + 2 <= |s|
    ensures var b0: int, b1: int := s[at], s[at + 1];
            GetBe16(s, at) == 256 * b0 + b1 && GetLe16(s, at) == b0 + 256 * b1
    ensures at + 4 <= |s| ==>
      var b0: int, b1: int, b2: int, b3: int := s[at], s[at + 1], s[at + 2], s[at + 3];
      GetLe32(s, at) == b0 + 0x100 * b1 + 0x1_0000 * b2 + 0x100_0000 * b3
  {
  }

  lemma GetPut16(s: seq<byte>, at: nat, v: nat)
    requires StartsAt(s, at, PutLe16(v))
    ensures GetLe16(s, at) == v % 65536
  {
    StartsAtSlice(s, at, PutLe16(v));
    assert s[at + 0] == PutLe16(v)[0] && s[at + 1] == PutLe16(v)[1];
    assert v % 65536 == 256 * (v / 256 % 256) + v % 256;
  }

  lemma GetPut32(s: seq<byte>, at: nat, v: nat)
    requires StartsAt(s, at, PutLe32(v))
    ensures GetLe32(s, at) == v % TWO32
  {
    hide PutLe16, GetLe16;
    StartsSplit(s, at, PutLe16(v % 65536), PutLe16(v / 65536));
    GetPut16(s, at, v % 65536);
    GetPut16(s, at + 2, v / 65536);
    Halves(v);
  }

  lemma PutGet16(s: seq<byte>, at: nat)
    requires at + 2 <= |s|
    ensures StartsAt(s, at, PutLe16(GetLe16(s, at)))
  {
    assert s[at..at + 2] == [s[at], s[at + 1]];
  }

  lemma {:induction false} PutGet32(s: seq<byte>, at: nat)
    requires at + 4 <= |s|
    ensures StartsAt(s, at, PutLe32(GetLe32(s, at))) && GetLe32(s, at) < TWO32
  {
    var low, high := GetLe16(s, at), GetLe16(s, at + 2);
    hide PutLe16, GetLe16, StartsAt;
    ModUnique(GetLe32(s, at), 65536, high, low);
    PutGet16(s, at);
    PutGet16(s, at + 2);
    StartsJoin(s, at, PutLe16(low), PutLe16(high));
  }

  lemma Halves(v: nat)
    ensures v % 65536 % 65536 + 65536 * (v / 65536 % 65536) == v % TWO32
  {
    var high, low := v / 65536, v % 65536;
    ModUnique(low, 65536, 0, low);
    ModUnique(v, TWO32, high / 65536, 65536 * (high % 65536) + low);
  }
}
