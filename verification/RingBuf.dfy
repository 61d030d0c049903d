/** The byte queue of inc/ringbuf.h: a power-of-two array indexed by masking. */
module RingBuf {
  import opened Arith
  import opened Bytes

  // ----- Masking -----

  function Pow2(k: nat): (r: nat)
    ensures r >= 1
  {
    if k == 0 then 1 else 2 * Pow2(k - 1)
  }

  // Bitwise and of two unsigned numbers, bit by bit.
  function And(a: nat, b: nat): nat {
    if a == 0 || b == 0 then 0
    else 2 * And(a / 2, b / 2) + (if a % 2 == 1 && b % 2 == 1 then 1 else 0)
  }

  ghost predicate IsPow2(size: nat) {
    exists k: nat :: size == Pow2(k)
  }

  lemma {:induction false} MaskIsMod(x: nat, k: nat)
    ensures And(x, Pow2(k) - 1) == x % Pow2(k)
  {
    hide And;
    if k == 0 {
      AndNothing(x);
      ModUnique(x, 1, x, 0);
    } else if x == 0 {
      AndNothing(Pow2(k) - 1);
    } else {
      var half := Pow2(k - 1);
      MaskIsMod(x / 2, k - 1);
      AndStep(x, half);
      ModHalves(x, half);
    }
  }

  lemma {:induction false} AndNothing(x: nat)
    ensures And(x, 0) == And(0, x) == 0
  {
  }

  lemma {:induction false} AndStep(x: nat, half: nat)
    requires x > 0 && half > 0
    ensures And(x, 2 * half - 1) == 2 * And(x / 2, half - 1) + x % 2
  {
    assert (2 * half - 1) / 2 == half - 1 && (2 * half - 1) % 2 == 1;
  }

  lemma ModHalves(x: nat, half: nat)
    requires half > 0
    ensures x % (2 * half) == 2 * (x / 2 % half) + x % 2
  {
    var q, r := x / 2 / half, x / 2 % half;
    assert x == 2 * half * q + (2 * r + x % 2) by {
      assert x / 2 == half * q + r;
    }
    ModUnique(x, 2 * half, q, 2 * r + x % 2);
  }

  // What every index computation in the ring comes to.
  function Wrap(x: nat, size: nat): nat {
    if x < size then x else x - size
  }

  lemma MaskWraps(x: nat, size: nat)
    requires IsPow2(size) && x < 2 * size
    ensures And(x, size - 1) == Wrap(x, size)
  {
    var k: nat :| size == Pow2(k);
    MaskIsMod(x, k);
    ModUnique(x, size, if x < size then 0 else 1, Wrap(x, size));
  }

  // ----- The bytes waiting between start and start + len -----

  ghost function Window(b: seq<byte>, start: nat, len: nat): (w: seq<byte>)
    requires start < |b| && len <= |b|
    ensures |w| == len
  {
    if start + len <= |b| then b[start..start + len]
    else b[start..] + b[..start + len - |b|]
  }

  // The i-th byte from start, going round.
  ghost function At(b: seq<byte>, start: nat, i: nat): byte
    requires start < |b| && i < |b|
  {
    b[Wrap(start + i, |b|)]
  }

  lemma {:induction false} WindowAt(b: seq<byte>, start: nat, len: nat, i: nat)
    requires start < |b| && i < len <= |b|
    ensures Window(b, start, len)[i] == At(b, start, i)
  {
  }

  lemma {:induction false} EatenFromFront(b: seq<byte>, start: nat, len: nat, n: nat)
    requires start < |b| && n <= len <= |b|
    ensures Window(b, Wrap(start + n, |b|), len - n) == Window(b, start, len)[n..]
  {
    hide Window;
    var rest, whole := Window(b, Wrap(start + n, |b|), len - n), Window(b, start, len);
    forall i | 0 <= i < |rest| ensures rest[i] == whole[n..][i] {
      WindowAt(b, Wrap(start + n, |b|), len - n, i);
      WindowAt(b, start, len, n + i);
    }
  }

  class RingBuf {
    const size: nat
    var start: nat
    var len: nat
    const buf: array<byte>

    ghost predicate Valid()
      reads this, buf
    {
      size == buf.Length && IsPow2(size) && size > 0 && start < size && len <= size
    }

    // The queue this ring stands for.
    ghost function Contents(): seq<byte>
      reads this, buf
      requires Valid()
    {
      Window(buf[..], start, len)
    }

    constructor (size: nat)
      requires IsPow2(size) && size > 0
      ensures Valid() && fresh(buf) && this.size == size && start == 0 && Contents() == []
    {
      this.size := size;
      start, len := 0, 0;
      buf := new byte[size](_ => 0);
    }

    // Starts over with an empty queue.
    method Init()
      requires Valid()
      modifies this
      ensures Valid() && start == 0 && Contents() == []
    {
      start, len := 0, 0;
    }

    method Room() returns (n: nat)
      requires Valid()
      ensures n == size - |Contents()|
    {
      n := size - len;
    }

    // The bytes at the front that lie in one piece.
    method Span() returns (at: nat, run: nat)
      requires Valid()
      ensures at + run <= buf.Length && run == Lesser(|Contents()|, size - start)
      ensures Contents()[..run] == buf[at..at + run]
      ensures run == 0 <==> Contents() == []
    {
      run := size - start;
      at := start;
      if run > len {
        run := len;
      }
    }

    method Put(c: byte)
      requires Valid() && |Contents()| < size
      modifies `len, buf
      ensures Valid() && Contents() == old(Contents()) + [c]
    {
      MaskWraps(start + len, size);
      buf[And(start + len, size - 1)] := c;
      len := len + 1;
    }

    method Nomnom(n: nat)
      requires Valid() && n <= |Contents()|
      modifies this
      ensures Valid() && Contents() == old(Contents())[n..] && start == Wrap(old(start) + n, size)
    {
      hide And, Window, IsPow2;
      MaskWraps(start + n, size);
      EatenFromFront(buf[..], start, len, n);
      start := And(start + n, size - 1);
      len := len - n;
    }

    // All of the bytes or none of them.
    method Add(data: seq<byte>) returns (ok: bool)
      requires Valid()
      modifies `len, buf
      ensures Valid() && ok == (|old(Contents())| + |data| <= size)
      ensures Contents() == if ok then old(Contents()) + data else old(Contents())
    {
      hide And, Window, IsPow2;
      MaskWraps(start + len, size);
      var end := And(start + len, size - 1);
      var run := size - end;
      if |data| > size - len {
        return false;
      }
      if run > |data| {
        run := |data|;
      }
      ghost var was := buf[..];
      CopyAround(buf, end, run, data);
      TwoCopies(was, buf[..], start, len, end, run, data);
      len := len + |data|;
      ok := true;
    }
  }

  method Memcpy(dst: array<byte>, at: nat, data: seq<byte>)
    requires at + |data| <= dst.Length
    modifies dst
    ensures forall i :: 0 <= i < dst.Length ==>
      dst[i] == if at <= i < at + |data| then data[i - at] else old(dst[i])
  {
    forall i | 0 <= i < |data| {
      dst[at + i] := data[i];
    }
  }

  // The first run bytes at end, the others at the front.
  method CopyAround(dst: array<byte>, end: nat, run: nat, data: seq<byte>)
    requires run <= |data| && end + run <= dst.Length && |data| - run <= end
    modifies dst
    ensures forall k :: 0 <= k < dst.Length ==>
      dst[k] == if k < |data| - run then data[run + k] else if end <= k < end + run then data[k - end] else old(dst[k])
  {
    Memcpy(dst, end, data[..run]);
    Memcpy(dst, 0, data[run..]);
  }

  // The data cut in two at the end of the array lands behind what was queued.
  lemma TwoCopies(b: seq<byte>, b': seq<byte>, start: nat, len: nat, end: nat, run: nat, data: seq<byte>)
    requires start < |b| == |b'| && len + |data| <= |b|
    requires end == Wrap(start + len, |b|) && end < |b|
    requires run == if |b| - end > |data| then |data| else |b| - end
    requires forall k :: 0 <= k < |b| ==>
      b'[k] == if k < |data| - run then data[run + k] else if end <= k < end + run then data[k - end] else b[k]
    ensures Window(b', start, len + |data|) == Window(b, start, len) + data
  {
    forall i | 0 <= i < len ensures At(b', start, i) == At(b, start, i) {
    }
    forall i | len <= i < len + |data| ensures At(b', start, i) == data[i - len] {
    }
    AddedBehind(b, b', start, len, data);
  }

  // Writing data at the free positions queues it behind what was there.
  lemma {:induction false} AddedBehind(b: seq<byte>, b': seq<byte>, start: nat, len: nat, data: seq<byte>)
    requires start < |b| == |b'| && len + |data| <= |b|
    requires forall i :: 0 <= i < len ==> At(b', start, i) == At(b, start, i)
    requires forall i :: len <= i < len + |data| ==> At(b', start, i) == data[i - len]
    ensures Window(b', start, len + |data|) == Window(b, start, len) + data
  {
    hide Window, At;
    var w := Window(b', start, len + |data|);
    forall i | 0 <= i < |w| ensures w[i] == (Window(b, start, len) + data)[i] {
      WindowAt(b', start, len + |data|, i);
      if i < len {
        WindowAt(b, start, len, i);
      }
    }
  }
}
