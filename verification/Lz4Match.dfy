/** How LZ4_compress_generic looks for matches: the hash table, the search, and the counting. */
module Lz4Match {
  import opened Bytes
  import opened Lz4Format

  const DISTANCE_MAX: nat := 65535
  const LIMIT_64K: nat := 65536 + 11
  const SKIP_TRIGGER_ONE: nat := 64

  datatype TableType = ByU16 | ByU32

  // Any function of the 8 bytes at a position: nothing below depends on which.
  type Hash = seq<byte> -> nat

  function HashPosition(hash: Hash, src: seq<byte>, p: nat, size: nat): (h: nat)
    requires p + 8 <= |src| && size > 0
    ensures h < size
  {
    hash(src[p..p + 8]) % size
  }

  // A 16-bit table keeps the low half of an index.
  method PutIndexOnHash(table: array<nat>, idx: nat, h: nat, tt: TableType)
    requires h < table.Length && (tt == ByU16 ==> idx < 65536)
    modifies table
    ensures table[..] == old(table[..])[h := idx]
  {
    table[h] := if tt == ByU16 then idx % 65536 else idx;
  }

  // Every position in the table comes before this one.
  ghost predicate Before(table: seq<nat>, bound: nat) {
    forall h :: 0 <= h < |table| ==> table[h] < bound
  }

  // How many leading bytes two words share (LZ4_NbCommonBytes of their difference).
  function CommonBytes(a: seq<byte>, b: seq<byte>): (n: nat)
    requires |a| == |b|
    ensures n <= |a| && (n < |a| ==> a[n] != b[n])
    ensures forall i :: 0 <= i < n ==> a[i] == b[i]
  {
    if a == [] || a[0] != b[0] then 0 else 1 + CommonBytes(a[1..], b[1..])
  }

  lemma SameWord(src: seq<byte>, p: nat, offset: nat, n: nat)
    requires 0 < offset <= p && p + n <= |src|
    ensures src[p - offset..p - offset + n] == src[p..p + n] <==> Repeats(src, p, p + n, offset)
  {
    var a, b := src[p - offset..p - offset + n], src[p..p + n];
    if a == b {
      forall k | p <= k < p + n ensures RepeatsAt(src, k, offset) {
        assert a[k - p] == b[k - p];
      }
    }
    if Repeats(src, p, p + n, offset) {
      forall i | 0 <= i < n ensures a[i] == b[i] {
        assert RepeatsAt(src, p + i, offset);
      }
    }
  }

  lemma SharedBytes(src: seq<byte>, p: nat, offset: nat, n: nat)
    requires 0 < offset <= p && p + n <= |src|
    ensures var c := CommonBytes(src[p - offset..p - offset + n], src[p..p + n]);
            Repeats(src, p, p + c, offset) && (c < n ==> !RepeatsAt(src, p + c, offset))
  {
    var a, b := src[p - offset..p - offset + n], src[p..p + n];
    var c := CommonBytes(a, b);
    forall k | p <= k < p + c ensures RepeatsAt(src, k, offset) {
      assert a[k - p] == b[k - p];
    }
  }

  // LZ4_count: the length of the common run, in words while there are words.
  method Count(src: seq<byte>, pStart: nat, pMatch0: nat, limit: nat) returns (n: nat)
    requires pMatch0 < pStart <= limit <= |src|
    ensures pStart + n <= limit && Repeats(src, pStart, pStart + n, pStart - pMatch0)
    ensures pStart + n < limit ==> !RepeatsAt(src, pStart + n, pStart - pMatch0)
  {
    hide RepeatsAt, CommonBytes;
    var pIn, pMatch := pStart, pMatch0;
    while pIn + 7 < limit
      invariant pStart <= pIn <= limit && pIn - pMatch == pStart - pMatch0
      invariant Repeats(src, pStart, pIn, pStart - pMatch0)
    {
      SharedBytes(src, pIn, pIn - pMatch, 8);
      var common := CommonBytes(src[pMatch..pMatch + 8], src[pIn..pIn + 8]);
      if common < 8 {
        return pIn + common - pStart;
      }
      pIn, pMatch := pIn + 8, pMatch + 8;
    }
    var tail := CountTail(src, pIn, pMatch, limit);
    n := pIn - pStart + tail;
  }

  // The last bytes, by halves; fewer than 8 are left.
  method CountTail(src: seq<byte>, pIn: nat, pMatch: nat, limit: nat) returns (n: nat)
    requires pMatch < pIn <= limit <= |src| && limit < pIn + 8
    ensures pIn + n <= limit && Repeats(src, pIn, pIn + n, pIn - pMatch)
    ensures pIn + n < limit ==> !RepeatsAt(src, pIn + n, pIn - pMatch)
  {
    hide RepeatsAt;
    n := TailStep(src, pIn, pMatch, limit, 4);
    var n2 := TailStep(src, pIn + n, pMatch + n, limit, 2);
    n := n + n2;
    var n1 := TailStep(src, pIn + n, pMatch + n, limit, 1);
    n := n + n1;
  }

  // Takes width bytes if they are there and the same.
  method TailStep(src: seq<byte>, pIn: nat, pMatch: nat, limit: nat, width: nat) returns (n: nat)
    requires pMatch < pIn <= limit <= |src| && width > 0
    ensures n == 0 || n == width
    ensures n == width <==> pIn + width <= limit && Repeats(src, pIn, pIn + width, pIn - pMatch)
  {
    n := 0;
    if pIn + (width - 1) < limit {
      SameWord(src, pIn, pIn - pMatch, width);
      if src[pMatch..pMatch + width] == src[pIn..pIn + width] {
        n := width;
      }
    }
  }

  // ----- The search -----

  // The bytes at p are those at m, near enough; in a small input everything is.
  ghost predicate Hits(src: seq<byte>, p: nat, m: nat, tt: TableType) {
    m < p && p + MINMATCH <= |src| && (tt == ByU16 || p - m <= DISTANCE_MAX) && Repeats(src, p, p + MINMATCH, p - m)
  }

  // Everything the table holds may be used at current, and nothing else can be in it.
  method TryPosition(src: seq<byte>, table: array<nat>, h: nat, current: nat, tt: TableType)
    returns (hit: bool, match_: nat)
    requires h < table.Length && Before(table[..], current) && current + MFLIMIT <= |src|
    requires tt == ByU16 ==> |src| < LIMIT_64K
    modifies table
    ensures match_ == old(table[h]) && table[..] == old(table[..])[h := current]
    ensures Before(table[..], current + 1)
    ensures match_ < current
    ensures hit <==> Hits(src, current, match_, tt)
    ensures hit ==> current - match_ <= DISTANCE_MAX && Repeats(src, current, current + MINMATCH, current - match_)
  {
    match_ := table[h];
    PutIndexOnHash(table, current, h, tt);
    SameWord(src, current, current - match_, MINMATCH);
    if tt != ByU16 && match_ + DISTANCE_MAX < current {
      return false, match_;
    }
    hit := src[match_..match_ + 4] == src[current..current + 4];
  }

  // The table once these positions were tried, one after the other.
  ghost predicate Positions(src: seq<byte>, tried: seq<nat>) {
    forall i :: 0 <= i < |tried| ==> tried[i] + 8 <= |src|
  }

  ghost function Filled(table: seq<nat>, hash: Hash, src: seq<byte>, tried: seq<nat>): (t: seq<nat>)
    requires Positions(src, tried) && |table| > 0
    ensures |t| == |table|
  {
    if tried == [] then table
    else
      var n := |tried| - 1;
      Filled(table, hash, src, tried[..n])[HashPosition(hash, src, tried[n], |table|) := tried[n]]
  }

  // Where the table points to when position i is tried.
  ghost function Candidate(table: seq<nat>, hash: Hash, src: seq<byte>, tried: seq<nat>, i: nat): nat
    requires Positions(src, tried) && |table| > 0 && i < |tried|
  {
    Filled(table, hash, src, tried[..i])[HashPosition(hash, src, tried[i], |table|)]
  }

  // How far it is from the i-th position to the next.
  function StepAt(acceleration: nat, i: nat): nat {
    if i == 0 then 1 else (64 * acceleration + (i - 1)) / 64
  }

  ghost predicate InVain(table: seq<nat>, hash: Hash, src: seq<byte>, tried: seq<nat>, n: nat, tt: TableType)
    requires Positions(src, tried) && |table| > 0 && n <= |tried|
  {
    forall i :: 0 <= i < n ==> !Hits(src, tried[i], Candidate(table, hash, src, tried, i), tt)
  }

  lemma {:induction false} OneMoreTry(table: seq<nat>, hash: Hash, src: seq<byte>, tried: seq<nat>, p: nat)
    requires Positions(src, tried) && |table| > 0 && p + 8 <= |src|
    ensures var more := tried + [p];
            && Positions(src, more)
            && Candidate(table, hash, src, more, |tried|) ==
               Filled(table, hash, src, tried)[HashPosition(hash, src, p, |table|)]
            && Filled(table, hash, src, more) ==
               Filled(table, hash, src, tried)[HashPosition(hash, src, p, |table|) := p]
            && (forall tt ::
                  InVain(table, hash, src, tried, |tried|, tt) ==> InVain(table, hash, src, more, |tried|, tt))
  {
    var more := tried + [p];
    assert more[..|tried|] == tried;
    forall i | 0 <= i < |tried|
      ensures more[i] == tried[i] && Candidate(table, hash, src, more, i) == Candidate(table, hash, src, tried, i)
    {
      assert more[..i] == tried[..i];
    }
  }

  // The search loop: steps grow by one for every 64 positions tried in vain. It ends at the first hit
  // among the positions it tries, or because the next of them is too near the end.
  method FindMatch(src: seq<byte>, table: array<nat>, start: nat, firstH: nat, acceleration: nat, tt: TableType,
                   hash: Hash)
    returns (found: bool, ip: nat, match_: nat, ghost tried: seq<nat>)
    requires 0 < start && start + MFLIMIT <= |src| + 1 && table.Length > 0 && acceleration >= 1
    requires firstH == HashPosition(hash, src, start, table.Length)
    requires Before(table[..], start) && (tt == ByU16 ==> |src| < LIMIT_64K)
    modifies table
    ensures Before(table[..], ip + 1)
    ensures found ==> start <= ip && ip + MFLIMIT <= |src| && match_ < ip && ip - match_ <= DISTANCE_MAX &&
                      Repeats(src, ip, ip + MINMATCH, ip - match_)
    ensures tried != [] && tried[0] == start && ip == tried[|tried| - 1] && Positions(src, tried)
    ensures forall i :: 0 <= i < |tried| - 1 ==> tried[i + 1] == tried[i] + StepAt(acceleration, i)
    ensures InVain(old(table[..]), hash, src, tried, |tried| - 1, tt)
    ensures if found then match_ == Candidate(old(table[..]), hash, src, tried, |tried| - 1)
            else ip + StepAt(acceleration, |tried| - 1) + MFLIMIT > |src| + 1
    ensures table[..] == Filled(old(table[..]), hash, src, if found then tried else tried[..|tried| - 1])
  {
    hide Before, Hits, Filled, Candidate, InVain, HashPosition;
    var forwardIp: nat, forwardH: nat := start, firstH;
    var step, searchMatchNb := 1, acceleration * SKIP_TRIGGER_ONE;
    ip, match_, tried := start, 0, [];
    ghost var was, size := table[..], table.Length;
    NothingTried(was, hash, src, start, tt);
    while true
      invariant start <= forwardIp && forwardIp + MFLIMIT <= |src| + 1 && table.Length == size
      invariant forwardH == HashPosition(hash, src, forwardIp, size) < size
      invariant step == StepAt(acceleration, |tried|) >= 1
      invariant searchMatchNb == 64 * acceleration + |tried| && start <= ip <= forwardIp
      invariant Before(table[..], forwardIp)
      invariant Positions(src, tried) && InVain(was, hash, src, tried, |tried|, tt)
      invariant table[..] == Filled(was, hash, src, tried)
      invariant if tried == [] then forwardIp == start
                else tried[0] == start && forwardIp == tried[|tried| - 1] + StepAt(acceleration, |tried| - 1)
      invariant forall i :: 0 <= i < |tried| - 1 ==> tried[i + 1] == tried[i] + StepAt(acceleration, i)
      decreases |src| - forwardIp
    {
      var h := forwardH;
      ip := forwardIp;
      forwardIp := forwardIp + step;
      step := searchMatchNb / SKIP_TRIGGER_ONE;
      searchMatchNb := searchMatchNb + 1;
      OneMoreTry(was, hash, src, tried, ip);
      tried := tried + [ip];
      if forwardIp + MFLIMIT > |src| + 1 {
        BeforeMore(table[..], ip);
        assert tried[..|tried| - 1] + [ip] == tried;
        return false, ip, match_, tried;
      }
      forwardH := HashPosition(hash, src, forwardIp, table.Length);
      found, match_ := TryPosition(src, table, h, ip, tt);
      if found {
        return;
      }
      BeforeLater(table[..], ip + 1, forwardIp);
      MissedToo(was, hash, src, tried, tt);
    }
  }

  // A search from start that tried all it could and found nothing.
  ghost predicate NothingFound(table: seq<nat>, now: seq<nat>, hash: Hash, src: seq<byte>, start: nat, tried: seq<nat>,
                               acceleration: nat, tt: TableType)
  {
    && |table| > 0 && tried != [] && tried[0] == start && Positions(src, tried)
    && (forall i :: 0 <= i < |tried| - 1 ==> tried[i + 1] == tried[i] + StepAt(acceleration, i))
    && InVain(table, hash, src, tried, |tried| - 1, tt) && now == Filled(table, hash, src, tried[..|tried| - 1])
    && tried[|tried| - 1] + StepAt(acceleration, |tried| - 1) + MFLIMIT > |src| + 1
  }

  lemma NothingTried(table: seq<nat>, hash: Hash, src: seq<byte>, start: nat, tt: TableType)
    requires |table| > 0
    ensures Filled(table, hash, src, []) == table && InVain(table, hash, src, [], 0, tt)
  {
  }

  lemma BeforeMore(table: seq<nat>, p: nat)
    requires Before(table, p)
    ensures Before(table, p + 1)
  {
  }

  lemma BeforeLater(table: seq<nat>, p: nat, q: nat)
    requires Before(table, p) && p <= q
    ensures Before(table, q)
  {
  }

  lemma MissedToo(table: seq<nat>, hash: Hash, src: seq<byte>, tried: seq<nat>, tt: TableType)
    requires Positions(src, tried) && |table| > 0 && tried != []
    requires InVain(table, hash, src, tried, |tried| - 1, tt)
    requires !Hits(src, tried[|tried| - 1], Candidate(table, hash, src, tried, |tried| - 1), tt)
    ensures InVain(table, hash, src, tried, |tried|, tt)
  {
    hide Hits, Candidate;
  }

  // Catch up: a match found late starts as early as it can.
  method CatchUp(src: seq<byte>, anchor: nat, ip0: nat, match0: nat) returns (ip: nat, match_: nat)
    requires anchor < ip0 && match0 < ip0 && ip0 + MINMATCH <= |src|
    requires Repeats(src, ip0, ip0 + MINMATCH, ip0 - match0)
    ensures anchor <= ip <= ip0 && match_ < ip && ip - match_ == ip0 - match0
    ensures Repeats(src, ip, ip0 + MINMATCH, ip - match_)
    ensures ip > anchor && match_ > 0 ==> src[ip - 1] != src[match_ - 1]
  {
    ip, match_ := ip0, match0;
    while ip > anchor && match_ > 0 && src[ip - 1] == src[match_ - 1]
      invariant anchor <= ip <= ip0 && ip - match_ == ip0 - match0 && match_ < ip
      invariant Repeats(src, ip, ip0 + MINMATCH, ip0 - match0)
    {
      assert RepeatsAt(src, ip - 1, ip0 - match0);
      ip, match_ := ip - 1, match_ - 1;
    }
  }
}
