/**
 What goes over the wire between tftp and a server: packets, the blocks of a file, and the block
 size option (RFC 1350 sections 2, 5 and 6; RFC 2347; RFC 2348).
 */
module TftpWire {
  import opened Arith
  import opened Bytes

  const OP_RRQ: nat := 1
  const OP_WRQ: nat := 2
  const OP_DATA: nat := 3
  const OP_ACK: nat := 4
  const OP_ERROR: nat := 5
  const OP_OACK: nat := 6

  const TFTP_HDR_LEN: nat := 4
  const TFTP_DEF_BLKSIZE: nat := 512
  const TFTP_MIN_BLKSIZE: nat := 8
  const TFTP_MAX_BLKSIZE: nat := 1468
  const TX_SZ: nat := TFTP_HDR_LEN + TFTP_MAX_BLKSIZE

  // ----- Packets -----

  function Header(op: nat, arg: nat): (r: seq<byte>)
    ensures |r| == TFTP_HDR_LEN
  {
    PutBe16(op) + PutBe16(arg)
  }

  lemma HeaderReadBack(op: nat, arg: nat, body: seq<byte>)
    requires op < 65536 && arg < 65536
    ensures GetBe16(Header(op, arg) + body, 0) == op && GetBe16(Header(op, arg) + body, 2) == arg
    ensures (Header(op, arg) + body)[TFTP_HDR_LEN..] == body
  {
  }

  // Block numbers wrap at 16 bits.
  function DataPacket(k: nat, data: seq<byte>): seq<byte> {
    Header(OP_DATA, k % 65536) + data
  }

  function AckPacket(k: nat): seq<byte> {
    Header(OP_ACK, k % 65536) + []
  }

  function OackPacket(name: seq<byte>, v: nat): seq<byte> {
    PutBe16(OP_OACK) + (name + ([0] + (Decimal(v) + [0])))
  }

  // The bytes of them.
  lemma {:induction false} PacketsInBytes(k: nat, data: seq<byte>, name: seq<byte>, v: nat)
    ensures DataPacket(k, data) == [0, 3, k / 256 % 256, k % 256] + data
    ensures AckPacket(k) == [0, 4, k / 256 % 256, k % 256]
    ensures OackPacket(name, v) == [0, 6] + (name + ([0] + (Decimal(v) + [0])))
    ensures Header(OP_ERROR, k % 65536) == [0, 5, k / 256 % 256, k % 256]
  {
    hide Decimal;
    assert k % 65536 / 256 % 256 == k / 256 % 256 && k % 65536 % 256 == k % 256 by {
      NumberInBytes(k);
    }
  }

  lemma NumberInBytes(k: nat)
    ensures k % 65536 / 256 % 256 == k / 256 % 256 && k % 65536 % 256 == k % 256
  {
    var high, low := k / 65536, k % 65536;
    ModUnique(k, 256, 256 * high + low / 256, low % 256);
    ModUnique(k / 256, 256, high, low / 256);
    ModUnique(low / 256, 256, 0, low / 256);
  }

  // ----- Numbers as text -----

  function Decimal(v: nat): (s: seq<byte>)
    ensures s != [] && AllDigits(s) && Value(s) == v
  {
    if v < 10 then [48 + v] else Decimal(v / 10) + [48 + v % 10]
  }

  predicate AllDigits(s: seq<byte>) {
    forall i :: 0 <= i < |s| ==> 48 <= s[i] < 58
  }

  function Value(s: seq<byte>): nat
    requires AllDigits(s)
  {
    if s == [] then 0 else 10 * Value(s[..|s| - 1]) + (s[|s| - 1] - 48)
  }

  predicate IsSpace(b: byte) {
    b == 32 || 9 <= b <= 13
  }

  // parse_ul in base 10, and with it strtoul: leading space and a plus are fine, a minus and
  // anything behind the digits are not.
  function ParseUl(s: seq<byte>): Option<nat> {
    if s != [] && IsSpace(s[0]) then ParseUl(s[1..])
    else
      var digits := if s != [] && s[0] == 43 then s[1..] else s;
      if digits != [] && AllDigits(digits) then Some(Value(digits)) else None
  }

  lemma ParseUlInvertsDecimal(v: nat)
    ensures ParseUl(Decimal(v)) == Some(v)
  {
    assert 48 <= Decimal(v)[0] < 58;
  }

  function Pow10(n: nat): nat {
    if n == 0 then 1 else 10 * Pow10(n - 1)
  }

  lemma {:induction false} DecimalLength(v: nat, n: nat)
    requires n >= 1 && v < Pow10(n)
    ensures |Decimal(v)| <= n
    decreases n
  {
    if v >= 10 {
      DecimalLength(v / 10, n - 1);
    }
  }

  // ----- Options -----

  const BLKSIZE: seq<byte> := [98, 108, 107, 115, 105, 122, 101]

  function Lower(b: byte): byte {
    if 65 <= b <= 90 then b + 32 else b
  }

  // RFC 2347: option names are not case sensitive.
  predicate IsBlksize(name: seq<byte>) {
    |name| == |BLKSIZE| && forall i :: 0 <= i < |name| ==> Lower(name[i]) == BLKSIZE[i]
  }

  function NulAt(s: seq<byte>, from: nat): (n: nat)
    requires from <= |s|
    ensures from <= n <= |s| && (n < |s| ==> s[n] == 0) && forall i :: from <= i < n ==> s[i] != 0
  {
    var n := from + Find(s[from..], 0);
    assert forall i :: from <= i < n ==> s[i] == s[from..][i - from];
    n
  }

  lemma NulFound(s: seq<byte>, from: nat, n: nat)
    requires from <= n < |s| && s[n] == 0 && forall i :: from <= i < n ==> s[i] != 0
    ensures NulAt(s, from) == n
  {
    FindIs(s[from..], 0, n - from);
  }

  // The block size after the options from p on: pairs of strings, the last blksize counts, and
  // it has to be one that was asked for.
  function Offered(s: seq<byte>, p: nat, want: nat, blksize: nat): Option<nat>
    requires p <= |s|
    decreases |s| - p
  {
    var n := NulAt(s, p);
    if n >= |s| then Some(blksize)
    else
      var m := NulAt(s, n + 1);
      if m >= |s| then Some(blksize)
      else if IsBlksize(s[p..n]) then
        match ParseUl(s[n + 1..m])
        case None => None
        case Some(v) => if v < TFTP_MIN_BLKSIZE || v > want then None else Offered(s, m + 1, want, v)
      else Offered(s, m + 1, want, blksize)
  }

  // ----- Requests -----

  const MODE: seq<byte> := [111, 99, 116, 101, 116]

  // The request of RFC 1350 section 5, with the option of RFC 2348.
  function RequestPacket(op: nat, name: seq<byte>, want: nat): seq<byte> {
    var plain := PutBe16(op) + (name + [0]) + (MODE + [0]);
    if want > 0 then plain + (BLKSIZE + [0]) + (Decimal(want) + [0]) else plain
  }

  function Added(packet: seq<byte>, str: seq<byte>): seq<byte> {
    if |packet| + |str| + 1 <= TX_SZ then packet + (str + [0]) else packet
  }

  function RequestSent(op: nat, name: seq<byte>, want: nat): seq<byte> {
    var plain := Added(Added(PutBe16(op), name), MODE);
    if want > 0 then Added(Added(plain, BLKSIZE), Decimal(want)) else plain
  }

  // It is that request if and only if all of it fits a packet.
  lemma RequestSentExactly(op: nat, name: seq<byte>, want: nat)
    requires op < 65536 && |name| <= TX_SZ - 3
    ensures RequestSent(op, name, want) == RequestPacket(op, name, want) <==>
            |RequestPacket(op, name, want)| <= TX_SZ
    ensures |RequestSent(op, name, want)| <= TX_SZ
  {
    hide Decimal;
  }

  lemma {:induction false} WholeRequestInBytes(op: nat, name: seq<byte>, want: nat)
    requires op in {1, 2}
    ensures RequestPacket(op, name, want) ==
            [0, op] + (name + [0]) + [111, 99, 116, 101, 116, 0] +
            if want > 0 then [98, 108, 107, 115, 105, 122, 101, 0] + (Decimal(want) + [0]) else []
  {
    hide Decimal;
    assert PutBe16(op) == [0, op];
    assert MODE + [0] == [111, 99, 116, 101, 116, 0] && BLKSIZE + [0] == [98, 108, 107, 115, 105, 122, 101, 0];
    var plain := [0, op] + (name + [0]) + (MODE + [0]);
    assert plain + (BLKSIZE + [0]) + (Decimal(want) + [0]) == plain + ((BLKSIZE + [0]) + (Decimal(want) + [0]));
  }

  lemma {:induction false} NumbersInBytes()
    ensures Decimal(1468) == [49, 52, 54, 56] && ParseUl([49, 52, 54, 56]) == Some(1468)
    ensures Decimal(8) == [56] && ParseUl([56]) == Some(8)
  {
    assert Decimal(146) == Decimal(14) + [54] && Decimal(14) == Decimal(1) + [52];
    ParseUlInvertsDecimal(1468);
    ParseUlInvertsDecimal(8);
  }

  // The bytes of it.
  lemma {:induction false} RequestInBytes(op: nat, name: seq<byte>, want: nat)
    requires op in {1, 2} && |name| <= TX_SZ - 3
    ensures StartsAt(RequestSent(op, name, want), 0, [0, op] + (name + [0]))
  {
    hide Decimal, Added, RequestSent;
    SentForms(op, name, want);
    var named, q := [0, op] + (name + [0]), RequestSent(op, name, want);
    if |named| + |MODE| + 1 <= TX_SZ {
      var moded := named + (MODE + [0]);
      assert q[0..|named|] == (moded + q[|moded|..])[0..|named|] == named;
    }
  }

  // What a server makes of a packet on its well-known port: which way the file goes, what it is
  // called, and the block size that is asked for, 0 for none.
  datatype Transfer = Transfer(write: bool, name: seq<byte>, want: nat)

  function ReadRequest(q: seq<byte>): Option<Transfer> {
    if |q| < 2 || q[0] != 0 || q[1] !in {1, 2} then None
    else
      var n := NulAt(q, 2);
      if n >= |q| then None
      else
        var m := NulAt(q, n + 1);
        if m >= |q| || q[n + 1..m] != MODE then None else Some(Transfer(q[1] == 2, q[2..n], AskedSize(q, m + 1)))
  }

  // Options without a value are not there.
  function AskedSize(q: seq<byte>, p: nat): nat
    requires p <= |q|
    decreases |q| - p
  {
    var n := NulAt(q, p);
    if n >= |q| then 0
    else
      var m := NulAt(q, n + 1);
      if m >= |q| then 0
      else if IsBlksize(q[p..n]) then
        match ParseUl(q[n + 1..m])
        case None => 0
        case Some(v) => v
      else AskedSize(q, m + 1)
  }

  lemma {:induction false} StringIn(q: seq<byte>, before: seq<byte>, str: seq<byte>, rest: seq<byte>)
    requires q == before + ((str + [0]) + rest) && 0 !in str
    ensures var n := |before| + |str|; n < |q| && NulAt(q, |before|) == n && q[|before|..n] == str
  {
    var p := |before|;
    forall i | p <= i < p + |str| ensures q[i] == str[i - p] && q[i] != 0 {
      assert str[i - p] in str;
    }
    NulFound(q, p, p + |str|);
  }

  lemma {:induction false} NoString(q: seq<byte>)
    ensures AskedSize(q, |q|) == 0 && NulAt(q, |q|) == |q|
  {
    assert q[|q|..] == [];
  }

  lemma {:induction false} HalfAnOption(q: seq<byte>, before: seq<byte>, str: seq<byte>)
    requires q == before + (str + [0]) && 0 !in str
    ensures AskedSize(q, |before|) == 0
  {
    hide NulAt, IsBlksize, ParseUl;
    assert (str + [0]) + [] == str + [0];
    StringIn(q, before, str, []);
    NoString(q);
  }

  lemma {:induction false} WholeOption(q: seq<byte>, before: seq<byte>, want: nat)
    requires q == before + (BLKSIZE + [0]) + (Decimal(want) + [0])
    ensures AskedSize(q, |before|) == want
  {
    hide NulAt, ParseUl, Decimal;
    var d := Decimal(want);
    DigitsOnly(want);
    assert q == before + ((BLKSIZE + [0]) + (d + [0]));
    StringIn(q, before, BLKSIZE, d + [0]);
    assert (d + [0]) + [] == d + [0];
    StringIn(q, before + (BLKSIZE + [0]), d, []);
    ParseUlInvertsDecimal(want);
  }

  lemma DigitsOnly(v: nat)
    ensures 0 !in Decimal(v) && Decimal(v) != MODE
  {
    assert 48 <= Decimal(v)[0] < 58;
  }

  // What a server that took the option says is understood.
  lemma {:induction false} OackUnderstood(name: seq<byte>, v: nat, want: nat, blksize: nat)
    requires IsBlksize(name) && TFTP_MIN_BLKSIZE <= v <= want
    ensures var s := OackPacket(name, v); 2 <= |s| && Offered(s, 2, want, blksize) == Some(v)
  {
    hide ParseUl, Decimal, NulAt;
    var s, d := OackPacket(name, v), Decimal(v);
    NoNulInName(name);
    DigitsOnly(v);
    var named := PutBe16(OP_OACK) + (name + [0]);
    assert s == PutBe16(OP_OACK) + ((name + [0]) + (d + [0]));
    StringIn(s, PutBe16(OP_OACK), name, d + [0]);
    assert s == named + ((d + [0]) + []);
    StringIn(s, named, d, []);
    NoString(s);
    ParseUlInvertsDecimal(v);
  }

  lemma NoNulInName(name: seq<byte>)
    requires IsBlksize(name)
    ensures 0 !in name
  {
    forall i | 0 <= i < |name| ensures name[i] != 0 {
      assert Lower(name[i]) == BLKSIZE[i];
    }
  }

  // A packet's name, and the string behind it.
  lemma {:induction false} NameThenString(q: seq<byte>, op: byte, name: seq<byte>, mode: seq<byte>, rest: seq<byte>)
    requires q == [0, op] + (name + [0]) + (mode + [0]) + rest && 0 !in name && 0 !in mode && op in {1, 2}
    ensures var end := 2 + |name| + 1 + |mode| + 1;
            end <= |q| && ReadRequest(q) ==
            if mode == MODE then Some(Transfer(op == 2, name, AskedSize(q, end))) else None
  {
    hide NulAt, AskedSize;
    var named := [0, op] + (name + [0]);
    assert q == [0, op] + ((name + [0]) + ((mode + [0]) + rest));
    StringIn(q, [0, op], name, (mode + [0]) + rest);
    assert q == named + ((mode + [0]) + rest);
    StringIn(q, named, mode, rest);
  }

  // What goes out is read as what was meant, as far as it went into the packet.
  lemma {:induction false} RequestUnderstood(op: nat, name: seq<byte>, want: nat)
    requires op in {OP_RRQ, OP_WRQ} && 0 !in name && |name| <= TX_SZ - 3
    ensures var r := ReadRequest(RequestSent(op, name, want));
            && (r.Some? <==> 2 + |name| + 1 + |MODE| + 1 <= TX_SZ)
            && (r.Some? ==> r.value.write == (op == OP_WRQ) && r.value.name == name)
            && (r.Some? ==> r.value.want == if |RequestPacket(op, name, want)| <= TX_SZ then want else 0)
  {
    hide Decimal, AskedSize, ReadRequest, RequestSent, RequestPacket, Added;
    DigitsOnly(want);
    SentForms(op, name, want);
    var named, q, d := [0, op] + (name + [0]), RequestSent(op, name, want), Decimal(want);
    var moded := named + (MODE + [0]);
    if |moded| <= TX_SZ {
      NameThenString(q, op, name, MODE, q[|moded|..]);
      SizeAsked(moded, q, want);
    } else if want > 0 && |named| + |d| + 1 <= TX_SZ {
      assert q == named + (d + [0]) + [];
      NameThenString(q, op, name, d, []);
    } else {
      OnlyName(q, op, name);
    }
  }

  lemma {:induction false} SentForms(op: nat, name: seq<byte>, want: nat)
    requires op in {OP_RRQ, OP_WRQ} && |name| <= TX_SZ - 3
    ensures var named, q, d := [0, op] + (name + [0]), RequestSent(op, name, want), Decimal(want);
            var moded := named + (MODE + [0]);
            if |moded| <= TX_SZ then
              q == (if want > 0 then Added(Added(moded, BLKSIZE), d) else moded) &&
              |moded| <= |q| && q == moded + q[|moded|..] &&
              |RequestPacket(op, name, want)| == |moded| + (if want > 0 then |BLKSIZE| + 1 + |d| + 1 else 0)
            else if want > 0 && |named| + |d| + 1 <= TX_SZ then q == named + (d + [0])
            else q == named
  {
    hide Decimal;
    assert PutBe16(op) == [0, op];
    var named := [0, op] + (name + [0]);
    assert Added(PutBe16(op), name) == named;
    if |named| + |MODE| + 1 <= TX_SZ {
      var moded := named + (MODE + [0]);
      StillBehind(moded, moded, BLKSIZE);
      StillBehind(moded, Added(moded, BLKSIZE), Decimal(want));
    }
  }

  lemma {:induction false} StillBehind(first: seq<byte>, packet: seq<byte>, str: seq<byte>)
    requires |first| <= |packet| && packet == first + packet[|first|..]
    ensures var more := Added(packet, str); |first| <= |more| && more == first + more[|first|..]
  {
  }

  lemma {:induction false} OnlyName(q: seq<byte>, op: byte, name: seq<byte>)
    requires q == [0, op] + (name + [0]) && 0 !in name
    ensures ReadRequest(q) == None
  {
    hide NulAt;
    assert (name + [0]) + [] == name + [0];
    StringIn(q, [0, op], name, []);
    NoString(q);
  }

  lemma {:induction false} SizeAsked(moded: seq<byte>, q: seq<byte>, want: nat)
    requires q == if want > 0 then Added(Added(moded, BLKSIZE), Decimal(want)) else moded
    ensures |q| >= |moded| && AskedSize(q, |moded|) ==
            if |moded| + |BLKSIZE| + 1 + |Decimal(want)| + 1 <= TX_SZ then want else 0
  {
    hide Decimal, AskedSize;
    DigitsOnly(want);
    if want > 0 && |moded| + |BLKSIZE| + 1 <= TX_SZ {
      if |moded| + |BLKSIZE| + 1 + |Decimal(want)| + 1 <= TX_SZ {
        WholeOption(q, moded, want);
      } else {
        HalfAnOption(q, moded, BLKSIZE);
      }
    } else if want > 0 && |moded| + |Decimal(want)| + 1 <= TX_SZ {
      HalfAnOption(q, moded, Decimal(want));
    } else {
      NoString(q);
    }
  }

  // ----- The blocks of a file (RFC 1350 section 6: the last is the first short one) -----

  // Where block k ends.
  function Upto(n: nat, blk: nat, k: nat): (r: nat)
    ensures r <= n
  {
    if k * blk > n then n else k * blk
  }

  function Block(file: seq<byte>, blk: nat, k: nat): (r: seq<byte>)
    requires k >= 1
  {
    UptoGrows(|file|, blk, k);
    file[Upto(|file|, blk, k - 1)..Upto(|file|, blk, k)]
  }

  lemma UptoGrows(n: nat, blk: nat, k: nat)
    requires k >= 1
    ensures Upto(n, blk, k - 1) <= Upto(n, blk, k)
  {
    assert k * blk == (k - 1) * blk + blk;
  }

  lemma UptoNext(n: nat, blk: nat, k: nat)
    ensures Upto(n, blk, k + 1) == if Upto(n, blk, k) + blk > n then n else Upto(n, blk, k) + blk
  {
    assert (k + 1) * blk == k * blk + blk;
  }

  function Blocks(file: seq<byte>, blk: nat): (n: nat)
    requires blk > 0
    ensures n >= 1
  {
    |file| / blk + 1
  }

  lemma BlockLengths(file: seq<byte>, blk: nat, k: nat)
    requires blk > 0 && 1 <= k <= Blocks(file, blk)
    ensures |Block(file, blk, k)| <= blk
    ensures |Block(file, blk, k)| < blk <==> k == Blocks(file, blk)
    ensures Upto(|file|, blk, k) == |file| <==> k == Blocks(file, blk) || k * blk == |file|
  {
    var q, r := |file| / blk, |file| % blk;
    assert |file| == q * blk + r;
    if k == q + 1 {
      assert k * blk == q * blk + blk;
      assert (k - 1) * blk == q * blk;
    } else {
      Stays(q, k, blk);
      assert (k - 1) * blk == k * blk - blk;
    }
  }

  lemma Stays(q: nat, k: nat, blk: nat)
    requires k <= q
    ensures k * blk <= q * blk
  {
    assert q * blk == k * blk + (q - k) * blk;
  }

  lemma FirstBytes(file: seq<byte>, blk: nat)
    requires blk > 0
    ensures Upto(|file|, blk, 0) == 0 && Upto(|file|, blk, Blocks(file, blk)) == |file|
  {
    BlockLengths(file, blk, Blocks(file, blk));
  }

  // One block further.
  lemma NextBlock(file: seq<byte>, blk: nat, k: nat)
    requires k >= 1
    ensures file[..Upto(|file|, blk, k - 1)] + Block(file, blk, k) == file[..Upto(|file|, blk, k)]
  {
    UptoGrows(|file|, blk, k);
  }
}
