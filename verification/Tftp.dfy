/** tftp's client: one file from or to a server, whatever the network does. */
module Tftp {
  import opened Arith
  import opened Bytes
  import opened TftpWire
  import opened TftpNet

  const ERR_NOT_FOUND: nat := 1
  const ERR_ACCESS: nat := 2
  const ERR_DISK_FULL: nat := 3
  const ERR_ILLEGAL_OP: nat := 4
  const ERR_OPTION: nat := 8

  const TFTP_RETRIES: nat := 5

  // What is left in status when a transfer fails (inc/sysexits.h).
  const EX_USAGE: nat := 64
  const EX_DATAERR: nat := 65
  const EX_NOINPUT: nat := 66
  const EX_UNAVAILABLE: nat := 69
  const EX_OSERR: nat := 71
  const EX_IOERR: nat := 74
  const EX_NOPERM: nat := 77

  // The local file of a get; it may run out of room.
  class LocalFile {
    var data: seq<byte>
    const room: nat

    constructor (room: nat)
      ensures data == [] && this.room == room
    {
      this.data, this.room := [], room;
    }

    method WriteFull(bytes: seq<byte>) returns (ok: bool)
      modifies this
      ensures old(data) <= data <= old(data) + bytes
      ensures ok == (|old(data)| + |bytes| <= room) && (ok ==> data == old(data) + bytes)
    {
      ok := |data| + |bytes| <= room;
      if ok {
        data := data + bytes;
      } else if |data| < room {
        data := data + bytes[..room - |data|];
      }
    }
  }

  // The exit code for an error packet with this code (RFC 1350, appendix).
  function StatusOf(code: nat): nat {
    match code
    case 1 => EX_NOINPUT
    case 2 => EX_NOPERM
    case _ => EX_UNAVAILABLE
  }

  lemma StatusCodes(code: nat)
    ensures StatusOf(code) == if code == 1 then 66 else if code == 2 then 77 else 69
  {
  }

  // ----- What replies say -----

  lemma ReplyRead(u: Setup, t: Terms, k: nat)
    requires if t.name.Some? then IsBlksize(t.name.value) && t.blk <= TFTP_MAX_BLKSIZE else t.blk == TFTP_DEF_BLKSIZE
    ensures var b := Reply(u, t, k);
            && TFTP_HDR_LEN <= |b| <= TX_SZ
            && GetBe16(b, 0) ==
               (if k == 0 && t.name.Some? then OP_OACK else if u.role == Get && k > 0 then OP_DATA else OP_ACK)
            && (!(k == 0 && t.name.Some?) ==> GetBe16(b, 2) == k % 65536)
            && (u.role == Get && k > 0 ==> b[TFTP_HDR_LEN..] == Block(u.file, t.blk, k))
  {
    hide Decimal, Upto, Block;
    if k == 0 && t.name.Some? {
      assert Pow10(4) == 10 * (10 * (10 * (10 * Pow10(0))));
      DecimalLength(t.blk, 4);
    } else if u.role == Get && k > 0 {
      HeaderReadBack(OP_DATA, k % 65536, Block(u.file, t.blk, k));
      AtMostBlk(u.file, t.blk, k);
    } else {
      HeaderReadBack(OP_ACK, k % 65536, []);
    }
  }

  lemma AtMostBlk(file: seq<byte>, blk: nat, k: nat)
    requires k >= 1
    ensures |Block(file, blk, k)| <= blk
  {
    assert k * blk == (k - 1) * blk + blk;
    UptoGrows(|file|, blk, k);
  }

  // How many times something was sent.
  function Times(log: seq<nat>, k: nat): nat {
    if log == [] then 0 else Times(log[..|log| - 1], k) + (if log[|log| - 1] == k then 1 else 0)
  }

  // Since then nothing but c was asked for.
  ghost predicate OnlyAsked(was: seq<nat>, now: seq<nat>, c: nat) {
    was <= now && forall i :: |was| <= i < |now| ==> now[i] == c
  }

  lemma AskedForNothing(log: seq<nat>, c: nat)
    ensures OnlyAsked(log, log, c)
  {
  }

  lemma AskedOneMore(was: seq<nat>, log: seq<nat>, c: nat)
    requires OnlyAsked(was, log, c)
    ensures OnlyAsked(was, log + [c], c)
  {
  }

  lemma AskedMore(a: seq<nat>, b: seq<nat>, d: seq<nat>, c: nat)
    requires OnlyAsked(a, b, c) && OnlyAsked(b, d, c)
    ensures OnlyAsked(a, d, c) && |a| <= |b| <= |d|
  {
  }

  // Which replies of a session came, in order.
  function Heard(came: seq<(nat, nat)>, port: nat): seq<nat> {
    if came == [] then []
    else
      var e := came[|came| - 1];
      Heard(came[..|came| - 1], port) + (if e.0 == port then [e.1] else [])
  }

  lemma HeardOne(came: seq<(nat, nat)>, e: (nat, nat), port: nat)
    ensures Heard(came + [e], port) == Heard(came, port) + (if e.0 == port then [e.1] else [])
    ensures Heard([], port) == []
  {
    assert (came + [e])[..|came|] == came;
  }

  // A block that bears the number before c; with the option, reply 0 is not a block.
  predicate Repeats(k: nat, c: nat, option: bool) {
    k % 65536 == (c + 65535) % 65536 && !(k == 0 && option)
  }

  function HowOften(heard: seq<nat>, c: nat, option: bool): nat {
    if heard == [] then 0
    else HowOften(heard[..|heard| - 1], c, option) + (if Repeats(heard[|heard| - 1], c, option) then 1 else 0)
  }

  lemma OftenOne(heard: seq<nat>, k: nat, c: nat, option: bool)
    ensures HowOften(heard + [k], c, option) == HowOften(heard, c, option) + (if Repeats(k, c, option) then 1 else 0)
    ensures HowOften([], c, option) == 0 && heard + [] == heard
  {
    assert (heard + [k])[..|heard|] == heard;
  }

  class Client {
    const net: Net
    const tx: array<byte>
    const rx: array<byte>
    var txlen: nat
    var rxlen: nat
    var haveTid: bool
    var port: nat
    var blksize: nat
    var wantBlksize: nat
    var status: nat
    ghost var c: nat          // the number of the reply it waits for
    ghost var log: seq<nat>   // and which replies it has asked for

    constructor (net: Net)
      ensures this.net == net && fresh(tx) && fresh(rx) && Valid() && !haveTid && log == [] && status == 0
      ensures c == if net.u.role == Get then 1 else 0
      ensures blksize == TFTP_DEF_BLKSIZE == 512 && wantBlksize == net.u.want
    {
      this.net := net;
      tx, rx := new byte[TX_SZ](_ => 0), new byte[TX_SZ + 1](_ => 0);
      txlen, rxlen, haveTid, port, status := 0, 0, false, 0, 0;
      blksize, wantBlksize := TFTP_DEF_BLKSIZE, net.u.want;
      c, log := if net.u.role == Get then 1 else 0, [];
    }

    ghost predicate Valid()
      reads this
    {
      tx.Length == TX_SZ && rx.Length == TX_SZ + 1 && tx != rx && txlen <= TX_SZ && rxlen <= TX_SZ
    }

    ghost function Lock(): Option<nat>
      reads `haveTid, `port
    {
      if haveTid then Some(port) else None
    }

    ghost function Deal(): Terms
      requires haveTid && port < |net.sessions|
      reads `haveTid, `port, net`sessions
    {
      net.sessions[port].terms
    }

    // How often the session talked to has sent the block before c.
    ghost function Repeated(): nat
      reads `haveTid, `port, `c, net`sessions, net`came
    {
      if haveTid && port < |net.sessions| then HowOften(Heard(net.came, port), c, Deal().name.Some?) else 0
    }

    ghost predicate RepeatsBlock(k: nat)
      reads `haveTid, `port, `c, net`sessions
    {
      haveTid && port < |net.sessions| && Repeats(k, c, Deal().name.Some?)
    }

    // ----- Sending -----

    // What is behind everything else on its way to a session.
    ghost function LastSent(j: nat): seq<byte>
      requires j < |net.sessions|
      reads net`sessions
    {
      var up := net.sessions[j].up;
      if up == [] then [] else up[|up| - 1].bytes
    }

    // The block behind which nothing comes is acknowledged.
    ghost predicate Acked()
      reads this, net
    {
      haveTid && port < |net.sessions| && Deal().blk > 0 && LastSent(port) == AckPacket(Last(net.u, Deal()))
    }

    // All that ever went to the well-known port is the request.
    ghost predicate AskedOwn()
      reads net`asked
    {
      forall q :: q in net.asked ==> q == OwnRequest(net.u)
    }

    // The replies of the session talked to have come up to this one, and none of another before.
    ghost predicate CameUpto(k: int)
      reads `haveTid, `port, net`came
    {
      if haveTid then forall e :: e in net.came && e.0 == port ==> e.1 <= k else net.came == []
    }

    method Send()
      requires Valid() && (if haveTid then port < |net.sessions| else AsksRight(net.u, tx[..txlen]))
      modifies net`sessions, net`asked
      ensures GoOn(old(net.sessions), net.sessions) && (haveTid ==> port < |net.sessions| && Deal() == old(Deal()))
      ensures if haveTid then port < |net.sessions| && net.asked == old(net.asked) && LastSent(port) == tx[..txlen]
              else net.sessions == old(net.sessions) && net.asked == old(net.asked) + [tx[..txlen]]
      ensures old(net.Waits(Lock(), c)) && (haveTid ==> c >= 1 && tx[..txlen] == Request(net.u, old(Deal()), c)) ==>
              net.Waits(Lock(), c)
      ensures old(net.Fronts()) ==> net.Fronts()
    {
      hide Idle, Peer, Request, Last, AsksRight, Net.Fronts;
      if haveTid {
        net.Send(port, tx[..txlen], c);
      } else {
        net.Ask(tx[..txlen], None, c);
      }
    }

    method SetHeader(op: nat, arg: nat)
      requires Valid() && op < 65536 && arg < 65536
      modifies `txlen, tx
      ensures txlen == TFTP_HDR_LEN && tx[..txlen] == Header(op, arg) && Valid()
    {
      var h := Header(op, arg);
      forall i | 0 <= i < TFTP_HDR_LEN {
        tx[i] := h[i];
      }
      txlen := TFTP_HDR_LEN;
    }

    // The last the server is sent is an error with this code.
    ghost predicate Told(code: nat)
      reads `haveTid, `port, net`sessions
    {
      haveTid && port < |net.sessions| && code < 256 && StartsAt(LastSent(port), 0, [0, 5, 0, code])
    }

    // A text and its NUL, or what there is room for.
    method SendError(code: nat, msg: seq<byte>)
      requires Valid() && code < 256 && haveTid && port < |net.sessions|
      modifies `txlen, tx, net`sessions, net`asked
      ensures Valid() && net.asked == old(net.asked) && Told(code)
      ensures |msg| + 1 <= TX_SZ - 4 ==> LastSent(port) == [0, 5, 0, code] + (msg + [0])
      ensures old(net.Fronts()) ==> net.Fronts()
    {
      hide Net.Fronts;
      var text := msg + [0];
      var len := |text|;
      if len > TX_SZ - TFTP_HDR_LEN {
        len := TX_SZ - TFTP_HDR_LEN;
      }
      SetHeader(OP_ERROR, code);
      PacketsInBytes(code, [], [], 0);
      assert tx[..4] == [0, 5, 0, code];
      forall i | 0 <= i < len {
        tx[TFTP_HDR_LEN + i] := text[i];
      }
      tx[txlen + len - 1] := 0;
      txlen := txlen + len;
      assert tx[..4] == [0, 5, 0, code];
      assert len == |text| ==> tx[4..txlen] == text;
      assert tx[..txlen] == tx[..4] + tx[4..txlen];
      Send();
    }

    // ----- The request -----

    // A string and its NUL behind what is there, if there is room.
    method AddString(str: seq<byte>) returns (ok: bool)
      requires Valid()
      modifies `txlen, tx
      ensures Valid() && ok == (old(txlen) + |str| + 1 <= TX_SZ)
      ensures tx[..txlen] == Added(old(tx[..txlen]), str)
    {
      var text := str + [0];
      ok := txlen + |text| <= TX_SZ;
      if ok {
        forall i | 0 <= i < |text| {
          tx[txlen + i] := text[i];
        }
        txlen := txlen + |text|;
      }
    }

    // Fails only when the name is too long; other strings that do not fit are left out.
    method BuildRequest(op: nat, name: seq<byte>) returns (r: int)
      requires Valid() && op < 65536 && wantBlksize <= TFTP_MAX_BLKSIZE
      modifies `txlen, `status, tx
      ensures Valid() && (r == 0 || r == -1) && (r == 0 <==> |name| <= TX_SZ - 3) && (r != 0 ==> status == 64)
      ensures r == 0 ==> tx[..txlen] == RequestSent(op, name, wantBlksize)
    {
      hide Decimal, Added;
      SetHeader(op, 0);
      txlen := 2;
      assert tx[..2] == Header(op, 0)[..2] == PutBe16(op);
      var ok := AddString(name);
      if !ok {
        status := EX_USAGE;
        return -1;
      }
      ok := AddString(MODE);
      if wantBlksize > 0 {
        ok := AddString(BLKSIZE);
        ok := AddString(Decimal(wantBlksize));
      }
      r := 0;
    }

    // ----- Receiving -----

    // Nothing could be received, or the server said that it failed.
    ghost predicate Broke()
      reads `status, `rxlen, rx
    {
      status == 71 ||
      (rxlen <= rx.Length && IsError(rx[..rxlen]) && status == StatusOf(GetBe16(rx[..rxlen], 2)))
    }

    method Store(bytes: seq<byte>)
      requires Valid() && |bytes| <= TX_SZ
      modifies `rxlen, rx
      ensures Valid() && rxlen == |bytes| && rx[..rxlen] == bytes
    {
      rxlen := |bytes|;
      forall i | 0 <= i < |bytes| {
        rx[i] := bytes[i];
      }
      rx[rxlen] := 0;
    }

    // tftp_recv: the opcode of what came from the server's port, 0 when nothing did for a while,
    // negative when that is the end of it. The first packet settles which port that is.
    method Recv() returns (op: int, ghost k: nat)
      requires Valid() && net.Waits(Lock(), c)
      requires CameUpto(c - 1)
      modifies `haveTid, `port, `rxlen, `status, rx, net`script, net`sessions, net`came
      ensures Valid() && GoOn(old(net.sessions), net.sessions)
      ensures Smooth(old(net.script)) ==> Smooth(net.script) && op >= 0
      ensures op == 0 ==> CameUpto(c - 1)
      ensures op >= 0 ==> Repeated() == old(Repeated()) + (if op > 0 && RepeatsBlock(k) then 1 else 0)
      ensures op > 0 && old(haveTid) ==> k <= c && CameUpto(if k == c then c else c - 1)
      ensures op > 0 && !old(haveTid) ==> CameUpto(k)
      ensures |net.script| <= |old(net.script)| && (op != 0 ==> |net.script| < |old(net.script)|)
      ensures op == 0 ==> haveTid == old(haveTid) && port == old(port) && net.Waits(Lock(), c)
      ensures op > 0 ==> haveTid && rxlen >= TFTP_HDR_LEN && op == GetBe16(rx[..rxlen], 0)
      ensures op < 0 ==> Broke()
      ensures op > 0 ==> net.Replied(old(Lock()), c, port, rx[..rxlen], k)
      ensures old(haveTid) ==> haveTid && port == old(port) && port < |net.sessions| && Deal() == old(Deal())
      ensures op > 0 && old(haveTid) ==> net.Waits(Lock(), c)
      ensures net.Fronts()
    {
      hide Net.Holds, Net.Waits, Net.Fronts, Net.Replied, GoOn, Smooth;
      hide Client.CameUpto, Client.Repeated, Client.RepeatsBlock, Client.Broke;
      LockedIsThere(net, Lock(), c);
      Same(net.sessions);
      while true
        invariant Valid() && haveTid == old(haveTid) && port == old(port) && net.Waits(Lock(), c)
        invariant haveTid ==> port < |net.sessions| && Deal() == old(Deal())
        invariant GoOn(old(net.sessions), net.sessions) && |net.script| <= |old(net.script)|
        invariant CameUpto(c - 1) && (Smooth(old(net.script)) ==> Smooth(net.script))
        invariant Repeated() == old(Repeated())
        decreases |net.script|
      {
        ghost var was := net.sessions;
        var r;
        r, k := Hear();
        GoesOn(old(net.sessions), was, net.sessions);
        if r.Some? {
          return r.value, k;
        }
      }
    }

    // One turn of it; None for what is not from the server's port.
    method Hear() returns (r: Option<int>, ghost k: nat)
      requires Valid() && net.Waits(Lock(), c)
      requires CameUpto(c - 1)
      modifies `haveTid, `port, `rxlen, `status, rx, net`script, net`sessions, net`came
      ensures Valid() && GoOn(old(net.sessions), net.sessions)
      ensures Smooth(old(net.script)) ==> Smooth(net.script) && (r.Some? ==> r.value >= 0)
      ensures r.None? || r.value == 0 ==> CameUpto(c - 1)
      ensures r.None? || r.value >= 0 ==>
        Repeated() == old(Repeated()) + (if r.Some? && r.value > 0 && RepeatsBlock(k) then 1 else 0)
      ensures r.Some? && r.value > 0 && old(haveTid) ==> k <= c && CameUpto(if k == c then c else c - 1)
      ensures r.Some? && r.value > 0 && !old(haveTid) ==> CameUpto(k)
      ensures |net.script| <= |old(net.script)| && (r != Some(0) ==> |net.script| < |old(net.script)|)
      ensures r.None? || r.value == 0 ==> haveTid == old(haveTid) && port == old(port) && net.Waits(Lock(), c)
      ensures r.Some? && r.value > 0 ==> haveTid && rxlen >= TFTP_HDR_LEN && r.value == GetBe16(rx[..rxlen], 0)
      ensures r.Some? && r.value < 0 ==> Broke()
      ensures r.Some? && r.value > 0 ==> net.Replied(old(Lock()), c, port, rx[..rxlen], k)
      ensures old(haveTid) ==> haveTid && port == old(port) && port < |net.sessions| && Deal() == old(Deal())
      ensures r.Some? && r.value > 0 && old(haveTid) ==> net.Waits(Lock(), c)
      ensures net.Fronts()
    {
      hide Net.Holds, Net.Waits, Net.Fronts, Reply, Last, First, Smooth, Heard, HowOften, Repeats;
      LockedIsThere(net, Lock(), c);
      var a;
      ghost var before := net.came;
      a, k := net.Receive(Lock(), c);
      HeardMore(before, net.came, a, k);
      WaitsFronts(net, Lock(), c);
      if a.From? && a.server && !IsError(a.bytes) && (haveTid ==> a.port == port) {
        ReplyArrived(net, Lock(), c, a.port, a.bytes, k);
      }
      if a.Quiet? {
        return Some(0), k;
      }
      if a.Broken? {
        status := EX_OSERR;
        return Some(-1), k;
      }
      var got := if |a.bytes| > TX_SZ then TX_SZ else |a.bytes|;
      if got < TFTP_HDR_LEN {
        return None, k;
      }
      if !a.server {
        return None, k;
      }
      if haveTid {
        if a.port != port {
          return None, k;
        }
      } else {
        port, haveTid := a.port, true;
      }
      Store(a.bytes[..got]);
      var op := GetBe16(rx[..rxlen], 0);
      if op == OP_ERROR {
        Refused();
        return Some(-1), k;
      }
      r := Some(op);
    }

    lemma HeardMore(before: seq<(nat, nat)>, now: seq<(nat, nat)>, a: Arrival, k: nat)
      requires now == if a.From? && a.server && !IsError(a.bytes) then before + [(a.port, k)] else before
      requires !haveTid ==> before == []
      ensures haveTid && port < |net.sessions| ==>
        var o := Deal().name.Some?;
        HowOften(Heard(now, port), c, o) == HowOften(Heard(before, port), c, o) +
          (if now != before && a.port == port && Repeats(k, c, o) then 1 else 0)
      ensures !haveTid && now != before && a.port < |net.sessions| ==>
        var o := net.sessions[a.port].terms.name.Some?;
        HowOften(Heard(now, a.port), c, o) == if Repeats(k, c, o) then 1 else 0
    {
      hide IsError, Repeats;
      if a.From? {
        var p := if haveTid then port else a.port;
        HeardOne(before, (a.port, k), p);
        OftenOne(Heard(before, p), k, c, p < |net.sessions| && net.sessions[p].terms.name.Some?);
      }
    }

    // The exit code for what the server says went wrong.
    method Refused()
      requires Valid() && IsError(rx[..rxlen])
      modifies `status
      ensures Broke()
    {
      var code := GetBe16(rx[..rxlen], 2);
      if code == ERR_NOT_FOUND {
        status := EX_NOINPUT;
      } else if code == ERR_ACCESS {
        status := EX_NOPERM;
      } else {
        status := EX_UNAVAILABLE;
      }
    }

    // ----- One exchange -----

    // Ready to ask for reply c, with what asks for it in tx; before the first reply, with the request.
    ghost predicate Ready(op: nat, block: nat, oackOk: bool, answerDup: bool)
      reads this, tx, net
    {
      && Valid() && net.Waits(Lock(), c)
      && op == (if net.u.role == Get then OP_DATA else OP_ACK) && block == c % 65536
      && oackOk == !haveTid && answerDup == (net.u.role == Get) && AskedOwn() && CameUpto(c - 1)
      && (if haveTid then port < |net.sessions| && c >= 1 && tx[..txlen] == Request(net.u, Deal(), c)
          else c == (if net.u.role == Get then 1 else 0) && Asking())
    }

    // The request is in tx.
    ghost predicate Asking()
      reads `txlen, tx
    {
      txlen <= tx.Length && tx[..txlen] == OwnRequest(net.u) && AsksRight(net.u, tx[..txlen])
    }

    lemma FirstAsk()
      requires !haveTid && net.asked == [] && net.came == []
      ensures AskedOwn() && forall k :: CameUpto(k)
    {
    }

    lemma NowAsking()
      requires Valid() && ProperSetup(net.u) && |net.u.name| <= TX_SZ - 3
      requires tx[..txlen] == RequestSent(if net.u.role == Get then OP_RRQ else OP_WRQ, net.u.name, net.u.want)
      ensures Asking()
    {
      hide RequestSent, AsksRight;
      OwnAsksRight(net.u);
    }

    // Reply c was asked for as often as it may be, and did not come.
    ghost predicate GaveUp()
      reads this, net`came
    {
      Times(log, c) >= 5 && CameUpto(c - 1)
    }

    // Reply k is in rx.
    ghost predicate Has(k: nat)
      reads this, rx, net
    {
      && Valid() && haveTid && port < |net.sessions|
      && rx[..rxlen] == Reply(net.u, Deal(), k) && net.Holds(Lock(), k + 1) && AskedOwn() && CameUpto(k)
    }

    // What comes after a request was sent: the opcode of the reply it asks for, 0 when nothing did for
    // a while, negative when that is the end of it. Repeated blocks are answered on the way.
    method Listen(op: nat, block: nat, oackOk: bool, answerDup: bool) returns (r: int, ghost k: nat)
      requires Ready(op, block, oackOk, answerDup)
      modifies `haveTid, `port, `rxlen, `status, `log, rx, net`script, net`sessions, net`asked, net`came
      ensures Valid() && GoOn(old(net.sessions), net.sessions) && AskedOwn() && net.Fronts()
      ensures Smooth(old(net.script)) ==> Smooth(net.script) && r >= 0
      ensures r < 0 ==> Broke()
      ensures |net.script| <= |old(net.script)| && (r > 0 ==> |net.script| < |old(net.script)|)
      ensures r == 0 ==> Ready(op, block, oackOk, answerDup) && haveTid == old(haveTid) && port == old(port)
      ensures r > 0 ==> Has(k) && r == (if k == 0 && Deal().name.Some? then OP_OACK else op)
      ensures r > 0 ==> k == (if old(haveTid) then c else First(net.u, Deal()))
      ensures old(haveTid) ==> haveTid && port == old(port) && port < |net.sessions| && Deal() == old(Deal())
      ensures OnlyAsked(old(log), log, c) && (!answerDup ==> log == old(log))
      ensures r >= 0 && answerDup ==> |log| == |old(log)| + Repeated() - old(Repeated())
    {
      hide Net.Holds, Net.Waits, Net.Fronts, GoOn, Reply, Last, First, Request, Smooth, AsksRight, OnlyAsked;
      hide Client.AskedOwn, Client.Asking, Client.CameUpto, Client.Repeated, Client.Broke, Client.Has;
      Same(net.sessions);
      AskedForNothing(log, c);
      while true
        invariant haveTid == old(haveTid) && port == old(port)
        invariant Ready(op, block, oackOk, answerDup) && (haveTid ==> Deal() == old(Deal()))
        invariant GoOn(old(net.sessions), net.sessions) && |net.script| <= |old(net.script)|
        invariant OnlyAsked(old(log), log, c) && (!answerDup ==> log == old(log))
        invariant answerDup ==> |log| == |old(log)| + Repeated() - old(Repeated())
        invariant Smooth(old(net.script)) ==> Smooth(net.script)
        decreases |net.script|
      {
        ghost var was, before := net.sessions, log;
        var got;
        got, k := ListenOnce(op, block, oackOk, answerDup);
        GoesOn(old(net.sessions), was, net.sessions);
        AskedMore(old(log), before, log, c);
        if got.Some? {
          return got.value, k;
        }
      }
    }

    // One turn of it; None for what is not the reply.
    method ListenOnce(op: nat, block: nat, oackOk: bool, answerDup: bool) returns (r: Option<int>, ghost k: nat)
      requires Ready(op, block, oackOk, answerDup)
      modifies `haveTid, `port, `rxlen, `status, `log, rx, net`script, net`sessions, net`asked, net`came
      ensures Valid() && GoOn(old(net.sessions), net.sessions) && AskedOwn() && net.Fronts()
      ensures Smooth(old(net.script)) ==> Smooth(net.script) && (r.Some? ==> r.value >= 0)
      ensures r.Some? && r.value < 0 ==> Broke()
      ensures |net.script| <= |old(net.script)| && (r != Some(0) ==> |net.script| < |old(net.script)|)
      ensures r.None? || r.value == 0 ==>
        Ready(op, block, oackOk, answerDup) && haveTid == old(haveTid) && port == old(port)
      ensures r.Some? && r.value > 0 ==> Has(k) && r.value == (if k == 0 && Deal().name.Some? then OP_OACK else op)
      ensures r.Some? && r.value > 0 ==> k == (if old(haveTid) then c else First(net.u, Deal()))
      ensures old(haveTid) ==> haveTid && port == old(port) && port < |net.sessions| && Deal() == old(Deal())
      ensures OnlyAsked(old(log), log, c) && (!answerDup ==> log == old(log))
      ensures r.None? || r.value >= 0 ==> !answerDup || |log| == |old(log)| + Repeated() - old(Repeated())
    {
      hide Net.Holds, Net.Waits, Net.Fronts, GoOn, Reply, Last, First, Request, Smooth, AsksRight;
      hide Client.AskedOwn, Client.Asking, Client.CameUpto, Client.Repeated, Repeats, Client.Broke, GetBe16;
      var got;
      got, k := Recv();
      if got <= 0 {
        return Some(got), k;
      }
      ghost var lock := if old(haveTid) then Some(port) else None;
      WhatCame(net, lock, c, port, rx[..rxlen], k);
      WhatRepeats(net, lock, c, port, rx[..rxlen], k);
      if got == OP_OACK && oackOk {
        return Some(got), k;
      }
      var gotBlock := GetBe16(rx[..rxlen], 2);
      if got == op && gotBlock == block {
        return Some(got), k;
      }
      if got == op && gotBlock == (block + 65535) % 65536 && answerDup {
        Resend(old(net.sessions));
        WaitsFronts(net, Lock(), c);
      }
      r := None;
    }

    // tftp_transact: sends tx up to TFTP_RETRIES times, and more for repeated blocks, until the
    // reply it asks for is there.
    method Transact(op: nat, block: nat, oackOk: bool, answerDup: bool) returns (r: int, ghost k: nat)
      requires Ready(op, block, oackOk, answerDup)
      modifies `haveTid, `port, `rxlen, `status, `log, rx, net`script, net`sessions, net`asked, net`came
      ensures Valid() && GoOn(old(net.sessions), net.sessions) && AskedOwn()
      ensures Smooth(old(net.script)) ==> Smooth(net.script)
      ensures r < 0 ==> (GaveUp() && status == 69) || (Broke() && !Smooth(old(net.script)))
      ensures r >= 0 ==> Has(k) && |net.script| < |old(net.script)|
      ensures r >= 0 ==> r == (if k == 0 && Deal().name.Some? then OP_OACK else op)
      ensures r >= 0 ==> k == (if old(haveTid) then c else First(net.u, Deal()))
      ensures old(haveTid) ==> haveTid && port == old(port) && port < |net.sessions| && Deal() == old(Deal())
      ensures OnlyAsked(old(log), log, c)
      ensures !answerDup ==> |log| <= |old(log)| + TFTP_RETRIES
      ensures var asked := |log| - |old(log)| - (if answerDup then Repeated() - old(Repeated()) else 0);
              if r >= 0 then 1 <= asked <= 5 else asked == 5 || Broke()
      ensures net.Fronts()
    {
      hide Net.Holds, Net.Waits, Net.Fronts, GoOn, Reply, Last, First, Request, Smooth, AsksRight, OnlyAsked;
      hide Client.AskedOwn, Client.Asking, Client.CameUpto, Client.Repeated, Client.Broke, Client.Has, GetBe16;
      Same(net.sessions);
      AskedForNothing(log, c);
      var tries := 0;
      k := 0;
      while tries < TFTP_RETRIES
        invariant tries <= TFTP_RETRIES && haveTid == old(haveTid) && port == old(port)
        invariant Ready(op, block, oackOk, answerDup) && (haveTid ==> Deal() == old(Deal()))
        invariant GoOn(old(net.sessions), net.sessions) && |net.script| <= |old(net.script)|
        invariant OnlyAsked(old(log), log, c)
        invariant |log| >= |old(log)| + tries && (!answerDup ==> |log| == |old(log)| + tries)
        invariant answerDup ==> |log| == |old(log)| + tries + Repeated() - old(Repeated())
        invariant Smooth(old(net.script)) ==> Smooth(net.script)
      {
        AskedOneMore(old(log), log, c);
        Resend(old(net.sessions));
        tries := tries + 1;
        ghost var was, before := net.sessions, log;
        r, k := Listen(op, block, oackOk, answerDup);
        GoesOn(old(net.sessions), was, net.sessions);
        AskedMore(old(log), before, log, c);
        if r != 0 {
          return;
        }
      }
      WaitsFronts(net, Lock(), c);
      TimesMore(old(log), log, c, c);
      status := EX_UNAVAILABLE;
      r := -1;
    }

    // tftp_parse_oack: takes the block size the server agreed to, if it is one that was asked for.
    method ParseOack() returns (r: int)
      requires Valid() && rxlen >= 2 && haveTid && port < |net.sessions|
      modifies `blksize, `status, `txlen, tx, net`sessions, net`asked
      ensures Valid() && (r == 0 || r == -1)
      ensures var v := Offered(rx[..rxlen], 2, wantBlksize, old(blksize));
              if v.Some? then r == 0 && blksize == v.value && txlen == old(txlen) &&
                              tx[..] == old(tx[..]) && net.sessions == old(net.sessions)
              else r == -1 && status == 65 && Told(8)
      ensures net.asked == old(net.asked)
      ensures r == 0 && old(net.Waits(Lock(), 1)) ==> net.Waits(Lock(), 1)
      ensures old(net.Fronts()) ==> net.Fronts()
    {
      hide IsBlksize, ParseUl, NulAt, Offered, Net.Fronts;
      var s := rx[..rxlen];
      var p := 2;
      while p < |s|
        invariant Valid() && p <= |s| && Offered(s, 2, wantBlksize, old(blksize)) == Offered(s, p, wantBlksize, blksize)
        invariant txlen == old(txlen) && tx[..] == old(tx[..]) && net.sessions == old(net.sessions)
        invariant net.asked == old(net.asked)
      {
        OfferedStep(s, p, wantBlksize, blksize);
        var n := NulAt(s, p);
        if n >= |s| {
          break;
        }
        var m := NulAt(s, n + 1);
        if m >= |s| {
          break;
        }
        if IsBlksize(s[p..n]) {
          var v := ParseUl(s[n + 1..m]);
          if wantBlksize == 0 || v.None? || v.value < TFTP_MIN_BLKSIZE || v.value > wantBlksize {
            SendError(ERR_OPTION, Ascii("bad blksize"));
            status := EX_DATAERR;
            return -1;
          }
          blksize := v.value;
        }
        p := m + 1;
      }
      OfferedStep(s, p, wantBlksize, blksize);
      r := 0;
    }

    method Resend(ghost before: seq<Session>)
      requires Valid() && net.Waits(Lock(), c) && GoOn(before, net.sessions)
      requires if haveTid then c >= 1 && port < |net.sessions| && tx[..txlen] == Request(net.u, Deal(), c) else Asking()
      requires AskedOwn()
      modifies `log, net`sessions, net`asked
      ensures Valid() && net.Waits(Lock(), c) && GoOn(before, net.sessions) && log == old(log) + [c] && AskedOwn()
      ensures if haveTid then port < |net.sessions| && LastSent(port) == tx[..txlen]
              else net.asked == old(net.asked) + [tx[..txlen]]
      ensures haveTid ==> port < |net.sessions| && Deal() == old(Deal())
      ensures Repeated() == old(Repeated())
    {
      hide Net.Waits, Net.Holds, Request;
      ghost var was := net.sessions;
      log := log + [c];
      Send();
      GoesOn(before, was, net.sessions);
    }

    // ----- Get -----

    // The blocks before c are in the file.
    ghost predicate Wrote(data: seq<byte>)
      reads this, net
    {
      if haveTid then port < |net.sessions| && c >= 1 && blksize == Deal().blk &&
                      data == net.u.file[..Upto(|net.u.file|, blksize, c - 1)]
      else blksize == TFTP_DEF_BLKSIZE && data == []
    }

    // tftp_get, against any server and network that conform. What is in the local file is always a
    // front of the file of that name on the server, and all of it when it succeeds; then the last
    // block has been acknowledged. It fails for a name that is too long, for want of room, for a
    // failure elsewhere, or when a reply that was asked for five times did not come.
    method GetFile(name: seq<byte>, out: LocalFile) returns (ret: int)
      requires Valid() && !haveTid && c == 1 && log == [] && net.Waits(None, 1) && net.u.role == Get
      requires net.asked == [] && net.came == [] && name == net.u.name
      requires blksize == TFTP_DEF_BLKSIZE && wantBlksize == net.u.want && out.data == []
      modifies this, tx, rx, net, out
      ensures out.data <= net.u.file && AskedOwn() && (|name| > TX_SZ - 3 ==> net.asked == [])
      ensures ret == 0 ==> name in net.u.files && out.data == net.u.files[name]
      ensures ret == 0 ==> Acked()
      ensures ret != 0 ==>
        || (|name| > TX_SZ - 3 && status == 64)
        || (out.room < |net.u.file| && status == 74 && Told(3))
        || (GaveUp() && status == 69)
        || (Broke() && !Smooth(old(net.script)))
    {
      hide Net.Holds, Net.Waits, Reply, Last, First, Request, Upto, Offered, GoOn, Block, Header, RequestSent;
      hide Smooth, AsksRight, Client.AskedOwn, Client.Asking, Client.CameUpto, Client.GaveUp, Client.Acked, Client.Has;
      hide Client.Broke, Client.Repeated, Client.Told, OnlyAsked, Times;
      FirstAsk();
      WantFits(net, None, 1);
      ret := BuildRequest(OP_RRQ, name);
      if ret != 0 {
        return -1;
      }
      NowAsking();
      var block: nat, oackOk := 1, true;
      while true
        invariant wantBlksize == net.u.want && Ready(OP_DATA, block, oackOk, true) && Wrote(out.data)
        invariant Smooth(old(net.script)) ==> Smooth(net.script)
        decreases |net.script|
      {
        var r;
        ghost var k, had := 0, haveTid;
        WroteFront(out.data);
        r, k := Transact(OP_DATA, block, oackOk, true);
        if r < 0 {
          return -1;
        }
        Before(k, had, out.data);
        if r == OP_OACK {
          var p := AckOptions();
          if p != 0 {
            return -1;
          }
          block, oackOk := 1, false;
        } else {
          NeverTooBig(k);
          r := TakeBlock(block, out, k);
          if r < 0 {
            return -1;
          }
          oackOk := false;
          if r == 0 {
            break;
          }
          block := (block + 1) % 65536;
        }
      }
      ret := 0;
    }

    lemma NeverTooBig(k: nat)
      requires Has(k) && k >= 1 && net.u.role == Get && blksize == Deal().blk
      ensures rxlen <= TFTP_HDR_LEN + blksize
    {
      hide Net.Holds, Reply, Last, First, Request, Upto, Block, Header;
      BlockCame(net, port, k);
      assert |rx[..rxlen]| == rxlen;
    }

    lemma WroteFront(data: seq<byte>)
      requires Wrote(data)
      ensures data <= net.u.file
    {
    }

    // What there is when reply k has come.
    lemma Before(k: nat, had: bool, data: seq<byte>)
      requires Has(k) && k == (if had then c else First(net.u, Deal())) && c >= 1 && net.u.role == Get
      requires !had ==> c == 1
      requires if had then blksize == Deal().blk && data == net.u.file[..Upto(|net.u.file|, blksize, c - 1)]
               else blksize == TFTP_DEF_BLKSIZE && data == []
      ensures Deal().blk > 0 && (k == 0 ==> data == []) && net.u.name in net.u.files
      ensures if k == 0 then Deal().name.Some? else k == c
      ensures k >= 1 ==> blksize == Deal().blk && data == net.u.file[..Upto(|net.u.file|, blksize, k - 1)]
    {
      hide Net.Holds, Net.Waits, Reply, Last, Upto, IsBlksize;
      SessionFacts(net, port, k);
      NothingYet(net, Deal());
    }

    // The server took the option.
    method TakeOptions() returns (r: int)
      requires Has(0) && Deal().name.Some? && wantBlksize == net.u.want
      modifies `blksize, `status, `txlen, tx, net`sessions, net`asked
      ensures Valid() && r == 0 && net.asked == old(net.asked)
      ensures net.sessions == old(net.sessions) && blksize == Deal().blk > 0 && net.Waits(Lock(), 1)
      ensures old(net.Fronts()) ==> net.Fronts()
    {
      hide Net.Holds, Net.Waits, Net.Fronts, Last, First, Request, Offered, IsBlksize, OackPacket;
      SessionFacts(net, port, 0);
      OackUnderstood(Deal().name.value, Deal().blk, wantBlksize, blksize);
      r := ParseOack();
    }

    method AckOptions() returns (r: int)
      requires Has(0) && Deal().name.Some? && wantBlksize == net.u.want && net.u.role == Get
      modifies `blksize, `status, `txlen, `c, tx, net`sessions, net`asked
      ensures r == 0 && Ready(OP_DATA, 1, false, true) && Wrote([])
    {
      hide Net.Holds, Net.Waits, Reply, Last, First, Request, Upto, Header;
      r := TakeOptions();
      if r == 0 {
        SetHeader(OP_ACK, 0);
        c := 1;
        NothingYet(net, Deal());
      }
    }

    // Block k came: 0 if it was the last, negative if it cannot be kept.
    method TakeBlock(block: nat, out: LocalFile, ghost k: nat) returns (r: int)
      requires Has(k) && k >= 1 && net.u.role == Get && block == k % 65536
      requires blksize == Deal().blk && out.data == net.u.file[..Upto(|net.u.file|, blksize, k - 1)]
      modifies `status, `txlen, `c, tx, net`sessions, net`asked, out
      ensures Valid() && out.data <= net.u.file && (r == 0 ==> out.data == net.u.file) && AskedOwn()
      ensures r < 0 ==> (out.room < |net.u.file| && status == 74 && Told(3)) ||
                        (old(rxlen) > TFTP_HDR_LEN + old(blksize) && status == 65 && Told(4))
      ensures r == 0 ==> Acked()
      ensures r > 0 ==> Ready(OP_DATA, (block + 1) % 65536, false, true) && Wrote(out.data)
    {
      hide Net.Holds, Net.Waits, Reply, Last, First, Request, Upto, GoOn, Block, Header;
      ReplyIsThere(net, port, k);
      var len := rxlen - TFTP_HDR_LEN;
      if len > blksize {
        SendError(ERR_ILLEGAL_OP, Ascii("block too big"));
        status := EX_DATAERR;
        return -1;
      }
      SessionFacts(net, port, k);
      BlockCame(net, port, k);
      assert rx[TFTP_HDR_LEN..rxlen] == rx[..rxlen][TFTP_HDR_LEN..];
      var ok := out.WriteFull(rx[TFTP_HDR_LEN..rxlen]);
      if !ok {
        SendError(ERR_DISK_FULL, Ascii("write failed"));
        status := EX_IOERR;
        return -1;
      }
      r := AckBlock(block, len, out.data, k);
    }

    method AckBlock(block: nat, len: nat, ghost data: seq<byte>, ghost k: nat) returns (r: int)
      requires Has(k) && k >= 1 && net.u.role == Get && block == k % 65536 && blksize == Deal().blk > 0
      requires data == net.u.file[..Upto(|net.u.file|, blksize, k)] && len == |Block(net.u.file, blksize, k)|
      modifies `txlen, `c, tx, net`sessions, net`asked
      ensures Valid() && r >= 0 && (r == 0 ==> data == net.u.file) && AskedOwn()
      ensures r == 0 ==> Acked()
      ensures r > 0 ==> Ready(OP_DATA, (block + 1) % 65536, false, true) && Wrote(data)
    {
      hide Net.Holds, Net.Waits, Reply, Last, First, Request, Upto, GoOn, Block, Header;
      SessionFacts(net, port, k);
      BlockCame(net, port, k);
      SetHeader(OP_ACK, block);
      c := k + 1;
      if len < blksize {
        Send();
        assert AckPacket(k) == Header(OP_ACK, block);
        return 0;
      }
      r := 1;
    }

    // ----- Put -----

    // How far the file is read, and whether that was its last block.
    ghost predicate Sent(pos: nat, last: bool)
      reads this, net
    {
      if haveTid then port < |net.sessions| && c >= 1 && blksize == Deal().blk > 0 &&
                      pos == Upto(|net.u.file|, blksize, c) && last == (c == Last(net.u, Deal()))
      else blksize == TFTP_DEF_BLKSIZE && pos == 0 && !last && c == 0
    }

    // No reply was asked for more than TFTP_RETRIES times, and none after c yet.
    ghost predicate FewTimes()
      reads this
    {
      forall j: nat :: Times(log, j) <= TFTP_RETRIES && (j >= c ==> Times(log, j) == 0)
    }

    // tftp_read_block: the next block of the file, in tx.
    method ReadBlock(src: seq<byte>, pos: nat, block: nat) returns (len: nat)
      requires Valid() && pos <= |src| && blksize <= TFTP_MAX_BLKSIZE && block < 65536
      modifies `txlen, tx
      ensures Valid() && len == (if pos + blksize > |src| then |src| - pos else blksize)
      ensures tx[..txlen] == Header(OP_DATA, block) + src[pos..pos + len]
    {
      hide Header;
      SetHeader(OP_DATA, block);
      len := if pos + blksize > |src| then |src| - pos else blksize;
      forall i | 0 <= i < len {
        tx[TFTP_HDR_LEN + i] := src[pos + i];
      }
      txlen := txlen + len;
      assert tx[..TFTP_HDR_LEN] == Header(OP_DATA, block);
      assert tx[TFTP_HDR_LEN..txlen] == src[pos..pos + len];
      assert tx[..txlen] == tx[..TFTP_HDR_LEN] + tx[TFTP_HDR_LEN..txlen];
    }

    // Reply k is there: on to block k + 1.
    method NextData(src: seq<byte>, pos: nat, block: nat, ghost k: nat) returns (len: nat)
      requires Valid() && haveTid && net.u.role == Put && src == net.u.file && block == (k + 1) % 65536
      requires net.Waits(Lock(), k + 1) && blksize == Deal().blk && pos == Upto(|src|, blksize, k)
      requires AskedOwn() && CameUpto(k)
      modifies `txlen, `c, tx
      ensures Ready(OP_ACK, block, false, false) && c == k + 1 && pos + len <= |src|
      ensures Sent(pos + len, len < blksize)
    {
      hide Net.Holds, Net.Waits, Upto, Header, Block, Client.AskedOwn, Client.CameUpto, Client.Asking;
      WaitsMeans(net, port, k);
      len := ReadBlock(src, pos, block);
      UptoNext(|src|, blksize, k);
      BlockLengths(src, blksize, k + 1);
      assert Block(src, blksize, k + 1) == src[pos..pos + len] by {
        BlockIs(src, blksize, k + 1);
      }
      c := k + 1;
    }

    // tftp_put, against any server and network that conform: every session has stored a front of the
    // file, and all of it if it has seen the end, as the one talked to has when this succeeds. And no
    // block was sent more than TFTP_RETRIES times. It fails for a name that is too long, for a failure
    // elsewhere, or when a reply that was asked for that often did not come.
    method PutFile(name: seq<byte>, src: seq<byte>) returns (ret: int)
      requires Valid() && !haveTid && c == 0 && log == [] && net.Waits(None, 0) && net.u.role == Put
      requires net.asked == [] && net.came == [] && name == net.u.name
      requires blksize == TFTP_DEF_BLKSIZE && wantBlksize == net.u.want && src == net.u.file
      modifies this, tx, rx, net
      ensures ret == 0 ==>
        haveTid && port < |net.sessions| && net.sessions[port].stored == src && net.sessions[port].complete
      ensures net.Fronts() && AskedOwn() && (|name| > TX_SZ - 3 ==> net.asked == [])
      ensures forall j: nat :: Times(log, j) <= 5
      ensures ret != 0 ==>
        || (|name| > TX_SZ - 3 && status == 64)
        || (GaveUp() && status == 69)
        || (Broke() && !Smooth(old(net.script)))
    {
      hide Net.Holds, Net.Waits, Net.Fronts, Reply, Last, First, Request, Upto, Offered, GoOn;
      hide Block, Header, RequestSent, Smooth, AsksRight;
      hide Client.AskedOwn, Client.Asking, Client.CameUpto, Client.GaveUp, Client.Has, Client.Broke;
      hide Client.Repeated, OnlyAsked;
      FirstAsk();
      WantFits(net, None, 0);
      WaitsFronts(net, None, 0);
      ret := BuildRequest(OP_WRQ, name);
      if ret != 0 {
        return -1;
      }
      NowAsking();
      var block: nat, oackOk, last, pos: nat := 0, true, false, 0;
      while true
        invariant wantBlksize == net.u.want && Ready(OP_ACK, block, oackOk, false) && Sent(pos, last) && FewTimes()
        invariant Smooth(old(net.script)) ==> Smooth(net.script)
        decreases |net.script|
      {
        var r;
        ghost var k, had, was := 0, haveTid, log;
        r, k := Transact(OP_ACK, block, oackOk, false);
        FewMoreTimes(was, log, c);
        if r < 0 {
          return -1;
        }
        var p := TakeReply(r, k, had, pos, last);
        if p != 0 {
          return -1;
        }
        oackOk := false;
        if last {
          break;
        }
        block := (block + 1) % 65536;
        var len := NextData(src, pos, block, k);
        pos := pos + len;
        if len < blksize {
          last := true;
        }
      }
      ret := 0;
    }

    // The answer to a block, or to the request with the option taken.
    method TakeReply(r: int, ghost k: nat, ghost had: bool, ghost pos: nat, ghost last: bool) returns (p: int)
      requires Has(k) && k == (if had then c else First(net.u, Deal())) && net.u.role == Put
      requires wantBlksize == net.u.want && r == if k == 0 && Deal().name.Some? then OP_OACK else OP_ACK
      requires if had then blksize == Deal().blk > 0 && c >= 1 && pos == Upto(|net.u.file|, blksize, c) &&
                           last == (c == Last(net.u, Deal()))
               else blksize == TFTP_DEF_BLKSIZE && pos == 0 && !last && c == 0
      modifies `blksize, `status, `txlen, tx, net`sessions, net`asked
      ensures p == 0 && Valid() && k == c && AskedOwn() && CameUpto(k) && net.sessions == old(net.sessions)
      ensures haveTid && port < |net.sessions| && blksize == Deal().blk > 0 && pos == Upto(|net.u.file|, blksize, k)
      ensures if last then net.sessions[port].stored == net.u.file && net.sessions[port].complete
              else net.Waits(Lock(), k + 1)
    {
      hide Net.Holds, Net.Waits, Reply, Last, First, Request, Upto, Client.AskedOwn, Client.CameUpto;
      BeforeData(k, had, pos, last);
      p := 0;
      if r == OP_OACK {
        p := TakeOptions();
        UptoZero(|net.u.file|, blksize);
      }
    }

    lemma BeforeData(k: nat, had: bool, pos: nat, last: bool)
      requires Has(k) && k == (if had then c else First(net.u, Deal())) && net.u.role == Put
      requires if had then blksize == Deal().blk > 0 && c >= 1 && pos == Upto(|net.u.file|, blksize, c) &&
                           last == (c == Last(net.u, Deal()))
               else blksize == TFTP_DEF_BLKSIZE && pos == 0 && !last && c == 0
      ensures k == c && Deal().blk > 0
      ensures k == 0 && Deal().name.Some? ==> pos == 0 && !last
      ensures !(k == 0 && Deal().name.Some?) ==> blksize == Deal().blk && pos == Upto(|net.u.file|, blksize, k)
      ensures !last ==> net.Waits(Lock(), k + 1)
      ensures last ==> net.sessions[port].stored == net.u.file && net.sessions[port].complete
    {
      hide Reply, Upto, IsBlksize, Blocks;
      SessionFacts(net, port, k);
      UptoZero(|net.u.file|, blksize);
      if last {
        FirstBytes(net.u.file, blksize);
      }
    }
  }

  lemma UptoZero(n: nat, blk: nat)
    ensures Upto(n, blk, 0) == 0
  {
  }

  lemma BlockIs(file: seq<byte>, blk: nat, k: nat)
    requires k >= 1
    ensures Upto(|file|, blk, k - 1) <= Upto(|file|, blk, k)
    ensures Block(file, blk, k) == file[Upto(|file|, blk, k - 1)..Upto(|file|, blk, k)]
  {
    hide Upto;
    UptoGrows(|file|, blk, k);
  }

  lemma WaitsMeans(net: Net, port: nat, k: nat)
    requires net.Waits(Some(port), k + 1)
    ensures port < |net.sessions| && 0 < net.sessions[port].terms.blk <= TFTP_MAX_BLKSIZE
    ensures k + 1 <= Last(net.u, net.sessions[port].terms)
  {
    PeerMeans(net.u, net.sessions[port], k + 1);
  }

  lemma {:induction false} TimesMore(was: seq<nat>, more: seq<nat>, c: nat, j: nat)
    requires OnlyAsked(was, more, c)
    ensures Times(more, j) == Times(was, j) + if j == c then |more| - |was| else 0
    decreases |more|
  {
    if |more| > |was| {
      TimesMore(was, more[..|more| - 1], c, j);
    } else {
      assert more == was;
    }
  }

  lemma FewMoreTimes(was: seq<nat>, more: seq<nat>, c: nat)
    requires OnlyAsked(was, more, c) && |more| <= |was| + TFTP_RETRIES
    requires forall j: nat :: Times(was, j) <= TFTP_RETRIES && (j >= c ==> Times(was, j) == 0)
    ensures forall j: nat :: Times(more, j) <= TFTP_RETRIES && (j >= c + 1 ==> Times(more, j) == 0)
  {
    forall j: nat ensures Times(more, j) <= TFTP_RETRIES && (j >= c + 1 ==> Times(more, j) == 0) {
      TimesMore(was, more, c, j);
    }
  }

  lemma ReplyIsThere(net: Net, port: nat, k: nat)
    requires net.Holds(Some(port), k + 1) && k >= 1 && net.u.role == Get
    ensures port < |net.sessions| && |Reply(net.u, net.sessions[port].terms, k)| >= TFTP_HDR_LEN
  {
    hide Block, IsBlksize;
  }

  lemma WantFits(net: Net, lock: Option<nat>, c: nat)
    requires net.Waits(lock, c)
    ensures net.u.want <= TFTP_MAX_BLKSIZE && ProperSetup(net.u)
  {
  }

  // The session that reply k came from.
  lemma SessionFacts(net: Net, port: nat, k: nat)
    requires net.Holds(Some(port), k + 1)
    ensures port < |net.sessions| && (net.u.role == Get && k == 0 ==> net.sessions[port].terms.name.Some?)
    ensures ProperSetup(net.u) && (net.u.role == Get ==> net.u.name in net.u.files)
    ensures var t := net.sessions[port].terms;
            if t.name.Some? then IsBlksize(t.name.value) && TFTP_MIN_BLKSIZE <= t.blk <= net.u.want
            else t.blk == TFTP_DEF_BLKSIZE
    ensures k <= Last(net.u, net.sessions[port].terms)
    ensures k < Last(net.u, net.sessions[port].terms) ==> net.Waits(Some(port), k + 1)
    ensures 0 < Last(net.u, net.sessions[port].terms)
  {
    hide IsBlksize, Reply, Request, Upto, Blocks;
    PeerMeans(net.u, net.sessions[port], k + 1);
  }

  lemma NothingYet(net: Net, t: Terms)
    requires t.blk > 0
    ensures net.u.file[..Upto(|net.u.file|, t.blk, 0)] == []
    ensures net.u.role == Get ==> Request(net.u, t, 1) == Header(OP_ACK, 0)
  {
    FirstBytes(net.u.file, t.blk);
  }

  lemma BlockCame(net: Net, port: nat, k: nat)
    requires net.Holds(Some(port), k + 1) && k >= 1 && net.u.role == Get
    ensures port < |net.sessions|
    ensures var u, t := net.u, net.sessions[port].terms; var data := Block(u.file, t.blk, k);
            && Reply(u, t, k)[..] == Reply(u, t, k) && |Reply(u, t, k)| == TFTP_HDR_LEN + |data|
            && Reply(u, t, k)[TFTP_HDR_LEN..] == data && |data| <= t.blk
            && u.file[..Upto(|u.file|, t.blk, k - 1)] + data == u.file[..Upto(|u.file|, t.blk, k)]
            && (|data| < t.blk <==> k == Last(u, t))
            && (k == Last(u, t) ==> Upto(|u.file|, t.blk, k) == |u.file|)
            && Request(u, t, k + 1) == Header(OP_ACK, k % 65536)
  {
    hide IsBlksize, Upto, Block;
    SessionFacts(net, port, k);
    var u, t := net.u, net.sessions[port].terms;
    HeaderReadBack(OP_DATA, k % 65536, Block(u.file, t.blk, k));
    BlockLengths(u.file, t.blk, k);
    NextBlock(u.file, t.blk, k);
  }

  function Ascii(s: string): seq<byte> {
    seq(|s|, i requires 0 <= i < |s| => s[i] as int % 256)
  }

  lemma OfferedStep(s: seq<byte>, p: nat, want: nat, blksize: nat)
    requires p <= |s|
    ensures var n, r := NulAt(s, p), Offered(s, p, want, blksize);
            if n >= |s| then r == Some(blksize)
            else
              var m := NulAt(s, n + 1);
              if m >= |s| then r == Some(blksize)
              else if IsBlksize(s[p..n]) then
                var v := ParseUl(s[n + 1..m]);
                if v.None? || v.value < TFTP_MIN_BLKSIZE || v.value > want then r == None
                else r == Offered(s, m + 1, want, v.value)
              else r == Offered(s, m + 1, want, blksize)
    ensures p == |s| ==> Offered(s, p, want, blksize) == Some(blksize)
  {
  }

  lemma WaitsFronts(net: Net, lock: Option<nat>, c: nat)
    requires net.Waits(lock, c)
    ensures net.Fronts()
  {
    hide Net.Holds, Net.Fronts;
    net.HoldsFronts(lock, c);
  }

  lemma LockedIsThere(net: Net, lock: Option<nat>, c: nat)
    requires net.Waits(lock, c)
    ensures lock.Some? ==> lock.value < |net.sessions|
  {
  }

  // Replies fit the buffer.
  lemma ReplyArrived(net: Net, lock: Option<nat>, c: nat, port: nat, bytes: seq<byte>, k: nat)
    requires net.Waits(lock, c) && net.Replied(lock, c, port, bytes, k) && (lock.Some? ==> lock.value == port)
    ensures TFTP_HDR_LEN <= |bytes| <= TX_SZ && bytes[..|bytes|] == bytes && GetBe16(bytes, 0) > 0
  {
    hide Reply, IsBlksize;
    var x := net.sessions[port];
    if lock.Some? {
      PeerMeans(net.u, x, c);
    } else {
      PeerMeans(net.u, x, k + 1);
    }
    ReplyRead(net.u, x.terms, k);
  }

  // Whether a reply is the block before c once more.
  lemma WhatRepeats(net: Net, lock: Option<nat>, c: nat, port: nat, bytes: seq<byte>, k: nat)
    requires net.Waits(lock, c) || lock.None?
    requires net.Replied(lock, c, port, bytes, k) && (lock.Some? ==> lock.value == port)
    ensures |bytes| >= TFTP_HDR_LEN
    ensures var op, n := GetBe16(bytes, 0), GetBe16(bytes, 2);
            var again := Repeats(k, c, net.sessions[port].terms.name.Some?);
            var want := if net.u.role == Get then OP_DATA else OP_ACK;
            (again ==> n != c % 65536) && (again <==> op == want && n == (c % 65536 + 65535) % 65536)
  {
    hide Reply, IsBlksize, GetBe16;
    var x := net.sessions[port];
    if lock.Some? {
      PeerMeans(net.u, x, c);
    } else {
      PeerMeans(net.u, x, k + 1);
    }
    ReplyRead(net.u, x.terms, k);
    NumberBefore(c);
  }

  lemma NumberBefore(c: nat)
    ensures (c + 65535) % 65536 == (c % 65536 + 65535) % 65536 != c % 65536
  {
    var low := c % 65536;
    if low == 0 {
      ModUnique(c + 65535, 65536, c / 65536, 65535);
    } else {
      ModUnique(c + 65535, 65536, c / 65536 + 1, low - 1);
      ModUnique(low + 65535, 65536, 1, low - 1);
    }
  }

  // What the opcode and the block number of a reply tell the client that waits for reply c.
  lemma WhatCame(net: Net, lock: Option<nat>, c: nat, port: nat, bytes: seq<byte>, k: nat)
    requires net.Waits(lock, c) || lock.None?
    requires net.Replied(lock, c, port, bytes, k) && (lock.Some? ==> lock.value == port)
    requires lock.None? ==> c == if net.u.role == Get then 1 else 0
    requires lock.Some? ==> c >= 1
    ensures |bytes| >= TFTP_HDR_LEN
    ensures var op, t := GetBe16(bytes, 0), net.sessions[port].terms;
            var want := if net.u.role == Get then OP_DATA else OP_ACK;
            && (op == OP_OACK <==> k == 0 && t.name.Some?)
            && (op == OP_OACK || op == want)
            && (lock.None? ==> k == First(net.u, t) && (op == OP_OACK || GetBe16(bytes, 2) == c % 65536))
            && (lock.Some? && op == want && GetBe16(bytes, 2) == c % 65536 ==> k == c && net.Holds(lock, c + 1))
            && (lock.Some? && k == c ==> op == want && GetBe16(bytes, 2) == c % 65536)
  {
    hide Reply, IsBlksize;
    var x := net.sessions[port];
    if lock.Some? {
      PeerMeans(net.u, x, c);
    } else {
      PeerMeans(net.u, x, k + 1);
    }
    ReplyRead(net.u, x.terms, k);
  }

  // ----- The program -----

  // main once its arguments are read: the exit code, and for a get the local file, for a put what
  // the session it talked to has stored, if that has seen the end. t is what the run leaves behind.
  method Run(u: Setup, script: seq<Event>, room: nat)
    returns (code: nat, local: seq<byte>, served: Option<seq<byte>>, ghost t: Client)
    requires ProperSetup(u)
    ensures t.net.u == u
    ensures u.role == Get ==> local <= u.file && (code == 0 ==> u.name in u.files && local == u.files[u.name])
    ensures u.role == Get && code == 0 ==> t.Acked()
    ensures u.role == Put && code == 0 ==> served == Some(u.file)
    ensures u.role == Put ==>
      forall x :: x in t.net.sessions ==> x.stored <= u.file && (x.complete ==> x.stored == u.file)
    ensures forall q :: q in t.net.asked ==>
      q == OwnRequest(u) && StartsAt(q, 0, [0, if u.role == Get then 1 else 2] + (u.name + [0]))
    ensures code != 0 ==>
      || (|u.name| > TX_SZ - 3 && code == 64)
      || (u.role == Get && room < |u.file| && code == 74 && t.Told(3))
      || (t.GaveUp() && code == 69)
      || (t.Broke() && code == t.status && !Smooth(script))
  {
    hide Idle, Peer, Last, Smooth, RequestSent, StartsAt, Client.GaveUp;
    var net := new Net(u, script);
    var client := new Client(net);
    var ret;
    served := None;
    if u.role == Get {
      var out := new LocalFile(room);
      ret := client.GetFile(u.name, out);
      local := out.data;
    } else {
      local := u.file;
      ret := client.PutFile(u.name, local);
      if ret == 0 && net.sessions[client.port].complete {
        served := Some(net.sessions[client.port].stored);
      }
    }
    t := client;
    code := if ret == 0 then 0 else if client.status != 0 then client.status else EX_IOERR;
    if |u.name| <= TX_SZ - 3 {
      RequestInBytes(if u.role == Get then OP_RRQ else OP_WRQ, u.name, u.want);
    }
  }
}
