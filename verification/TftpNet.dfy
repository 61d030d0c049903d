/**
 The other side of a transfer: a conforming server and the network to it.

 The server starts a session, with a port of its own, for every copy of the request that reaches
 it, and answers block by block. Replies have numbers: in a get, reply k is block k; in a put, it
 acknowledges block k; reply 0 is what answers the request when there is no block to send. What
 asks for reply k is the acknowledgment of block k - 1 or block k. The numbers are those of the
 proof: packets carry 16 bits of them.

 The network either loses, repeats and reorders packets at will, in sessions of fewer than 65536
 blocks; or it loses packets but keeps their order, in sessions of any length.
 */
module TftpNet {
  import opened Bytes
  import opened TftpWire

  datatype Role = Get | Put

  // What is asked of the client: the file to carry, what the server calls it, and the block size to
  // ask for, 0 for none. And what the server has: for a get it is one of those files, if any.
  datatype Setup = Setup(role: Role, name: seq<byte>, file: seq<byte>, want: nat, inOrder: bool,
                         files: map<seq<byte>, seq<byte>>)

  datatype Packet = Packet(bytes: seq<byte>, ghost no: nat)

  // The block size, and what the server calls the option if it took it.
  datatype Terms = Terms(blk: nat, name: Option<seq<byte>>)

  datatype Session = Session(terms: Terms, s: nat, down: seq<Packet>, up: seq<Packet>, stored: seq<byte>,
      complete: bool)

  function Reply(u: Setup, t: Terms, k: nat): seq<byte> {
    if k == 0 && t.name.Some? then OackPacket(t.name.value, t.blk)
    else if u.role == Get && k > 0 then DataPacket(k, Block(u.file, t.blk, k))
    else AckPacket(k)
  }

  function Request(u: Setup, t: Terms, k: nat): seq<byte>
    requires k >= 1
  {
    if u.role == Get then AckPacket(k - 1) else DataPacket(k, Block(u.file, t.blk, k))
  }

  function First(u: Setup, t: Terms): nat {
    if u.role == Get && t.name.None? then 1 else 0
  }

  function Last(u: Setup, t: Terms): nat
    requires t.blk > 0
  {
    Blocks(u.file, t.blk)
  }

  // ----- The server -----

  function Start(u: Setup, accept: Option<(seq<byte>, nat)>): Session {
    var t := if accept.Some? && IsBlksize(accept.value.0) && TFTP_MIN_BLKSIZE <= accept.value.1 <= u.want
             then Terms(accept.value.1, Some(accept.value.0))
             else Terms(TFTP_DEF_BLKSIZE, None);
    Answer(u, Session(t, First(u, t), [], [], [], false))
  }

  // The latest reply, once more.
  function Answer(u: Setup, x: Session): (y: Session)
    ensures y.terms == x.terms
  {
    x.(down := x.down + [Packet(Reply(u, x.terms, x.s), x.s)])
  }

  // Something reaches the server: the next acknowledgment or block, an old one, or nothing of interest.
  function Arrive(u: Setup, x: Session, b: seq<byte>): (y: Session)
    requires x.terms.blk > 0
    ensures y.terms == x.terms
  {
    if |b| < TFTP_HDR_LEN then x
    else if u.role == Get then
      if GetBe16(b, 0) == OP_ACK && GetBe16(b, 2) == x.s % 65536 && x.s < Last(u, x.terms)
      then Answer(u, x.(s := x.s + 1))
      else x
    else if GetBe16(b, 0) == OP_DATA && GetBe16(b, 2) == (x.s + 1) % 65536 && !x.complete then
      var data := b[TFTP_HDR_LEN..];
      Answer(u, x.(s := x.s + 1, stored := x.stored + data, complete := |data| < x.terms.blk))
    else if GetBe16(b, 0) == OP_DATA && GetBe16(b, 2) == x.s % 65536 then Answer(u, x)
    else x
  }

  // ----- What a session keeps -----

  ghost predicate Sound(u: Setup, x: Session) {
    && (if x.terms.name.Some? then IsBlksize(x.terms.name.value) && TFTP_MIN_BLKSIZE <= x.terms.blk <= u.want
        else x.terms.blk == TFTP_DEF_BLKSIZE)
    && First(u, x.terms) <= x.s <= Last(u, x.terms)
    && Countable(u, x.terms)
    && (u.role == Put ==>
        x.stored == u.file[..Upto(|u.file|, x.terms.blk, x.s)] && x.complete == (x.s == Last(u, x.terms)))
    && (forall i :: 0 <= i < |x.down| ==> IsReply(u, x, x.down[i]))
  }

  // What a put has stored is a front of the file, and all of it once its end has been seen.
  ghost predicate StoresFront(u: Setup, x: Session) {
    u.role == Put ==> x.stored <= u.file && (x.complete ==> x.stored == u.file)
  }

  lemma {:induction false} SoundStoresFront(u: Setup, x: Session)
    requires Sound(u, x)
    ensures StoresFront(u, x)
  {
    hide IsReply, IsBlksize, Upto, Blocks;
    if u.role == Put && x.complete {
      FirstBytes(u.file, x.terms.blk);
    }
  }

  ghost predicate IsReply(u: Setup, x: Session, p: Packet) {
    First(u, x.terms) <= p.no <= x.s && p.bytes == Reply(u, x.terms, p.no)
  }

  ghost predicate IsRequest(u: Setup, x: Session, p: Packet, c: nat) {
    1 <= p.no <= c && p.bytes == Request(u, x.terms, p.no)
  }

  ghost predicate InOrder(q: seq<Packet>, low: nat) {
    (forall i :: 0 <= i < |q| ==> low <= q[i].no) && forall i, j :: 0 <= i < j < |q| ==> q[i].no <= q[j].no
  }

  // Nothing from the client has reached it yet.
  ghost predicate Idle(u: Setup, x: Session) {
    Sound(u, x) && x.s == First(u, x.terms) && x.up == []
  }

  // The session the client talks to, while it waits for reply c.
  ghost predicate Peer(u: Setup, x: Session, c: nat) {
    && Sound(u, x) && First(u, x.terms) < c && c - 1 <= x.s <= c
    && (forall i :: 0 <= i < |x.up| ==> IsRequest(u, x, x.up[i], c))
    && (u.inOrder ==> InOrder(x.down, c - 1) && InOrder(x.up, x.s))
  }

  // Sessions whose block numbers the network can tell apart.
  predicate Countable(u: Setup, t: Terms) {
    t.blk > 0 && (u.inOrder || Last(u, t) < 65536)
  }

  // Blocks of 512 bytes without the option, of 8 to 1468 with it.
  lemma TermsOfStart(u: Setup, accept: Option<(seq<byte>, nat)>)
    requires ProperSetup(u)
    ensures var t := Start(u, accept).terms;
            if t.name.None? then t.blk == 512
            else accept == Some((t.name.value, t.blk)) && 8 <= t.blk <= u.want <= 1468 && IsBlksize(t.name.value)
    ensures IsBlksize([98, 108, 107, 115, 105, 122, 101]) && IsBlksize([66, 76, 75, 83, 73, 90, 69])
  {
    hide Answer;
  }

  // A session begins for what the server can read as a request, for a file it has if that is to be
  // read, and takes the option only up to the size that was asked for.
  predicate Serves(u: Setup, q: seq<byte>, accept: Option<(seq<byte>, nat)>) {
    match ReadRequest(q)
    case None => false
    case Some(r) =>
      (r.write || r.name in u.files) && (accept.Some? ==> accept.value.1 <= r.want) &&
      Countable(u, Start(u, accept).terms)
  }

  lemma ServedRight(u: Setup, q: seq<byte>, accept: Option<(seq<byte>, nat)>)
    requires AsksRight(u, q) && Serves(u, q, accept)
    ensures Countable(u, Start(u, accept).terms) && (u.role == Get ==> u.name in u.files)
  {
    hide ReadRequest, Start;
  }

  lemma Starts(u: Setup, accept: Option<(seq<byte>, nat)>)
    requires Countable(u, Start(u, accept).terms)
    ensures Idle(u, Start(u, accept))
  {
    FirstBytes(u.file, Start(u, accept).terms.blk);
  }

  lemma Resent(u: Setup, x: Session, c: nat)
    ensures Idle(u, x) ==> Idle(u, Answer(u, x))
    ensures Peer(u, x, c) ==> Peer(u, Answer(u, x), c)
  {
    hide Upto, Blocks, IsBlksize;
    var y := Answer(u, x);
    forall i | 0 <= i < |y.down| && (i < |x.down| ==> IsReply(u, x, x.down[i])) && Sound(u, x)
      ensures IsReply(u, y, y.down[i])
    {
    }
  }

  // The queue without the packet that was taken from it, where packets are in order.
  function Without(u: Setup, q: seq<Packet>, i: nat): seq<Packet>
    requires i < |q|
  {
    if u.inOrder then q[1..] else q
  }

  // A packet is taken from in front, or any packet for any number of times.
  predicate CanTake(u: Setup, q: seq<Packet>, i: nat) {
    i < |q| && (u.inOrder ==> i == 0)
  }

  lemma Lost(u: Setup, x: Session, c: nat)
    requires u.inOrder
    ensures x.down != [] && Idle(u, x) ==> Idle(u, x.(down := x.down[1..]))
    ensures x.down != [] && Peer(u, x, c) ==> Peer(u, x.(down := x.down[1..]), c)
    ensures x.up != [] && Peer(u, x, c) ==> Peer(u, x.(up := x.up[1..]), c)
  {
    hide Upto, Blocks, IsBlksize, Reply, Request;
  }

  // A reply reaches the client.
  lemma Delivered(u: Setup, x: Session, c: nat, i: nat)
    requires CanTake(u, x.down, i)
    ensures var y := x.(down := Without(u, x.down, i));
            && (Idle(u, x) ==> Idle(u, y) && Peer(u, y, First(u, x.terms) + 1))
            && (Peer(u, x, c) ==> Peer(u, y, c) && (x.down[i].no == c ==> Peer(u, y, c + 1)))
  {
    hide Upto, Blocks, IsBlksize, Reply, Request;
  }

  lemma NumberOf(a: nat, b: nat)
    requires a % 65536 == b % 65536
    requires (a < 65536 && b < 65536) || (a <= b <= a + 1) || (b <= a <= b + 1)
    ensures a == b
  {
  }

  // What is in the packet that reaches the server, and which number it can have.
  lemma RequestRead(u: Setup, x: Session, c: nat, i: nat)
    requires CanTake(u, x.up, i) && Peer(u, x, c) && c <= Last(u, x.terms)
    ensures var p, op := x.up[i], if u.role == Get then OP_ACK else OP_DATA;
            var body := if u.role == Get then [] else Block(u.file, x.terms.blk, p.no);
            && |p.bytes| >= TFTP_HDR_LEN && GetBe16(p.bytes, 0) == op && p.bytes[TFTP_HDR_LEN..] == body
            && GetBe16(p.bytes, 2) == (if u.role == Get then p.no - 1 else p.no) % 65536
            && (u.role == Get && (p.no - 1) % 65536 == x.s % 65536 && x.s < Last(u, x.terms) ==> p.no == x.s + 1)
            && (u.role == Put && p.no % 65536 == (x.s + 1) % 65536 && !x.complete ==> p.no == x.s + 1)
  {
    hide Upto, Blocks, IsBlksize, Reply, Block, Header;
    var p := x.up[i];
    assert IsRequest(u, x, p, c);
    var body := if u.role == Get then [] else Block(u.file, x.terms.blk, p.no);
    var op, no := if u.role == Get then OP_ACK else OP_DATA, (if u.role == Get then p.no - 1 else p.no) % 65536;
    HeaderReadBack(op, no, body);
    if u.role == Get && no == x.s % 65536 && x.s < Last(u, x.terms) {
      NumberOf(p.no - 1, x.s);
    } else if u.role == Put && no == (x.s + 1) % 65536 && !x.complete {
      NumberOf(p.no, x.s + 1);
    }
  }

  lemma Taken(u: Setup, x: Session, c: nat, i: nat)
    requires CanTake(u, x.up, i) && Peer(u, x, c)
    ensures Peer(u, x.(up := Without(u, x.up, i)), c)
    ensures u.inOrder ==> InOrder(Without(u, x.up, i), x.up[i].no)
    ensures x.up[i].no <= c
  {
    hide Upto, Blocks, IsBlksize, Reply, Request;
  }

  // The request it waited for: one more reply.
  lemma Answered(u: Setup, x: Session, c: nat, data: seq<byte>)
    requires Peer(u, x, c) && x.s + 1 <= c && (u.inOrder ==> InOrder(x.up, x.s + 1)) && x.s < Last(u, x.terms)
    requires u.role == Put ==> data == Block(u.file, x.terms.blk, x.s + 1)
    ensures var y := x.(s := x.s + 1);
            var z := y.(stored := x.stored + data, complete := |data| < x.terms.blk);
            Peer(u, Answer(u, if u.role == Get then y else z), c)
  {
    hide Upto, Blocks, IsBlksize, Request, Block, Reply;
    NextBlock(u.file, x.terms.blk, x.s + 1);
    BlockLengths(u.file, x.terms.blk, x.s + 1);
    var y := x.(s := x.s + 1);
    y := if u.role == Get then y else y.(stored := x.stored + data, complete := |data| < x.terms.blk);
    forall i | 0 <= i < |y.down| ensures IsReply(u, y, y.down[i]) {
      assert IsReply(u, x, x.down[i]);
    }
    assert Peer(u, y, c);
    Resent(u, y, c);
  }

  // Something the client sent reaches the server.
  lemma Arrived(u: Setup, x: Session, c: nat, i: nat)
    requires CanTake(u, x.up, i) && Peer(u, x, c) && c <= Last(u, x.terms)
    ensures Peer(u, Arrive(u, x.(up := Without(u, x.up, i)), x.up[i].bytes), c)
  {
    hide Upto, Blocks, IsBlksize, Reply, Request, Block, InOrder, Answer, Without, IsReply, IsRequest;
    RequestRead(u, x, c, i);
    Taken(u, x, c, i);
    var p, y := x.up[i], x.(up := Without(u, x.up, i));
    Resent(u, y, c);
    if p.no == x.s + 1 && (u.role == Get ==> x.s < Last(u, x.terms)) && (u.role == Put ==> !x.complete) {
      Answered(u, y, c, p.bytes[TFTP_HDR_LEN..]);
    }
  }

  // ----- A run of the network -----

  // What can happen next; a script of events is one run.
  datatype Event =
    | TimeOut                                   // nothing comes for a while
    | Fault                                     // recvfrom fails
    | Stray(bytes: seq<byte>)                   // something comes from another address
    | Deliver(j: nat, i: nat)                   // a reply of session j comes
    | LoseReply(j: nat)
    | Reach(j: nat, i: nat)                     // what was sent to session j gets there
    | LoseRequest(j: nat)
    | Again(j: nat)                             // session j repeats its latest reply
    | Begin(i: nat, accept: Option<(seq<byte>, nat)>)   // a copy of request i gets to the server
    | Abort(j: nat, code: nat, text: seq<byte>) // session j fails and says so

  // Nothing fails by itself.
  predicate Smooth(script: seq<Event>) {
    forall e :: e in script ==> !e.Fault? && !e.Abort?
  }

  datatype Arrival = Quiet | Broken | From(server: bool, port: nat, bytes: seq<byte>)

  function ErrorPacket(code: nat, text: seq<byte>): seq<byte> {
    Header(OP_ERROR, code % 65536) + text
  }

  // The option's limit on the command line, and a name that is a string.
  predicate ProperSetup(u: Setup) {
    && (u.want == 0 || TFTP_MIN_BLKSIZE <= u.want <= TFTP_MAX_BLKSIZE)
    && 0 !in u.name && (u.role == Get ==> u.file == if u.name in u.files then u.files[u.name] else [])
  }

  // What the client has to put into its request.
  function OwnRequest(u: Setup): seq<byte> {
    RequestSent(if u.role == Get then OP_RRQ else OP_WRQ, u.name, u.want)
  }

  // Nothing else is asked for: a server that can read the packet takes it for the transfer that is meant.
  predicate AsksRight(u: Setup, q: seq<byte>) {
    var r := ReadRequest(q);
    r.Some? ==> r.value.write == (u.role == Put) && r.value.name == u.name && r.value.want <= u.want
  }

  lemma {:induction false} OwnAsksRight(u: Setup)
    requires ProperSetup(u) && |u.name| <= TX_SZ - 3
    ensures AsksRight(u, OwnRequest(u))
  {
    hide ReadRequest, RequestSent, RequestPacket;
    RequestUnderstood(if u.role == Get then OP_RRQ else OP_WRQ, u.name, u.want);
  }

  // Sessions come into being and go on, on the terms they began with.
  ghost predicate GoOn(before: seq<Session>, now: seq<Session>) {
    |before| <= |now| && forall j :: 0 <= j < |before| ==> now[j].terms == before[j].terms
  }

  class Net {
    const u: Setup
    var script: seq<Event>
    var sessions: seq<Session>
    var asked: seq<seq<byte>>             // what was sent to the server's well-known port
    ghost var came: seq<(nat, nat)>       // which replies of which sessions reached the client

    constructor (u: Setup, script: seq<Event>)
      requires ProperSetup(u)
      ensures this.u == u && this.script == script && asked == [] && came == [] && Holds(None, 0) && Holds(None, 1)
    {
      this.u, this.script := u, script;
      sessions, asked, came := [], [], [];
    }

    // The client talks to session lock and waits for its reply c; no other has heard of it again.
    ghost predicate Holds(lock: Option<nat>, c: nat)
      reads `sessions, `asked
    {
      && ProperSetup(u)
      && (forall q :: q in asked ==> AsksRight(u, q))
      && (sessions != [] && u.role == Get ==> u.name in u.files)
      && (forall j :: 0 <= j < |sessions| && lock != Some(j) ==> Idle(u, sessions[j]))
      && (lock.Some? ==> lock.value < |sessions| && Peer(u, sessions[lock.value], c))
    }

    ghost predicate Waits(lock: Option<nat>, c: nat)
      reads `sessions, `asked
    {
      Holds(lock, c) && (lock.Some? ==> c <= Last(u, sessions[lock.value].terms))
    }

    ghost predicate Fronts()
      reads `sessions
    {
      forall j :: 0 <= j < |sessions| ==> StoresFront(u, sessions[j])
    }

    lemma HoldsFronts(lock: Option<nat>, c: nat)
      requires Holds(lock, c)
      ensures Fronts()
    {
      hide Sound, StoresFront;
      forall j | 0 <= j < |sessions| ensures StoresFront(u, sessions[j]) {
        assert lock != Some(j) ==> Idle(u, sessions[j]);
        SoundStoresFront(u, sessions[j]);
      }
    }

    method Ask(bytes: seq<byte>, ghost lock: Option<nat>, ghost c: nat)
      requires AsksRight(u, bytes)
      modifies `asked
      ensures asked == old(asked) + [bytes]
      ensures old(Waits(lock, c)) ==> Waits(lock, c)
    {
      hide Idle, Peer, Last, AsksRight;
      asked := asked + [bytes];
    }

    method Send(port: nat, bytes: seq<byte>, ghost no: nat)
      requires port < |sessions|
      modifies `sessions
      ensures var x := old(sessions[port]);
              sessions == old(sessions)[port := x.(up := x.up + [Packet(bytes, no)])]
      ensures GoOn(old(sessions), sessions)
      ensures no >= 1 && bytes == Request(u, sessions[port].terms, no) && old(Waits(Some(port), no)) ==>
          Waits(Some(port), no)
      ensures old(Fronts()) ==> Fronts()
    {
      hide Idle, Peer, Request, Last;
      if no >= 1 && bytes == Request(u, sessions[port].terms, no) {
        Asked(u, sessions[port], no);
      }
      sessions := sessions[port := sessions[port].(up := sessions[port].up + [Packet(bytes, no)])];
    }

    // What does not reach the client.
    method Elsewhere(e: Event, ghost lock: Option<nat>, ghost c: nat)
      requires Waits(lock, c)
      modifies `sessions
      ensures Waits(lock, c) && GoOn(old(sessions), sessions)
    {
      hide Idle, Peer, Answer, Arrive, Without, Start, Serves;
      match e
      case Begin(i, accept) =>
        if i < |asked| && Serves(u, asked[i], accept) {
          ServedRight(u, asked[i], accept);
          Starts(u, accept);
          sessions := sessions + [Start(u, accept)];
        }
      case Again(j) =>
        if j < |sessions| {
          Resent(u, sessions[j], c);
          Put(j, Answer(u, sessions[j]), lock, c);
        }
      case LoseReply(j) =>
        if u.inOrder && j < |sessions| && sessions[j].down != [] {
          Lost(u, sessions[j], c);
          Put(j, sessions[j].(down := sessions[j].down[1..]), lock, c);
        }
      case LoseRequest(j) =>
        if u.inOrder && j < |sessions| && sessions[j].up != [] {
          Lost(u, sessions[j], c);
          NothingUp(u, sessions[j], c);
          Put(j, sessions[j].(up := sessions[j].up[1..]), lock, c);
        }
      case Reach(j, i) =>
        if j < |sessions| && CanTake(u, sessions[j].up, i) {
          NothingUp(u, sessions[j], c);
          Arrived(u, sessions[j], c, i);
          Put(j, Arrive(u, sessions[j].(up := Without(u, sessions[j].up, i)), sessions[j].up[i].bytes), lock, c);
        }
      case _ =>
    }

    // recvfrom: the script goes on until something arrives, or nothing does for long enough.
    method Receive(ghost lock: Option<nat>, ghost c: nat) returns (a: Arrival, ghost no: nat)
      requires Waits(lock, c)
      modifies `script, `sessions, `came
      ensures Waits(lock, c) && GoOn(old(sessions), sessions)
      ensures |script| <= |old(script)| && (!a.Quiet? ==> |script| < |old(script)|)
      ensures a.From? && a.server ==> a.port < |sessions|
      ensures a.From? && a.server && !IsError(a.bytes) ==> Replied(lock, c, a.port, a.bytes, no)
      ensures came == if a.From? && a.server && !IsError(a.bytes) then old(came) + [(a.port, no)] else old(came)
      ensures Smooth(old(script)) ==> Smooth(script) && !a.Broken? && (a.From? && a.server ==> !IsError(a.bytes))
    {
      hide Idle, Peer, Without, CanTake, Reply, Last, GoOn, IsError;
      no := 0;
      Same(sessions);
      while script != []
        invariant Waits(lock, c) && GoOn(old(sessions), sessions) && |script| <= |old(script)|
        invariant came == old(came) && (Smooth(old(script)) ==> Smooth(script))
        decreases |script|
      {
        var e := script[0];
        assert e in script;
        script := script[1..];
        match e
        case TimeOut => return Quiet, no;
        case Fault => return Broken, no;
        case Stray(bytes) => return From(false, 0, bytes), no;
        case Abort(j, code, text) =>
          if j < |sessions| {
            ErrorIsError(code, text);
            return From(true, j, ErrorPacket(code, text)), no;
          }
        case Deliver(j, i) =>
          if j < |sessions| && CanTake(u, sessions[j].down, i) {
            ghost var was := sessions;
            a, no := Bring(j, i, lock, c);
            GoesOn(old(sessions), was, sessions);
            return;
          }
        case _ =>
          ghost var was := sessions;
          Elsewhere(e, lock, c);
          GoesOn(old(sessions), was, sessions);
      }
      a := Quiet;
    }

    // What a reply means to a client that talks to session lock, if to any, and waits for reply c.
    ghost predicate Replied(lock: Option<nat>, c: nat, port: nat, bytes: seq<byte>, no: nat)
      reads this
    {
      && port < |sessions| && bytes == Reply(u, sessions[port].terms, no) && First(u, sessions[port].terms) <= no
      && (lock.None? ==> no == First(u, sessions[port].terms) && Holds(Some(port), no + 1))
      && (lock == Some(port) ==>
          no <= c && (no % 65536 == c % 65536 ==> no == c) && (no == c ==> Holds(lock, c + 1)))
    }

    method Bring(j: nat, i: nat, ghost lock: Option<nat>, ghost c: nat) returns (a: Arrival, ghost no: nat)
      requires Waits(lock, c) && j < |sessions| && CanTake(u, sessions[j].down, i)
      modifies `sessions, `came
      ensures Waits(lock, c) && GoOn(old(sessions), sessions)
      ensures a.From? && a.server && a.port == j && Replied(lock, c, a.port, a.bytes, no) && !IsError(a.bytes)
      ensures came == old(came) + [(a.port, no)]
    {
      hide Idle, Peer, Without, Reply, Last;
      Delivered(u, sessions[j], c, i);
      DownIsReply(u, sessions[j], c, i);
      a, no := From(true, j, sessions[j].down[i].bytes), sessions[j].down[i].no;
      NoReplyIsError(u, sessions[j].terms, no);
      came := came + [(j, no)];
      Put(j, sessions[j].(down := Without(u, sessions[j].down, i)), lock, c);
    }

    method Put(j: nat, x: Session, ghost lock: Option<nat>, ghost c: nat)
      requires j < |sessions| && x.terms == sessions[j].terms && Waits(lock, c)
      requires if lock == Some(j) then Peer(u, x, c) else Idle(u, x)
      modifies `sessions
      ensures Waits(lock, c) && sessions == old(sessions)[j := x]
    {
      sessions := sessions[j := x];
    }
  }

  predicate IsError(bytes: seq<byte>) {
    |bytes| >= TFTP_HDR_LEN && GetBe16(bytes, 0) == OP_ERROR
  }

  lemma {:induction false} NoReplyIsError(u: Setup, t: Terms, k: nat)
    ensures !IsError(Reply(u, t, k))
  {
    hide Block, Decimal;
    if k == 0 && t.name.Some? {
      assert OackPacket(t.name.value, t.blk)[..2] == PutBe16(OP_OACK);
    } else if u.role == Get && k > 0 {
      HeaderReadBack(OP_DATA, k % 65536, Block(u.file, t.blk, k));
    } else {
      HeaderReadBack(OP_ACK, k % 65536, []);
    }
  }

  lemma ErrorIsError(code: nat, text: seq<byte>)
    ensures IsError(ErrorPacket(code, text))
  {
    HeaderReadBack(OP_ERROR, code % 65536, text);
  }

  lemma Same(sessions: seq<Session>)
    ensures GoOn(sessions, sessions)
  {
  }

  lemma GoesOn(a: seq<Session>, b: seq<Session>, c: seq<Session>)
    requires GoOn(a, b) && GoOn(b, c)
    ensures GoOn(a, c)
  {
  }

  // Numbers of replies on their way are known from their 16 bits.
  lemma DownIsReply(u: Setup, x: Session, c: nat, i: nat)
    requires CanTake(u, x.down, i)
    ensures var p := x.down[i];
            && (Idle(u, x) ==> p.no == First(u, x.terms) && p.bytes == Reply(u, x.terms, p.no))
            && (Peer(u, x, c) && c <= Last(u, x.terms) ==>
                First(u, x.terms) <= p.no <= c && p.bytes == Reply(u, x.terms, p.no) &&
                (p.no % 65536 == c % 65536 ==> p.no == c))
  {
    hide Reply, Request, Upto, Blocks;
    if Peer(u, x, c) && c <= Last(u, x.terms) {
      assert IsReply(u, x, x.down[i]);
      if x.down[i].no % 65536 == c % 65536 {
        NumberOf(x.down[i].no, c);
      }
    }
  }

  lemma Asked(u: Setup, x: Session, c: nat)
    requires c >= 1
    ensures Peer(u, x, c) ==> Peer(u, x.(up := x.up + [Packet(Request(u, x.terms, c), c)]), c)
  {
    hide Upto, Blocks, IsBlksize, Reply, Request;
  }

  // What the client may rely on about the session it talks to.
  lemma PeerMeans(u: Setup, x: Session, c: nat)
    requires Peer(u, x, c)
    ensures if x.terms.name.Some? then IsBlksize(x.terms.name.value) && TFTP_MIN_BLKSIZE <= x.terms.blk <= u.want
            else x.terms.blk == TFTP_DEF_BLKSIZE
    ensures c - 1 <= Last(u, x.terms) && First(u, x.terms) <= c - 1
  {
  }

  lemma NothingUp(u: Setup, x: Session, c: nat)
    ensures Idle(u, x) ==> x.up == []
    ensures Idle(u, x) || Peer(u, x, c) ==> x.terms.blk > 0
  {
  }
}
