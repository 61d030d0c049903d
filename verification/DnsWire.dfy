/** DNS messages (RFC 1035 sections 3.1, 4.1.3 and 4.1.4). */
module DnsWire {
  import opened Bytes

  const DOT: byte := 46

  // ----- Names -----

  // The labels of a host name; empty ones do not count.
  function Labels(host: seq<byte>): seq<seq<byte>> {
    if host == [] then []
    else
      var n := Find(host, DOT);
      var rest := if n < |host| then Labels(host[n + 1..]) else [];
      if n == 0 then rest else [host[..n]] + rest
  }

  // The labels are the non-empty pieces between the dots, all of them and in order: one piece
  // is one label, and a dot splits a name into two independent halves.
  lemma {:induction false} OnePiece(a: seq<byte>)
    requires DOT !in a
    ensures Labels(a) == if a == [] then [] else [a]
  {
    FindIs(a, DOT, |a|);
    assert a[..|a|] == a;
  }

  lemma {:induction false} LabelsSplit(a: seq<byte>, b: seq<byte>)
    ensures Labels(a + [DOT] + b) == Labels(a) + Labels(b)
    decreases |a|
  {
    hide Find;
    var n, whole := Find(a, DOT), a + [DOT] + b;
    FindIs(whole, DOT, n);
    assert whole[..n] == a[..n];
    if n < |a| {
      assert whole[n + 1..] == a[n + 1..] + [DOT] + b;
      LabelsSplit(a[n + 1..], b);
    } else {
      assert whole[n + 1..] == b && a[..n] == a;
    }
  }

  function Flat(labels: seq<seq<byte>>): seq<byte> {
    if labels == [] then [] else Flat(labels[..|labels| - 1]) + ([|labels[|labels| - 1]| % 256] + labels[|labels| - 1])
  }

  // A name ends with an empty label or with a pointer to the rest of it.
  datatype Name = Name(labels: seq<seq<byte>>, pointer: Option<(byte, byte)>) {
    predicate Valid() {
      (forall i :: 0 <= i < |labels| ==> 1 <= |labels[i]| <= 63) && (pointer.Some? ==> pointer.value.0 < 64)
    }
  }

  function NameBytes(n: Name): (r: seq<byte>)
    requires n.Valid()
    ensures r != []
  {
    Flat(n.labels) + (if n.pointer.Some? then [192 + n.pointer.value.0, n.pointer.value.1] else [0])
  }

  lemma {:induction false} FlatGrows(labels: seq<seq<byte>>, k: nat)
    requires k < |labels|
    ensures |Flat(labels[..k])| + 1 + |labels[k]| == |Flat(labels[..k + 1])| <= |Flat(labels)|
    ensures StartsAt(Flat(labels), |Flat(labels[..k])|, [|labels[k]| % 256] + labels[k])
    decreases |labels|
  {
    var before := labels[..|labels| - 1];
    assert labels[..k + 1][..k] == labels[..k];
    var last := [|labels[|labels| - 1]| % 256] + labels[|labels| - 1];
    assert Flat(labels) == Flat(before) + last;
    if k + 1 == |labels| {
      assert labels[..k + 1] == labels && before == labels[..k];
    } else {
      assert before[..k] == labels[..k] && before[..k + 1] == labels[..k + 1];
      FlatGrows(before, k);
      StillStarts(Flat(before), last, |Flat(labels[..k])|, [|labels[k]| % 256] + labels[k]);
    }
  }

  lemma StillStarts(a: seq<byte>, b: seq<byte>, at: nat, part: seq<byte>)
    requires StartsAt(a, at, part)
    ensures StartsAt(a + b, at, part)
  {
    assert (a + b)[at..at + |part|] == a[at..at + |part|];
  }

  // ----- Records and messages -----

  const TYPE_A: nat := 1

  datatype Record = Record(name: Name, kind: nat, class_: nat, ttl: seq<byte>, data: seq<byte>) {
    predicate Valid() {
      name.Valid() && kind < 65536 && |ttl| == 4 && |data| < 65536
    }

    predicate IsAddress() {
      kind == TYPE_A && |data| == 4
    }
  }

  function RecordBytes(r: Record): seq<byte>
    requires r.Valid()
  {
    NameBytes(r.name) + (PutBe16(r.kind) + (PutBe16(r.class_) + (r.ttl + (PutBe16(|r.data|) + r.data))))
  }

  predicate AllRecords(rs: seq<Record>) {
    forall i :: 0 <= i < |rs| ==> rs[i].Valid()
  }

  function RecordsBytes(rs: seq<Record>): seq<byte>
    requires AllRecords(rs)
  {
    if rs == [] then [] else RecordBytes(rs[0]) + RecordsBytes(rs[1..])
  }

  const HEADER_SZ: nat := 12

  function Header(id: nat, flags: nat, questions: nat, answers: nat, authority: nat, additional: nat): (r: seq<byte>)
    ensures |r| == HEADER_SZ
  {
    PutBe16(id) +
    (PutBe16(flags) + (PutBe16(questions) + (PutBe16(answers) + (PutBe16(authority) + PutBe16(additional)))))
  }

  // The bytes of names, headers and records.
  lemma {:induction false} FlatJoins(a: seq<seq<byte>>, b: seq<seq<byte>>)
    ensures Flat(a + b) == Flat(a) + Flat(b)
    decreases |b|
  {
    if b == [] {
      assert a + b == a && Flat(a) + [] == Flat(a);
    } else {
      var n := |b| - 1;
      assert (a + b)[..|a + b| - 1] == a + b[..n] && (a + b)[|a + b| - 1] == b[n];
      FlatJoins(a, b[..n]);
      Glue(Flat(a), Flat(b[..n]), [|b[n]| % 256] + b[n]);
    }
  }

  lemma {:induction false} NameInBytes(part: seq<byte>)
    requires 1 <= |part| <= 63
    ensures Flat([part]) == [|part|] + part
    ensures forall p: (byte, byte) :: p.0 < 64 ==>
      NameBytes(Name([], Some(p))) == [192 + p.0, p.1] && NameBytes(Name([], None)) == [0]
  {
    assert [part][..0] == [];
    assert Flat([part]) == [] + ([|part|] + part);
  }

  lemma {:induction false} HeaderInBytes(id: nat, flags: nat, answers: nat)
    ensures Header(id, flags, 1, answers, 0, 0) ==
            [id / 256 % 256, id % 256, flags / 256 % 256, flags % 256, 0, 1,
             answers / 256 % 256, answers % 256, 0, 0, 0, 0]
  {
  }

  lemma {:induction false} RecordInBytes(r: Record)
    requires r.Valid()
    ensures RecordBytes(r) ==
            NameBytes(r.name) + ([r.kind / 256 % 256, r.kind % 256, r.class_ / 256 % 256, r.class_ % 256] +
                                 (r.ttl + ([|r.data| / 256 % 256, |r.data| % 256] + r.data)))
    ensures r.IsAddress() <==> r.kind == 1 && |r.data| == 4
  {
    Glue(PutBe16(r.kind), PutBe16(r.class_), r.ttl + (PutBe16(|r.data|) + r.data));
  }

  // One question, the answers, and whatever comes behind them.
  function Response(id: nat, flags: nat, question: Name, kind: seq<byte>, answers: seq<Record>, rest: seq<byte>,
                    others: (nat, nat)): seq<byte>
    requires question.Valid() && AllRecords(answers)
  {
    var header := Header(id, flags, 1, |answers|, others.0, others.1);
    header + (NameBytes(question) + (kind + (RecordsBytes(answers) + rest)))
  }

  function Addresses(rs: seq<Record>): seq<seq<byte>> {
    if rs == [] then [] else (if rs[0].IsAddress() then [rs[0].data] else []) + Addresses(rs[1..])
  }

  lemma GetPutBe16(s: seq<byte>, at: nat, v: nat)
    requires StartsAt(s, at, PutBe16(v)) && v < 65536
    ensures GetBe16(s, at) == v
  {
    StartsAtSlice(s, at, PutBe16(v));
    assert s[at + 0] == PutBe16(v)[0] && s[at + 1] == PutBe16(v)[1];
  }

  // ----- Where a name ends -----

  function SkipName(buf: seq<byte>, off: nat): Option<nat>
    decreases if off < |buf| then |buf| - off else 0
  {
    if off >= |buf| then None
    else if buf[off] >= 0xc0 then Some(off + 2)
    else if buf[off] == 0 then Some(off + 1)
    else SkipName(buf, off + 1 + buf[off])
  }

  lemma LabelSkipped(buf: seq<byte>, at: nat, part: seq<byte>)
    requires 1 <= |part| <= 63 && StartsAt(buf, at, [|part| % 256] + part)
    ensures SkipName(buf, at) == SkipName(buf, at + 1 + |part|)
  {
    hide StartsAt;
    StartsSplit(buf, at, [|part| % 256], part);
    StartsWith(buf, at, |part| % 256);
  }

  lemma {:induction false} SkipLabels(buf: seq<byte>, off: nat, labels: seq<seq<byte>>, k: nat)
    requires StartsAt(buf, off, Flat(labels)) && k <= |labels| && forall i :: 0 <= i < |labels| ==>
        1 <= |labels[i]| <= 63
    ensures SkipName(buf, off + |Flat(labels[..k])|) == SkipName(buf, off + |Flat(labels)|)
    decreases |labels| - k
  {
    hide StartsAt, SkipName, Flat;
    if k < |labels| {
      FlatGrows(labels, k);
      var at := |Flat(labels[..k])|;
      StartsInside(buf, off, Flat(labels), at, [|labels[k]| % 256] + labels[k]);
      LabelSkipped(buf, off + at, labels[k]);
      SkipLabels(buf, off, labels, k + 1);
    } else {
      assert labels[..k] == labels;
    }
  }

  lemma NameSkipped(buf: seq<byte>, off: nat, n: Name)
    requires n.Valid() && StartsAt(buf, off, NameBytes(n))
    ensures SkipName(buf, off) == Some(off + |NameBytes(n)|) && off + |NameBytes(n)| <= |buf|
  {
    hide StartsAt, Flat, SkipName;
    var end := if n.pointer.Some? then [192 + n.pointer.value.0, n.pointer.value.1] else [0];
    StartsAtSlice(buf, off, NameBytes(n));
    StartsSplit(buf, off, Flat(n.labels), end);
    EndSkipped(buf, off + |Flat(n.labels)|, end);
    SkipLabels(buf, off, n.labels, 0);
    assert |Flat(n.labels[..0])| == 0 by {
      NoLabels(n.labels[..0]);
    }
  }

  lemma EndSkipped(buf: seq<byte>, at: nat, end: seq<byte>)
    requires StartsAt(buf, at, end) && end != [] && if |end| == 2 then end[0] >= 0xc0 else end == [0]
    ensures SkipName(buf, at) == Some(at + |end|)
  {
    hide StartsAt;
    StartsAtSlice(buf, at, end);
    assert buf[at + 0] == end[0];
  }

  lemma NoLabels(labels: seq<seq<byte>>)
    requires labels == []
    ensures Flat(labels) == []
  {
  }

  // ----- What is read from a message -----

  datatype Parsed = Parsed(ok: bool, addrs: seq<seq<byte>>)

  // The addresses among the first n records from off on.
  function RecordsAt(buf: seq<byte>, off: nat, n: nat): Parsed
    decreases n
  {
    if n == 0 || off >= |buf| then Parsed(true, [])
    else
      match SkipName(buf, off)
      case None => Parsed(false, [])
      case Some(o) =>
        if o + 10 > |buf| then Parsed(false, [])
        else
          var len := GetBe16(buf, o + 8);
          if o + 10 + len > |buf| then Parsed(false, [])
          else
            var rest := RecordsAt(buf, o + 10 + len, n - 1);
            Parsed(rest.ok, (if GetBe16(buf, o) == TYPE_A && len == 4 then [buf[o + 10..o + 14]] else []) + rest.addrs)
  }

  function Answers(buf: seq<byte>, id: nat): Parsed {
    if |buf| < HEADER_SZ || GetBe16(buf, 0) != id then Parsed(false, [])
    else
      match SkipName(buf, HEADER_SZ)
      case None => Parsed(false, [])
      case Some(o) => if o + 4 > |buf| then Parsed(false, []) else RecordsAt(buf, o + 4, GetBe16(buf, 6))
  }

  lemma RecordRead(buf: seq<byte>, off: nat, r: Record)
    requires r.Valid() && StartsAt(buf, off, RecordBytes(r))
    ensures off < off + |RecordBytes(r)| <= |buf|
    ensures var o := off + |NameBytes(r.name)|;
            && SkipName(buf, off) == Some(o) && o + 10 + |r.data| == off + |RecordBytes(r)|
            && GetBe16(buf, o) == r.kind && GetBe16(buf, o + 8) == |r.data| && buf[o + 10..o + 10 + |r.data|] == r.data
  {
    hide StartsAt, NameBytes, PutBe16, GetBe16;
    StartsAtSlice(buf, off, RecordBytes(r));
    var p4 := PutBe16(|r.data|) + r.data;
    var p3 := r.ttl + p4;
    var p2 := PutBe16(r.class_) + p3;
    var p1 := PutBe16(r.kind) + p2;
    var o := off + |NameBytes(r.name)|;
    StartsSplit(buf, off, NameBytes(r.name), p1);
    NameSkipped(buf, off, r.name);
    StartsSplit(buf, o, PutBe16(r.kind), p2);
    GetPutBe16(buf, o, r.kind);
    StartsSplit(buf, o + 2, PutBe16(r.class_), p3);
    StartsSplit(buf, o + 4, r.ttl, p4);
    StartsSplit(buf, o + 8, PutBe16(|r.data|), r.data);
    GetPutBe16(buf, o + 8, |r.data|);
    StartsAtSlice(buf, o + 10, r.data);
  }

  lemma {:induction false} RecordsRead(buf: seq<byte>, off: nat, rs: seq<Record>)
    requires AllRecords(rs) && StartsAt(buf, off, RecordsBytes(rs))
    ensures RecordsAt(buf, off, |rs|) == Parsed(true, Addresses(rs))
    decreases |rs|
  {
    hide StartsAt, RecordBytes, SkipName, GetBe16, NameBytes;
    if rs != [] {
      StartsSplit(buf, off, RecordBytes(rs[0]), RecordsBytes(rs[1..]));
      RecordRead(buf, off, rs[0]);
      RecordsRead(buf, off + |RecordBytes(rs[0])|, rs[1..]);
    }
  }

  // A message cut short anywhere is an error, and what is behind that point is not looked at.
  lemma {:induction false} CutShort(buf: seq<byte>, off: nat, n: nat)
    requires n > 0 && off < |buf|
    requires match SkipName(buf, off)
      case None => true
      case Some(o) =>
        o + 10 > |buf| || (var high: int, low: int := buf[o + 8], buf[o + 9]; o + 10 + 256 * high + low > |buf|)
    ensures RecordsAt(buf, off, n) == Parsed(false, [])
  {
    hide SkipName;
  }

  lemma {:induction false} NotAnswers(buf: seq<byte>, id: nat)
    requires |buf| < 12 || (var high: int, low: int := buf[0], buf[1]; id != 256 * high + low) ||
             SkipName(buf, 12).None? || SkipName(buf, 12).value + 4 > |buf|
    ensures Answers(buf, id) == Parsed(false, [])
  {
    hide SkipName, RecordsAt;
  }

  // What is skipped as a name is labels, each with its length in front, and a zero or a pointer.
  lemma {:induction false} NameFound(buf: seq<byte>, off: nat) returns (labels: seq<seq<byte>>)
    requires SkipName(buf, off).Some?
    ensures forall i :: 0 <= i < |labels| ==> 1 <= |labels[i]| < 192
    ensures StartsAt(buf, off, Flat(labels))
    ensures var end := off + |Flat(labels)|;
            end < |buf| && (buf[end] == 0 || buf[end] >= 192) &&
            SkipName(buf, off) == Some(if buf[end] == 0 then end + 1 else end + 2)
    decreases if off < |buf| then |buf| - off else 0
  {
    hide Flat, StartsAt;
    labels := [];
    if 0 < buf[off] < 192 {
      var len := buf[off];
      var more := NameFound(buf, off + 1 + len);
      var part := PartFound(buf, off);
      labels := [part] + more;
      FlatJoins([part], more);
      StartsJoin(buf, off, Flat([part]), Flat(more));
    } else {
      NoLabels(labels);
      NothingStarts(buf, off);
    }
  }

  lemma NothingStarts(buf: seq<byte>, off: nat)
    requires off <= |buf|
    ensures StartsAt(buf, off, [])
  {
  }

  lemma {:induction false} PartFound(buf: seq<byte>, off: nat) returns (part: seq<byte>)
    requires off < |buf| && 0 < buf[off] < 192 && off + 1 + buf[off] <= |buf|
    ensures |part| == buf[off] && |Flat([part])| == 1 + |part| && StartsAt(buf, off, Flat([part]))
  {
    part := buf[off + 1..off + 1 + buf[off]];
    NoLabels([part][..0]);
    assert Flat([part]) == [] + ([buf[off]] + part) == [buf[off]] + part;
    assert buf[off..off + 1 + buf[off]] == [buf[off]] + part;
  }

  // Of every well-formed response exactly the addresses are read, in their order.
  lemma ResponseRead(buf: seq<byte>, id: nat, flags: nat, question: Name, kind: seq<byte>, answers: seq<Record>,
                     rest: seq<byte>, others: (nat, nat))
    requires question.Valid() && AllRecords(answers) && id < 65536 && |answers| < 65536 && |kind| == 4
    requires buf == Response(id, flags, question, kind, answers, rest, others)
    ensures Answers(buf, id) == Parsed(true, Addresses(answers))
  {
    hide StartsAt, NameBytes, SkipName, GetBe16, PutBe16, RecordsBytes, RecordsAt, Addresses, Header, AllRecords,
        Answers;
    var head := Header(id, flags, 1, |answers|, others.0, others.1);
    WholeStarts(buf);
    Parts(buf, head, NameBytes(question), kind, RecordsBytes(answers), rest);
    HeaderRead(buf, id, flags, |answers|, others);
    NameSkipped(buf, HEADER_SZ, question);
    RecordsRead(buf, HEADER_SZ + |NameBytes(question)| + 4, answers);
    AnswersAre(buf, id, HEADER_SZ + |NameBytes(question)|, |answers|);
  }

  lemma AnswersAre(buf: seq<byte>, id: nat, o: nat, n: nat)
    requires |buf| >= HEADER_SZ && GetBe16(buf, 0) == id && GetBe16(buf, 6) == n
    requires SkipName(buf, HEADER_SZ) == Some(o) && o + 4 <= |buf|
    ensures Answers(buf, id) == RecordsAt(buf, o + 4, n)
  {
    hide SkipName, GetBe16, RecordsAt;
  }

  lemma Parts(buf: seq<byte>, a: seq<byte>, b: seq<byte>, c: seq<byte>, d: seq<byte>, e: seq<byte>)
    requires StartsAt(buf, 0, a + (b + (c + (d + e))))
    ensures StartsAt(buf, 0, a) && StartsAt(buf, |a|, b) && StartsAt(buf, |a| + |b| + |c|, d)
    ensures |a| + |b| + |c| <= |buf|
  {
    hide StartsAt;
    StartsSplit(buf, 0, a, b + (c + (d + e)));
    StartsSplit(buf, |a|, b, c + (d + e));
    StartsSplit(buf, |a| + |b|, c, d + e);
    StartsAtSlice(buf, |a| + |b|, c);
    StartsSplit(buf, |a| + |b| + |c|, d, e);
  }

  lemma WholeStarts(buf: seq<byte>)
    ensures StartsAt(buf, 0, buf)
  {
  }

  lemma HeaderRead(buf: seq<byte>, id: nat, flags: nat, answers: nat, others: (nat, nat))
    requires StartsAt(buf, 0, Header(id, flags, 1, answers, others.0, others.1)) && id < 65536 && answers < 65536
    ensures |buf| >= HEADER_SZ && GetBe16(buf, 0) == id && GetBe16(buf, 6) == answers
  {
    hide StartsAt, GetBe16, PutBe16;
    StartsAtSlice(buf, 0, Header(id, flags, 1, answers, others.0, others.1));
    var p4 := PutBe16(others.0) + PutBe16(others.1);
    var p3 := PutBe16(answers) + p4;
    var p2 := PutBe16(1) + p3;
    var p1 := PutBe16(flags) + p2;
    StartsSplit(buf, 0, PutBe16(id), p1);
    StartsSplit(buf, 2, PutBe16(flags), p2);
    StartsSplit(buf, 4, PutBe16(1), p3);
    StartsSplit(buf, 6, PutBe16(answers), p4);
    GetPutBe16(buf, 0, id);
    GetPutBe16(buf, 6, answers);
  }
}
