/** resolv.c's name and message code. */
module Resolv {
  import opened Bytes
  import opened DnsWire

  const MAX_RESULTS: nat := 8

  // ----- Names -----

  predicate Encodable(labels: seq<seq<byte>>, room: nat) {
    (forall i :: 0 <= i < |labels| ==> |labels[i]| <= 63) && |Flat(labels)| + 1 <= room
  }

  lemma {:induction false} LabelsStep(host: seq<byte>)
    requires host != []
    ensures var n := Find(host, DOT);
            if n == 0 then Labels(host) == Labels(host[1..])
            else Labels(host) == [host[..n]] + (if n < |host| then Labels(host[n + 1..]) else [])
  {
    hide Find, Labels;
    LabelsUnfolded(host);
  }

  lemma {:induction false} LabelsUnfolded(host: seq<byte>)
    ensures Labels(host) ==
            if host == [] then []
            else
              var n := Find(host, DOT);
              var rest := if n < |host| then Labels(host[n + 1..]) else [];
              if n == 0 then rest else [host[..n]] + rest
  {
    hide Find;
  }

  lemma {:induction false} LabelsNotEmpty(host: seq<byte>)
    ensures forall i :: 0 <= i < |Labels(host)| ==> 1 <= |Labels(host)[i]| && DOT !in Labels(host)[i]
    decreases |host|
  {
    hide Find;
    if host != [] {
      var n := Find(host, DOT);
      if n < |host| {
        LabelsNotEmpty(host[n + 1..]);
      }
    }
  }

  // A label that is too long, or one there is no room for.
  lemma NotEncodable(done: seq<seq<byte>>, part: seq<byte>, more: seq<seq<byte>>, room: nat)
    requires |part| > 63 || |Flat(done)| + 1 + |part| + 1 > room
    ensures !Encodable(done + ([part] + more), room)
  {
    hide Flat;
    var all := done + ([part] + more);
    assert all[|done|] == part && all[..|done|] == done;
    FlatGrows(all, |done|);
  }

  lemma AllEncoded(done: seq<seq<byte>>, room: nat)
    requires (forall i :: 0 <= i < |done| ==> |done[i]| <= 63) && |Flat(done)| + 1 <= room
    ensures Encodable(done, room)
  {
  }

  lemma FlatOneMore(done: seq<seq<byte>>, part: seq<byte>)
    requires |part| <= 63
    ensures Flat(done + [part]) == Flat(done) + ([|part|] + part)
  {
    assert (done + [part])[..|done|] == done;
  }

  method PutLabel(out: array<byte>, at: nat, off: nat, part: seq<byte>)
    requires |part| <= 63 && at + off + 1 + |part| <= out.Length
    modifies out
    ensures out[at..at + (off + 1 + |part|)] == old(out[at..at + off]) + ([|part|] + part)
    ensures forall i :: 0 <= i < out.Length && !(at + off <= i < at + off + 1 + |part|) ==> out[i] == old(out[i])
  {
    ghost var before := out[at..at + off];
    out[at + off] := |part|;
    forall i | 0 <= i < |part| {
      out[at + off + 1 + i] := part[i];
    }
    assert out[at..at + off] == before;
    assert out[at + off..at + (off + 1 + |part|)] == [|part|] + part;
    assert out[at..at + (off + 1 + |part|)] == out[at..at + off] + out[at + off..at + (off + 1 + |part|)];
  }

  // encode_name: the labels of the host, if none is too long and all of them fit.
  method EncodeName(host: seq<byte>, out: array<byte>, at: nat, room: nat) returns (r: int)
    requires 1 <= room && at + room <= out.Length
    modifies out
    ensures r == -1 || 0 < r <= room
    ensures r != -1 <==> Encodable(Labels(host), room)
    ensures r != -1 ==> r == |Flat(Labels(host))| + 1 && out[at..at + r] == Flat(Labels(host)) + [0]
    ensures forall i :: 0 <= i < out.Length && !(at <= i < at + room) ==> out[i] == old(out[i])
  {
    hide Labels, Flat, Find, Encodable;
    var off, name := 0, host;
    ghost var done: seq<seq<byte>> := [];
    NothingEncoded(host);
    while name != []
      invariant Labels(host) == done + Labels(name) && forall i :: 0 <= i < |done| ==> |done[i]| <= 63
      invariant off == |Flat(done)| && off + 1 <= room && out[at..at + off] == Flat(done)
      invariant forall i :: 0 <= i < out.Length && !(at <= i < at + room) ==> out[i] == old(out[i])
      decreases |name|
    {
      LabelsStep(name);
      var len := Find(name, DOT);
      if len == 0 {
        name := name[1..];
        continue;
      }
      var part := name[..len];
      ghost var rest := if len < |name| then Labels(name[len + 1..]) else [];
      assert done + ([part] + rest) == done + [part] + rest;
      if len > 63 || off + 1 + len + 1 > room {
        NotEncodable(done, part, rest, room);
        return -1;
      }
      PutLabel(out, at, off, part);
      FlatOneMore(done, part);
      off, done := off + 1 + len, done + [part];
      NoLabelsOfNothing();
      name := if len < |name| then name[len + 1..] else [];
    }
    NoLabelsOfNothing();
    assert done + [] == done;
    AllEncoded(done, room);
    ghost var flat := out[at..at + off];
    out[at + off] := 0;
    off := off + 1;
    assert out[at..at + (off - 1)] == flat;
    assert out[at..at + off] == flat + [0];
    r := off;
  }

  lemma NothingEncoded(host: seq<byte>)
    ensures Labels(host) == [] + Labels(host) && Flat([]) == []
  {
  }

  lemma NoLabelsOfNothing()
    ensures Labels([]) == []
  {
  }

  // ----- The query -----

  // The question for a host's addresses.
  function Query(id: nat, host: seq<byte>): seq<byte> {
    Header(id, 0x0100, 1, 0, 0, 0) + (Flat(Labels(host)) + [0]) + (PutBe16(TYPE_A) + PutBe16(1))
  }

  method Put(buf: array<byte>, at: nat, bytes: seq<byte>)
    requires at + |bytes| <= buf.Length
    modifies buf
    ensures buf[..at + |bytes|] == old(buf[..at]) + bytes
    ensures forall i :: 0 <= i < buf.Length && !(at <= i < at + |bytes|) ==> buf[i] == old(buf[i])
  {
    forall i | 0 <= i < |bytes| {
      buf[at + i] := bytes[i];
    }
  }

  // build_query
  method BuildQuery(host: seq<byte>, id: nat, buf: array<byte>) returns (r: int)
    requires buf.Length >= HEADER_SZ + 5
    modifies buf
    ensures r == -1 || 0 <= r <= buf.Length
    ensures r == -1 <==> !Encodable(Labels(host), buf.Length - HEADER_SZ - 4)
    ensures r != -1 ==> buf[..r] == Query(id, host)
  {
    hide Labels, Flat, Header, PutBe16, Encodable;
    Put(buf, 0, Header(id, 0x0100, 1, 0, 0, 0));
    var off := HEADER_SZ;
    ghost var head := buf[..off];
    assert head == Header(id, 0x0100, 1, 0, 0, 0);
    r := EncodeName(host, buf, off, buf.Length - off - 4);
    if r < 0 {
      return -1;
    }
    assert buf[..off] == head;
    assert buf[..off + r] == buf[..off] + buf[off..off + r];
    off := off + r;
    Put(buf, off, PutBe16(TYPE_A));
    Put(buf, off + 2, PutBe16(1));
    ghost var name := Flat(Labels(host)) + [0];
    assert head + name + PutBe16(TYPE_A) + PutBe16(1) == head + name + (PutBe16(TYPE_A) + PutBe16(1));
    r := off + 4;
  }

  // The bytes of it: recursion is desired, there is one question, and it is for addresses of the internet.
  lemma {:induction false} QueryInBytes(id: nat, host: seq<byte>)
    ensures Query(id, host) ==
            [id / 256 % 256, id % 256, 1, 0, 0, 1, 0, 0, 0, 0, 0, 0] + (Flat(Labels(host)) + [0]) + [0, 1, 0, 1]
  {
    hide Labels, Flat;
    HeaderInBytes(id, 0x0100, 0);
  }

  // a.bc
  lemma {:induction false} TwoLabels()
    ensures Flat(Labels([97, 46, 98, 99])) + [0] == [1, 97, 2, 98, 99, 0]
  {
    hide Labels, Flat;
    assert [97, 46, 98, 99] == [97] + [DOT] + [98, 99];
    LabelsSplit([97], [98, 99]);
    OnePiece([97]);
    OnePiece([98, 99]);
    FlatJoins([[97]], [[98, 99]]);
    NameInBytes([97]);
    NameInBytes([98, 99]);
  }

  // The name of a query is skipped up to the four bytes behind it.
  lemma QuerySkipped(id: nat, host: seq<byte>)
    requires forall i :: 0 <= i < |Labels(host)| ==> |Labels(host)[i]| <= 63
    ensures SkipName(Query(id, host), HEADER_SZ) == Some(|Query(id, host)| - 4)
  {
    hide StartsAt, Labels, Flat, Header, SkipName;
    LabelsNotEmpty(host);
    var q, n := Query(id, host), Name(Labels(host), None);
    var head, tail := Header(id, 0x0100, 1, 0, 0, 0), PutBe16(TYPE_A) + PutBe16(1);
    assert q == head + (NameBytes(n) + (tail + ([] + [])));
    WholeStarts(q);
    Parts(q, head, NameBytes(n), tail, [], []);
    NameSkipped(q, HEADER_SZ, n);
  }

  // ----- The response -----

  // skip_name
  method Skip(buf: array<byte>, len: nat, off0: nat) returns (r: int)
    requires len <= buf.Length
    ensures r == match SkipName(buf[..len], off0) case None => -1 case Some(o) => o
  {
    var off := off0;
    while off < len
      invariant SkipName(buf[..len], off0) == SkipName(buf[..len], off)
      decreases len - off
    {
      var n := buf[off];
      if n >= 0xc0 {
        return off + 2;
      }
      if n == 0 {
        return off + 1;
      }
      off := off + 1 + n;
    }
    r := -1;
  }

  // The addresses that are kept for the caller: at most MAX_RESULTS of them.
  class Results {
    var addrs: seq<seq<byte>>
    ghost var told: seq<seq<byte>>   // all it was told of

    constructor ()
      ensures addrs == [] && told == []
    {
      addrs, told := [], [];
    }

    ghost predicate Valid()
      reads this
    {
      addrs == if |told| <= MAX_RESULTS then told else told[..8]
    }

    // parse_response_cb_memfd
    method Add(addr: seq<byte>)
      requires Valid()
      modifies this
      ensures Valid() && told == old(told) + [addr]
    {
      if |addrs| < MAX_RESULTS {
        addrs := addrs + [addr];
      }
      told := told + [addr];
      assert |told| > MAX_RESULTS ==>
        told[..MAX_RESULTS] == if |old(told)| <= MAX_RESULTS then old(told) else old(told)[..MAX_RESULTS];
    }
  }

  lemma RecordsStep(buf: seq<byte>, off: nat, n: nat)
    requires n > 0 && off < |buf|
    ensures RecordsAt(buf, off, n) ==
      match SkipName(buf, off)
      case None => Parsed(false, [])
      case Some(o) =>
        if o + 10 > |buf| || o + 10 + GetBe16(buf, o + 8) > |buf| then Parsed(false, [])
        else
          var rest := RecordsAt(buf, o + 10 + GetBe16(buf, o + 8), n - 1);
          var found := if GetBe16(buf, o) == TYPE_A && GetBe16(buf, o + 8) == 4 then [buf[o + 10..o + 14]] else [];
          Parsed(rest.ok, found + rest.addrs)
  {
    hide SkipName;
  }

  // parse_response: the number of addresses, or -1 if the message makes no sense. Addresses in
  // front of the part that makes none have been told by then.
  method ParseResponse(buf: array<byte>, len: nat, id: nat, out: Results) returns (r: int)
    requires len <= buf.Length && out.Valid() && out.told == []
    modifies out
    ensures out.Valid() && out.told == Answers(buf[..len], id).addrs
    ensures r == if Answers(buf[..len], id).ok then |out.told| else -1
  {
    hide SkipName, RecordsAt, GetBe16, Results.Valid;
    ghost var s := buf[..len];
    var found := 0;
    if len < HEADER_SZ {
      return -1;
    }
    if GetBe16(buf[..len], 0) != id {
      return -1;
    }
    var ancount := GetBe16(buf[..len], 6);
    var o := Skip(buf, len, HEADER_SZ);
    if o < 0 || o + 4 > len {
      return -1;
    }
    var off: nat, i := o + 4, 0;
    ghost var whole := RecordsAt(s, off, ancount);
    while i < ancount && off < len
      invariant i <= ancount && out.Valid() && found == |out.told| && buf[..len] == s
      invariant whole.ok == RecordsAt(s, off, ancount - i).ok
      invariant whole.addrs == out.told + RecordsAt(s, off, ancount - i).addrs
    {
      RecordsStep(s, off, ancount - i);
      o := Skip(buf, len, off);
      if o < 0 || o + 10 > len {
        return -1;
      }
      var kind, rdlen := GetBe16(buf[..len], o), GetBe16(buf[..len], o + 8);
      off := o + 10;
      if off + rdlen > len {
        return -1;
      }
      Appended(out.told, if kind == TYPE_A && rdlen == 4 then [s[off..off + 4]] else [],
               RecordsAt(s, off + rdlen, ancount - i - 1).addrs);
      if kind == TYPE_A && rdlen == 4 {
        out.Add(buf[..len][off..off + 4]);
        found := found + 1;
      }
      off := off + rdlen;
      i := i + 1;
    }
    RecordsEnd(s, off, ancount - i);
    r := found;
  }

  lemma Appended(a: seq<seq<byte>>, b: seq<seq<byte>>, c: seq<seq<byte>>)
    ensures a + (b + c) == (a + b) + c && a + [] == a
  {
  }

  lemma RecordsEnd(buf: seq<byte>, off: nat, n: nat)
    requires n == 0 || off >= |buf|
    ensures RecordsAt(buf, off, n) == Parsed(true, [])
  {
  }
}
