/** The telnet byte stream of telnetd.c: what is stripped from it and what is added. */
module TelnetFormat {
  import opened Bytes

  const IAC: byte := 255
  const SE: byte := 240
  const SB: byte := 250
  const WILL: byte := 251
  const DO: byte := 253
  const DONT: byte := 254
  const OPT_ECHO: byte := 1
  const OPT_SGA: byte := 3
  const NUL: byte := 0
  const LF: byte := 10
  const CR: byte := 13

  const HELLO: seq<byte> := [IAC, WILL, OPT_ECHO, IAC, WILL, OPT_SGA, IAC, DO, OPT_SGA]

  datatype State = InData | AfterCr | InCmd | InOpt | InSub | InSubIac

  datatype Stripped = Stripped(state: State, out: seq<byte>)

  // One turn of the automaton in strip_iac.
  function StripByte(st: State, ch: byte): Stripped {
    match st
    case InData => FromData(ch)
    case AfterCr => if ch == NUL || ch == LF then Stripped(InData, []) else FromData(ch)
    case InCmd =>
      if ch == IAC then Stripped(InData, [ch])
      else if ch == SB then Stripped(InSub, [])
      else if WILL <= ch <= DONT then Stripped(InOpt, [])
      else Stripped(InData, [])
    case InOpt => Stripped(InData, [])
    case InSub => Stripped(if ch == IAC then InSubIac else InSub, [])
    case InSubIac => Stripped(if ch == SE then InData else InSub, [])
  }

  function FromData(ch: byte): Stripped {
    if ch == IAC then Stripped(InCmd, [])
    else Stripped(if ch == CR then AfterCr else InData, [ch])
  }

  function Strip(st: State, s: seq<byte>): Stripped {
    if s == [] then Stripped(st, [])
    else
      var before := Strip(st, s[..|s| - 1]);
      var now := StripByte(before.state, s[|s| - 1]);
      Stripped(now.state, before.out + now.out)
  }

  lemma StripOneMore(st: State, s: seq<byte>, i: nat)
    requires i < |s|
    ensures var before := Strip(st, s[..i]); var now := StripByte(before.state, s[i]);
            Strip(st, s[..i + 1]) == Stripped(now.state, before.out + now.out)
  {
    assert s[..i + 1][..i] == s[..i];
  }

  // Stripping is the same however the stream was cut into reads.
  lemma {:induction false} StripCut(st: State, a: seq<byte>, b: seq<byte>)
    ensures var first := Strip(st, a); var second := Strip(first.state, b);
            Strip(st, a + b) == Stripped(second.state, first.out + second.out)
    decreases |b|
  {
    hide Strip, StripByte;
    StripLast(Strip(st, a).state, b);
    StripLast(st, a + b);
    if b == [] {
      assert a + b == a;
    } else {
      var b' := b[..|b| - 1];
      assert (a + b)[..|a + b| - 1] == a + b';
      StripCut(st, a, b');
      var first, before := Strip(st, a), Strip(Strip(st, a).state, b');
      var now := StripByte(before.state, b[|b| - 1]);
      assert first.out + before.out + now.out == first.out + (before.out + now.out);
    }
  }

  lemma StripLast(st: State, s: seq<byte>)
    ensures if s == [] then Strip(st, s) == Stripped(st, [])
            else
              var before := Strip(st, s[..|s| - 1]); var now := StripByte(before.state, s[|s| - 1]);
              Strip(st, s) == Stripped(now.state, before.out + now.out)
  {
    hide StripByte;
  }

  lemma StripOne(st: State, ch: byte)
    ensures Strip(st, [ch]) == StripByte(st, ch)
  {
    assert [ch][..0] == [];
    var before := Strip(st, []);
    assert before == Stripped(st, []);
    assert before.out + StripByte(st, ch).out == StripByte(st, ch).out;
  }

  // The automaton from the front, which is how a parse of the stream proceeds.
  lemma StripFirst(st: State, ch: byte, rest: seq<byte>)
    ensures var one := StripByte(st, ch); var more := Strip(one.state, rest);
            Strip(st, [ch] + rest) == Stripped(more.state, one.out + more.out)
  {
    StripOne(st, ch);
    StripCut(st, [ch], rest);
  }

  function Escape(s: seq<byte>): seq<byte> {
    if s == [] then []
    else Escape(s[..|s| - 1]) + EscapeByte(s[|s| - 1])
  }

  function EscapeByte(b: byte): seq<byte> {
    if b == IAC then [b, b] else [b]
  }

  lemma EscapeOneMore(s: seq<byte>, i: nat)
    requires i < |s|
    ensures Escape(s[..i + 1]) == Escape(s[..i]) + EscapeByte(s[i])
  {
    assert s[..i + 1][..i] == s[..i];
  }

  lemma {:induction false} EscapeCut(a: seq<byte>, b: seq<byte>)
    ensures Escape(a + b) == Escape(a) + Escape(b)
    decreases |b|
  {
    if b == [] {
      assert a + b == a;
    } else {
      var b' := b[..|b| - 1];
      assert (a + b)[..|a + b| - 1] == a + b';
      EscapeCut(a, b');
    }
  }

  lemma EscapeFirst(b: byte, rest: seq<byte>)
    ensures Escape([b] + rest) == EscapeByte(b) + Escape(rest)
  {
    assert [b][..0] == [];
    assert Escape([b]) == EscapeByte(b);
    EscapeCut([b], rest);
  }

  lemma {:induction false} EscapeAtMostDoubles(s: seq<byte>)
    ensures |s| <= |Escape(s)| <= 2 * |s|
  {
    if s != [] {
      EscapeAtMostDoubles(s[..|s| - 1]);
    }
  }

  // ----- What a well-formed stream means: section "TELNET COMMAND STRUCTURE" of RFC 854 -----

  datatype Item = Data(b: byte) | Command(code: byte) | Negotiate(verb: byte, opt: byte) | Sub(body: seq<byte>) {
    predicate Valid() {
      match this
      case Data(_) => true
      case Command(code) => code != IAC && code != SB && !(WILL <= code <= DONT)
      case Negotiate(verb, _) => WILL <= verb <= DONT
      case Sub(_) => true
    }

    function Wire(): seq<byte> {
      match this
      case Data(b) => EscapeByte(b)
      case Command(code) => [IAC, code]
      case Negotiate(verb, opt) => [IAC, verb, opt]
      case Sub(body) => [IAC, SB] + Escape(body) + [IAC, SE]
    }
  }

  function Wire(items: seq<Item>): seq<byte> {
    if items == [] then [] else items[0].Wire() + Wire(items[1..])
  }

  // The bytes of them, and of what a client gets first.
  lemma {:induction false} ItemsInBytes(b: byte, code: byte, body: seq<byte>)
    ensures Data(b).Wire() == if b == 255 then [255, 255] else [b]
    ensures Command(code).Wire() == [255, code] && Negotiate(251, code).Wire() == [255, 251, code]
    ensures forall verb: byte :: Negotiate(verb, code).Valid() <==> 251 <= verb <= 254
    ensures Sub(body).Wire() == [255, 250] + Escape(body) + [255, 240]
    ensures HELLO == [255, 251, 1, 255, 251, 3, 255, 253, 3]
  {
  }

  // The data of a stream, where NUL or LF right behind a CR only completes a line end.
  function Text(afterCr: bool, items: seq<Item>): seq<byte>
    decreases items
  {
    if items == [] then []
    else if !items[0].Data? then Text(false, items[1..])
    else if afterCr && items[0].b in {NUL, LF} then Text(false, items[1..])
    else [items[0].b] + Text(items[0].b == CR, items[1..])
  }

  function Resting(afterCr: bool): State {
    if afterCr then AfterCr else InData
  }

  function EndsAfterCr(afterCr: bool, items: seq<Item>): bool
    decreases items
  {
    if items == [] then afterCr
    else EndsAfterCr(items[0].Data? && items[0].b == CR, items[1..])
  }

  lemma {:induction false} StripSubBody(body: seq<byte>)
    ensures Strip(InSub, Escape(body)) == Stripped(InSub, [])
  {
    if body != [] {
      var last := body[|body| - 1];
      StripSubBody(body[..|body| - 1]);
      StripCut(InSub, Escape(body[..|body| - 1]), EscapeByte(last));
      if last == IAC {
        StripFirst(InSub, IAC, [IAC]);
        assert [IAC] + [IAC] == EscapeByte(last);
        StripOne(InSubIac, IAC);
      } else {
        StripOne(InSub, last);
      }
    }
  }

  lemma StripTwo(st: State, a: byte, b: byte)
    ensures var one := StripByte(st, a); var two := StripByte(one.state, b);
            Strip(st, [a, b]) == Stripped(two.state, one.out + two.out)
  {
    StripFirst(st, a, [b]);
    StripOne(StripByte(st, a).state, b);
    assert [a] + [b] == [a, b];
  }

  lemma StripSub(st: State, body: seq<byte>)
    requires st in {InData, AfterCr}
    ensures Strip(st, Sub(body).Wire()) == Stripped(InData, [])
  {
    StripTwo(st, IAC, SB);
    StripSubBody(body);
    StripCut(st, [IAC, SB], Escape(body));
    StripTwo(InSub, IAC, SE);
    StripCut(st, [IAC, SB] + Escape(body), [IAC, SE]);
  }

  lemma StripItem(afterCr: bool, item: Item)
    requires item.Valid()
    ensures Strip(Resting(afterCr), item.Wire()) ==
            Stripped(Resting(EndsAfterCr(afterCr, [item])), Text(afterCr, [item]))
  {
    hide Strip, Escape;
    var st := Resting(afterCr);
    assert EndsAfterCr(afterCr, [item]) == (item.Data? && item.b == CR);
    assert [item][1..] == [];
    match item
    case Data(b) =>
      if b == IAC {
        StripTwo(st, IAC, IAC);
      } else {
        StripOne(st, b);
      }
    case Command(code) =>
      StripTwo(st, IAC, code);
    case Negotiate(verb, opt) =>
      StripTwo(st, IAC, verb);
      StripOne(InOpt, opt);
      StripCut(st, [IAC, verb], [opt]);
      assert [IAC, verb] + [opt] == item.Wire();
    case Sub(body) =>
      StripSub(st, body);
  }

  lemma TextOfFirst(afterCr: bool, items: seq<Item>)
    requires items != []
    ensures Text(afterCr, items) == Text(afterCr, items[..1]) + Text(EndsAfterCr(afterCr, items[..1]), items[1..])
  {
    assert items[..1][1..] == [];
  }

  // strip_iac returns the data of any stream of data and commands.
  lemma {:induction false} StripMeaning(afterCr: bool, items: seq<Item>)
    requires forall i :: 0 <= i < |items| ==> items[i].Valid()
    ensures Strip(Resting(afterCr), Wire(items)) ==
            Stripped(Resting(EndsAfterCr(afterCr, items)), Text(afterCr, items))
    decreases items
  {
    if items != [] {
      var next := EndsAfterCr(afterCr, items[..1]);
      assert items[..1] == [items[0]] && items[..1][1..] == [];
      StripItem(afterCr, items[0]);
      StripMeaning(next, items[1..]);
      StripCut(Resting(afterCr), items[0].Wire(), Wire(items[1..]));
      TextOfFirst(afterCr, items);
    }
  }

  // ----- Escape and strip -----

  function AsItems(s: seq<byte>): (items: seq<Item>)
    ensures |items| == |s| && forall i :: 0 <= i < |s| ==> items[i] == Data(s[i])
  {
    seq(|s|, i requires 0 <= i < |s| => Data(s[i]))
  }

  lemma {:induction false} EscapeIsWire(s: seq<byte>)
    ensures Wire(AsItems(s)) == Escape(s)
  {
    if s != [] {
      assert AsItems(s)[1..] == AsItems(s[1..]);
      EscapeIsWire(s[1..]);
      EscapeFirst(s[0], s[1..]);
      assert [s[0]] + s[1..] == s;
    }
  }

  // A line end in the encoding of RFC 854: CR with NUL or LF behind it.
  predicate HasLineEnd(s: seq<byte>) {
    exists i :: 0 <= i < |s| - 1 && s[i] == 13 && s[i + 1] in {0, 10}
  }

  lemma {:induction false} TextOfData(afterCr: bool, s: seq<byte>)
    ensures var t := Text(afterCr, AsItems(s));
            |t| <= |s| && (t == s <==> !HasLineEnd(if afterCr then [CR] + s else s))
    decreases s
  {
    if s == [] {
    } else {
      var items := AsItems(s);
      assert items[1..] == AsItems(s[1..]);
      var drop := afterCr && s[0] in {NUL, LF};
      var next := if drop then false else s[0] == CR;
      TextOfData(next, s[1..]);
      var whole := if afterCr then [CR] + s else s;
      var rest := if next then [CR] + s[1..] else s[1..];
      assert s == [s[0]] + s[1..];
      if drop {
        assert whole[0] == CR && whole[1] == s[0];
      } else {
        SameLineEnds(afterCr, s, rest);
      }
    }
  }

  lemma {:induction false} SameLineEnds(afterCr: bool, s: seq<byte>, rest: seq<byte>)
    requires s != [] && !(afterCr && s[0] in {NUL, LF})
    requires rest == if s[0] == CR then [CR] + s[1..] else s[1..]
    ensures HasLineEnd(if afterCr then [CR] + s else s) <==> HasLineEnd(rest)
  {
    var whole := if afterCr then [CR] + s else s;
    var skip := |whole| - |rest|;
    assert rest == whole[skip..];
    if skip == 1 {
      LineEndBehind(whole);
    }
    if skip == 2 {
      LineEndBehind(whole);
      LineEndBehind(s);
      assert whole[1..] == s;
    }
  }

  lemma {:induction false} LineEndBehind(s: seq<byte>)
    requires |s| >= 1 && !(|s| >= 2 && s[0] == CR && s[1] in {NUL, LF})
    ensures HasLineEnd(s) <==> HasLineEnd(s[1..])
  {
    var rest := s[1..];
    if HasLineEnd(s) {
      var i :| 0 <= i < |s| - 1 && s[i] == CR && s[i + 1] in {NUL, LF};
      assert rest[i - 1] == CR && rest[i - 1 + 1] == s[i + 1];
    }
    if HasLineEnd(rest) {
      var i :| 0 <= i < |rest| - 1 && rest[i] == CR && rest[i + 1] in {NUL, LF};
      assert s[i + 1] == CR && s[i + 1 + 1] == rest[i + 1];
    }
  }

  // strip_iac undoes escape exactly on data without a CR NUL or CR LF pair.
  lemma StripInvertsEscape(s: seq<byte>)
    ensures Strip(InData, Escape(s)).out == s <==> !HasLineEnd(s)
  {
    EscapeIsWire(s);
    StripMeaning(false, AsItems(s));
    TextOfData(false, s);
  }
}
