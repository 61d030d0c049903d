/**
 The grammar of smolsh's lines, stated without a parser: words that are spelled in any way, the
 operators between them, and what such a line runs. The parser reads every line of it so.
 */
module SmolshGrammar {
  import opened Bytes
  import opened Readln
  import opened Smolsh
  import opened SmolshPrint

  // ----- Words -----

  // One way to put characters into a word: as they are, behind a backslash, or in quotes.
  datatype Piece = Plain(b: byte) | Behind(b: byte) | InQuotes(text: seq<byte>) {
    predicate Valid() {
      match this
      case Plain(b) => b !in {SPACE, LESS, GREATER, BAR, DOLLAR, QUOTE, BACKSLASH}
      case Behind(_) => true
      case InQuotes(text) => QUOTE !in text
    }

    function Spelled(): (s: seq<byte>)
      ensures s != []
    {
      match this
      case Plain(b) => [b]
      case Behind(b) => [BACKSLASH, b]
      case InQuotes(text) => [QUOTE] + text + [QUOTE]
    }

    function Meant(): seq<byte> {
      if InQuotes? then text else [b]
    }
  }

  ghost predicate AllPieces(ps: seq<Piece>) {
    forall i :: 0 <= i < |ps| ==> ps[i].Valid()
  }

  function Spelling(ps: seq<Piece>): (s: seq<byte>)
    ensures ps != [] ==> s != []
  {
    if ps == [] then [] else ps[0].Spelled() + Spelling(ps[1..])
  }

  function Meaning(ps: seq<Piece>): seq<byte> {
    if ps == [] then [] else ps[0].Meant() + Meaning(ps[1..])
  }

  lemma {:induction false} Behinds(s: seq<byte>, i: nat, a: seq<byte>, rest: seq<byte>)
    requires i <= |s| && s[i..] == a + rest
    ensures i + |a| <= |s| && s[i + |a|..] == rest && forall k :: 0 <= k < |a| ==> s[i + k] == a[k]
  {
    assert s[i + |a|..] == s[i..][|a|..];
    forall k | 0 <= k < |a| ensures s[i + k] == a[k] {
      assert s[i + k] == s[i..][k];
    }
  }

  lemma {:induction false} QuotesRead(s: seq<byte>, i: nat, t: seq<byte>, rest: seq<byte>, text: seq<byte>)
    requires i <= |s| && s[i..] == t + ([QUOTE] + rest) && QUOTE !in t
    ensures i + |t| + 1 <= |s| && QuotedFrom(s, i, text) == WordFrom(s, i + |t| + 1, text + t)
    decreases |t|
  {
    hide WordFrom, QuotedFrom;
    Behinds(s, i, t, [QUOTE] + rest);
    Behinds(s, i + |t|, [QUOTE], rest);
    assert s[i + |t| + 0] == QUOTE;
    WordSteps(s, i, text);
    if t == [] {
      assert text + t == text;
    } else {
      assert s[i + 0] == t[0];
      assert s[i + 1..] == t[1..] + ([QUOTE] + rest);
      QuotesRead(s, i + 1, t[1..], rest, text + [t[0]]);
      assert text + [t[0]] + t[1..] == text + t;
    }
  }

  lemma {:induction false} PieceRead(s: seq<byte>, i: nat, p: Piece, rest: seq<byte>, text: seq<byte>)
    requires i <= |s| && s[i..] == p.Spelled() + rest && p.Valid()
    ensures i + |p.Spelled()| <= |s| && s[i + |p.Spelled()|..] == rest
    ensures WordFrom(s, i, text) == WordFrom(s, i + |p.Spelled()|, text + p.Meant())
  {
    hide WordFrom, QuotedFrom;
    var sp := p.Spelled();
    Behinds(s, i, sp, rest);
    assert s[i + 0] == sp[0];
    WordSteps(s, i, text);
    match p
    case Plain(b) =>
    case Behind(b) =>
      assert s[i + 1] == sp[1];
    case InQuotes(t) =>
      assert s[i + 1..] == t + ([QUOTE] + rest);
      QuotesRead(s, i + 1, t, rest, text);
  }

  lemma PiecesLeft(ps: seq<Piece>)
    requires ps != [] && AllPieces(ps)
    ensures ps[0].Valid() && AllPieces(ps[1..])
  {
  }

  lemma {:induction false} PiecesRead(s: seq<byte>, i: nat, ps: seq<Piece>, rest: seq<byte>, text: seq<byte>)
    requires i <= |s| && s[i..] == Spelling(ps) + rest && AllPieces(ps)
    ensures i + |Spelling(ps)| <= |s| && s[i + |Spelling(ps)|..] == rest
    ensures WordFrom(s, i, text) == WordFrom(s, i + |Spelling(ps)|, text + Meaning(ps))
    decreases |ps|
  {
    hide WordFrom, Piece.Spelled, Piece.Meant, Piece.Valid, AllPieces;
    if ps == [] {
      assert text + [] == text;
      assert s[i..] == [] + rest == rest;
    } else {
      var p, more, said := ps[0], Spelling(ps[1..]), Meaning(ps[1..]);
      assert Spelling(ps) == p.Spelled() + more && Meaning(ps) == p.Meant() + said;
      hide Spelling, Meaning;
      PiecesLeft(ps);
      Glue(p.Spelled(), more, rest);
      PieceRead(s, i, p, more + rest, text);
      PiecesRead(s, i + |p.Spelled()|, ps[1..], rest, text + p.Meant());
      Glue(text, p.Meant(), said);
    }
  }

  predicate Stops(rest: seq<byte>) {
    rest == [] || rest[0] == SPACE || IsSpecial(rest[0])
  }

  // However a word is spelled, it is read as what it means, up to a space, an operator or the end.
  lemma {:induction false} SpellingRead(s: seq<byte>, i: nat, ps: seq<Piece>, rest: seq<byte>)
    requires i <= |s| && s[i..] == Spelling(ps) + rest && AllPieces(ps) && ps != [] && Stops(rest)
    ensures i + |Spelling(ps)| <= |s| && s[i + |Spelling(ps)|..] == rest
    ensures i < |s| && s[i] != SPACE && !IsSpecial(s[i])
    ensures WordFrom(s, i, []) == Word(Meaning(ps), i + |Spelling(ps)|)
  {
    hide WordFrom, QuotedFrom;
    PiecesRead(s, i, ps, rest, []);
    assert [] + Meaning(ps) == Meaning(ps);
    var j := i + |Spelling(ps)|;
    assert s[i] == s[i..][0] == ps[0].Spelled()[0];
    if rest == [] {
      WordEnds(s, Meaning(ps));
    } else {
      assert s[j] == s[j..][0];
      WordSteps(s, j, Meaning(ps));
    }
  }

  // ----- Lines -----

  // What no word can go on with: an expansion, a backslash at the end, a quote that is not closed.
  predicate Breaks(tail: seq<byte>) {
    tail != [] && (tail[0] == DOLLAR || tail == [BACKSLASH] || (tail[0] == QUOTE && QUOTE !in tail[1..]))
  }

  // A redirection is of file k, and of standard error for a word that says 2, however it is spelled;
  // only output is ever appended. A broken word takes all that follows.
  datatype Item = Blank | Text(ps: seq<Piece>) | Redirect(k: nat, append: bool, two: seq<Piece>) | Pipe
                | Broken(front: seq<Piece>, tail: seq<byte>)
  {
    ghost predicate Valid() {
      (Text? ==> ps != [] && AllPieces(ps)) && (Redirect? ==> k < 3 && (append ==> k > 0)) &&
      (Redirect? ==> AllPieces(two) && if k == 2 then Meaning(two) == [TWO] else two == []) &&
      (Broken? ==> AllPieces(front) && Breaks(tail))
    }

    function Written(): (s: seq<byte>)
      ensures s != [] || (Text? && ps == []) || (Broken? && tail == [])
    {
      match this
      case Blank => [SPACE]
      case Text(ps) => Spelling(ps)
      case Redirect(k, append, two) =>
        if k == 0 then [LESS] else Spelling(two) + (if append then [GREATER, GREATER] else [GREATER])
      case Pipe => [BAR]
      case Broken(front, tail) => Spelling(front) + tail
    }
  }

  function Line(items: seq<Item>): seq<byte> {
    if items == [] then [] else items[0].Written() + Line(items[1..])
  }

  // What must not stand side by side, because it would be read as one.
  predicate Apart(a: Item, b: Item) {
    && !a.Broken? && !(a.Text? && (b.Text? || b.Broken?))
    && !(a.Text? && b.Redirect? && (b.k == 2 || (b.k == 1 && Meaning(a.ps) == [TWO])))
    && !(a.Redirect? && a.k > 0 && !a.append && b.Redirect? && b.k == 1)
  }

  ghost predicate Proper(items: seq<Item>) {
    (forall i :: 0 <= i < |items| ==> items[i].Valid()) &&
    (forall i :: 0 <= i < |items| - 1 ==> Apart(items[i], items[i + 1]))
  }

  // A command, whether a pipe follows it, and the items behind that.
  datatype First = Wrong | First(cmd: Cmd, piped: bool, rest: seq<Item>)

  // Words go to the redirection that waits for its path, or behind the other words.
  function Command(items: seq<Item>, cmd: Cmd, want: Option<nat>): (r: First)
    requires cmd.Valid() && (want.Some? ==> want.value < 3)
    ensures r.First? ==> |r.rest| <= |items| && (r.piped ==> |r.rest| < |items|)
    decreases |items|
  {
    if items == [] then if want.Some? then Wrong else First(cmd, false, [])
    else
      match items[0]
      case Blank => Command(items[1..], cmd, want)
      case Text(ps) =>
        if want.Some? then Command(items[1..], cmd.(redir := cmd.redir[want.value := Some(Meaning(ps))]), None)
        else if |cmd.argv| >= 16 then Wrong
        else Command(items[1..], cmd.(argv := cmd.argv + [Meaning(ps)]), None)
      case Redirect(k, append, _) =>
        if want.Some? || k > 2 then Wrong
        else Command(items[1..], if k == 0 then cmd else cmd.(append := cmd.append[k := append]), Some(k))
      case Pipe => if want.Some? then Wrong else First(cmd, true, items[1..])
      case Broken(_, _) => Wrong
  }

  function Pipeline(items: seq<Item>, piped: bool): Ran
    decreases |items|
  {
    match Command(items, NOTHING, None)
    case Wrong => Ran([], true)
    case First(cmd, more, rest) =>
      if cmd.argv == [] then Ran([], more || piped)
      else if !more then Ran([Stage(cmd, piped, false)], false)
      else
        var behind := Pipeline(rest, true);
        Ran([Stage(cmd, piped, true)] + behind.stages, behind.syntaxError)
  }

  // ----- The parser reads it -----

  lemma {:induction false} ProperRest(items: seq<Item>, n: nat)
    requires Proper(items) && n <= |items|
    ensures Proper(items[n..])
  {
    hide Apart;
    forall i | 0 <= i < |items[n..]| - 1 ensures Apart(items[n..][i], items[n..][i + 1]) {
      assert Apart(items[n + i], items[n + i + 1]);
    }
  }

  // What a line can begin with behind an item that nothing may join.
  lemma {:induction false} BeginsWith(items: seq<Item>)
    requires Proper(items) && items != []
    ensures Line(items) != [] && (items[0].Redirect? && items[0].k == 2 ==> items[0].two != [])
    ensures Line(items)[0] == match items[0]
                              case Blank => SPACE
                              case Text(ps) => ps[0].Spelled()[0]
                              case Redirect(k, _, two) =>
                                if k == 0 then LESS else if k == 1 then GREATER else Spelling(two)[0]
                              case Pipe => BAR
                              case Broken(front, tail) => (Spelling(front) + tail)[0]
    ensures items[0].Broken? || (items[0].Redirect? && items[0].k == 2) ==> Line(items)[0] != GREATER
    ensures items[0].Text? ==> Line(items)[0] !in {SPACE, LESS, GREATER, BAR, DOLLAR}
  {
    hide Piece.Meant, Apart;
    assert items[0].Valid();
    if items[0].Text? {
      var p := items[0].ps[0];
      assert p.Valid();
    } else if items[0].Broken? && items[0].front != [] {
      var p := items[0].front[0];
      assert p.Valid();
    } else if items[0].Redirect? && items[0].k == 2 {
      assert items[0].two != [];
      var p := items[0].two[0];
      assert p.Valid();
    }
  }

  // What ends the word before items, or stands there without one.
  lemma {:induction false} OperatorHere(s: seq<byte>, j: nat, items: seq<Item>)
    requires j <= |s| && s[j..] == Line(items) && Proper(items)
    requires items == [] || !(items[0].Text? || items[0].Broken? || (items[0].Redirect? && items[0].k == 2))
    ensures var op := if j < |s| && IsSpecial(s[j]) then s[j] else 0;
            var append := op == GREATER && j + 1 < |s| && s[j + 1] == GREATER;
            var next := if j == |s| then j else if append then j + 2 else j + 1;
            if items == [] then j == |s| && op == 0
            else
              j < |s| && next <= |s| && s[next..] == Line(items[1..]) &&
              match items[0]
              case Blank => op == 0 && s[j] == SPACE
              case Redirect(k, a, _) => op == (if k == 0 then LESS else GREATER) && append == a && s[j] != SPACE
              case Pipe => op == BAR && s[j] != SPACE
              case _ => true
  {
    hide Spelling, Piece.Meant, Meaning;
    if items != [] {
      var it, more := items[0], Line(items[1..]);
      assert it.Valid();
      NoSpelling();
      Behinds(s, j, it.Written(), more);
      assert s[j + 0] == it.Written()[0];
      if |items| > 1 {
        ProperRest(items, 1);
        BeginsWith(items[1..]);
        assert Apart(items[0], items[0 + 1]);
      }
      if it.Redirect? && it.append {
        assert s[j + 1] == it.Written()[1];
      } else if more != [] {
        assert s[j + 1..][0] == more[0];
      }
    }
  }

  lemma SpaceSkipped(s: seq<byte>, i: nat, cmd: Cmd, want: Option<nat>)
    requires i < |s| && s[i] == SPACE && cmd.Valid() && (want.Some? ==> want.value < 3)
    ensures ParseFrom(s, i, cmd, want) == ParseFrom(s, i + 1, cmd, want)
  {
    hide TokenAt, Placed, Wanted;
  }

  // 2> and 2>> are the word 2 and the operator that ends it.
  lemma {:induction false} StderrHere(s: seq<byte>, i: nat, it: Item, more: seq<byte>)
    requires i <= |s| && s[i..] == it.Written() + more && it.Redirect? && it.k == 2 && it.Valid()
    requires it.append || more == [] || more[0] != GREATER
    ensures var n := |it.Written()|;
            i < |s| && s[i] != SPACE && TokenAt(s, i) == Some(Token(None, GREATER, it.append, true, i + n)) &&
            i + n <= |s| && s[i + n..] == more
  {
    hide WordFrom, QuotedFrom, TokenAt, Spelling, Meaning, AllPieces;
    var op := if it.append then [GREATER, GREATER] else [GREATER];
    var j := i + |Spelling(it.two)|;
    SaysSomething(it.two);
    Glue(Spelling(it.two), op, more);
    SpellingRead(s, i, it.two, op + more);
    Behinds(s, j, op, more);
    assert s[j + 0] == op[0];
    if it.append {
      assert s[j + 1] == op[1];
    } else if more != [] {
      assert s[j + 1..][0] == more[0];
    }
    WordToken(s, i, [TWO], j);
  }

  lemma SaysSomething(ps: seq<Piece>)
    requires Meaning(ps) != []
    ensures ps != []
  {
  }

  // What the parser makes of the command at i is what the items there mean.
  ghost predicate ReadsAs(s: seq<byte>, r: Parse, f: First) {
    match f
    case Wrong => r.Bad?
    case First(cmd, piped, rest) =>
      r.Parsed? && r.cmd == cmd && r.piped == piped && r.next <= |s| && s[r.next..] == Line(rest) && Proper(rest)
  }

  lemma {:induction false} CommandRead(s: seq<byte>, i: nat, items: seq<Item>, cmd: Cmd, want: Option<nat>)
    requires i <= |s| && s[i..] == Line(items) && Proper(items)
    requires cmd.Valid() && (want.Some? ==> want.value < 3)
    ensures ReadsAs(s, ParseFrom(s, i, cmd, want), Command(items, cmd, want))
    decreases |items|
  {
    hide ParseFrom, TokenAt, Spelling, Meaning, Apart, Line;
    if items == [] {
      LineOfNothing();
      ParseSteps(s, i, cmd, want);
    } else {
      ProperRest(items, 1);
      assert items[0].Valid();
      match items[0]
      case Blank =>
        OperatorHere(s, i, items);
        SpaceSkipped(s, i, cmd, want);
        CommandRead(s, i + 1, items[1..], cmd, want);
      case Text(_) =>
        TextRead(s, i, items, cmd, want);
      case Broken(front, tail) =>
        BrokenRead(s, i, items);
        ParseSteps(s, i, cmd, want);
      case Pipe =>
        OperatorHere(s, i, items);
        OperatorToken(s, i);
        ParseSteps(s, i, cmd, want);
      case Redirect(k, append, _) =>
        var next := RedirectRead(s, i, items);
        ParseSteps(s, i, cmd, want);
        if want.None? {
          var c := if k == 0 then cmd else cmd.(append := cmd.append[k := append]);
          CommandRead(s, next, items[1..], c, Some(k));
        }
    }
  }

  lemma {:induction false} BrokenRead(s: seq<byte>, i: nat, items: seq<Item>)
    requires i <= |s| && s[i..] == Line(items) && Proper(items) && items != [] && items[0].Broken?
    ensures i < |s| && s[i] != SPACE && TokenAt(s, i) == None
  {
    hide WordFrom, QuotedFrom, Spelling, Meaning;
    var front, tail := items[0].front, items[0].tail;
    assert items[0].Valid();
    assert |items| > 1 ==> Apart(items[0], items[0 + 1]);
    assert items[1..] == [];
    assert Line(items) == Spelling(front) + tail;
    PiecesRead(s, i, front, tail, []);
    TailRead(s, i + |Spelling(front)|, tail, [] + Meaning(front));
    FirstByte(s, i, front, tail);
  }

  lemma {:induction false} FirstByte(s: seq<byte>, i: nat, front: seq<Piece>, tail: seq<byte>)
    requires i <= |s| && s[i..] == Spelling(front) + tail && AllPieces(front) && Breaks(tail)
    ensures i < |s| && s[i] != SPACE && !IsSpecial(s[i])
  {
    assert s[i] == s[i..][0];
    if front != [] {
      assert front[0].Valid();
      assert s[i..][0] == front[0].Spelled()[0];
    }
  }

  lemma {:induction false} TailRead(s: seq<byte>, i: nat, tail: seq<byte>, text: seq<byte>)
    requires i <= |s| && s[i..] == tail && Breaks(tail)
    ensures WordFrom(s, i, text) == BadWord
  {
    hide WordFrom, QuotedFrom;
    assert s[i] == s[i..][0];
    WordSteps(s, i, text);
    if tail[0] == QUOTE {
      assert s[i + 1..] == tail[1..];
      NeverClosed(s, i + 1, text);
    }
  }

  lemma {:induction false} NeverClosed(s: seq<byte>, i: nat, text: seq<byte>)
    requires i <= |s| && QUOTE !in s[i..]
    ensures QuotedFrom(s, i, text) == BadWord
    decreases |s| - i
  {
    hide WordFrom, QuotedFrom;
    if i < |s| {
      assert s[i] == s[i..][0];
      WordSteps(s, i, text);
      assert s[i + 1..] == s[i..][1..];
      NeverClosed(s, i + 1, text + [s[i]]);
    } else {
      WordEnds(s, text);
    }
  }

  lemma LineOfNothing()
    ensures Line([]) == []
  {
  }

  lemma OperatorToken(s: seq<byte>, i: nat)
    requires i < |s| && IsSpecial(s[i])
    ensures s[i] != SPACE
    ensures var append := s[i] == GREATER && i + 1 < |s| && s[i + 1] == GREATER;
            TokenAt(s, i) == Some(Token(None, s[i], append, false, if append then i + 2 else i + 1))
  {
    hide WordFrom;
  }

  lemma {:induction false} RedirectRead(s: seq<byte>, i: nat, items: seq<Item>) returns (next: nat)
    requires i <= |s| && s[i..] == Line(items) && Proper(items) && items != [] && items[0].Redirect?
    ensures next <= |s| && s[next..] == Line(items[1..]) && i < |s| && s[i] != SPACE
    ensures var k := items[0].k;
            TokenAt(s, i) ==
            Some(Token(None, if k == 0 then LESS else GREATER, items[0].append, k == 2, next))
  {
    hide TokenAt, Spelling, Meaning;
    var it, more := items[0], Line(items[1..]);
    assert it.Valid();
    if it.k == 2 {
      if |items| > 1 {
        ProperRest(items, 1);
        BeginsWith(items[1..]);
        assert Apart(items[0], items[0 + 1]);
      }
      StderrHere(s, i, it, more);
      next := i + |it.Written()|;
    } else {
      OperatorHere(s, i, items);
      OperatorToken(s, i);
      next := if it.append then i + 2 else i + 1;
    }
  }

  // A word together with what ends it.
  lemma {:induction false} TextRead(s: seq<byte>, i: nat, items: seq<Item>, cmd: Cmd, want: Option<nat>)
    requires i <= |s| && s[i..] == Line(items) && Proper(items) && items != [] && items[0].Text?
    requires cmd.Valid() && (want.Some? ==> want.value < 3)
    ensures ReadsAs(s, ParseFrom(s, i, cmd, want), Command(items, cmd, want))
    decreases |items|, 0
  {
    hide ParseFrom, TokenAt, Spelling, Meaning, Line, WordFrom, Proper, Apart, AllPieces;
    var ps, after := items[0].ps, items[1..];
    ProperRest(items, 1);
    FirstIsWritten(items);
    StopsThere(items);
    SpellingRead(s, i, ps, Line(after));
    var j, w := i + |Spelling(ps)|, Meaning(ps);
    OperatorHere(s, j, after);
    WordToken(s, i, w, j);
    ParseSteps(s, i, cmd, want);
    var placed := Placed(cmd, want, Some(w));
    if after != [] {
      ProperRest(after, 1);
    }
    assert Command(items, cmd, want) == if placed.None? then Wrong else Command(after, placed.value, None);
    if placed.Some? {
      var c := placed.value;
      if after == [] {
        CommandRead(s, j, after, c, None);
      } else if after[0].Blank? {
        CommandRead(s, j + 1, after[1..], c, None);
      } else if after[0].Redirect? {
        var k, append := after[0].k, after[0].append;
        var next := if append then j + 2 else j + 1;
        CommandRead(s, next, after[1..], if k == 0 then c else c.(append := c.append[k := append]), Some(k));
      }
    }
  }

  lemma FirstIsWritten(items: seq<Item>)
    requires items != [] && items[0].Text? && Proper(items)
    ensures Line(items) == Spelling(items[0].ps) + Line(items[1..]) && items[0].ps != [] && AllPieces(items[0].ps)
  {
    hide Spelling;
    assert items[0].Valid();
  }

  lemma {:induction false} StopsThere(items: seq<Item>)
    requires items != [] && items[0].Text? && Proper(items)
    ensures Stops(Line(items[1..]))
    ensures var after := items[1..];
            after == [] ||
            (after[0].Valid() && !(after[0].Text? || after[0].Broken? || (after[0].Redirect? && after[0].k == 2)) &&
             !(after[0].Redirect? && after[0].k == 1 && Meaning(items[0].ps) == [TWO]))
  {
    hide Spelling, Meaning, Line;
    var after := items[1..];
    if after == [] {
      LineOfNothing();
    } else {
      ProperRest(items, 1);
      assert Apart(items[0], items[0 + 1]) && after[0].Valid();
      BeginsWith(after);
    }
  }

  lemma WordToken(s: seq<byte>, i: nat, w: seq<byte>, j: nat)
    requires i < |s| && s[i] != SPACE && !IsSpecial(s[i]) && WordFrom(s, i, []) == Word(w, j)
    ensures j <= |s|
    ensures var op := if j < |s| && IsSpecial(s[j]) then s[j] else 0;
            var append := op == GREATER && j + 1 < |s| && s[j + 1] == GREATER;
            var stderr := op == GREATER && w == [TWO];
            TokenAt(s, i) == Some(Token(if stderr then None else Some(w), op, append, stderr,
                                        if j == |s| then j else if append then j + 2 else j + 1))
  {
    hide WordFrom;
  }

  // A line of the grammar runs what it says, and is a syntax error exactly if it means one.
  lemma {:induction false} LineRead(s: seq<byte>, i: nat, items: seq<Item>, piped: bool)
    requires i <= |s| && s[i..] == Line(items) && Proper(items)
    ensures RunFrom(s, i, piped) == Pipeline(items, piped)
    decreases |items|
  {
    hide ParseFrom, Command, Line, Proper;
    CommandRead(s, i, items, NOTHING, None);
    var f := Command(items, NOTHING, None);
    if f.First? && f.cmd.argv != [] && f.piped {
      LineRead(s, ParseFrom(s, i, NOTHING, None).next, f.rest, true);
    }
  }

  lemma LineRuns(items: seq<Item>)
    requires Proper(items)
    ensures RunFrom(Line(items), 0, false) == Pipeline(items, false)
  {
    hide Line, Pipeline, RunFrom, Proper;
    assert Line(items)[0..] == Line(items);
    LineRead(Line(items), 0, items, false);
  }

  // ----- Every line is one of the grammar -----

  lemma {:induction false} OneMorePiece(p: Piece, ps: seq<Piece>, tail: seq<byte>)
    requires p.Valid() && AllPieces(ps)
    ensures AllPieces([p] + ps) && Spelling([p] + ps) + tail == p.Spelled() + (Spelling(ps) + tail)
  {
    hide Piece.Spelled, Piece.Valid;
    assert ([p] + ps)[1..] == ps;
    Glue(p.Spelled(), Spelling(ps), tail);
  }

  // The word at the front, up to where it stops or breaks.
  lemma {:induction false} WordAtFront(s: seq<byte>) returns (ps: seq<Piece>, tail: seq<byte>)
    ensures AllPieces(ps) && s == Spelling(ps) + tail && (Stops(tail) || Breaks(tail)) && (ps == [] ==> tail == s)
    decreases |s|
  {
    hide Spelling, Meaning, Stops, Breaks, AllPieces, Piece.Spelled, Piece.Valid;
    if Stops(s) || Breaks(s) {
      ps, tail := [], s;
      NoSpelling();
      NoPieces();
      assert s == [] + s;
    } else {
      var p, rest := PieceAtFront(s);
      ps, tail := WordAtFront(rest);
      OneMorePiece(p, ps, tail);
      ps := [p] + ps;
    }
  }

  lemma {:induction false} PieceAtFront(s: seq<byte>) returns (p: Piece, rest: seq<byte>)
    requires !Stops(s) && !Breaks(s)
    ensures p.Valid() && s == p.Spelled() + rest && |rest| < |s|
  {
    if s[0] == BACKSLASH {
      p := Behind(s[1]);
    } else if s[0] == QUOTE {
      var n := Find(s[1..], QUOTE);
      p := InQuotes(s[1..][..n]);
      assert s[1 + n] == QUOTE && s[..n + 2] == [s[0]] + s[1..][..n] + [s[1 + n]];
    } else {
      p := Plain(s[0]);
    }
    rest := s[|p.Spelled()|..];
  }

  lemma {:induction false} OneMoreItem(it: Item, items: seq<Item>)
    requires it.Valid() && Proper(items) && (items != [] ==> Apart(it, items[0]))
    ensures Proper([it] + items) && Line([it] + items) == it.Written() + Line(items)
  {
    hide Apart, Item.Written, Item.Valid;
    var all := [it] + items;
    assert all[1..] == items;
    forall i | 0 <= i < |all| - 1 ensures Apart(all[i], all[i + 1]) {
      if i > 0 {
        assert Apart(items[i - 1], items[i - 1 + 1]);
      }
    }
  }

  // So what a line runs is what it says in the grammar, whatever the line.
  lemma {:induction false} EveryLine(s: seq<byte>) returns (items: seq<Item>)
    ensures Proper(items) && Line(items) == s && RunFrom(s, 0, false) == Pipeline(items, false)
  {
    hide Proper, Line, RunFrom, Pipeline;
    items := ItemsOf(s);
    LineRuns(items);
  }

  lemma {:induction false} ItemsOf(s: seq<byte>) returns (items: seq<Item>)
    ensures Proper(items) && Line(items) == s
    decreases |s|
  {
    hide Spelling, Meaning, Apart, Proper, Line, AllPieces;
    NothingProper();
    items := [];
    if s != [] {
      var it, rest := ItemAtFront(s);
      items := ItemsOf(rest);
      NextIsApart(it, items, rest);
      OneMoreItem(it, items);
      items := [it] + items;
    }
  }

  lemma NothingProper()
    ensures Proper([]) && Line([]) == []
  {
  }

  // What may not follow an item does not: the item would have taken it.
  ghost predicate Taken(it: Item, rest: seq<byte>) {
    && (it.Text? ==> Stops(rest) && !(Meaning(it.ps) == [TWO] && rest != [] && rest[0] == GREATER))
    && (it.Broken? ==> rest == [])
    && (it.Redirect? && it.k > 0 && !it.append ==> rest == [] || rest[0] != GREATER)
  }

  lemma {:induction false} ItemAtFront(s: seq<byte>) returns (it: Item, rest: seq<byte>)
    requires s != []
    ensures it.Valid() && s == it.Written() + rest && |rest| < |s| && Taken(it, rest)
  {
    hide Spelling, Meaning, AllPieces;
    NoSpelling();
    NoPieces();
    if s[0] == SPACE {
      it, rest := Blank, s[1..];
    } else if s[0] == BAR {
      it, rest := Pipe, s[1..];
    } else if s[0] == LESS {
      it, rest := Redirect(0, false, []), s[1..];
    } else if s[0] == GREATER {
      var append := |s| > 1 && s[1] == GREATER;
      it, rest := Redirect(1, append, []), s[if append then 2 else 1..];
    } else {
      var ps, tail := WordAtFront(s);
      if Breaks(tail) {
        it, rest := Broken(ps, tail), [];
        assert s == (Spelling(ps) + tail) + [];
      } else {
        it, rest := WordItem(s, ps, tail);
      }
    }
  }

  lemma NoPieces()
    ensures AllPieces([]) && Meaning([]) == []
  {
  }

  lemma {:induction false} WordItem(s: seq<byte>, ps: seq<Piece>, tail: seq<byte>) returns (it: Item, rest: seq<byte>)
    requires ps != [] && AllPieces(ps) && s == Spelling(ps) + tail && Stops(tail)
    ensures it.Valid() && s == it.Written() + rest && |rest| < |s| && Taken(it, rest)
  {
    hide Meaning, AllPieces;
    if Meaning(ps) == [TWO] && tail != [] && tail[0] == GREATER {
      var append := |tail| > 1 && tail[1] == GREATER;
      it, rest := Redirect(2, append, ps), tail[if append then 2 else 1..];
      var op := if append then [GREATER, GREATER] else [GREATER];
      assert tail == op + rest;
      Glue(Spelling(ps), op, rest);
    } else {
      it, rest := Text(ps), tail;
    }
  }

  lemma {:induction false} NextIsApart(it: Item, items: seq<Item>, rest: seq<byte>)
    requires it.Valid() && Proper(items) && Line(items) == rest && Taken(it, rest)
    ensures items != [] ==> Apart(it, items[0])
  {
    hide Spelling, Meaning, AllPieces, Line;
    if items != [] {
      BeginsWith(items);
      FirstIsNoStop(items);
    }
  }

  lemma {:induction false} FirstIsNoStop(items: seq<Item>)
    requires Proper(items) && items != []
    ensures Line(items) != []
    ensures items[0].Text? || items[0].Broken? || (items[0].Redirect? && items[0].k == 2) ==> !Stops(Line(items))
  {
    hide Piece.Meant, Apart;
    assert items[0].Valid();
    var ps := if items[0].Text? then items[0].ps else if items[0].Broken? then items[0].front
              else if items[0].Redirect? then items[0].two else [];
    if items[0].Redirect? && items[0].k == 2 {
      SaysSomething(ps);
    }
    if ps != [] {
      assert ps[0].Valid();
      assert Line(items)[0] == ps[0].Spelled()[0];
    }
  }

  // ----- Some lines, byte by byte -----

  function Plains(w: seq<byte>): seq<Piece> {
    if w == [] then [] else [Plain(w[0])] + Plains(w[1..])
  }

  lemma {:induction false} PlainWord(w: seq<byte>)
    requires forall i :: 0 <= i < |w| ==> Plain(w[i]).Valid()
    ensures Spelling(Plains(w)) == w == Meaning(Plains(w)) && AllPieces(Plains(w)) && |Plains(w)| == |w|
    decreases |w|
  {
    if w != [] {
      PlainWord(w[1..]);
      assert w == [w[0]] + w[1..];
    }
  }

  predicate IsPlain(w: seq<byte>) {
    w != [] && forall i :: 0 <= i < |w| ==> Plain(w[i]).Valid()
  }

  // Two words with something between them, and nothing else.
  lemma {:induction false} Between(a: seq<byte>, op: Item, b: seq<byte>)
    requires IsPlain(a) && IsPlain(b) && op.Valid() && Apart(Text(Plains(a)), op) && Apart(op, Text(Plains(b)))
    ensures RunFrom(a + op.Written() + b, 0, false) == Pipeline([Text(Plains(a)), op, Text(Plains(b))], false)
    ensures Meaning(Plains(a)) == a && Meaning(Plains(b)) == b
  {
    hide RunFrom, Pipeline, Apart, Line, Plains, Spelling, Meaning, Proper, Item.Written, AllPieces;
    PlainWord(a);
    PlainWord(b);
    var x, y := Text(Plains(a)), Text(Plains(b));
    PlainItem(a);
    PlainItem(b);
    LineOfThree(x, op, y);
    Glue(a, op.Written(), b);
    LineRuns([x, op, y]);
  }

  lemma PlainItem(a: seq<byte>)
    requires IsPlain(a)
    ensures Text(Plains(a)).Valid() && Text(Plains(a)).Written() == a
  {
    hide Plains, Spelling, Meaning;
    PlainWord(a);
  }

  lemma {:induction false} LineOfThree(x: Item, op: Item, y: Item)
    requires x.Valid() && op.Valid() && y.Valid() && Apart(x, op) && Apart(op, y)
    ensures Proper([x, op, y]) && Line([x, op, y]) == x.Written() + (op.Written() + y.Written())
  {
    hide Apart, Item.Written, Item.Valid;
    assert [x, op, y][1..] == [op, y] && [op, y][1..] == [y] && [y][1..] == [];
    assert Line([y]) == y.Written() + [] == y.Written();
    assert Line([op, y]) == op.Written() + y.Written();
  }

  lemma {:induction false} LineOfTwo(x: Item, y: Item)
    requires x.Valid() && y.Valid() && Apart(x, y)
    ensures Proper([x, y]) && Line([x, y]) == x.Written() + y.Written()
  {
    hide Apart, Item.Written, Item.Valid;
    assert [x, y][1..] == [y] && [y][1..] == [];
    assert Line([y]) == y.Written() + [] == y.Written();
  }

  lemma {:induction false} CommandOfOne(b: Item, cmd: Cmd, want: Option<nat>)
    requires b.Text? && cmd.Valid() && |cmd.argv| < MAX_TOKENS && (want.Some? ==> want.value < 3)
    ensures Command([b], cmd, want) ==
            First(if want.Some? then cmd.(redir := cmd.redir[want.value := Some(Meaning(b.ps))])
                  else cmd.(argv := cmd.argv + [Meaning(b.ps)]), false, [])
  {
    assert [b][1..] == [];
  }

  lemma {:induction false} CommandOfThree(a: Item, op: Item, b: Item)
    requires a.Text? && b.Text? && !op.Text? && !op.Broken?
    ensures var c := NOTHING.(argv := [Meaning(a.ps)]);
            Command([a, op, b], NOTHING, None) ==
            match op
            case Blank => Command([b], c, None)
            case Pipe => First(c, true, [b])
            case Redirect(k, append, _) =>
              if k > 2 then Wrong else Command([b], if k == 0 then c else c.(append := c.append[k := append]), Some(k))
            case _ => Wrong
  {
    assert [a, op, b][1..] == [op, b] && [op, b][1..] == [b];
    assert [] + [Meaning(a.ps)] == [Meaning(a.ps)];
  }

  // Words written plainly, with an operator and no space between them: a|b, a<b, a>b and a>>b.
  lemma {:induction false} TightOperators(a: seq<byte>, b: seq<byte>)
    requires IsPlain(a) && IsPlain(b)
    ensures RunFrom(a + [124] + b, 0, false) ==
            Ran([Stage(NOTHING.(argv := [a]), false, true), Stage(NOTHING.(argv := [b]), true, false)], false)
    ensures RunFrom(a + [60] + b, 0, false) ==
            Ran([Stage(Cmd([a], [Some(b), None, None], [false, false, false]), false, false)], false)
    ensures a != [50] ==>
      && RunFrom(a + [62] + b, 0, false) ==
         Ran([Stage(Cmd([a], [None, Some(b), None], [false, false, false]), false, false)], false)
      && RunFrom(a + [62, 62] + b, 0, false) ==
         Ran([Stage(Cmd([a], [None, Some(b), None], [false, true, false]), false, false)], false)
  {
    hide RunFrom, Command, Plains, Meaning;
    TightPipe(a, b);
    assert Redirect(0, false, []).Written() == [60] && Redirect(1, false, []).Written() == [62];
    assert Redirect(1, true, []).Written() == [62, 62];
    var none: Option<seq<byte>> := None;
    assert [none, none, none][0 := Some(b)] == [Some(b), None, None];
    assert [none, none, none][1 := Some(b)] == [None, Some(b), None];
    assert [false, false, false][0 := false] == [false, false, false][1 := false] == [false, false, false];
    assert [false, false, false][1 := true] == [false, true, false];
    TightRedirect(a, Redirect(0, false, []), b);
    if a != [50] {
      TightRedirect(a, Redirect(1, false, []), b);
      TightRedirect(a, Redirect(1, true, []), b);
    }
  }

  lemma {:induction false} TightPipe(a: seq<byte>, b: seq<byte>)
    requires IsPlain(a) && IsPlain(b)
    ensures RunFrom(a + [124] + b, 0, false) ==
            Ran([Stage(NOTHING.(argv := [a]), false, true), Stage(NOTHING.(argv := [b]), true, false)], false)
  {
    hide RunFrom, Command, Plains, Meaning;
    Between(a, Pipe, b);
    var x, y := Text(Plains(a)), Text(Plains(b));
    CommandOfThree(x, Pipe, y);
    CommandOfOne(y, NOTHING, None);
    assert [] + [b] == [b];
  }

  lemma {:induction false} TightRedirect(a: seq<byte>, op: Item, b: seq<byte>)
    requires IsPlain(a) && IsPlain(b) && op.Redirect? && op.Valid() && op.k < 2 && (op.k == 1 ==> a != [TWO])
    ensures RunFrom(a + op.Written() + b, 0, false) ==
            Ran([Stage(Cmd([a], [None, None, None][op.k := Some(b)], [false, false, false][op.k := op.append]),
                       false, false)], false)
  {
    hide RunFrom, Command, Plains, Meaning;
    PlainWord(a);
    Between(a, op, b);
    var x, y, c := Text(Plains(a)), Text(Plains(b)), NOTHING.(argv := [a]);
    CommandOfThree(x, op, y);
    assert NOTHING.append[0 := false] == NOTHING.append;
    CommandOfOne(y, if op.k == 0 then c else c.(append := c.append[op.k := op.append]), Some(op.k));
  }

  // With a space: two words, or standard error.
  lemma {:induction false} SpacedWords(a: seq<byte>, b: seq<byte>)
    requires IsPlain(a) && IsPlain(b)
    ensures RunFrom(a + [32] + b, 0, false) == Ran([Stage(NOTHING.(argv := [a, b]), false, false)], false)
  {
    hide RunFrom, Command, Plains, Meaning;
    Between(a, Blank, b);
    var x, y := Text(Plains(a)), Text(Plains(b));
    CommandOfThree(x, Blank, y);
    CommandOfOne(y, NOTHING.(argv := [a]), None);
    assert [a] + [b] == [a, b];
  }

  lemma TwoSpelled()
    ensures Spelling([Plain(TWO)]) == [TWO] == Meaning([Plain(TWO)]) && AllPieces([Plain(TWO)])
  {
    assert [Plain(TWO)][1..] == [];
    assert [TWO] + [] == [TWO];
  }

  // 2>a alone is a redirection.
  lemma {:induction false} StderrAlone(a: seq<byte>)
    requires IsPlain(a)
    ensures ParseFrom([50, 62] + a, 0, NOTHING, None) ==
            Parsed(NOTHING.(redir := NOTHING.redir[2 := Some(a)]), false, 2 + |a|)
  {
    hide ParseFrom, Line, Plains, Meaning, Proper;
    PlainWord(a);
    PlainItem(a);
    var op, y, s := Redirect(2, false, [Plain(TWO)]), Text(Plains(a)), [50, 62] + a;
    TwoSpelled();
    LineOfTwo(op, y);
    assert [Plain(TWO)][1..] == [] && s[0..] == s;
    assert op.Written() == [50, 62];
    CommandRead(s, 0, [op, y], NOTHING, None);
    assert [op, y][1..] == [y] && NOTHING.append[2 := false] == NOTHING.append;
    CommandOfOne(y, NOTHING, Some(2));
    var next := ParseFrom(s, 0, NOTHING, None).next;
    LineOfNothing();
    assert s[next..] == [] && next == |s|;
  }

  // |a is a syntax error, a| is one behind a, and so is whatever begins with a dollar sign.
  lemma {:induction false} ErrorLines(a: seq<byte>)
    requires IsPlain(a)
    ensures RunFrom([124] + a, 0, false) == Ran([], true) && RunFrom([36] + a, 0, false) == Ran([], true)
    ensures RunFrom(a + [124], 0, false) == Ran([Stage(NOTHING.(argv := [a]), false, true)], true)
  {
    hide RunFrom, Line, Plains, Meaning, Proper, Spelling;
    PlainWord(a);
    PlainItem(a);
    var y := Text(Plains(a));
    LineOfTwo(Pipe, y);
    LineRuns([Pipe, y]);
    LineOfTwo(y, Pipe);
    LineRuns([y, Pipe]);
    assert [y, Pipe][1..] == [Pipe] && [Pipe][1..] == [] && [] + [a] == [a];
    assert Command([y, Pipe], NOTHING, None) == First(NOTHING.(argv := [a]), true, []);
    assert Pipeline([], true) == Ran([], true);
    var none: seq<Stage> := [];
    assert [Stage(NOTHING.(argv := [a]), false, true)] + none == [Stage(NOTHING.(argv := [a]), false, true)];
    Dollar(a);
  }

  lemma {:induction false} Dollar(a: seq<byte>)
    ensures RunFrom([36] + a, 0, false) == Ran([], true)
  {
    hide RunFrom, Spelling;
    var broken := Broken([], [36] + a);
    assert Spelling([]) == [] by {
      NoSpelling();
    }
    assert broken.Written() == [36] + a && [broken][1..] == [];
    assert Line([broken]) == [36] + a;
    LineRuns([broken]);
  }

  lemma NoSpelling()
    ensures Spelling([]) == []
  {
  }
}
