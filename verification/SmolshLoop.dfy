/** The shell as a whole: quoting the way its two stages see it, and the loop around them. */
module SmolshLoop {
  import opened Bytes
  import opened Readln
  import opened Smolsh
  import opened SmolshPrint

  // ----- Quoting -----

  // Whether what follows s is in quotes, and whether it is behind a backslash.
  function Quoting(s: seq<byte>, quoted: bool, escaped: bool): (bool, bool) {
    if s == [] then (quoted, escaped)
    else Quoting(s[1..], QuotedBehind(s[0], quoted, escaped), EscapedBehind(s[0], quoted, escaped))
  }

  lemma {:induction false} QuotingAfter(a: seq<byte>, b: seq<byte>, quoted: bool, escaped: bool)
    ensures var (q, e) := Quoting(a, quoted, escaped); Quoting(a + b, quoted, escaped) == Quoting(b, q, e)
    decreases |a|
  {
    if a == [] {
      assert a + b == b;
    } else {
      assert (a + b)[1..] == a[1..] + b;
      QuotingAfter(a[1..], b, QuotedBehind(a[0], quoted, escaped), EscapedBehind(a[0], quoted, escaped));
    }
  }

  // Where the filter stops: at a comment or the end of a command, or at the end of the line.
  function Stop(s: seq<byte>, i: nat, quoted: bool, escaped: bool): (j: nat)
    requires i <= |s|
    ensures i <= j <= |s|
    decreases |s| - i
  {
    if i == |s| || (!escaped && !quoted && s[i] in {HASH, SEMI}) then i
    else Stop(s, i + 1, QuotedBehind(s[i], quoted, escaped), EscapedBehind(s[i], quoted, escaped))
  }

  // What the filter passes on is quoted for the parser exactly where the filter took it to be
  // quoted; where it stops early, the parser sees nothing open either.
  lemma {:induction false} StagesAgree(s: seq<byte>, i: nat, quoted: bool, escaped: bool)
    requires i <= |s|
    ensures var j := Stop(s, i, quoted, escaped);
            && Quoting(Filtered(s, i, quoted, escaped).0, quoted, escaped) == Quoting(s[i..j], quoted, escaped)
            && (j < |s| ==> Quoting(s[i..j], quoted, escaped) == (false, false))
    decreases |s| - i
  {
    var j := Stop(s, i, quoted, escaped);
    if i < j {
      assert s[i..j][1..] == s[i + 1..j];
      StagesAgree(s, i + 1, QuotedBehind(s[i], quoted, escaped), EscapedBehind(s[i], quoted, escaped));
      var f := Filtered(s, i, quoted, escaped).0;
      FilterStep(s, i, quoted, escaped, []);
      assert f != [] ==> f == [f[0]] + f[1..];
    }
  }

  lemma {:induction false} WordIsClosed(s: seq<byte>, i: nat, text: seq<byte>)
    requires i <= |s| && WordFrom(s, i, text).Word?
    ensures Quoting(s[i..WordFrom(s, i, text).next], false, false) == (false, false)
    decreases |s| - i
  {
    var j := WordFrom(s, i, text).next;
    if i < j {
      assert s[i..j][1..] == s[i + 1..j];
      if s[i] == BACKSLASH {
        assert s[i + 1..j][1..] == s[i + 2..j];
        WordIsClosed(s, i + 2, text + [s[i + 1]]);
      } else if s[i] == QUOTE {
        QuotedIsClosed(s, i + 1, text);
      } else {
        WordIsClosed(s, i + 1, text + [s[i]]);
      }
    }
  }

  lemma {:induction false} QuotedIsClosed(s: seq<byte>, i: nat, text: seq<byte>)
    requires i <= |s| && QuotedFrom(s, i, text).Word?
    ensures i < QuotedFrom(s, i, text).next && Quoting(s[i..QuotedFrom(s, i, text).next], true, false) == (false, false)
    decreases |s| - i
  {
    var j := QuotedFrom(s, i, text).next;
    if s[i] == QUOTE {
      WordIsClosed(s, i + 1, text);
    } else {
      QuotedIsClosed(s, i + 1, text + [s[i]]);
    }
    assert s[i..j][1..] == s[i + 1..j];
  }

  // One character that opens nothing.
  lemma PlainKeeps(s: seq<byte>, i: nat, j: nat)
    requires i < j <= |s| && s[i] != QUOTE && s[i] != BACKSLASH
    ensures Quoting(s[i..j], false, false) == Quoting(s[i + 1..j], false, false)
  {
    assert s[i..j][1..] == s[i + 1..j];
  }

  lemma TokenIsClosed(s: seq<byte>, i: nat)
    requires i < |s| && s[i] != SPACE && TokenAt(s, i).Some?
    ensures Quoting(s[i..TokenAt(s, i).value.next], false, false) == (false, false)
  {
    hide WordFrom, QuotedFrom, Quoting;
    var t := TokenAt(s, i).value;
    var j := if IsSpecial(s[i]) then i else WordFrom(s, i, []).next;
    NothingQuoted();
    if !IsSpecial(s[i]) {
      WordIsClosed(s, i, []);
      EndsWord(s, i, []);
    } else {
      assert s[i..i] == [];
    }
    assert s[i..t.next] == s[i..j] + s[j..t.next];
    QuotingAfter(s[i..j], s[j..t.next], false, false);
    if j < t.next {
      PlainKeeps(s, j, t.next);
      if j + 1 < t.next {
        PlainKeeps(s, j + 1, t.next);
      }
    }
    assert s[t.next..t.next] == [];
  }

  lemma NothingQuoted()
    ensures Quoting([], false, false) == (false, false)
  {
  }

  lemma {:induction false} EndsWord(s: seq<byte>, i: nat, text: seq<byte>)
    requires i <= |s| && WordFrom(s, i, text).Word?
    ensures var j := WordFrom(s, i, text).next; j < |s| ==> s[j] == SPACE || IsSpecial(s[j])
    decreases |s| - i
  {
    hide IsSpecial;
    if i < |s| {
      if s[i] == BACKSLASH {
        EndsWord(s, i + 2, text + [s[i + 1]]);
      } else if s[i] == QUOTE {
        EndsQuoted(s, i + 1, text);
      } else if s[i] != SPACE && !IsSpecial(s[i]) {
        EndsWord(s, i + 1, text + [s[i]]);
      }
    }
  }

  lemma {:induction false} EndsQuoted(s: seq<byte>, i: nat, text: seq<byte>)
    requires i <= |s| && QuotedFrom(s, i, text).Word?
    ensures var j := QuotedFrom(s, i, text).next; j < |s| ==> s[j] == SPACE || IsSpecial(s[j])
    decreases |s| - i
  {
    hide IsSpecial;
    if s[i] == QUOTE {
      EndsWord(s, i + 1, text);
    } else {
      EndsQuoted(s, i + 1, text + [s[i]]);
    }
  }

  // A command the parser takes leaves nothing open.
  lemma {:induction false} CommandIsClosed(s: seq<byte>, i: nat, cmd: Cmd, want: Option<nat>)
    requires i <= |s| && cmd.Valid() && (want.Some? ==> want.value < 3) && ParseFrom(s, i, cmd, want).Parsed?
    ensures Quoting(s[i..ParseFrom(s, i, cmd, want).next], false, false) == (false, false)
    decreases |s| - i
  {
    hide TokenAt, Placed, Wanted, Quoting;
    var n := ParseFrom(s, i, cmd, want).next;
    NothingQuoted();
    if i < |s| && s[i] == SPACE {
      SkipOne(s, i, cmd, want);
      CommandIsClosed(s, i + 1, cmd, want);
      PlainKeeps(s, i, n);
    } else {
      ParseSteps(s, i, cmd, want);
      if i == |s| {
        assert s[i..n] == [];
      } else {
        TokenIsClosed(s, i);
        var t := TokenAt(s, i).value;
        if t.op != BAR {
          var c := Placed(cmd, want, t.word).value;
          var next := if t.op == GREATER then c.(append := c.append[Wanted(t).value := t.append]) else c;
          CommandIsClosed(s, t.next, next, Wanted(t));
          assert s[i..n] == s[i..t.next] + s[t.next..n];
          QuotingAfter(s[i..t.next], s[t.next..n], false, false);
        }
      }
    }
  }

  // Lines that run without a syntax error leave nothing open at their end.
  lemma {:induction false} LineIsClosed(s: seq<byte>, i: nat, piped: bool)
    requires i <= |s| && !RunFrom(s, i, piped).syntaxError
    ensures Quoting(s[i..], false, false) == (false, false)
    decreases |s| - i
  {
    hide ParseFrom, Quoting;
    CommandIsClosed(s, i, NOTHING, None);
    var r := ParseFrom(s, i, NOTHING, None);
    if r.piped {
      LineIsClosed(s, r.next, true);
      assert s[i..] == s[i..r.next] + s[r.next..];
      QuotingAfter(s[i..r.next], s[r.next..], false, false);
    } else {
      CommandToEnd(s, i, NOTHING, None);
      assert s[i..r.next] == s[i..];
    }
  }

  lemma {:induction false} CommandToEnd(s: seq<byte>, i: nat, cmd: Cmd, want: Option<nat>)
    requires i <= |s| && cmd.Valid() && (want.Some? ==> want.value < 3) && ParseFrom(s, i, cmd, want).Parsed?
    ensures var r := ParseFrom(s, i, cmd, want); r.piped || r.next == |s|
    decreases |s| - i
  {
    hide TokenAt, Placed, Wanted;
    var j := SkipSpaces(s, i);
    if j < |s| {
      var t := TokenAt(s, j).value;
      if t.op != BAR {
        var c := Placed(cmd, want, t.word).value;
        var next := if t.op == GREATER then c.(append := c.append[Wanted(t).value := t.append]) else c;
        CommandToEnd(s, t.next, next, Wanted(t));
      }
    }
  }

  // ----- The loop -----

  // What a shell does with all of its input.
  function Session(s: seq<byte>, dropping: bool): seq<Ran>
    decreases |s|, dropping
  {
    StepShrinks(s, dropping);
    var (r, rest, dropped) := Step(s, dropping, MAX_LINE, true);
    match r
    case End => []
    case TooLong => Session(rest, dropped)
    case Line(text) => [RunFrom(CStr(text), 0, false)] + Session(rest, dropped)
  }

  lemma StepShrinks(s: seq<byte>, dropping: bool)
    ensures var r := Step(s, dropping, MAX_LINE, true); !r.0.End? ==> |r.1| < |s|
  {
    hide Find, Copied;
  }

  // What one turn of the loop can come to.
  datatype Turn = Stops | Goes | Runs(ran: Ran)

  method TakeTurn(stdin: Reader, line: array<byte>) returns (t: Turn)
    requires stdin.Valid() && line.Length == MAX_LINE + 1 && line != stdin.buf
    modifies stdin, stdin.buf, line
    ensures stdin.Valid()
    ensures var before := Session(old(stdin.Stream()), old(stdin.dropping));
            var after := Session(stdin.Stream(), stdin.dropping);
            match t
            case Stops => before == []
            case Goes => before == after
            case Runs(ran) => before == [ran] + after
    ensures !t.Stops? ==> |stdin.Stream()| + |stdin.gives| < old(|stdin.Stream()| + |stdin.gives|)
  {
    hide Step, RunFrom, Settle, CStr, Session, Rest, Find, Reader.Valid, Reader.Stream, Copied;
    ghost var s, d := stdin.Stream(), stdin.dropping;
    SessionSteps(s, d);
    var len := stdin.Readln(line, MAX_LINE, true);
    if len == INTERRUPTED {
      SameSession(s, d, stdin.Stream(), stdin.dropping);
      return Goes;
    }
    if len == OVERFLOW {
      return Goes;
    }
    if len < 0 {
      return Stops;
    }
    ghost var text := line[..len];
    CStrIsThere(line[..], len);
    var stages, syntaxError := RunLine(line, CStr(text));
    t := Runs(Ran(stages, syntaxError));
  }

  // The loop of main, as long as nothing tells it to stop: what it runs depends on the bytes it
  // is given and not on how they arrive, interruptions included.
  method Shell(stdin: Reader) returns (ran: seq<Ran>)
    requires stdin.Valid()
    modifies stdin, stdin.buf
    ensures ran == Session(old(stdin.Stream()), old(stdin.dropping))
  {
    hide Session, Reader.Valid, Reader.Stream;
    ran := [];
    var line := new byte[MAX_LINE + 1](_ => 0);
    ghost var whole := Session(stdin.Stream(), stdin.dropping);
    while true
      invariant stdin.Valid() && whole == ran + Session(stdin.Stream(), stdin.dropping)
      decreases |stdin.Stream()| + |stdin.gives|
    {
      var t := TakeTurn(stdin, line);
      if t.Stops? {
        return;
      }
      if t.Runs? {
        ran := ran + [t.ran];
      }
    }
  }

  lemma SessionSteps(s: seq<byte>, d: bool)
    ensures var (r, rest, dropped) := Step(s, d, MAX_LINE, true);
            && (!r.End? ==> |rest| < |s|)
            && Session(s, d) == match r
                                case End => []
                                case TooLong => Session(rest, dropped)
                                case Line(text) => [RunFrom(CStr(text), 0, false)] + Session(rest, dropped)
  {
    hide Step, RunFrom, CStr;
    StepShrinks(s, d);
  }

  lemma SameSession(s: seq<byte>, d: bool, t: seq<byte>, e: bool)
    requires Settle(s, d) == Settle(t, e)
    ensures Session(s, d) == Session(t, e)
  {
    hide *;
    SameStep(s, d, t, e);
    SessionSteps(s, d);
    SessionSteps(t, e);
  }

  lemma SameStep(s: seq<byte>, d: bool, t: seq<byte>, e: bool)
    requires Settle(s, d) == Settle(t, e)
    ensures Step(s, d, MAX_LINE, true) == Step(t, e, MAX_LINE, true)
  {
    hide Settle, Copied, Find;
  }

  lemma CStrIsThere(line: seq<byte>, len: nat)
    requires len < |line| && line[len] == 0
    ensures Rest(line, CStr(line[..len]), 0)
  {
    var s := CStr(line[..len]);
    assert forall i :: 0 <= i < |s| ==> s[i] == line[..len][i];
    assert |s| < len ==> line[..len][|s|] == 0;
  }

  // A session, line by line: a line of at most 255 bytes runs what the filter keeps of it, and goes
  // on behind a semicolon; a longer one is skipped; what has no newline behind it never runs.
  lemma {:induction false} SessionOverLine(raw: seq<byte>, rest: seq<byte>)
    requires 10 !in raw
    ensures var f := Filtered(raw, 0, false, false);
            Session(raw + ([10] + rest), false) ==
            if |raw| > 255 then Session(rest, false)
            else
              [RunFrom(CStr(f.0), 0, false)] +
              Session(if f.1 == |raw| then rest else raw[f.1..] + ([10] + rest), false)
  {
    hide Session, Find, Filtered, RunFrom, CStr;
    var s := raw + ([10] + rest);
    FirstLine(raw, rest);
    SessionSteps(s, false);
    if |raw| > 255 {
      var left := raw[256..];
      assert s[256..] == left + ([10] + rest);
      forall i | 0 <= i < |left| ensures left[i] != 10 {
        assert left[i] == raw[256 + i];
      }
      FirstLine(left, rest);
      SameSession(left + ([10] + rest), true, rest, false);
    } else {
      var n := Filtered(raw, 0, false, false).1;
      assert n < |raw| ==> s[n..] == raw[n..] + ([10] + rest);
    }
  }

  lemma {:induction false} SessionEnds(s: seq<byte>)
    requires 10 !in s
    ensures Session(s, false) == []
  {
    hide Session, Filtered, RunFrom, CStr, Find;
    FindIs(s, 10, |s|);
    SessionSteps(s, false);
    if |s| >= 256 {
      var left := s[256..];
      forall i | 0 <= i < |left| ensures left[i] != 10 {
        assert left[i] == s[256 + i];
      }
      FindIs(left, 10, |left|);
      SessionSteps(left, true);
    }
  }

  // A printed pipeline on a line of its own runs as it was meant, whatever follows.
  lemma PrintedIsRun(cs: seq<Cmd>, rest: seq<byte>)
    requires cs != [] && forall k :: 0 <= k < |cs| ==> cs[k].Valid() && Printable(cs[k])
    requires |PrintLine(cs)| <= 255
    ensures Session(PrintLine(cs) + ([NL] + rest), false) == [Ran(Stages(cs, false), false)] + Session(rest, false)
  {
    hide Step, RunFrom, PrintLine, Printable, CStr;
    PrintedRunsAsMeant(cs, rest);
  }
}
