/** The line reader of inc/readln.h, with the filter that smolsh puts its lines through. */
module Readln {
  import opened Bytes

  const BUFSZ: nat := 256

  const INTERRUPTED: int := -1
  const OVERFLOW: int := -2
  const DONE: int := -3

  const TAB: byte := 9
  const NL: byte := 10
  const CR: byte := 13
  const SPACE: byte := 32
  const QUOTE: byte := 34
  const HASH: byte := 35
  const SEMI: byte := 59
  const BACKSLASH: byte := 92

  // ----- The filter -----

  datatype Action = Keep | Drop | Eol | Split | Next

  // Whether the reader is in quotes, or behind a backslash, once b is read.
  function QuotedBehind(b: byte, quoted: bool, escaped: bool): bool {
    if !escaped && b == QUOTE then !quoted else quoted
  }

  function EscapedBehind(b: byte, quoted: bool, escaped: bool): bool {
    !escaped && b == BACKSLASH && !quoted
  }

  // What is left of a line from i on, and how much of it is used up.
  function Filtered(s: seq<byte>, i: nat, quoted: bool, escaped: bool): (r: (seq<byte>, nat))
    requires i <= |s|
    ensures |r.0| <= |s| - i && r.1 <= |s| && (i < |s| ==> i < r.1)
    decreases |s| - i
  {
    if i == |s| then ([], |s|)
    else
      var ch := s[i];
      if !escaped && ch == HASH && !quoted then ([], |s|)
      else if !escaped && ch == SEMI && !quoted then ([], i + 1)
      else if !escaped && ch == CR then Filtered(s, i + 1, quoted, false)
      else
        var kept := if !escaped && ch == TAB && !quoted then SPACE else ch;
        var rest := Filtered(s, i + 1, QuotedBehind(ch, quoted, escaped), EscapedBehind(ch, quoted, escaped));
        ([kept] + rest.0, rest.1)
  }

  class ShellState {
    var quoted: bool
    var escaped: bool

    constructor ()
      ensures !quoted && !escaped
    {
      quoted, escaped := false, false;
    }

    // _readln_shell_char; the character may be replaced.
    method ShellChar(ch0: byte) returns (act: Action, ch: byte)
      modifies this
      ensures old(escaped) ==> act == Keep && ch == ch0 && !escaped && quoted == old(quoted)
      ensures !old(escaped) ==>
        && escaped == (ch0 == BACKSLASH && !old(quoted))
        && quoted == (if ch0 == QUOTE then !old(quoted) else old(quoted))
        && ch == (if ch0 == TAB && !old(quoted) then SPACE else ch0)
        && act == if ch0 == HASH && !old(quoted) then Eol else if ch0 == SEMI && !old(quoted) then Split
                  else if ch0 == CR then Drop else if escaped then Next else Keep
    {
      act, ch := Keep, ch0;
      if escaped {
        escaped := false;
        return;
      }
      if ch == QUOTE {
        quoted := !quoted;
      } else if ch == BACKSLASH {
        if !quoted {
          escaped := true;
          return Next, ch;
        }
      } else if ch == HASH {
        if !quoted {
          return Eol, ch;
        }
      } else if ch == TAB {
        if !quoted {
          ch := SPACE;
        }
      } else if ch == CR {
        return Drop, ch;
      } else if ch == SEMI {
        if !quoted {
          return Split, ch;
        }
      }
    }
  }

  const SHELL_CHARS: seq<byte> := [QUOTE, BACKSLASH, HASH, TAB, CR, SEMI]

  // What a line becomes, with the shell's filter or none.
  function Copied(line: seq<byte>, shell: bool): (r: (seq<byte>, nat))
    ensures |r.0| <= |line| && r.1 <= |line| && (line != [] ==> r.1 > 0)
  {
    if shell then Filtered(line, 0, false, false) else (line, |line|)
  }

  // ----- Lines of a stream -----

  datatype Result = Line(text: seq<byte>) | TooLong | End

  // What is left of the stream once nothing of an oversized line is.
  function Settle(s: seq<byte>, dropping: bool): (seq<byte>, bool) {
    var n := Find(s, NL);
    if !dropping then (s, false) else if n < |s| then (s[n + 1..], false) else ([], true)
  }

  // What the next call gives, and what it leaves of the stream.
  function Step(s0: seq<byte>, dropping: bool, max: nat, shell: bool): (r: (Result, seq<byte>, bool)) {
    var s := Settle(s0, dropping).0;
    if Settle(s0, dropping).1 then (End, [], true)
    else
      var n := Find(s, NL);
      if n < |s| && n < BUFSZ then
        if n > max then (TooLong, s[n + 1..], false)
        else
          var c := Copied(s[..n], shell);
          (Line(c.0), s[if c.1 == n then n + 1 else c.1..], false)
      else if |s| >= BUFSZ then (TooLong, s[BUFSZ..], true)
      else (End, s, false)
  }

  lemma Joined(now: seq<byte>, before: seq<byte>, bytes: seq<byte>, rest: seq<byte>, input: seq<byte>)
    requires |before| <= |now| && now[..|before|] == before && now[|before|..] == bytes && input == bytes + rest
    ensures now + rest == before + input
  {
    assert now == before + bytes;
    assert before + (bytes + rest) == before + bytes + rest;
  }

  lemma FilterEnds(s: seq<byte>, quoted: bool, escaped: bool)
    ensures Filtered(s, |s|, quoted, escaped) == ([], |s|)
  {
  }

  // One character of the filter, with what it has kept so far.
  lemma FilterStep(s: seq<byte>, i: nat, quoted: bool, escaped: bool, kept: seq<byte>)
    requires i < |s|
    ensures var ch, f := s[i], Filtered(s, i, quoted, escaped);
            if !escaped && ((ch == HASH || ch == SEMI) && !quoted) then f == ([], if ch == HASH then |s| else i + 1)
            else if !escaped && ch == CR then f == Filtered(s, i + 1, quoted, false)
            else
              var ch' := if !escaped && ch == TAB && !quoted then SPACE else ch;
              var r := Filtered(s, i + 1, QuotedBehind(ch, quoted, escaped), EscapedBehind(ch, quoted, escaped));
              kept + f.0 == kept + [ch'] + r.0 && f.1 == r.1
  {
  }

  // ----- The reader -----

  class Reader {
    const buf: array<byte>
    var pending: nat
    var dropping: bool
    var input: seq<byte>   // what read() has still to give
    var gives: seq<int>    // how much it gives each time; nothing positive is an interruption

    constructor (input: seq<byte>, gives: seq<int>)
      ensures Valid() && Stream() == input && !dropping && fresh(buf)
    {
      buf := new byte[BUFSZ](_ => 0);
      pending, dropping, this.input, this.gives := 0, false, input, gives;
    }

    ghost predicate Valid()
      reads this
    {
      buf.Length == BUFSZ && pending <= BUFSZ
    }

    ghost function Stream(): seq<byte>
      requires Valid()
      reads this, buf
    {
      buf[..pending] + input
    }

    // _readln_consume
    method Consume(n: nat)
      requires Valid() && n <= pending
      modifies `pending, buf
      ensures Valid() && pending == old(pending) - n && buf[..pending] == old(buf[n..pending]) &&
          Stream() == old(Stream())[n..]
    {
      pending := pending - n;
      forall i | 0 <= i < pending {
        buf[i] := buf[n + i];
      }
    }

    method Fill(bytes: seq<byte>)
      requires Valid() && pending + |bytes| <= BUFSZ
      modifies buf
      ensures var now := buf[..pending + |bytes|]; now[..pending] == old(buf[..pending]) && now[pending..] == bytes
    {
      forall i | 0 <= i < |bytes| {
        buf[pending + i] := bytes[i];
      }
    }

    // read: as much as is there and fits, or less.
    method Read() returns (r: int)
      requires Valid() && pending < BUFSZ
      modifies `pending, `input, `gives, buf
      ensures Valid() && Stream() == old(Stream())
      ensures |gives| <= |old(gives)| && (r < 0 ==> |gives| < |old(gives)|)
      ensures r > 0 ==> |input| < |old(input)|
      ensures r == 0 ==> input == [] == old(input) && pending == old(pending)
    {
      var space, most := BUFSZ - pending, |input|;
      if gives != [] {
        var k := gives[0];
        gives := gives[1..];
        if k <= 0 {
          return -1;
        }
        most := if k < most then k else most;
      }
      var got := if most < space then most else space;
      var bytes, rest := input[..got], input[got..];
      ghost var before := buf[..pending];
      Fill(bytes);
      Joined(buf[..pending + got], before, bytes, rest, old(input));
      pending, input := pending + got, rest;
      r := got;
    }

    // _readln_copy: filters what is buffered of the current line into out.
    method Copy(out: array<byte>, len: nat, shell: bool) returns (used: nat, eaten: nat)
      requires Valid() && len <= pending && len <= out.Length && out != buf
      modifies out
      ensures used <= len && out[..used] == Copied(buf[..len], shell).0 && eaten == Copied(buf[..len], shell).1
    {
      hide Filtered;
      var asked := false;
      used, eaten := 0, len;
      if !shell {
        forall i | 0 <= i < len {
          out[i] := buf[i];
        }
        assert out[..len] == buf[..len];
        return len, len;
      }
      var state := new ShellState();
      ghost var line, kept := buf[..len], [];
      ghost var whole := Filtered(line, 0, false, false);
      var i := 0;
      while i < len
        invariant used <= i <= len && asked == state.escaped && eaten == len && fresh(state)
        invariant buf[..len] == line && out[..used] == kept
        invariant whole.0 == kept + Filtered(line, i, state.quoted, state.escaped).0
        invariant whole.1 == Filtered(line, i, state.quoted, state.escaped).1
      {
        FilterStep(line, i, state.quoted, state.escaped, kept);
        var ch := buf[i];
        assert ch == line[i];
        i := i + 1;
        if asked || (ch != 0 && ch in SHELL_CHARS) {
          var act;
          act, ch := state.ShellChar(ch);
          asked := act == Next;
          if act == Eol {
            return;
          }
          if act == Split {
            eaten := i;
            return;
          }
          if act == Drop {
            continue;
          }
        }
        out[used] := ch;
        used, kept := used + 1, kept + [ch];
      }
      FilterEnds(line, state.quoted, state.escaped);
    }

    // The line in front of the newline, if it fits.
    method TakeLine(out: array<byte>, newline: nat, max: nat, shell: bool) returns (r: int)
      requires Valid() && newline < pending && out != buf && max < out.Length
      modifies `pending, buf, out
      ensures Valid()
      ensures if newline > max then r == OVERFLOW && Stream() == old(Stream())[newline + 1..]
              else
                var c := old(Copied(buf[..newline], shell));
                && r == |c.0| < out.Length && out[..r] == c.0 && out[r] == 0
                && Stream() == old(Stream())[if c.1 == newline then newline + 1 else c.1..]
    {
      hide Copied;
      if newline > max {
        Consume(newline + 1);
        return OVERFLOW;
      }
      var used, eaten := Copy(out, newline, shell);
      out[used] := 0;
      if eaten == newline {
        eaten := eaten + 1;
      }
      Consume(eaten);
      return used;
    }

    // Drops what is buffered of an oversized line.
    method ThrowAway(newline: nat)
      requires Valid() && dropping && newline == Find(buf[..pending], NL)
      modifies `pending, `dropping, buf
      ensures Valid() && Settle(Stream(), dropping) == Settle(old(Stream()), true) && |Stream()| <= |old(Stream())|
      ensures if newline < old(pending) then !dropping else dropping && pending == 0
    {
      hide Find, Settle;
      DropsTo(buf[..pending], input);
      if newline == pending {
        Consume(pending);
        assert Stream() == input;
      } else {
        Consume(newline + 1);
        dropping := false;
      }
    }

    // readln: what comes back depends on the stream alone, not on how read() cuts it up.
    method Readln(out: array<byte>, max: nat, shell: bool) returns (r: int)
      requires Valid() && out != buf && max < out.Length
      modifies this, buf, out
      ensures Valid() && |gives| <= |old(gives)| && |Stream()| <= |old(Stream())|
      ensures r == INTERRUPTED ==> |gives| < |old(gives)|
      ensures r == INTERRUPTED ==> Settle(Stream(), dropping) == Settle(old(Stream()), old(dropping))
      ensures r != INTERRUPTED ==>
        var (result, rest, dropped) := Step(old(Stream()), old(dropping), max, shell);
        && Stream() == rest && dropping == dropped
        && match result
           case Line(text) => r == |text| < out.Length && out[..r] == text && out[r] == 0
           case TooLong => r == OVERFLOW
           case End => r == DONE
    {
      hide Find, Copied, Settle, Step;
      ghost var s0, d0 := Stream(), dropping;
      while true
        invariant Valid() && Settle(Stream(), dropping) == Settle(s0, d0)
        invariant |gives| <= |old(gives)| && |Stream()| <= |s0|
        decreases |input|, dropping
      {
        var line := buf[..pending];
        var newline := Find(line, NL);
        assert buf[..newline] == line[..newline];
        var found := newline < pending;
        if dropping {
          ThrowAway(newline);
          if found {
            continue;
          }
        }
        if found {
          LineThere(line, input, s0, d0, max, shell);
          r := TakeLine(out, newline, max, shell);
          return;
        }
        if pending == BUFSZ {
          TooMuchThere(line, input, s0, d0, max, shell);
          Consume(pending);
          dropping := true;
          return OVERFLOW;
        }
        ghost var left := buf[..pending];
        var got := Read();
        if got < 0 {
          return INTERRUPTED;
        }
        if got == 0 {
          NothingThere(left, dropping, s0, d0, max, shell);
          return DONE;
        }
      }
    }
  }

  // ----- Where the reader's loop can end -----

  lemma DropsTo(line: seq<byte>, input: seq<byte>)
    ensures var n := Find(line, NL);
            Settle(line + input, true) == if n < |line| then Settle((line + input)[n + 1..], false)
                else Settle(input, true)
  {
    hide *;
    var s, n, m := line + input, Find(line, NL), Find(input, NL);
    FindIn(line, input, NL);
    Settles(s);
    Settles(input);
    if n < |line| {
      Settles(s[n + 1..]);
    } else if m < |input| {
      TailAfter(line, input, m + 1);
    }
  }

  lemma Settles(s: seq<byte>)
    ensures Settle(s, true) == if Find(s, NL) < |s| then (s[Find(s, NL) + 1..], false) else ([], true)
    ensures Settle(s, false) == (s, false)
  {
  }

  lemma TailAfter(a: seq<byte>, b: seq<byte>, n: nat)
    ensures n <= |b| ==> (a + b)[|a| + n..] == b[n..]
  {
  }

  lemma LineThere(line: seq<byte>, input: seq<byte>, s0: seq<byte>, d0: bool, max: nat, shell: bool)
    requires Settle(line + input, false) == Settle(s0, d0) && Find(line, NL) < |line| <= BUFSZ
    ensures var n := Find(line, NL);
            var c := Copied(line[..n], shell);
            Step(s0, d0, max, shell) ==
              if n > max then (TooLong, (line + input)[n + 1..], false)
              else (Line(c.0), (line + input)[if c.1 == n then n + 1 else c.1..], false)
  {
    hide Find, Copied;
    FindIn(line, input, NL);
    var n := Find(line, NL);
    assert (line + input)[..n] == line[..n];
  }

  lemma TooMuchThere(line: seq<byte>, input: seq<byte>, s0: seq<byte>, d0: bool, max: nat, shell: bool)
    requires Settle(line + input, false) == Settle(s0, d0) && Find(line, NL) == |line| == BUFSZ
    ensures Step(s0, d0, max, shell) == (TooLong, (line + input)[BUFSZ..], true)
  {
    hide Find, Copied;
    FindIn(line, input, NL);
  }

  lemma NothingThere(left: seq<byte>, dropping: bool, s0: seq<byte>, d0: bool, max: nat, shell: bool)
    requires Settle(left + [], dropping) == Settle(s0, d0) && |left| < BUFSZ
    requires if dropping then left == [] else Find(left, NL) == |left|
    ensures Step(s0, d0, max, shell) == (End, left + [], dropping)
  {
    hide Copied;
    assert left + [] == left;
  }

  // ----- What a reader of a whole stream sees -----

  // The results of n calls.
  function Results(s: seq<byte>, dropping: bool, max: nat, shell: bool, n: nat): seq<Result>
    decreases n
  {
    if n == 0 then []
    else
      var (r, rest, dropped) := Step(s, dropping, max, shell);
      [r] + Results(rest, dropped, max, shell, n - 1)
  }

  function Text(lines: seq<seq<byte>>): seq<byte> {
    if lines == [] then [] else lines[0] + ([NL] + Text(lines[1..]))
  }

  predicate AreLines(lines: seq<seq<byte>>) {
    forall i :: 0 <= i < |lines| ==> NL !in lines[i]
  }

  // Lines that fit come back as they are, and for each of the others there is one complaint.
  function Outcome(lines: seq<seq<byte>>, max: nat): seq<Result> {
    seq(|lines|, i requires 0 <= i < |lines| => if Fits(lines[i], max) then Line(lines[i]) else TooLong)
  }

  // For the caller, and for the buffer together with its newline.
  predicate Fits(line: seq<byte>, max: nat) {
    |line| <= max && |line| < BUFSZ
  }

  lemma FirstLine(line: seq<byte>, rest: seq<byte>)
    requires NL !in line
    ensures var s := line + ([NL] + rest);
            Find(s, NL) == |line| < |s| && s[..|line|] == line && s[|line| + 1..] == rest
  {
    FindIs(line + ([NL] + rest), NL, |line|);
  }

  // The step over one line, wherever it starts from.
  lemma StepOverLine(s: seq<byte>, dropping: bool, line: seq<byte>, rest: seq<byte>, max: nat)
    requires NL !in line && Settle(s, dropping) == (line + ([NL] + rest), false)
    ensures var r := Step(s, dropping, max, false);
            r.0 == (if Fits(line, max) then Line(line) else TooLong) && Settle(r.1, r.2) == (rest, false)
  {
    hide Find;
    FirstLine(line, rest);
    if |line| >= BUFSZ {
      var left := line[BUFSZ..];
      assert (line + ([NL] + rest))[BUFSZ..] == left + ([NL] + rest);
      assert forall i :: 0 <= i < |left| ==> left[i] == line[BUFSZ + i];
      FirstLine(left, rest);
    }
  }

  lemma {:induction false} LinesComeBack(s: seq<byte>, dropping: bool, lines: seq<seq<byte>>, tail: seq<byte>, max: nat)
    requires AreLines(lines) && Settle(s, dropping) == (Text(lines) + tail, false)
    ensures Results(s, dropping, max, false, |lines|) == Outcome(lines, max)
    decreases |lines|
  {
    hide Settle, Step;
    if lines != [] {
      var rest := Text(lines[1..]) + tail;
      assert Text(lines) + tail == lines[0] + ([NL] + rest);
      StepOverLine(s, dropping, lines[0], rest, max);
      var r := Step(s, dropping, max, false);
      LinesComeBack(r.1, r.2, lines[1..], tail, max);
      assert Outcome(lines, max) == [r.0] + Outcome(lines[1..], max);
    }
  }
}
