/** smolsh's commands: parse_cmd, which splits a line in place, and run_line. */
module Smolsh {
  import opened Bytes
  import opened Readln

  const LESS: byte := 60
  const GREATER: byte := 62
  const BAR: byte := 124
  const DOLLAR: byte := 36

  const MAX_TOKENS: nat := 16

  predicate IsSpecial(ch: byte) {
    ch == LESS || ch == GREATER || ch == BAR
  }

  // ----- What a line says -----

  // A command: its words, and the paths of the three standard files that are not inherited.
  datatype Cmd = Cmd(argv: seq<seq<byte>>, redir: seq<Option<seq<byte>>>, append: seq<bool>) {
    ghost predicate Valid() {
      |redir| == 3 && |append| == 3
    }
  }

  const NOTHING: Cmd := Cmd([], [None, None, None], [false, false, false])

  datatype Scan = BadWord | Word(text: seq<byte>, next: nat)

  // The word from i on, behind what there is of it already.
  function WordFrom(s: seq<byte>, i: nat, text: seq<byte>): (w: Scan)
    requires i <= |s|
    ensures w.Word? ==> i <= w.next <= |s|
    ensures w.Word? && i < |s| && s[i] != SPACE && !IsSpecial(s[i]) ==> i < w.next
    decreases |s| - i
  {
    if i == |s| then Word(text, i)
    else if s[i] == BACKSLASH then
      if i + 1 == |s| then BadWord else WordFrom(s, i + 2, text + [s[i + 1]])
    else if s[i] == QUOTE then QuotedFrom(s, i + 1, text)
    else if s[i] == SPACE || IsSpecial(s[i]) then Word(text, i)
    else if s[i] == DOLLAR then BadWord
    else WordFrom(s, i + 1, text + [s[i]])
  }

  function QuotedFrom(s: seq<byte>, i: nat, text: seq<byte>): (w: Scan)
    requires i <= |s|
    ensures w.Word? ==> i <= w.next <= |s|
    decreases |s| - i
  {
    if i == |s| then BadWord
    else if s[i] == QUOTE then WordFrom(s, i + 1, text)
    else QuotedFrom(s, i + 1, text + [s[i]])
  }

  function SkipSpaces(s: seq<byte>, i: nat): (r: nat)
    requires i <= |s|
    ensures i <= r <= |s| && (r < |s| ==> s[r] != SPACE)
    decreases |s| - i
  {
    if i < |s| && s[i] == SPACE then SkipSpaces(s, i + 1) else i
  }

  datatype Parse = Bad | Parsed(cmd: Cmd, piped: bool, next: nat)

  // One word and what ends it.
  datatype Token = Token(word: Option<seq<byte>>, op: byte, append: bool, stderr: bool, next: nat)

  function TokenAt(s: seq<byte>, i: nat): (t: Option<Token>)
    requires i < |s| && s[i] != SPACE
    ensures t.Some? ==> i < t.value.next <= |s|
  {
    var w := if IsSpecial(s[i]) then Word([], i) else WordFrom(s, i, []);
    if w.BadWord? then None
    else
      var word := if IsSpecial(s[i]) then None else Some(w.text);
      var j := w.next;
      var op := if j < |s| && IsSpecial(s[j]) then s[j] else 0;
      var append := op == GREATER && j + 1 < |s| && s[j + 1] == GREATER;
      var next := if j == |s| then j else if append then j + 2 else j + 1;
      var stderr := op == GREATER && word == Some([50]);
      Some(Token(if stderr then None else word, op, append, stderr, next))
  }

  // A command from i on, behind what there is of it; want is the file that waits for its path.
  function ParseFrom(s: seq<byte>, i: nat, cmd: Cmd, want: Option<nat>): (r: Parse)
    requires i <= |s| && cmd.Valid() && (want.Some? ==> want.value < 3)
    ensures r.Parsed? ==> r.cmd.Valid() && i <= r.next <= |s| && (r.piped ==> i < r.next)
    decreases |s| - i
  {
    var j := SkipSpaces(s, i);
    if j == |s| then if want.Some? then Bad else Parsed(cmd, false, j)
    else
      match TokenAt(s, j)
      case None => Bad
      case Some(t) =>
        match Placed(cmd, want, t.word)
        case None => Bad
        case Some(placed) =>
          if t.op == BAR then Parsed(placed, true, t.next)
          else
            var opens := Wanted(t);
            var c := if t.op == GREATER then placed.(append := placed.append[opens.value := t.append]) else placed;
            ParseFrom(s, t.next, c, opens)
  }

  function Placed(cmd: Cmd, want: Option<nat>, word: Option<seq<byte>>): (r: Option<Cmd>)
    requires cmd.Valid() && (want.Some? ==> want.value < 3)
    ensures r.Some? ==> r.value.Valid()
  {
    match word
    case Some(w) =>
      if want.Some? then Some(cmd.(redir := cmd.redir[want.value := Some(w)]))
      else if |cmd.argv| >= MAX_TOKENS then None
      else Some(cmd.(argv := cmd.argv + [w]))
    case None => if want.Some? then None else Some(cmd)
  }

  // The file whose path is to come next.
  function Wanted(t: Token): (r: Option<nat>)
    ensures r.Some? ==> r.value < 3
    ensures t.op == GREATER ==> r.Some?
  {
    if t.op == LESS then Some(0)
    else if t.op == GREATER then Some(if t.stderr then 2 else 1)
    else None
  }

  // ----- Words in the line -----

  // A C string that nothing from p on touches.
  ghost predicate WordAt(line: seq<byte>, i: nat, text: seq<byte>, lo: nat, p: nat, e: nat) {
    lo <= i && i + |text| <= e < |line| && line[i..i + |text|] == text && line[i + |text|] == 0 && 0 !in text &&
    (i + |text| < p || p == e)
  }

  // The rest of the line is as it was.
  ghost predicate Rest(line: seq<byte>, s: seq<byte>, p: nat) {
    p <= |s| < |line| && line[|s|] == 0 && (forall i :: p <= i < |s| ==> line[i] == s[i] != 0)
  }

  // *out++ = *p++
  method Move(line: array<byte>, out: nat, p: nat, ghost start: nat, ghost s: seq<byte>, ghost text: seq<byte>)
    requires start <= out <= p < |s| && Rest(line[..], s, p) && line[start..out] == text
    modifies line
    ensures line[start..out + 1] == text + [s[p]] && s[p] != 0 && Rest(line[..], s, p + 1)
    ensures forall i :: 0 <= i < line.Length && i != out ==> line[i] == old(line[i])
  {
    line[out] := line[p];
  }

  lemma WordSteps(s: seq<byte>, i: nat, text: seq<byte>)
    requires i < |s|
    ensures var w := WordFrom(s, i, text);
            if s[i] == BACKSLASH then w == if i + 1 == |s| then BadWord else WordFrom(s, i + 2, text + [s[i + 1]])
            else if s[i] == QUOTE then w == QuotedFrom(s, i + 1, text)
            else if s[i] == SPACE || IsSpecial(s[i]) then w == Word(text, i)
            else if s[i] == DOLLAR then w == BadWord
            else w == WordFrom(s, i + 1, text + [s[i]])
    ensures QuotedFrom(s, i, text) ==
            if s[i] == QUOTE then WordFrom(s, i + 1, text) else QuotedFrom(s, i + 1, text + [s[i]])
  {
  }

  lemma WordEnds(s: seq<byte>, text: seq<byte>)
    ensures WordFrom(s, |s|, text) == Word(text, |s|) && QuotedFrom(s, |s|, text) == BadWord
  {
  }

  // Reads a word and writes it over itself: from start up to out, with what follows at p.
  method ScanWord(line: array<byte>, start: nat, ghost s: seq<byte>) returns (ok: bool, p: nat, out: nat)
    requires Rest(line[..], s, start)
    modifies line
    ensures forall i :: 0 <= i < line.Length && (i < start || i >= |s|) ==> line[i] == old(line[i])
    ensures !ok ==> WordFrom(s, start, []) == BadWord
    ensures ok ==> start <= out <= p && Rest(line[..], s, p)
    ensures ok ==> WordFrom(s, start, []) == Word(line[start..out], p) && 0 !in line[start..out]
  {
    hide WordFrom, QuotedFrom;
    p, out := start, start;
    ok := true;
    ghost var text: seq<byte> := [];
    WordEnds(s, text);
    while line[p] != 0
      invariant start <= out <= p && Rest(line[..], s, p) && line[start..out] == text && 0 !in text
      invariant WordFrom(s, start, []) == WordFrom(s, p, text)
      invariant forall i :: 0 <= i < line.Length && (i < start || i >= |s|) ==> line[i] == old(line[i])
      decreases |s| - p
    {
      WordSteps(s, p, text);
      if line[p] == BACKSLASH {
        p := p + 1;
        if line[p] == 0 {
          return false, p, out;
        }
        Move(line, out, p, start, s, text);
        text := text + [s[p]];
        out, p := out + 1, p + 1;
        continue;
      }
      if line[p] == QUOTE {
        p := p + 1;
        p, out, text := ScanQuoted(line, start, out, p, s, text);
        WordEnds(s, text);
        if line[p] == 0 {
          return false, p, out;
        }
        WordSteps(s, p, text);
        p := p + 1;
        continue;
      }
      if line[p] == SPACE || IsSpecial(line[p]) {
        return;
      }
      if line[p] == DOLLAR {
        return false, p, out;
      }
      Move(line, out, p, start, s, text);
      text := text + [s[p]];
      out, p := out + 1, p + 1;
    }
    WordEnds(s, text);
  }

  method ScanQuoted(line: array<byte>, ghost start: nat, out0: nat, p0: nat, ghost s: seq<byte>, ghost text0: seq<byte>)
    returns (p: nat, out: nat, ghost text: seq<byte>)
    requires start <= out0 <= p0 && Rest(line[..], s, p0) && line[start..out0] == text0 && 0 !in text0
    modifies line
    ensures start <= out <= p && p0 <= p && Rest(line[..], s, p) && line[start..out] == text && 0 !in text
    ensures QuotedFrom(s, p0, text0) == QuotedFrom(s, p, text) && (line[p] == 0 || line[p] == QUOTE)
    ensures forall i :: 0 <= i < line.Length && (i < start || i >= |s|) ==> line[i] == old(line[i])
  {
    hide WordFrom, QuotedFrom;
    p, out, text := p0, out0, text0;
    while line[p] != 0 && line[p] != QUOTE
      invariant start <= out <= p && p0 <= p && Rest(line[..], s, p) && line[start..out] == text && 0 !in text
      invariant QuotedFrom(s, p0, text0) == QuotedFrom(s, p, text)
      invariant forall i :: 0 <= i < line.Length && (i < start || i >= |s|) ==> line[i] == old(line[i])
      decreases |s| - p
    {
      WordSteps(s, p, text);
      Move(line, out, p, start, s, text);
      text := text + [s[p]];
      out, p := out + 1, p + 1;
    }
  }

  // ----- One command -----

  // Words of it are where they sit in the line.
  class Command {
    var argv: seq<nat>
    var redir: seq<Option<nat>>
    var append: seq<bool>

    constructor ()
      ensures argv == [] && redir == [None, None, None] && append == [false, false, false]
    {
      argv, redir, append := [], [None, None, None], [false, false, false];
    }

    ghost predicate Stores(cmd: Cmd, line: seq<byte>, lo: nat, p: nat, e: nat)
      reads this
    {
      && |argv| == |cmd.argv| && |redir| == 3 && cmd.Valid() && append == cmd.append
      && (forall k :: 0 <= k < |argv| ==> WordAt(line, argv[k], cmd.argv[k], lo, p, e))
      && (forall k :: 0 <= k < 3 ==> redir[k].Some? == cmd.redir[k].Some? &&
                                     (redir[k].Some? ==> WordAt(line, redir[k].value, cmd.redir[k].value, lo, p, e)))
    }
  }

  lemma WordStays(was: seq<byte>, now: seq<byte>, i: nat, text: seq<byte>, lo: nat, p: nat, q: nat, e: nat)
    requires WordAt(was, i, text, lo, p, e) && p <= q <= e && |now| == |was| && (p == e ==> now == was)
    requires forall j :: 0 <= j < p < |was| ==> now[j] == was[j]
    ensures WordAt(now, i, text, lo, q, e)
  {
    if p < e {
      assert now[i..i + |text|] == was[i..i + |text|];
    }
  }

  lemma StaysStored(c: Command, cmd: Cmd, was: seq<byte>, now: seq<byte>, lo: nat, p: nat, q: nat, e: nat)
    requires c.Stores(cmd, was, lo, p, e) && p <= q <= e < |was| && |now| == |was| && (p == e ==> now == was)
    requires forall j :: 0 <= j < p ==> now[j] == was[j]
    ensures c.Stores(cmd, now, lo, q, e)
  {
    hide WordAt;
    forall k | 0 <= k < |c.argv| ensures WordAt(now, c.argv[k], cmd.argv[k], lo, q, e) {
      WordStays(was, now, c.argv[k], cmd.argv[k], lo, p, q, e);
    }
    forall k | 0 <= k < 3 && c.redir[k].Some? ensures WordAt(now, c.redir[k].value, cmd.redir[k].value, lo, q, e) {
      WordStays(was, now, c.redir[k].value, cmd.redir[k].value, lo, p, q, e);
    }
  }

  // The next word, if any, and the character that stopped it, which the terminating NUL may overwrite.
  method Chop(line: array<byte>, p0: nat, ghost s: seq<byte>)
    returns (ok: bool, word: Option<nat>, op: byte, append: bool, stderr: bool, next: nat)
    requires Rest(line[..], s, p0) && p0 < |s| && s[p0] != SPACE
    modifies line
    ensures forall i :: 0 <= i < line.Length && (i < p0 || i >= |s|) ==> line[i] == old(line[i])
    ensures ok == TokenAt(s, p0).Some?
    ensures ok ==>
      var t := TokenAt(s, p0).value;
      && op == t.op && append == t.append && stderr == t.stderr && next == t.next && Rest(line[..], s, next)
      && word.Some? == t.word.Some? && (word.Some? ==> WordAt(line[..], word.value, t.word.value, p0, next, |s|))
  {
    hide WordFrom;
    word, op, append, stderr, next := None, 0, false, false, p0;
    var p, out := p0, p0;
    ok := true;
    if !IsSpecial(line[p]) {
      ok, p, out := ScanWord(line, p0, s);
      if !ok {
        return;
      }
      word := Some(p0);
    }
    ghost var text := line[p0..out];
    op := if IsSpecial(line[p]) then line[p] else 0;
    append := op == GREATER && line[p + 1] == GREATER;
    next := if line[p] == 0 then p else if append then p + 2 else p + 1;
    if word.Some? {
      line[out] := 0;
      assert line[p0..out] == text;
      if op == GREATER && line[p0] == 50 && line[p0 + 1] == 0 {
        assert text == [50];
        stderr, word := true, None;
      } else {
        assert op == GREATER ==> text != [50] by {
          if text == [50] {
            assert line[p0] == text[0];
          }
        }
      }
    }
  }

  datatype Sep = SepEnd | SepPipe | SepBad

  lemma SkipOne(s: seq<byte>, p: nat, cmd: Cmd, want: Option<nat>)
    requires p < |s| && s[p] == SPACE && cmd.Valid() && (want.Some? ==> want.value < 3)
    ensures ParseFrom(s, p, cmd, want) == ParseFrom(s, p + 1, cmd, want)
  {
    hide TokenAt, Placed, Wanted;
  }

  lemma ParseSteps(s: seq<byte>, p: nat, cmd: Cmd, want: Option<nat>)
    requires p <= |s| && (p < |s| ==> s[p] != SPACE) && cmd.Valid() && (want.Some? ==> want.value < 3)
    ensures var r := ParseFrom(s, p, cmd, want);
            if p == |s| then r == (if want.Some? then Bad else Parsed(cmd, false, p))
            else if TokenAt(s, p).None? then r == Bad
            else
              var t := TokenAt(s, p).value;
              var placed := Placed(cmd, want, t.word);
              if placed.None? then r == Bad
              else if t.op == BAR then r == Parsed(placed.value, true, t.next)
              else
                var c := placed.value;
                var next := if t.op == GREATER then c.(append := c.append[Wanted(t).value := t.append]) else c;
                r == ParseFrom(s, t.next, next, Wanted(t))
  {
    hide TokenAt, Placed, Wanted;
  }

  // The word goes where it is wanted, or behind the other words.
  method Place(c: Command, word: Option<nat>, want: int, ghost line: seq<byte>, ghost spec: Cmd, ghost t: Token,
               ghost lo: nat, ghost p: nat, ghost e: nat)
    returns (ok: bool, ghost placed: Cmd)
    requires c.Stores(spec, line, lo, p, e) && -1 <= want < 3 && word.Some? == t.word.Some?
    requires word.Some? ==> WordAt(line, word.value, t.word.value, lo, p, e)
    modifies c
    ensures var r := Placed(spec, if want < 0 then None else Some(want), t.word);
            ok == r.Some? && (ok ==> r == Some(placed))
    ensures ok ==> c.Stores(placed, line, lo, p, e) && (word.Some? || want < 0)
  {
    hide WordAt;
    ok, placed := true, spec;
    if word.Some? {
      if want >= 0 {
        c.redir := c.redir[want := word];
        placed := spec.(redir := spec.redir[want := t.word]);
      } else {
        if |c.argv| >= MAX_TOKENS {
          return false, spec;
        }
        c.argv := c.argv + [word.value];
        placed := spec.(argv := spec.argv + [t.word.value]);
      }
    } else if want >= 0 {
      // the path of the redirection before is missing
      return false, spec;
    }
  }

  // parse_cmd: the command at pos and the position behind it. Later calls write only behind that
  // position, so the words found here stay what they are.
  method ParseCmd(line: array<byte>, pos: nat, c: Command, ghost s: seq<byte>) returns (sep: Sep, next: nat)
    requires Rest(line[..], s, pos)
    modifies line, c
    ensures forall i :: 0 <= i < line.Length && (i < pos || i >= |s|) ==> line[i] == old(line[i])
    ensures match ParseFrom(s, pos, NOTHING, None)
            case Bad => sep == SepBad
            case Parsed(cmd, piped, n) =>
              sep == (if piped then SepPipe else SepEnd) && next == n &&
              Rest(line[..], s, n) && c.Stores(cmd, line[..], pos, n, |s|)
  {
    hide TokenAt, Placed, WordAt, ParseFrom;
    c.argv, c.redir, c.append := [], [None, None, None], [false, false, false];
    var want, p: nat := -1, pos;
    ghost var spec, asked: Option<nat> := NOTHING, None;
    next := pos;
    while true
      invariant pos <= p <= |s| && Rest(line[..], s, p) && c.Stores(spec, line[..], pos, p, |s|)
      invariant -1 <= want < 3 && asked == if want < 0 then None else Some(want)
      invariant ParseFrom(s, pos, NOTHING, None) == ParseFrom(s, p, spec, asked)
      invariant forall i :: 0 <= i < line.Length && (i < pos || i >= |s|) ==> line[i] == old(line[i])
      decreases |s| - p
    {
      p := Spaces(line, p, c, s, spec, asked, pos);
      ParseSteps(s, p, spec, asked);
      if line[p] == 0 {
        return if want < 0 then SepEnd else SepBad, p;
      }
      ghost var was := line[..];
      var ok, word, op, append, stderr, q := Chop(line, p, s);
      if !ok {
        return SepBad, p;
      }
      ghost var t := TokenAt(s, p).value;
      StaysStored(c, spec, was, line[..], pos, p, q, |s|);
      WordFurther(line[..], word, t.word, p, pos, q, |s|);
      ok, spec := Place(c, word, want, line[..], spec, t, pos, q, |s|);
      if !ok {
        return SepBad, p;
      }
      if op == BAR {
        return SepPipe, q;
      }
      if word.Some? {
        want := -1;
      }
      if op == LESS {
        want := 0;
      }
      if op == GREATER {
        want := if stderr then 2 else 1;
        c.append := c.append[want := append];
        spec := spec.(append := spec.append[want := append]);
      }
      p, asked := q, Wanted(t);
    }
  }

  method Spaces(line: array<byte>, p0: nat, ghost c: Command, ghost s: seq<byte>, ghost spec: Cmd,
                ghost want: Option<nat>, ghost lo: nat)
    returns (p: nat)
    requires Rest(line[..], s, p0) && spec.Valid() && (want.Some? ==> want.value < 3)
    requires c.Stores(spec, line[..], lo, p0, |s|)
    ensures p0 <= p && Rest(line[..], s, p) && line[p] != SPACE && (p < |s| ==> s[p] != SPACE)
    ensures ParseFrom(s, p0, spec, want) == ParseFrom(s, p, spec, want) && c.Stores(spec, line[..], lo, p, |s|)
  {
    hide ParseFrom, WordAt;
    p := p0;
    while line[p] == SPACE
      invariant p0 <= p && Rest(line[..], s, p)
      invariant ParseFrom(s, p0, spec, want) == ParseFrom(s, p, spec, want)
      decreases |s| - p
    {
      SkipOne(s, p, spec, want);
      p := p + 1;
    }
    StaysStored(c, spec, line[..], line[..], lo, p0, p, |s|);
  }

  lemma WordFurther(line: seq<byte>, word: Option<nat>, text: Option<seq<byte>>, start: nat, lo: nat, q: nat, e: nat)
    requires word.Some? == text.Some? && (word.Some? ==> WordAt(line, word.value, text.value, start, q, e)) &&
        lo <= start
    ensures word.Some? ==> WordAt(line, word.value, text.value, lo, q, e)
  {
  }

  // ----- A pipeline -----

  // What run_command is given to run, and whether its ends are pipes.
  datatype Stage = Stage(cmd: Cmd, fromPipe: bool, toPipe: bool)

  datatype Ran = Ran(stages: seq<Stage>, syntaxError: bool)

  // What runs of the line from i on: no end of a pipe may be without a command.
  function RunFrom(s: seq<byte>, i: nat, piped: bool): Ran
    requires i <= |s|
    decreases |s| - i
  {
    match ParseFrom(s, i, NOTHING, None)
    case Bad => Ran([], true)
    case Parsed(cmd, more, next) =>
      if cmd.argv == [] then Ran([], more || piped)
      else if !more then Ran([Stage(cmd, piped, false)], false)
      else
        var rest := RunFrom(s, next, true);
        Ran([Stage(cmd, piped, true)] + rest.stages, rest.syntaxError)
  }

  function CStr(line: seq<byte>): (s: seq<byte>)
    ensures |s| <= |line| && line[..|s|] == s && 0 !in s && (|s| < |line| ==> line[|s|] == 0)
  {
    line[..Find(line, 0)]
  }

  lemma CStrOfWord(line: seq<byte>, i: nat, text: seq<byte>, lo: nat, p: nat, e: nat)
    requires WordAt(line, i, text, lo, p, e)
    ensures CStr(line[i..]) == text
  {
    var tail := line[i..];
    assert forall j :: 0 <= j < |text| ==> tail[j] == line[i..i + |text|][j];
    FindIs(tail, 0, |text|);
  }

  // The command as the words in the line spell it.
  function Spelt(line: seq<byte>, argv: seq<nat>, redir: seq<Option<nat>>, append: seq<bool>): (c: Cmd)
    requires (forall k :: 0 <= k < |argv| ==> argv[k] <= |line|) && |redir| == 3
    requires forall k :: 0 <= k < 3 && redir[k].Some? ==> redir[k].value <= |line|
  {
    Cmd(seq(|argv|, k requires 0 <= k < |argv| => CStr(line[argv[k]..])),
        seq(3, k requires 0 <= k < 3 => if redir[k].Some? then Some(CStr(line[redir[k].value..])) else None),
        append)
  }

  lemma StoresSpelt(c: Command, cmd: Cmd, line: seq<byte>, lo: nat, p: nat, e: nat)
    requires c.Stores(cmd, line, lo, p, e)
    ensures (forall k :: 0 <= k < |c.argv| ==> c.argv[k] <= |line|) && |c.redir| == 3
    ensures forall k :: 0 <= k < 3 && c.redir[k].Some? ==> c.redir[k].value <= |line|
    ensures Spelt(line, c.argv, c.redir, c.append) == cmd
  {
    hide CStr;
    forall k | 0 <= k < |c.argv| ensures CStr(line[c.argv[k]..]) == cmd.argv[k] {
      CStrOfWord(line, c.argv[k], cmd.argv[k], lo, p, e);
    }
    forall k | 0 <= k < 3 && c.redir[k].Some? ensures CStr(line[c.redir[k].value..]) == cmd.redir[k].value {
      CStrOfWord(line, c.redir[k].value, cmd.redir[k].value, lo, p, e);
    }
    var spelt := Spelt(line, c.argv, c.redir, c.append);
    assert spelt.argv == cmd.argv && spelt.redir == cmd.redir;
  }

  // run_line; what run_command does with a command is not modelled.
  method RunLine(line: array<byte>, ghost s: seq<byte>) returns (ran: seq<Stage>, syntaxError: bool)
    requires Rest(line[..], s, 0)
    modifies line
    ensures Ran(ran, syntaxError) == RunFrom(s, 0, false)
  {
    hide ParseFrom, Spelt, Rest, Command.Stores;
    ran, syntaxError := [], false;
    var pos, prev := 0, false;
    ghost var whole := RunFrom(s, 0, false);
    RestFits(line[..], s, 0);
    while true
      invariant pos <= |s| && Rest(line[..], s, pos)
      invariant var rest := RunFrom(s, pos, prev);
                whole.stages == ran + rest.stages && whole.syntaxError == rest.syntaxError
      decreases |s| - pos
    {
      var cmd := new Command();
      var sep, next := ParseCmd(line, pos, cmd, s);
      if sep == SepBad {
        syntaxError := true;
        return;
      }
      StoresSpelt(cmd, ParseFrom(s, pos, NOTHING, None).cmd, line[..], pos, next, |s|);
      var c := Spelt(line[..], cmd.argv, cmd.redir, cmd.append);
      if c.argv == [] && (sep == SepPipe || prev) {
        syntaxError := true;
        return;
      }
      // run_command has nothing to do without a word
      if c.argv != [] {
        ran := ran + [Stage(c, prev, sep == SepPipe)];
      }
      if sep == SepEnd {
        return;
      }
      prev, pos := true, next;
    }
  }

  lemma RestFits(line: seq<byte>, s: seq<byte>, p: nat)
    requires Rest(line, s, p)
    ensures p <= |s|
  {
  }
}
