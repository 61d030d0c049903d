/**
 Writing a pipeline down so that the shell reads it back: every character of a word behind a
 backslash, empty words as "", a space behind each word. The reader's filter and the parser keep
 separate ideas of quoting; here they agree.
 */
module SmolshPrint {
  import opened Bytes
  import opened Readln
  import opened Smolsh

  const TWO: byte := 50

  function Escaped(w: seq<byte>): (p: seq<byte>)
    ensures |p| == 2 * |w|
  {
    if w == [] then [] else [BACKSLASH, w[0]] + Escaped(w[1..])
  }

  function Quoted(w: seq<byte>): (p: seq<byte>)
    ensures |p| >= 2 && p[0] in {BACKSLASH, QUOTE}
  {
    if w == [] then [QUOTE, QUOTE] else Escaped(w)
  }

  function PrintWord(w: seq<byte>): (p: seq<byte>)
    ensures |p| >= 2 && p[0] in {BACKSLASH, QUOTE}
  {
    Quoted(w) + [SPACE]
  }

  function PrintWords(ws: seq<seq<byte>>): seq<byte> {
    if ws == [] then [] else PrintWords(ws[..|ws| - 1]) + PrintWord(ws[|ws| - 1])
  }

  function Operator(k: nat, append: bool): (p: seq<byte>)
    requires k < 3
    ensures p != []
  {
    if k == 0 then [LESS]
    else (if k == 2 then [TWO] else []) + (if append then [GREATER, GREATER] else [GREATER])
  }

  function PrintRedir(c: Cmd, k: nat): seq<byte>
    requires c.Valid() && k < 3
  {
    if c.redir[k].None? then [] else Operator(k, c.append[k]) + PrintWord(c.redir[k].value)
  }

  function Print(c: Cmd): seq<byte>
    requires c.Valid()
  {
    PrintWords(c.argv) + (PrintRedir(c, 0) + (PrintRedir(c, 1) + PrintRedir(c, 2)))
  }

  function PrintLine(cs: seq<Cmd>): seq<byte>
    requires forall i :: 0 <= i < |cs| ==> cs[i].Valid()
  {
    if cs == [] then []
    else if |cs| == 1 then Print(cs[0])
    else Print(cs[0]) + ([BAR] + PrintLine(cs[1..]))
  }

  // Commands there is something to print for.
  ghost predicate Printable(c: Cmd) {
    && c.Valid() && 1 <= |c.argv| <= MAX_TOKENS && !c.append[0]
    && (forall k :: 0 <= k < |c.argv| ==> WordOk(c.argv[k]))
    && (forall k :: 0 <= k < 3 ==> if c.redir[k].Some? then WordOk(c.redir[k].value) else !c.append[k])
  }

  predicate WordOk(w: seq<byte>) {
    0 !in w && NL !in w
  }

  // ----- The parser reads it -----

  lemma {:induction false} EscapedRead(s: seq<byte>, i: nat, w: seq<byte>, text: seq<byte>)
    requires StartsAt(s, i, Escaped(w))
    ensures WordFrom(s, i, text) == WordFrom(s, i + 2 * |w|, text + w)
    decreases |w|
  {
    hide StartsAt, QuotedFrom;
    StartsAtSlice(s, i, Escaped(w));
    if w == [] {
      assert text + w == text;
    } else {
      StartsSplit(s, i, [BACKSLASH, w[0]], Escaped(w[1..]));
      EscapedRead(s, i + 2, w[1..], text + [w[0]]);
      assert text + [w[0]] + w[1..] == text + w;
      assert s[i] == Escaped(w)[0] && s[i + 1] == Escaped(w)[1];
    }
  }

  lemma {:induction false} EmptyScanned(s: seq<byte>, i: nat, stop: byte)
    requires StartsAt(s, i, [QUOTE, QUOTE] + [stop]) && (stop == SPACE || IsSpecial(stop))
    ensures WordFrom(s, i, []) == Word([], i + 2)
  {
    hide StartsAt, WordFrom, QuotedFrom;
    var p := [QUOTE, QUOTE] + [stop];
    StartsAtSlice(s, i, p);
    assert s[i + 0] == p[0] && s[i + 1] == p[1] && s[i + 2] == p[2];
    WordSteps(s, i, []);
    WordSteps(s, i + 1, []);
    WordSteps(s, i + 2, []);
  }

  lemma {:induction false} EscapedScanned(s: seq<byte>, i: nat, w: seq<byte>, stop: byte)
    requires w != [] && StartsAt(s, i, Escaped(w) + [stop]) && (stop == SPACE || IsSpecial(stop))
    ensures WordFrom(s, i, []) == Word(w, i + 2 * |w|)
  {
    hide StartsAt, WordFrom, QuotedFrom, Escaped;
    StartsSplit(s, i, Escaped(w), [stop]);
    StartsWith(s, i + 2 * |w|, stop);
    EscapedRead(s, i, w, []);
    assert [] + w == w;
    WordSteps(s, i + 2 * |w|, w);
  }

  lemma {:induction false} WordScanned(s: seq<byte>, i: nat, w: seq<byte>, stop: byte)
    requires StartsAt(s, i, Quoted(w) + [stop]) && (stop == SPACE || IsSpecial(stop))
    ensures var j := i + |Quoted(w)|; j < |s| && s[j] == stop && WordFrom(s, i, []) == Word(w, j)
    ensures s[i] in {BACKSLASH, QUOTE}
  {
    hide StartsAt, WordFrom, QuotedFrom, Escaped;
    var p := Quoted(w) + [stop];
    StartsAtSlice(s, i, p);
    assert s[i + 0] == p[0] && s[i + (|p| - 1)] == p[|p| - 1];
    if w == [] {
      EmptyScanned(s, i, stop);
    } else {
      EscapedScanned(s, i, w, stop);
    }
  }

  lemma {:induction false} WordRead(s: seq<byte>, i: nat, w: seq<byte>)
    requires StartsAt(s, i, PrintWord(w))
    ensures i + |PrintWord(w)| <= |s| && s[i] != SPACE && !IsSpecial(s[i])
    ensures TokenAt(s, i) == Some(Token(Some(w), 0, false, false, i + |PrintWord(w)|))
  {
    hide StartsAt, WordFrom, QuotedFrom, Quoted;
    WordScanned(s, i, w, SPACE);
  }

  // An operator right behind a word ends it and counts.
  lemma {:induction false} TightStopRead(s: seq<byte>, i: nat, w: seq<byte>, stop: byte)
    requires stop in {LESS, BAR} && StartsAt(s, i, Quoted(w) + [stop])
    ensures i < |s| && s[i] != SPACE
    ensures TokenAt(s, i) == Some(Token(Some(w), stop, false, false, i + |Quoted(w)| + 1))
  {
    hide StartsAt, WordFrom, QuotedFrom, Quoted;
    WordScanned(s, i, w, stop);
  }

  // With no space between them a word and a > behind it are read as the two they are, unless the
  // word is 2: its quoting is gone when the parser looks at it, so it names standard error.
  lemma {:induction false} TightWordRead(s: seq<byte>, i: nat, w: seq<byte>)
    requires StartsAt(s, i, Quoted(w) + [GREATER])
    ensures i < |s| && s[i] != SPACE && TokenAt(s, i).Some?
    ensures TokenAt(s, i).value.op == GREATER
    ensures TokenAt(s, i).value.word == if w == [TWO] then None else Some(w)
    ensures TokenAt(s, i).value.stderr <==> w == [TWO]
    ensures var next := i + |Quoted(w)| + 1;
            TokenAt(s, i).value.append == (next < |s| && s[next] == GREATER) &&
            TokenAt(s, i).value.next == if TokenAt(s, i).value.append then next + 1 else next
  {
    hide StartsAt, WordFrom, QuotedFrom, Quoted;
    WordScanned(s, i, w, GREATER);
  }

  // A word, one of the command's or the path that is waited for.
  lemma {:induction false} WordParsed(s: seq<byte>, i: nat, w: seq<byte>, c: Cmd, want: Option<nat>)
    requires StartsAt(s, i, PrintWord(w)) && c.Valid() && (want.Some? ==> want.value < 3)
    requires want.None? ==> |c.argv| < MAX_TOKENS
    ensures i + |PrintWord(w)| <= |s|
    ensures var more := if want.Some? then c.(redir := c.redir[want.value := Some(w)]) else c.(argv := c.argv + [w]);
            ParseFrom(s, i, c, want) == ParseFrom(s, i + |PrintWord(w)|, more, None)
  {
    hide StartsAt, TokenAt, ParseFrom, PrintWord;
    WordRead(s, i, w);
    ParseSteps(s, i, c, want);
  }

  lemma {:induction false} WordsParsed(s: seq<byte>, i: nat, ws: seq<seq<byte>>)
    requires StartsAt(s, i, PrintWords(ws)) && |ws| <= MAX_TOKENS
    ensures i + |PrintWords(ws)| <= |s|
    ensures ParseFrom(s, i, NOTHING, None) == ParseFrom(s, i + |PrintWords(ws)|, NOTHING.(argv := ws), None)
    decreases |ws|
  {
    hide StartsAt, ParseFrom, PrintWord;
    StartsAtSlice(s, i, PrintWords(ws));
    if ws != [] {
      var less, w := ws[..|ws| - 1], ws[|ws| - 1];
      StartsSplit(s, i, PrintWords(less), PrintWord(w));
      WordsParsed(s, i, less);
      WordParsed(s, i + |PrintWords(less)|, w, NOTHING.(argv := less), None);
      assert less + [w] == ws;
    }
  }

  lemma OperatorRead(s: seq<byte>, i: nat, k: nat, append: bool)
    requires k < 3 && StartsAt(s, i, Operator(k, append)) && !(k == 0 && append)
    requires var j := i + |Operator(k, append)|; j < |s| && s[j] in {BACKSLASH, QUOTE}
    ensures s[i] != SPACE
    ensures var next := i + |Operator(k, append)|;
            TokenAt(s, i) == Some(Token(None, if k == 0 then LESS else GREATER, append, k == 2, next))
  {
    hide StartsAt, WordFrom, QuotedFrom;
    var p := Operator(k, append);
    StartsAtSlice(s, i, p);
    assert s[i + 0] == p[0];
    assert |p| > 1 ==> s[i + 1] == p[1];
    assert |p| > 2 ==> s[i + 2] == p[2];
    if k == 2 {
      WordSteps(s, i, []);
      assert [] + [TWO] == [TWO];
      WordSteps(s, i + 1, [TWO]);
    }
  }

  // now, with c's redirection of file k; a < never appends.
  function WithRedir(now: Cmd, c: Cmd, k: nat): Cmd
    requires c.Valid() && now.Valid() && k < 3
  {
    if c.redir[k].None? then now
    else now.(redir := now.redir[k := c.redir[k]],
              append := if k == 0 then now.append else now.append[k := c.append[k]])
  }

  lemma RedirParsed(s: seq<byte>, i: nat, c: Cmd, k: nat, now: Cmd)
    requires c.Valid() && now.Valid() && k < 3 && StartsAt(s, i, PrintRedir(c, k)) && !c.append[0]
    ensures i + |PrintRedir(c, k)| <= |s|
    ensures ParseFrom(s, i, now, None) == ParseFrom(s, i + |PrintRedir(c, k)|, WithRedir(now, c, k), None)
  {
    hide StartsAt, TokenAt, ParseFrom, PrintWord, Operator;
    StartsAtSlice(s, i, PrintRedir(c, k));
    if c.redir[k].Some? {
      var op, w := Operator(k, c.append[k]), c.redir[k].value;
      StartsSplit(s, i, op, PrintWord(w));
      StartsAtSlice(s, i + |op|, PrintWord(w));
      assert s[i + |op| + 0] == PrintWord(w)[0];
      OperatorRead(s, i, k, c.append[k]);
      ParseSteps(s, i, now, None);
      WordParsed(s, i + |op|, w, if k == 0 then now else now.(append := now.append[k := c.append[k]]), Some(k));
    }
  }

  lemma AllRedirs(c: Cmd)
    requires Printable(c)
    ensures WithRedir(WithRedir(WithRedir(NOTHING.(argv := c.argv), c, 0), c, 1), c, 2) == c
  {
    hide WordOk;
    var all := WithRedir(WithRedir(WithRedir(NOTHING.(argv := c.argv), c, 0), c, 1), c, 2);
    assert all.redir == c.redir && all.append == c.append;
  }

  lemma CommandParsed(s: seq<byte>, i: nat, c: Cmd)
    requires Printable(c) && StartsAt(s, i, Print(c))
    ensures i + |Print(c)| <= |s| && ParseFrom(s, i, NOTHING, None) == ParseFrom(s, i + |Print(c)|, c, None)
  {
    hide StartsAt, ParseFrom, PrintWord, PrintWords, PrintRedir, WordOk;
    var r0, r1, r2 := PrintRedir(c, 0), PrintRedir(c, 1), PrintRedir(c, 2);
    StartsSplit(s, i, PrintWords(c.argv), r0 + (r1 + r2));
    WordsParsed(s, i, c.argv);
    var j := i + |PrintWords(c.argv)|;
    StartsSplit(s, j, r0, r1 + r2);
    StartsSplit(s, j + |r0|, r1, r2);
    var a := NOTHING.(argv := c.argv);
    RedirParsed(s, j, c, 0, a);
    RedirParsed(s, j + |r0|, c, 1, WithRedir(a, c, 0));
    RedirParsed(s, j + |r0| + |r1|, c, 2, WithRedir(WithRedir(a, c, 0), c, 1));
    AllRedirs(c);
  }

  // What should run: the commands in order, each reading what the one before it writes.
  function Stages(cs: seq<Cmd>, piped: bool): seq<Stage> {
    if cs == [] then []
    else [Stage(cs[0], piped, |cs| > 1)] + Stages(cs[1..], true)
  }

  lemma {:induction false} LineParsed(s: seq<byte>, i: nat, cs: seq<Cmd>, piped: bool)
    requires cs != [] && forall k :: 0 <= k < |cs| ==> cs[k].Valid() && Printable(cs[k])
    requires i <= |s| && s[i..] == PrintLine(cs)
    ensures RunFrom(s, i, piped) == Ran(Stages(cs, piped), false)
    decreases |cs|
  {
    hide StartsAt, ParseFrom, Print, TokenAt, WordOk;
    var c := cs[0];
    if |cs| == 1 {
      WholeIsThere(s, i, Print(c), []);
      CommandParsed(s, i, c);
      ParseSteps(s, |s|, c, None);
    } else {
      var rest := PrintLine(cs[1..]);
      WholeIsThere(s, i, Print(c), [BAR] + rest);
      CommandParsed(s, i, c);
      var j := i + |Print(c)|;
      BarRead(s, j, rest);
      ParseSteps(s, j, c, None);
      LineParsed(s, j + 1, cs[1..], true);
    }
  }

  lemma WholeIsThere(s: seq<byte>, i: nat, a: seq<byte>, b: seq<byte>)
    requires i <= |s| && s[i..] == a + b
    ensures StartsAt(s, i, a) && i + |a| <= |s| && s[i + |a|..] == b
  {
    assert s[i..i + |a|] == (a + b)[..|a|];
    assert s[i + |a|..] == (a + b)[|a|..];
  }

  lemma BarRead(s: seq<byte>, j: nat, rest: seq<byte>)
    requires j <= |s| && s[j..] == [BAR] + rest
    ensures j < |s| && s[j] == BAR && s[j + 1..] == rest && TokenAt(s, j) == Some(Token(None, BAR, false, false, j + 1))
  {
    hide WordFrom;
    assert s[j] == s[j..][0];
    assert s[j + 1..] == s[j..][1..];
  }

  // ----- Without the space -----

  function TightLine(w: seq<byte>, path: seq<byte>): seq<byte> {
    Quoted(w) + [GREATER] + PrintWord(path)
  }

  // The word with its output sent to path.
  function Redirected(argv: seq<seq<byte>>, k: nat, path: seq<byte>): Cmd
    requires k < 3
  {
    NOTHING.(argv := argv, redir := NOTHING.redir[k := Some(path)])
  }

  lemma {:induction false} TightLineParsed(w: seq<byte>, path: seq<byte>)
    ensures var line := TightLine(w, path);
            ParseFrom(line, 0, NOTHING, None) ==
            Parsed(if w == [TWO] then Redirected([], 2, path) else Redirected([w], 1, path), false, |line|)
  {
    hide StartsAt, TokenAt, ParseFrom, PrintWord, Quoted;
    var line := TightLine(w, path);
    var j := |Quoted(w)| + 1;
    WholeIsThere(line, 0, Quoted(w) + [GREATER], PrintWord(path));
    TightWordRead(line, 0, w);
    assert line[j] == line[j..][0];
    ParseSteps(line, 0, NOTHING, None);
    var now := if w == [TWO] then NOTHING else NOTHING.(argv := [w]);
    assert now.append[if w == [TWO] then 2 else 1 := false] == now.append;
    assert NOTHING.argv + [w] == [w];
    WholeIsThere(line, j, PrintWord(path), []);
    WordParsed(line, j, path, now, Some(if w == [TWO] then 2 else 1));
    ParseSteps(line, |line|, if w == [TWO] then Redirected([], 2, path) else Redirected([w], 1, path), None);
  }

  // A word printed without the space runs as meant exactly when it is not 2; that one is gone.
  lemma {:induction false} TightLineRunsAsMeant(w: seq<byte>, path: seq<byte>)
    ensures var ran := RunFrom(TightLine(w, path), 0, false);
            (ran == Ran(Stages([Redirected([w], 1, path)], false), false) <==> w != [TWO]) &&
            (w == [TWO] ==> ran == Ran([], false))
  {
    hide ParseFrom, TightLine;
    TightLineParsed(w, path);
  }

  // The input \2>f.
  lemma {:induction false} QuotedTwoIsLost()
    ensures ParseFrom([BACKSLASH, TWO, GREATER, 102], 0, NOTHING, None) == Parsed(Redirected([], 2, [102]), false, 4)
  {
    hide StartsAt, ParseFrom, WordFrom, QuotedFrom;
    var line := [BACKSLASH, TWO, GREATER, 102];
    assert StartsAt(line, 0, Quoted([TWO]) + [GREATER]) by {
      WholeIsThere(line, 0, Quoted([TWO]) + [GREATER], [102]);
    }
    TightWordRead(line, 0, [TWO]);
    ParseSteps(line, 0, NOTHING, None);
    assert NOTHING.append[2 := false] == NOTHING.append;
    WordSteps(line, 3, []);
    WordEnds(line, [102]);
    assert [] + [102] == [102];
    assert TokenAt(line, 3) == Some(Token(Some([102]), 0, false, false, 4));
    ParseSteps(line, 3, NOTHING, Some(2));
    ParseSteps(line, 4, Redirected([], 2, [102]), None);
  }

  // ----- The filter leaves it alone -----

  // Pairs of a backslash and anything, empty quotes, and what else is not special to the filter.
  predicate Passes(p: seq<byte>) {
    p == [] ||
    (|p| >= 2 && p[0] == BACKSLASH && Passes(p[2..])) ||
    (|p| >= 2 && p[0] == QUOTE && p[1] == QUOTE && Passes(p[2..])) ||
    (p[0] in {SPACE, LESS, GREATER, BAR, TWO} && Passes(p[1..]))
  }

  lemma {:induction false} PassTogether(a: seq<byte>, b: seq<byte>)
    requires Passes(a) && Passes(b)
    ensures Passes(a + b)
    decreases |a|
  {
    if a == [] {
      assert a + b == b;
    } else {
      var n := if a[0] == BACKSLASH || a[0] == QUOTE then 2 else 1;
      PassTogether(a[n..], b);
      assert (a + b)[n..] == a[n..] + b;
    }
  }

  lemma {:induction false} PairFiltered(s: seq<byte>, i: nat)
    requires i + 2 <= |s| && (s[i] == BACKSLASH || (s[i] == QUOTE && s[i + 1] == QUOTE))
    ensures var rest := Filtered(s, i + 2, false, false);
            Filtered(s, i, false, false) == ([s[i]] + ([s[i + 1]] + rest.0), rest.1)
  {
  }

  lemma {:induction false} PassesUnchanged(s: seq<byte>, i: nat, p: seq<byte>)
    requires i <= |s| && s[i..] == p && Passes(p)
    ensures Filtered(s, i, false, false).0 == p && Filtered(s, i, false, false).1 == |s|
    decreases |p|
  {
    if p != [] {
      assert s[i] == p[0];
      var n := if p[0] == BACKSLASH || p[0] == QUOTE then 2 else 1;
      assert s[i + n..] == s[i..][n..];
      PassesUnchanged(s, i + n, p[n..]);
      hide Passes, Filtered;
      if n == 2 {
        assert s[i + 1] == p[1];
        PairFiltered(s, i);
        assert p == [p[0]] + ([p[1]] + p[2..]);
      } else {
        FilterStep(s, i, false, false, []);
        assert p == [p[0]] + p[1..];
      }
    } else {
      assert i == |s|;
    }
  }

  lemma {:induction false} EscapedPasses(w: seq<byte>)
    ensures Passes(Escaped(w))
    decreases |w|
  {
    if w != [] {
      EscapedPasses(w[1..]);
      assert Escaped(w)[2..] == Escaped(w[1..]);
    }
  }

  lemma WordPasses(w: seq<byte>)
    ensures Passes(PrintWord(w))
  {
    EscapedPasses(w);
    assert Passes([SPACE]) && Passes([QUOTE, QUOTE]) by {
      assert [SPACE][1..] == [] && [QUOTE, QUOTE][2..] == [];
    }
    PassTogether(if w == [] then [QUOTE, QUOTE] else Escaped(w), [SPACE]);
  }

  lemma {:induction false} WordsPass(ws: seq<seq<byte>>)
    ensures Passes(PrintWords(ws))
    decreases |ws|
  {
    hide Passes, PrintWord;
    if ws != [] {
      WordsPass(ws[..|ws| - 1]);
      WordPasses(ws[|ws| - 1]);
      PassTogether(PrintWords(ws[..|ws| - 1]), PrintWord(ws[|ws| - 1]));
    } else {
      NothingPasses();
    }
  }

  lemma NothingPasses()
    ensures Passes([]) && Passes([BAR])
  {
    assert [BAR][1..] == [];
  }

  lemma {:induction false} OnePasses(b: byte)
    requires b in {LESS, GREATER, TWO}
    ensures Passes([b])
  {
    assert [b][1..] == [];
  }

  lemma {:induction false} OperatorPasses(k: nat, append: bool)
    requires k < 3
    ensures Passes(Operator(k, append))
  {
    hide Passes;
    OnePasses(LESS);
    OnePasses(GREATER);
    OnePasses(TWO);
    PassTogether([GREATER], [GREATER]);
    PassTogether([TWO], [GREATER]);
    PassTogether([TWO], [GREATER] + [GREATER]);
    assert [GREATER, GREATER] == [GREATER] + [GREATER];
    assert Operator(2, append) == [TWO] + Operator(1, append);
  }

  lemma RedirPasses(c: Cmd, k: nat)
    requires c.Valid() && k < 3
    ensures Passes(PrintRedir(c, k))
  {
    hide Passes, PrintWord, Operator;
    NothingPasses();
    if c.redir[k].Some? {
      OperatorPasses(k, c.append[k]);
      WordPasses(c.redir[k].value);
      PassTogether(Operator(k, c.append[k]), PrintWord(c.redir[k].value));
    }
  }

  lemma CommandPasses(c: Cmd)
    requires c.Valid()
    ensures Passes(Print(c))
  {
    hide Passes, PrintWords, PrintRedir;
    WordsPass(c.argv);
    RedirPasses(c, 0);
    RedirPasses(c, 1);
    RedirPasses(c, 2);
    PassTogether(PrintRedir(c, 1), PrintRedir(c, 2));
    PassTogether(PrintRedir(c, 0), PrintRedir(c, 1) + PrintRedir(c, 2));
    PassTogether(PrintWords(c.argv), PrintRedir(c, 0) + (PrintRedir(c, 1) + PrintRedir(c, 2)));
  }

  lemma {:induction false} LinePasses(cs: seq<Cmd>)
    requires forall k :: 0 <= k < |cs| ==> cs[k].Valid()
    ensures Passes(PrintLine(cs))
    decreases |cs|
  {
    hide Passes, Print;
    NothingPasses();
    if cs != [] {
      CommandPasses(cs[0]);
      if |cs| > 1 {
        LinePasses(cs[1..]);
        PassTogether([BAR], PrintLine(cs[1..]));
        PassTogether(Print(cs[0]), [BAR] + PrintLine(cs[1..]));
      }
    }
  }

  // ----- What is not in it -----

  lemma {:induction false} NotInEscaped(w: seq<byte>, b: byte)
    requires b !in w && b != BACKSLASH
    ensures b !in Escaped(w)
    decreases |w|
  {
    if w != [] {
      NotInEscaped(w[1..], b);
    }
  }

  lemma NotInWord(w: seq<byte>)
    requires WordOk(w)
    ensures WordOk(PrintWord(w))
  {
    NotInEscaped(w, 0);
    NotInEscaped(w, NL);
  }

  lemma {:induction false} NotInWords(ws: seq<seq<byte>>)
    requires forall k :: 0 <= k < |ws| ==> WordOk(ws[k])
    ensures WordOk(PrintWords(ws))
    decreases |ws|
  {
    hide PrintWord;
    if ws != [] {
      NotInWords(ws[..|ws| - 1]);
      NotInWord(ws[|ws| - 1]);
    }
  }

  lemma NotInCommand(c: Cmd)
    requires Printable(c)
    ensures WordOk(Print(c))
  {
    hide PrintWord, PrintWords;
    NotInWords(c.argv);
    forall k: nat | k < 3 ensures WordOk(PrintRedir(c, k)) {
      if c.redir[k].Some? {
        NotInWord(c.redir[k].value);
      }
    }
    assert WordOk(PrintRedir(c, 0)) && WordOk(PrintRedir(c, 1)) && WordOk(PrintRedir(c, 2));
  }

  lemma {:induction false} NotInLine(cs: seq<Cmd>)
    requires forall k :: 0 <= k < |cs| ==> cs[k].Valid() && Printable(cs[k])
    ensures WordOk(PrintLine(cs))
    decreases |cs|
  {
    hide Print, Printable;
    if cs != [] {
      NotInCommand(cs[0]);
      if |cs| > 1 {
        NotInLine(cs[1..]);
      }
    }
  }

  // ----- Through both stages -----

  const MAX_LINE: nat := 255

  // Any pipeline written down in at most 255 bytes comes out of the reader and the parser as it was.
  lemma PrintedRunsAsMeant(cs: seq<Cmd>, rest: seq<byte>)
    requires cs != [] && forall k :: 0 <= k < |cs| ==> cs[k].Valid() && Printable(cs[k])
    requires |PrintLine(cs)| <= 255
    ensures var line := PrintLine(cs);
            && Step(line + ([NL] + rest), false, MAX_LINE, true) == (Line(line), rest, false)
            && CStr(line) == line && RunFrom(line, 0, false) == Ran(Stages(cs, false), false)
  {
    hide Find, Filtered, RunFrom, PrintLine, Passes, Printable;
    var line := PrintLine(cs);
    NotInLine(cs);
    LinePasses(cs);
    assert line[0..] == line;
    PassesUnchanged(line, 0, line);
    FirstLine(line, rest);
    FindIs(line, 0, |line|);
    assert line[..|line|] == line;
    LineParsed(line, 0, cs, false);
  }
}
