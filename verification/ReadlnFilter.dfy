/**
 What the shell's line filter lets through, stated on the line as a whole: it is made of single
 characters, escaped ones and quoted stretches, up to a comment, a semicolon or its end.
 */
module ReadlnFilter {
  import opened Bytes
  import opened Readln

  datatype Unit = Single(b: byte) | Escaped(b: byte) | Quoted(text: seq<byte>) {
    // Neither a quote, a backslash, # nor ; on its own, and no quote among the quoted.
    predicate Valid() {
      match this
      case Single(b) => b !in {34, 92, 35, 59}
      case Escaped(_) => true
      case Quoted(text) => 34 !in text
    }

    function Typed(): (s: seq<byte>)
      ensures s != []
    {
      match this
      case Single(b) => [b]
      case Escaped(b) => [92, b]
      case Quoted(text) => [34] + text + [34]
    }

    // A tab counts as a space unless it is quoted; a carriage return goes unless it is escaped.
    function Kept(): seq<byte> {
      match this
      case Single(b) => if b == 13 then [] else if b == 9 then [32] else [b]
      case Escaped(b) => [92, b]
      case Quoted(text) => [34] + NoReturns(text) + [34]
    }
  }

  function NoReturns(text: seq<byte>): seq<byte> {
    if text == [] then [] else (if text[0] == 13 then [] else [text[0]]) + NoReturns(text[1..])
  }

  ghost predicate AllUnits(us: seq<Unit>) {
    forall i :: 0 <= i < |us| ==> us[i].Valid()
  }

  function TypedAll(us: seq<Unit>): seq<byte> {
    if us == [] then [] else us[0].Typed() + TypedAll(us[1..])
  }

  function KeptAll(us: seq<Unit>): seq<byte> {
    if us == [] then [] else us[0].Kept() + KeptAll(us[1..])
  }

  // How the units end: with the line, at a comment or a semicolon, or in something left open.
  predicate Ends(rest: seq<byte>) {
    rest == [] || rest[0] in {35, 59} || rest == [92] || (rest[0] == 34 && 34 !in rest[1..])
  }

  // What comes through of the end, and how much of it is used up.
  function EndOf(rest: seq<byte>): (seq<byte>, nat)
    requires Ends(rest)
  {
    if rest == [] then ([], 0)
    else if rest[0] == 35 then ([], |rest|)
    else if rest[0] == 59 then ([], 1)
    else if rest == [92] then ([92], 1)
    else ([34] + NoReturns(rest[1..]), |rest|)
  }

  lemma {:induction false} Ahead(s: seq<byte>, i: nat, a: seq<byte>, rest: seq<byte>)
    requires i <= |s| && s[i..] == a + rest
    ensures i + |a| <= |s| && s[i + |a|..] == rest && forall k :: 0 <= k < |a| ==> s[i + k] == a[k]
  {
    assert s[i + |a|..] == s[i..][|a|..];
    forall k | 0 <= k < |a| ensures s[i + k] == a[k] {
      assert s[i + k] == s[i..][k];
    }
  }

  // Inside quotes.
  lemma {:induction false} InsideFiltered(s: seq<byte>, i: nat, t: seq<byte>, rest: seq<byte>)
    requires i <= |s| && s[i..] == t + rest && 34 !in t
    ensures i + |t| <= |s|
    ensures var f := Filtered(s, i + |t|, true, false);
            Filtered(s, i, true, false) == (NoReturns(t) + f.0, f.1)
    decreases |t|
  {
    hide Filtered;
    Ahead(s, i, t, rest);
    if t == [] {
      assert [] + Filtered(s, i, true, false).0 == Filtered(s, i, true, false).0;
    } else {
      assert s[i + 0] == t[0] && t[0] != 34;
      assert s[i + 1..] == t[1..] + rest;
      InsideFiltered(s, i + 1, t[1..], rest);
      OneFiltered(s, i, true);
      var f := Filtered(s, i + |t|, true, false);
      Glue(if t[0] == 13 then [] else [t[0]], NoReturns(t[1..]), f.0);
    }
  }

  // One character that is not escaped.
  lemma {:induction false} OneFiltered(s: seq<byte>, i: nat, quoted: bool)
    requires i < |s|
    ensures var ch, f := s[i], Filtered(s, i, quoted, false);
            if ch == 13 then f == (([] + Filtered(s, i + 1, quoted, false).0), Filtered(s, i + 1, quoted, false).1)
            else if !quoted && ch == 35 then f == ([], |s|)
            else if !quoted && ch == 59 then f == ([], i + 1)
            else
              var r := Filtered(s, i + 1, if ch == 34 then !quoted else quoted, ch == 92 && !quoted);
              f == ([if ch == 9 && !quoted then 32 else ch] + r.0, r.1)
  {
    assert [] + Filtered(s, i + 1, quoted, false).0 == Filtered(s, i + 1, quoted, false).0;
  }

  lemma {:induction false} EscapedFiltered(s: seq<byte>, i: nat)
    requires i < |s|
    ensures var r := Filtered(s, i + 1, false, false); Filtered(s, i, false, true) == ([s[i]] + r.0, r.1)
  {
  }

  lemma {:induction false} UnitFiltered(s: seq<byte>, i: nat, u: Unit, rest: seq<byte>)
    requires i <= |s| && s[i..] == u.Typed() + rest && u.Valid()
    ensures i + |u.Typed()| <= |s| && s[i + |u.Typed()|..] == rest
    ensures var f := Filtered(s, i + |u.Typed()|, false, false);
            Filtered(s, i, false, false) == (u.Kept() + f.0, f.1)
  {
    hide Filtered, NoReturns;
    var t := u.Typed();
    Ahead(s, i, t, rest);
    assert s[i + 0] == t[0];
    OneFiltered(s, i, false);
    var f := Filtered(s, i + |t|, false, false);
    match u
    case Single(b) =>
    case Escaped(b) =>
      assert s[i + 1] == t[1];
      EscapedFiltered(s, i + 1);
      assert [92] + ([b] + f.0) == [92, b] + f.0;
    case Quoted(text) =>
      assert s[i + 1..] == text + ([34] + rest);
      InsideFiltered(s, i + 1, text, [34] + rest);
      assert s[i + (|text| + 1)] == t[|text| + 1] == 34;
      OneFiltered(s, i + 1 + |text|, true);
      assert [34] + (NoReturns(text) + ([34] + f.0)) == [34] + NoReturns(text) + [34] + f.0;
  }

  lemma {:induction false} UnitsFiltered(s: seq<byte>, i: nat, us: seq<Unit>, rest: seq<byte>)
    requires i <= |s| && s[i..] == TypedAll(us) + rest && AllUnits(us)
    ensures i + |TypedAll(us)| <= |s| && s[i + |TypedAll(us)|..] == rest
    ensures var f := Filtered(s, i + |TypedAll(us)|, false, false);
            Filtered(s, i, false, false) == (KeptAll(us) + f.0, f.1)
    decreases |us|
  {
    hide Filtered, Unit.Typed, Unit.Kept, Unit.Valid;
    if us == [] {
      assert s[i..] == [] + rest == rest;
      assert [] + Filtered(s, i, false, false).0 == Filtered(s, i, false, false).0;
    } else {
      var u, more := us[0], TypedAll(us[1..]);
      assert u.Valid();
      Glue(u.Typed(), more, rest);
      UnitFiltered(s, i, u, more + rest);
      UnitsFiltered(s, i + |u.Typed()|, us[1..], rest);
      Glue(u.Kept(), KeptAll(us[1..]), Filtered(s, i + |TypedAll(us)|, false, false).0);
    }
  }

  lemma {:induction false} EndFiltered(s: seq<byte>, i: nat, rest: seq<byte>)
    requires i <= |s| && s[i..] == rest && Ends(rest)
    ensures Filtered(s, i, false, false) == (EndOf(rest).0, i + EndOf(rest).1)
  {
    hide NoReturns;
    NothingFiltered(s);
    if rest != [] {
      hide Filtered;
      assert s[i] == s[i..][0];
      OneFiltered(s, i, false);
      if rest == [92] {
        assert [92] + [] == [92];
      } else if rest[0] == 34 {
        assert s[i + 1..] == rest[1..] == rest[1..] + [];
        InsideFiltered(s, i + 1, rest[1..], []);
        assert NoReturns(rest[1..]) + [] == NoReturns(rest[1..]);
      }
    }
  }

  lemma NothingFiltered(s: seq<byte>)
    ensures forall quoted, escaped :: Filtered(s, |s|, quoted, escaped) == ([], |s|)
  {
  }

  lemma {:induction false} OneMoreUnit(u: Unit, us: seq<Unit>, rest: seq<byte>)
    requires u.Valid() && AllUnits(us)
    ensures AllUnits([u] + us) && TypedAll([u] + us) + rest == u.Typed() + (TypedAll(us) + rest)
  {
    hide Unit.Typed, Unit.Valid;
    assert ([u] + us)[1..] == us;
    Glue(u.Typed(), TypedAll(us), rest);
  }

  lemma {:induction false} UnitAtFront(s: seq<byte>) returns (u: Unit, rest: seq<byte>)
    requires !Ends(s)
    ensures u.Valid() && s == u.Typed() + rest && |rest| < |s|
  {
    if s[0] == 92 {
      u := Escaped(s[1]);
    } else if s[0] == 34 {
      var n := Find(s[1..], 34);
      u := Quoted(s[1..][..n]);
      assert s[1 + n] == 34 && s[..n + 2] == [s[0]] + s[1..][..n] + [s[1 + n]];
    } else {
      u := Single(s[0]);
    }
    rest := s[|u.Typed()|..];
  }

  lemma {:induction false} UnitsOf(s: seq<byte>) returns (us: seq<Unit>, rest: seq<byte>)
    ensures AllUnits(us) && s == TypedAll(us) + rest && Ends(rest)
    decreases |s|
  {
    hide Ends, Unit.Typed, Unit.Valid;
    if Ends(s) {
      us, rest := [], s;
      assert s == TypedAll([]) + s;
    } else {
      var u, more := UnitAtFront(s);
      us, rest := UnitsOf(more);
      OneMoreUnit(u, us, rest);
      us := [u] + us;
    }
  }

  // Any line: what comes through is what its units keep, and what its end does.
  lemma {:induction false} EveryLineFiltered(s: seq<byte>) returns (us: seq<Unit>, rest: seq<byte>)
    ensures AllUnits(us) && s == TypedAll(us) + rest && Ends(rest)
    ensures Filtered(s, 0, false, false) == (KeptAll(us) + EndOf(rest).0, |TypedAll(us)| + EndOf(rest).1)
  {
    hide Filtered, TypedAll, KeptAll, Ends, EndOf;
    us, rest := UnitsOf(s);
    assert s[0..] == s;
    UnitsFiltered(s, 0, us, rest);
    EndFiltered(s, |TypedAll(us)|, rest);
  }

  // And any such units, not only those that were found.
  lemma {:induction false} LineFiltered(us: seq<Unit>, rest: seq<byte>)
    requires AllUnits(us) && Ends(rest)
    ensures Filtered(TypedAll(us) + rest, 0, false, false) ==
            (KeptAll(us) + EndOf(rest).0, |TypedAll(us)| + EndOf(rest).1)
  {
    hide Filtered, TypedAll, KeptAll, Ends, EndOf;
    var s := TypedAll(us) + rest;
    assert s[0..] == s;
    UnitsFiltered(s, 0, us, rest);
    EndFiltered(s, |TypedAll(us)|, rest);
  }
}
