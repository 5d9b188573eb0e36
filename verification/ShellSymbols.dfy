/**
  The characters that the parser borrows: it reads `@` as `||` and `$` as `&&`.  A line comes back as it
  was written exactly when no word holds one of them.
 */
module ShellSymbols {
  import opened Common
  import opened ShellLine
  import opened ShellParser
  import opened ShellText

  // ---------------------------------------------------------------- counting delimiters

  function Delims(cmds: seq<Entity>): nat {
    if cmds == [] then 0 else (if cmds[|cmds| - 1].Del? then 1 else 0) + Delims(cmds[..|cmds| - 1])
  }

  lemma {:induction false} DelimsConcat(a: seq<Entity>, b: seq<Entity>)
    ensures Delims(a + b) == Delims(a) + Delims(b)
  {
    if b == [] {
      assert a + b == a;
    } else {
      var n := |b| - 1;
      DelimsConcat(a, b[..n]);
      assert (a + b)[|a| + n] == b[n] && (a + b)[..|a| + n] == a + b[..n];
    }
  }

  lemma OneOrTwo(c: Command, d: string)
    ensures Delims([Cmd(c)]) == 0 && Delims([Del(d)]) == 1 && Delims([Cmd(c), Del(d)]) == 1
  {
    assert [Cmd(c)][..0] == [] && [Del(d)][..0] == [];
    assert [Cmd(c), Del(d)][..1] == [Cmd(c)];
  }

  lemma {:induction false} FirstCounts(s: string)
    ensures var k := FirstOf(s, SYMBOLS); Symbols(s) == if k == |s| then 0 else 1 + Symbols(s[k + 1..])
  {
    if s != [] {
      Characters(s[0]);
      if !Symbol(s[0]) {
        FirstCounts(s[1..]);
        var k := FirstOf(s[1..], SYMBOLS);
        assert k < |s| - 1 ==> s[1..][k + 1..] == s[k + 2..];
      }
    }
  }

  /** The list has as many delimiters as the encoded text has symbols. */
  lemma {:induction false} PiecesCount(s: string, acc: seq<Entity>)
    ensures Pieces(s, acc).Some? ==> Delims(Pieces(s, acc).value) == Delims(acc) + Symbols(s)
    decreases |s|
  {
    if s != [] {
      FirstCounts(s);
      var k := FirstOf(s, SYMBOLS);
      var c := Strip(Tokens(s[..k]), NoCommand);
      if c.Some? && k == |s| {
        OneOrTwo(c.value, "");
        DelimsConcat(acc, [Cmd(c.value)]);
      } else if c.Some? {
        var d := DelimText([s[k]]);
        OneOrTwo(c.value, d);
        DelimsConcat(acc, [Cmd(c.value), Del(d)]);
        PiecesCount(s[k + 1..], acc + [Cmd(c.value), Del(d)]);
      }
    }
  }

  lemma {:induction false} SameDelims(a: seq<Entity>, b: seq<Entity>)
    requires |a| == |b| && forall i :: 0 <= i < |a| ==> (a[i].Del? <==> b[i].Del?)
    ensures Delims(a) == Delims(b)
  {
    if a != [] { SameDelims(a[..|a| - 1], b[..|b| - 1]); }
  }

  lemma FinishCount(cmds: seq<Entity>)
    requires Finish(cmds).Parsed?
    ensures Delims(cmds) == Delims(Finish(cmds).cmds) + if Finish(cmds).background then 1 else 0
  {
    var ms, n := Marks(cmds), |cmds| - 1;
    SameDelims(cmds, ms);
    if cmds != [] {
      assert ms[n] == MarkedEntity(cmds, n);
    }
  }

  ghost function TextSymbols(ps: seq<Part>): nat
    requires GoodParts(ps)
  {
    if ps == [] then 0 else Symbols(TextOf(ps[0])) + TextSymbols(ps[1..])
  }

  lemma {:induction false} NoTextSymbols(ps: seq<Part>)
    requires GoodParts(ps)
    ensures TextSymbols(ps) == 0 <==> PlainParts(ps)
  {
    if ps != [] {
      TextPlain(ps[0]);
      NoTextSymbols(ps[1..]);
      assert PlainParts(ps) <==> PlainItems(ps[0].items) && PlainParts(ps[1..]) by {
        assert forall i :: 0 < i < |ps| ==> ps[i] == ps[1..][i - 1];
        assert forall i :: 0 <= i < |ps| - 1 ==> ps[1..][i] == ps[i + 1];
      }
    }
  }

  lemma ShownCount(d: string)
    requires d == "" || Known(d)
    ensures Symbols(Shown(2, d)) == if d == "" then 0 else 1
  {
    if d != "" {
      ShownDelim(d);
      var e := Shown(2, d);
      Characters(e[0]);
      assert e[1..] == [];
    }
  }

  /** The encoded text has one symbol for each operator, and those in the words. */
  lemma {:induction false} RenderedSymbols(ps: seq<Part>)
    requires GoodParts(ps)
    ensures Symbols(Rendered(ps, 2)) == TextSymbols(ps) + Delims(Entities(ps))
  {
    if ps != [] {
      var p, rest := ps[0], ps[1..];
      RenderedSymbols(rest);
      ShownCount(p.delim);
      SymbolsConcat(Shown(2, p.delim), Rendered(rest, 2));
      SymbolsConcat(TextOf(p), Shown(2, p.delim) + Rendered(rest, 2));
      EntitiesCount(ps);
    }
  }

  lemma EntitiesCount(ps: seq<Part>)
    requires ps != []
    ensures Delims(Entities(ps)) == (if ps[0].delim == "" then 0 else 1) + Delims(Entities(ps[1..]))
  {
    var c, d, es := CommandOf(ps[0].items), ps[0].delim, Entities(ps[1..]);
    OneOrTwo(c, d);
    if d == "" {
      assert Entities(ps) == [Cmd(c)] + es;
      DelimsConcat([Cmd(c)], es);
    } else {
      assert Entities(ps) == [Cmd(c), Del(d)] + es;
      DelimsConcat([Cmd(c), Del(d)], es);
    }
  }

  /** Of all lines that the parser can read, it gives back exactly those that use neither `@` nor `$`. */
  lemma GivenBackExactly(ps: seq<Part>)
    requires GoodParts(ps) && ParseLine(Rendered(ps, 0)).Parsed?
    ensures ParseLine(Rendered(ps, 0)) == Finish(Entities(ps)) <==> PlainParts(ps)
  {
    if PlainParts(ps) {
      ParsingUndoesWriting(ps);
    } else {
      EncodedRendered(ps);
      NoTextSymbols(ps);
      RenderedSymbols(ps);
      PiecesCount(Rendered(ps, 2), []);
      FinishCount(Pieces(Rendered(ps, 2), []).value);
      if Finish(Entities(ps)).Parsed? {
        FinishCount(Entities(ps));
      }
    }
  }

  /** Every symbol is read as an operator, and every operator is written as the symbol it is read from. */
  lemma OperatorsRoundTrip(d: string, c: char)
    ensures Known(d) ==> |Shown(2, d)| == 1 && Shown(2, d)[0] in SYMBOLS && DelimText(Shown(2, d)) == d
    ensures c in SYMBOLS ==> Known(DelimText([c])) && Shown(2, DelimText([c])) == [c]
  {
    Characters(c);
    if Known(d) { ShownDelim(d); }
    assert "|" == ['|'] && "&" == ['&'] && ";" == [';'] && "@" == ['@'] && "$" == ['$'];
    assert |"||"| == 2 && |"&&"| == 2;
  }

  // ---------------------------------------------------------------- replacing piece by piece

  lemma {:induction false} DoneStays(s: string, pat: string, to: string, done: string)
    requires pat != []
    ensures ReplacedFrom(s, pat, to, done) == done + ReplacedFrom(s, pat, to, [])
    decreases |s|
  {
    var k := Find(s, pat);
    if k >= 0 {
      var rest, more := s[k + |pat|..], s[..k] + to;
      DoneStays(rest, pat, to, done + more);
      DoneStays(rest, pat, to, more);
      Reassociate(done, s[..k], to);
      Reassociate(done, more, ReplacedFrom(rest, pat, to, []));
      assert [] + s[..k] == s[..k];
    } else {
      assert [] + s == s;
    }
  }

  /** A text can be replaced in two parts unless an occurrence lies across the cut. */
  lemma {:induction false} ReplacedInTwo(a: string, rest: string, c: char, to: string, done: string)
    requires a == [] || a[|a| - 1] != c || rest == [] || rest[0] != c
    ensures ReplacedFrom(a + rest, [c, c], to, done) == ReplacedFrom(rest, [c, c], to, ReplacedFrom(a, [c, c], to, done))
    decreases |a|
  {
    if a == [] {
      assert a + rest == rest && done + a == done;
    } else if [c, c] <= a {
      assert a == [c, c] + a[2..] && a + rest == [c, c] + (a[2..] + rest);
      ReplaceDouble(a[2..], c, to, done);
      ReplaceDouble(a[2..] + rest, c, to, done);
      ReplacedInTwo(a[2..], rest, c, to, done + to);
    } else if |a| > 1 {
      if [c, c] <= a + rest { DoubleIsEarlier(a, rest, c); }
      assert (a + rest)[1..] == a[1..] + rest;
      OneChar(a, [c, c], to, done);
      OneChar(a + rest, [c, c], to, done);
      ReplacedInTwo(a[1..], rest, c, to, done + [a[0]]);
    } else {
      assert a == [a[0]];
      LastOfFirst(a[0], rest, c, to, done);
    }
  }

  lemma LastOfFirst(x: char, rest: string, c: char, to: string, done: string)
    requires x != c || rest == [] || rest[0] != c
    ensures ReplacedFrom([x] + rest, [c, c], to, done) == ReplacedFrom(rest, [c, c], to, done + [x])
    ensures ReplacedFrom([x], [c, c], to, done) == done + [x]
  {
    if x == c {
      KeepSingle(rest, c, to, done);
    } else {
      SkipOthers([x], rest, c, to, done);
    }
    assert Find([x], [c, c]) == -1;
  }

  lemma DoubleIsEarlier(a: string, rest: string, c: char)
    requires |a| > 1 && [c, c] <= a + rest
    ensures [c, c] <= a
  {
  }

  // ---------------------------------------------------------------- two symbols side by side

  /** Two symbols without a command between them. */
  predicate Adjacent(s: string, i: nat, c: char, sym: char) {
    i + 1 < |s| && (s[i] == c || s[i] == sym) && (s[i + 1] == c || s[i + 1] == sym)
  }

  lemma AdjacentInResult(s: string, c: char, sym: char, done: string, i: nat)
    requires Adjacent(done, i, c, sym)
    ensures Adjacent(ReplacedFrom(s, [c, c], [sym], done), i, c, sym)
  {
    DoneStays(s, [c, c], [sym], done);
  }

  /** Behind a text that ends with half an operator, the borrowed character stands next to a symbol. */
  lemma {:induction false} SymbolBehind(a: string, b: string, c: char, sym: char, done: string) returns (i: nat)
    requires a != [] && a[|a| - 1] == c && c != sym
    ensures Adjacent(ReplacedFrom(a + ([sym] + b), [c, c], [sym], done), i, c, sym)
    decreases |a|
  {
    var s := a + ([sym] + b);
    if |a| <= 2 && (a == [c] || a == [c, c]) {
      var y := if a == [c] then c else sym;
      if a == [c] {
        LastOfFirst(c, [sym] + b, c, [sym], done);
      } else {
        ReplaceDouble([sym] + b, c, [sym], done);
      }
      LastOfFirst(sym, b, c, [sym], done + [y]);
      i := |done|;
      AdjacentInResult(b, c, sym, done + [y] + [sym], i);
    } else if [c, c] <= a {
      assert s == [c, c] + (a[2..] + ([sym] + b));
      ReplaceDouble(a[2..] + ([sym] + b), c, [sym], done);
      i := SymbolBehind(a[2..], b, c, sym, done + [sym]);
    } else {
      assert s[1..] == a[1..] + ([sym] + b) && s[0] == a[0];
      if [c, c] <= s { DoubleIsEarlier(a, [sym] + b, c); }
      OneChar(s, [c, c], [sym], done);
      i := SymbolBehind(a[1..], b, c, sym, done + [a[0]]);
    }
  }

  /** The same for the operator itself. */
  lemma {:induction false} OperatorBehind(a: string, b: string, c: char, sym: char, done: string) returns (i: nat)
    requires a != [] && a[|a| - 1] == c && c != sym
    ensures Adjacent(ReplacedFrom(a + ([c, c] + b), [c, c], [sym], done), i, c, sym)
    decreases |a|
  {
    var s := a + ([c, c] + b);
    if a == [c] {
      assert s == [c, c] + ([c] + b);
      ReplaceDouble([c] + b, c, [sym], done);
      i := HalfBehind(b, c, sym, done + [sym]);
    } else if a == [c, c] {
      ReplaceDouble([c, c] + b, c, [sym], done);
      ReplaceDouble(b, c, [sym], done + [sym]);
      i := |done|;
      AdjacentInResult(b, c, sym, done + [sym] + [sym], i);
    } else if [c, c] <= a {
      assert s == [c, c] + (a[2..] + ([c, c] + b));
      ReplaceDouble(a[2..] + ([c, c] + b), c, [sym], done);
      i := OperatorBehind(a[2..], b, c, sym, done + [sym]);
    } else {
      assert s[1..] == a[1..] + ([c, c] + b) && s[0] == a[0];
      if [c, c] <= s { DoubleIsEarlier(a, [c, c] + b, c); }
      OneChar(s, [c, c], [sym], done);
      i := OperatorBehind(a[1..], b, c, sym, done + [a[0]]);
    }
  }

  lemma HalfBehind(b: string, c: char, sym: char, done: string) returns (i: nat)
    requires done != [] && done[|done| - 1] == sym
    ensures Adjacent(ReplacedFrom([c] + b, [c, c], [sym], done), i, c, sym)
  {
    i := |done| - 1;
    if b != [] && b[0] == c {
      assert [c] + b == [c, c] + b[1..];
      ReplaceDouble(b[1..], c, [sym], done);
      AdjacentInResult(b[1..], c, sym, done + [sym], i);
    } else {
      LastOfFirst(c, b, c, [sym], done);
      AdjacentInResult(b, c, sym, done + [c], i);
    }
  }

  /** The borrowed character and the operator are replaced alike, or both next to another symbol. */
  lemma AlikeOrAdjacent(a: string, b: string, c: char, sym: char) returns (i: nat, j: nat)
    requires c != sym
    ensures var s, t := Replaced(a + ([sym] + b), [c, c], [sym]), Replaced(a + ([c, c] + b), [c, c], [sym]);
            s == t || (Adjacent(s, i, c, sym) && Adjacent(t, j, c, sym))
  {
    i, j := 0, 0;
    if a != [] && a[|a| - 1] == c {
      i := SymbolBehind(a, b, c, sym, []);
      j := OperatorBehind(a, b, c, sym, []);
    } else {
      var done := Replaced(a, [c, c], [sym]);
      ReplacedInTwo(a, [sym] + b, c, [sym], []);
      ReplacedInTwo(a, [c, c] + b, c, [sym], []);
      LastOfFirst(sym, b, c, [sym], done);
      ReplaceDouble(b, c, [sym], done);
    }
  }

  /** The second replacement keeps two symbols of the first side by side. */
  lemma AdjacentKept(s: string, i: nat) returns (j: nat)
    requires Adjacent(s, i, '|', '@')
    ensures Adjacent(Replaced(s, ['&', '&'], "$"), j, '|', '@')
  {
    var a, two, rest := s[..i], [s[i], s[i + 1]], s[i + 2..];
    assert s == a + (two + rest);
    ReplacedInTwo(a, two + rest, '&', "$", []);
    var done := Replaced(a, ['&', '&'], "$");
    SkipOthers(two, rest, '&', "$", done);
    DoneStays(rest, ['&', '&'], "$", done + two);
    j := |done|;
  }

  lemma {:induction false} FirstOfAtMost(s: string, chars: string, i: nat)
    requires i < |s| && s[i] in chars
    ensures FirstOf(s, chars) <= i
  {
    if s[0] !in chars { FirstOfAtMost(s[1..], chars, i - 1); }
  }

  lemma NothingBetween(s: string, acc: seq<Entity>)
    requires s != [] && s[0] in SYMBOLS
    ensures Pieces(s, acc).None?
  {
    assert FirstOf(s, SYMBOLS) == 0 && s[..0] == [];
    assert FirstOf([], BREAKS) == 0 && Tokens([]) == [];
  }

  /** Two symbols side by side leave a command without words. */
  lemma {:induction false} AdjacentUndefined(s: string, i: nat, c: char, sym: char, acc: seq<Entity>)
    requires Adjacent(s, i, c, sym) && Symbol(c) && Symbol(sym)
    ensures Pieces(s, acc).None?
    decreases |s|
  {
    Characters(s[i]);
    Characters(s[i + 1]);
    FirstOfAtMost(s, SYMBOLS, i);
    var k := FirstOf(s, SYMBOLS);
    var cmd := Strip(Tokens(s[..k]), NoCommand);
    if cmd.Some? {
      var acc' := acc + [Cmd(cmd.value), Del(DelimText([s[k]]))];
      if k < i {
        AdjacentUndefined(s[k + 1..], i - k - 1, c, sym, acc');
      } else {
        NothingBetween(s[k + 1..], acc');
      }
    }
  }

  // ---------------------------------------------------------------- the borrowed characters

  /** An `@` in a line is taken for `||`: the parser cannot tell them apart. */
  lemma AtSignIsOr(a: string, b: string)
    ensures ParseLine(a + (['@'] + b)) == ParseLine(a + (['|', '|'] + b))
  {
    assert "||" == ['|', '|'] && "@" == ['@'] && "&&" == ['&', '&'];
    var i, j := AlikeOrAdjacent(a, b, '|', '@');
    var s, t := Replaced(a + (['@'] + b), "||", "@"), Replaced(a + (['|', '|'] + b), "||", "@");
    if s != t {
      var i' := AdjacentKept(s, i);
      var j' := AdjacentKept(t, j);
      AdjacentUndefined(Replaced(s, "&&", "$"), i', '|', '@', []);
      AdjacentUndefined(Replaced(t, "&&", "$"), j', '|', '@', []);
    }
  }

  lemma FirstPassAround(a: string, x: string, b: string)
    requires x != [] && forall i :: 0 <= i < |x| ==> x[i] != '|'
    ensures Replaced(a + (x + b), ['|', '|'], "@") == Replaced(a, ['|', '|'], "@") + (x + Replaced(b, ['|', '|'], "@"))
  {
    var done := Replaced(a, ['|', '|'], "@");
    ReplacedInTwo(a, x + b, '|', "@", []);
    SkipOthers(x, b, '|', "@", done);
    DoneStays(b, ['|', '|'], "@", done + x);
    Reassociate(done, x, Replaced(b, ['|', '|'], "@"));
  }

  /** A `$` is taken for `&&`. */
  lemma DollarIsAnd(a: string, b: string)
    ensures ParseLine(a + (['$'] + b)) == ParseLine(a + (['&', '&'] + b))
  {
    assert "||" == ['|', '|'] && "$" == ['$'] && "&&" == ['&', '&'];
    FirstPassAround(a, ['$'], b);
    FirstPassAround(a, ['&', '&'], b);
    var a', b' := Replaced(a, "||", "@"), Replaced(b, "||", "@");
    var i, j := AlikeOrAdjacent(a', b', '&', '$');
    var s, t := Replaced(a' + (['$'] + b'), "&&", "$"), Replaced(a' + (['&', '&'] + b'), "&&", "$");
    if s != t {
      AdjacentUndefined(s, i, '&', '$', []);
      AdjacentUndefined(t, j, '&', '$', []);
    }
  }
}
