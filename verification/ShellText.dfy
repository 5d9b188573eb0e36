/**
  Lines as they are written, and what the parser makes of them: whatever blanks are chosen, parsing gives
  back the commands, the redirections and the operators.
 */
module ShellText {
  import opened Common
  import opened ShellLine
  import opened ShellParser
  import opened ShellRun

  /** The characters of the operators. */
  predicate OperatorChar(c: char) {
    c == '|' || c == '&' || c == ';'
  }

  /** These and the two characters that the parser borrows. */
  predicate Symbol(c: char) {
    OperatorChar(c) || c == '@' || c == '$'
  }

  predicate Sign(c: char) {
    c == '<' || c == '>'
  }

  predicate BlankChar(c: char) {
    c == ' ' || c == '\t' || c == '\r' || c == '\n' || c == '\U{0B}' || c == '\U{0C}'
  }

  lemma Characters(c: char)
    ensures c in SYMBOLS <==> Symbol(c)
    ensures c in BREAKS <==> Sign(c) || BlankChar(c)
    ensures Redirection([c]) <==> Sign(c)
  {
  }

  predicate Blank(s: string) {
    forall i :: 0 <= i < |s| ==> BlankChar(s[i])
  }

  /** A word without operators, redirection signs and blanks. */
  predicate Writable(w: string) {
    w != [] && forall i :: 0 <= i < |w| ==> !OperatorChar(w[i]) && !Sign(w[i]) && !BlankChar(w[i])
  }

  /** A word without the borrowed characters as well. */
  predicate Plain(w: string) {
    Writable(w) && NoSymbols(w)
  }

  predicate NoOperators(s: string) {
    forall i :: 0 <= i < |s| ==> !OperatorChar(s[i])
  }

  predicate NoSymbols(s: string) {
    forall i :: 0 <= i < |s| ==> !Symbol(s[i])
  }

  // ---------------------------------------------------------------- one command

  datatype Item = Word(text: string) | From(text: string) | To(text: string)

  function ItemTokens(items: seq<Item>): seq<string> {
    if items == [] then [] else OneTokens(items[0]) + ItemTokens(items[1..])
  }

  function OneTokens(item: Item): seq<string> {
    match item
    case Word(w) => [w]
    case From(f) => ["<", f]
    case To(f) => [">", f]
  }

  function WordsOf(items: seq<Item>): seq<string> {
    if items == [] then []
    else (if items[0].Word? then [items[0].text] else []) + WordsOf(items[1..])
  }

  /** The last file that a redirection of the input names. */
  function LastFrom(items: seq<Item>, none: string): string {
    if items == [] then none else LastFrom(items[1..], if items[0].From? then items[0].text else none)
  }

  function LastTo(items: seq<Item>, none: string): string {
    if items == [] then none else LastTo(items[1..], if items[0].To? then items[0].text else none)
  }

  function CommandOf(items: seq<Item>): Command {
    Command(WordsOf(items), LastFrom(items, ""), LastTo(items, ""))
  }

  predicate PlainItems(items: seq<Item>) {
    forall i :: 0 <= i < |items| ==> Plain(items[i].text)
  }

  predicate WritableItems(items: seq<Item>) {
    forall i :: 0 <= i < |items| ==> Writable(items[i].text)
  }

  lemma WordIsNoSign(w: string)
    requires Writable(w)
    ensures !Redirection(w)
  {
    assert !Sign(w[0]);
  }

  function Took(item: Item, c: Command): Command {
    match item
    case Word(w) => c.(words := c.words + [w])
    case From(f) => c.(infile := f)
    case To(f) => c.(outfile := f)
  }

  lemma StripOne(item: Item, rest: seq<string>, c: Command)
    requires Writable(item.text)
    ensures Strip(OneTokens(item) + rest, c) == Strip(rest, Took(item, c))
  {
    var ts := OneTokens(item) + rest;
    if item.Word? {
      WordIsNoSign(item.text);
      assert ts[0] == item.text && ts[1..] == rest;
    } else {
      assert "<"[0] != ">"[0];
      assert ts[0] == OneTokens(item)[0] && ts[1] == item.text && ts[2..] == rest;
    }
  }

  /** The command that is reached behind some items. */
  function Reached(items: seq<Item>, c: Command): Command {
    Command(c.words + WordsOf(items), LastFrom(items, c.infile), LastTo(items, c.outfile))
  }

  lemma ReachedOne(items: seq<Item>, c: Command)
    requires items != []
    ensures Reached(items[1..], Took(items[0], c)) == Reached(items, c)
  {
    var own := if items[0].Word? then [items[0].text] else [];
    Reassociate(c.words, own, WordsOf(items[1..]));
    assert c.words + own == Took(items[0], c).words;
  }

  lemma {:induction false} StripItems(items: seq<Item>, c: Command)
    requires WritableItems(items)
    ensures Strip(ItemTokens(items), c) ==
            var reached := Reached(items, c);
            if reached.words == [] then None else Some(reached)
    decreases |items|
  {
    if items == [] {
      assert c.words + WordsOf(items) == c.words;
    } else {
      StripOne(items[0], ItemTokens(items[1..]), c);
      StripItems(items[1..], Took(items[0], c));
      ReachedOne(items, c);
    }
  }

  // ---------------------------------------------------------------- blanks

  /** Tokens with blanks before each of them and at the end. */
  function Spaced(tokens: seq<string>, gaps: seq<string>): string
    requires |gaps| == |tokens| + 1
  {
    if tokens == [] then gaps[0] else gaps[0] + tokens[0] + Spaced(tokens[1..], gaps[1..])
  }

  predicate Token(t: string) {
    t == "<" || t == ">" || Writable(t)
  }

  /** Two words need a blank between them; around `<` and `>` there may be none. */
  predicate Apart(tokens: seq<string>, gaps: seq<string>) {
    && |gaps| == |tokens| + 1
    && (forall i :: 0 <= i < |tokens| ==> Token(tokens[i]))
    && (forall i :: 0 <= i < |gaps| ==> Blank(gaps[i]))
    && (forall i :: 0 < i < |tokens| && gaps[i] == [] ==> Redirection(tokens[i - 1]) || Redirection(tokens[i]))
  }

  lemma {:induction false} SkipBlank(g: string, rest: string, parts: seq<string>)
    requires Blank(g)
    ensures TokensFrom(g + rest, parts) == TokensFrom(rest, parts)
    decreases |g|
  {
    if g == [] {
      assert g + rest == rest;
    } else {
      var s := g + rest;
      Characters(g[0]);
      assert s[0] == g[0] && s[1..] == g[1..] + rest;
      assert FirstOf(s, BREAKS) == 0;
      assert parts + Lead(s, 0) == parts;
      SkipBlank(g[1..], rest, parts);
    }
  }

  lemma SignRead(t: string, rest: string, parts: seq<string>)
    requires Redirection(t)
    ensures TokensFrom(t + rest, parts) == TokensFrom(rest, parts + [t])
  {
    var s := t + rest;
    assert t == [t[0]];
    Characters(t[0]);
    assert s[0] == t[0] && s[1..] == rest;
    assert FirstOf(s, BREAKS) == 0;
    assert Lead(s, 0) == [t];
  }

  lemma {:induction false} FirstOfPlain(t: string, rest: string, chars: string)
    requires forall i :: 0 <= i < |t| ==> t[i] !in chars
    requires rest == [] || rest[0] in chars
    ensures FirstOf(t + rest, chars) == |t|
  {
    var s := t + rest;
    if t == [] {
      assert s == rest;
    } else {
      assert s[0] == t[0] && s[1..] == t[1..] + rest;
      FirstOfPlain(t[1..], rest, chars);
    }
  }

  lemma WordRead(t: string, rest: string, parts: seq<string>)
    requires Writable(t) && (rest == [] || rest[0] in BREAKS)
    ensures TokensFrom(t + rest, parts) == TokensFrom(rest, parts + [t])
  {
    var s := t + rest;
    forall i | 0 <= i < |t|
      ensures t[i] !in BREAKS
    {
      Characters(t[i]);
    }
    FirstOfPlain(t, rest, BREAKS);
    if rest == [] {
      assert s == t;
      assert FirstOf(rest, BREAKS) == 0;
    } else {
      assert s[..|t|] == t && s[|t|] == rest[0] && s[|t| + 1..] == rest[1..];
      assert FirstOf(rest, BREAKS) == 0;
      assert parts + Lead(s, |t|) == parts + [t] + Lead(rest, 0);
    }
  }

  /** What follows a word in a laid out text ends the word. */
  lemma RestBreaks(tokens: seq<string>, gaps: seq<string>)
    requires Apart(tokens, gaps) && (gaps[0] == [] && tokens != [] ==> Redirection(tokens[0]))
    ensures var s := Spaced(tokens, gaps); s == [] || s[0] in BREAKS
  {
  }

  lemma TokenRead(tokens: seq<string>, gaps: seq<string>, parts: seq<string>)
    requires Apart(tokens, gaps) && tokens != []
    ensures TokensFrom(Spaced(tokens, gaps), parts) == TokensFrom(Spaced(tokens[1..], gaps[1..]), parts + [tokens[0]])
  {
    var t, rest := tokens[0], Spaced(tokens[1..], gaps[1..]);
    assert Spaced(tokens, gaps) == gaps[0] + (t + rest);
    SkipBlank(gaps[0], t + rest, parts);
    ApartRest(tokens, gaps);
    if Redirection(t) {
      SignRead(t, rest, parts);
    } else {
      RestBreaks(tokens[1..], gaps[1..]);
      WordRead(t, rest, parts);
    }
  }

  lemma BlankRead(g: string, parts: seq<string>)
    requires Blank(g)
    ensures TokensFrom(g, parts) == parts
  {
  }

  lemma HeadBack<T>(a: seq<T>, b: seq<T>)
    requires b != []
    ensures a + [b[0]] + b[1..] == a + b
  {
  }

  lemma {:induction false} SpacedReads(tokens: seq<string>, gaps: seq<string>, parts: seq<string>)
    requires Apart(tokens, gaps)
    ensures TokensFrom(Spaced(tokens, gaps), parts) == parts + tokens
    decreases |tokens|
  {
    if tokens == [] {
      BlankRead(gaps[0], parts);
      assert parts + tokens == parts;
    } else {
      TokenRead(tokens, gaps, parts);
      ApartRest(tokens, gaps);
      SpacedReads(tokens[1..], gaps[1..], parts + [tokens[0]]);
      HeadBack(parts, tokens);
    }
  }

  lemma ApartRest(tokens: seq<string>, gaps: seq<string>)
    requires Apart(tokens, gaps) && tokens != []
    ensures Apart(tokens[1..], gaps[1..])
    ensures !Redirection(tokens[0]) && |tokens| > 1 && gaps[1] == [] ==> Redirection(tokens[1])
  {
  }

  // ---------------------------------------------------------------- lines

  /** A command, the blanks around its tokens, and the operator behind it, if there is one. */
  datatype Part = Part(items: seq<Item>, gaps: seq<string>, delim: string)

  ghost predicate GoodPart(p: Part) {
    && WritableItems(p.items) && WordsOf(p.items) != [] && Apart(ItemTokens(p.items), p.gaps)
    && (p.delim == "" || Known(p.delim))
  }

  /** Only the last command may have no operator behind it. */
  ghost predicate GoodParts(ps: seq<Part>) {
    && (forall i :: 0 <= i < |ps| ==> GoodPart(ps[i]))
    && (forall i :: 0 <= i < |ps| - 1 ==> ps[i].delim != "")
  }

  ghost predicate PlainParts(ps: seq<Part>) {
    forall i :: 0 <= i < |ps| ==> PlainItems(ps[i].items)
  }

  /** How an operator looks after none, one and both replacements. */
  function Shown(level: nat, d: string): string {
    if level >= 1 && d == "||" then "@" else if level >= 2 && d == "&&" then "$" else d
  }

  ghost function TextOf(p: Part): string
    requires GoodPart(p)
  {
    Spaced(ItemTokens(p.items), p.gaps)
  }

  ghost function Rendered(ps: seq<Part>, level: nat): string
    requires GoodParts(ps)
  {
    if ps == [] then [] else TextOf(ps[0]) + (Shown(level, ps[0].delim) + Rendered(ps[1..], level))
  }

  function Entities(ps: seq<Part>): seq<Entity> {
    if ps == [] then []
    else [Cmd(CommandOf(ps[0].items))] + (if ps[0].delim == "" then [] else [Del(ps[0].delim)]) + Entities(ps[1..])
  }

  lemma {:induction false} SpacedClean(tokens: seq<string>, gaps: seq<string>)
    requires Apart(tokens, gaps)
    ensures NoOperators(Spaced(tokens, gaps)) && (tokens != [] ==> Spaced(tokens, gaps) != [])
    decreases |tokens|
  {
    if tokens != [] {
      ApartRest(tokens, gaps);
      SpacedClean(tokens[1..], gaps[1..]);
      var t := tokens[0];
      assert t != [];
      assert NoOperators(t) by {
        assert "<" == ['<'] && ">" == ['>'];
      }
    }
  }

  lemma {:induction false} ItemsHaveTokens(items: seq<Item>)
    requires items != []
    ensures ItemTokens(items) != []
  {
  }

  lemma TextClean(p: Part)
    requires GoodPart(p)
    ensures NoOperators(TextOf(p)) && TextOf(p) != []
  {
    SpacedClean(ItemTokens(p.items), p.gaps);
    ItemsHaveTokens(p.items);
  }

  /** The text after an operator starts with something that is not an operator. */
  lemma RestClean(ps: seq<Part>, level: nat)
    requires GoodParts(ps)
    ensures var s := Rendered(ps, level); s == [] || !OperatorChar(s[0])
  {
    if ps != [] {
      TextClean(ps[0]);
      assert Rendered(ps, level)[0] == TextOf(ps[0])[0];
    }
  }

  // ---------------------------------------------------------------- counting operators

  function Symbols(s: string): nat {
    if s == [] then 0 else (if Symbol(s[0]) then 1 else 0) + Symbols(s[1..])
  }

  lemma {:induction false} SymbolsConcat(a: string, b: string)
    ensures Symbols(a + b) == Symbols(a) + Symbols(b)
  {
    if a == [] {
      assert a + b == b;
    } else {
      SymbolsConcat(a[1..], b);
      assert (a + b)[0] == a[0] && (a + b)[1..] == a[1..] + b;
    }
  }

  lemma {:induction false} NoneCounted(s: string)
    ensures Symbols(s) == 0 <==> NoSymbols(s)
  {
    if s != [] {
      NoneCounted(s[1..]);
      if NoSymbols(s[1..]) && !Symbol(s[0]) {
        assert forall i :: 0 < i < |s| ==> s[i] == s[1..][i - 1];
      }
      if NoSymbols(s) {
        assert forall i :: 0 <= i < |s| - 1 ==> s[1..][i] == s[i + 1];
      }
    }
  }

  function TokenSymbols(tokens: seq<string>): nat {
    if tokens == [] then 0 else Symbols(tokens[0]) + TokenSymbols(tokens[1..])
  }

  lemma BlankHasNone(g: string)
    requires Blank(g)
    ensures Symbols(g) == 0
  {
    NoneCounted(g);
  }

  lemma {:induction false} SpacedSymbols(tokens: seq<string>, gaps: seq<string>)
    requires Apart(tokens, gaps)
    ensures Symbols(Spaced(tokens, gaps)) == TokenSymbols(tokens)
    decreases |tokens|
  {
    BlankHasNone(gaps[0]);
    if tokens != [] {
      ApartRest(tokens, gaps);
      SpacedSymbols(tokens[1..], gaps[1..]);
      SymbolsConcat(gaps[0], tokens[0]);
      SymbolsConcat(gaps[0] + tokens[0], Spaced(tokens[1..], gaps[1..]));
    }
  }

  lemma {:induction false} ItemSymbols(items: seq<Item>)
    requires WritableItems(items)
    ensures TokenSymbols(ItemTokens(items)) == 0 <==> PlainItems(items)
    decreases |items|
  {
    if items != [] {
      var rest := items[1..];
      ItemSymbols(rest);
      NoneCounted(items[0].text);
      TokensOfOne(items[0], ItemTokens(rest));
      assert PlainItems(items) <==> Plain(items[0].text) && PlainItems(rest) by {
        assert forall i :: 0 <= i < |rest| ==> rest[i] == items[i + 1];
        assert forall i :: 0 < i < |items| ==> items[i] == rest[i - 1];
      }
    }
  }

  lemma TokensOfOne(item: Item, rest: seq<string>)
    ensures TokenSymbols(OneTokens(item) + rest) == Symbols(item.text) + TokenSymbols(rest)
  {
    var ts := OneTokens(item) + rest;
    NoneCounted("<");
    NoneCounted(">");
    if item.Word? {
      assert ts[1..] == rest;
    } else {
      assert ts[1..][1..] == rest && ts[1..][0] == item.text;
    }
  }

  lemma TextPlain(p: Part)
    requires GoodPart(p)
    ensures Symbols(TextOf(p)) == 0 <==> PlainItems(p.items)
    ensures PlainItems(p.items) ==> NoSymbols(TextOf(p))
  {
    SpacedSymbols(ItemTokens(p.items), p.gaps);
    ItemSymbols(p.items);
    NoneCounted(TextOf(p));
  }

  // ---------------------------------------------------------------- the replacements

  lemma {:induction false} SkipOthers(t: string, rest: string, c: char, to: string, done: string)
    requires forall i :: 0 <= i < |t| ==> t[i] != c
    ensures ReplacedFrom(t + rest, [c, c], to, done) == ReplacedFrom(rest, [c, c], to, done + t)
    decreases |t|
  {
    if t == [] {
      assert t + rest == rest && done + t == done;
    } else {
      var s := t + rest;
      assert s[0] == t[0] && s[1..] == t[1..] + rest;
      assert done + [t[0]] + t[1..] == done + t;
      OneChar(s, [c, c], to, done);
      SkipOthers(t[1..], rest, c, to, done + [t[0]]);
    }
  }

  lemma ReplaceDouble(rest: string, c: char, to: string, done: string)
    ensures ReplacedFrom([c, c] + rest, [c, c], to, done) == ReplacedFrom(rest, [c, c], to, done + to)
  {
    var s := [c, c] + rest;
    assert Find(s, [c, c]) == 0 && s[2..] == rest && done + s[..0] == done;
  }

  lemma KeepSingle(rest: string, c: char, to: string, done: string)
    requires rest == [] || rest[0] != c
    ensures ReplacedFrom([c] + rest, [c, c], to, done) == ReplacedFrom(rest, [c, c], to, done + [c])
  {
    var s := [c] + rest;
    assert s[1..] == rest && (rest != [] ==> s[1] == rest[0]);
    OneChar(s, [c, c], to, done);
  }

  /** The first replacement is of `||`, the second of `&&`. */
  function Doubled(level: nat): char {
    if level == 0 then '|' else '&'
  }

  function Single(level: nat): string {
    if level == 0 then "@" else "$"
  }

  lemma DelimReplaced(level: nat, d: string, rest: string, done: string)
    requires level < 2 && (d == "" || Known(d)) && (rest == [] || !OperatorChar(rest[0]))
    ensures var c := Doubled(level);
            ReplacedFrom(Shown(level, d) + rest, [c, c], Single(level), done) ==
            ReplacedFrom(rest, [c, c], Single(level), done + Shown(level + 1, d))
  {
    var c := Doubled(level);
    var e := Shown(level, d);
    assert "||" == ['|', '|'] && "&&" == ['&', '&'] && "|" == ['|'] && "&" == ['&'] && ";" == [';'] && "@" == ['@'];
    if e == [c, c] {
      ReplaceDouble(rest, c, Single(level), done);
    } else if e == [c] {
      KeepSingle(rest, c, Single(level), done);
    } else {
      SkipOthers(e, rest, c, Single(level), done);
    }
  }

  lemma {:induction false} ReplacedRendered(ps: seq<Part>, level: nat, done: string)
    requires GoodParts(ps) && level < 2
    ensures ReplacedFrom(Rendered(ps, level), [Doubled(level), Doubled(level)], Single(level), done)
         == done + Rendered(ps, level + 1)
    decreases |ps|
  {
    if ps == [] {
      assert done + [] == done;
    } else {
      var c, t, d := Doubled(level), TextOf(ps[0]), ps[0].delim;
      var rest := Rendered(ps[1..], level);
      TextClean(ps[0]);
      RestClean(ps[1..], level);
      SkipOthers(t, Shown(level, d) + rest, c, Single(level), done);
      DelimReplaced(level, d, rest, done + t);
      ReplacedRendered(ps[1..], level, done + t + Shown(level + 1, d));
      Regroup(done, t, Shown(level + 1, d), Rendered(ps[1..], level + 1));
    }
  }

  lemma AllReplaced(ps: seq<Part>, level: nat, next: nat, sign: string, mark: string)
    requires GoodParts(ps) && level < 2 && next == level + 1
    requires sign == [Doubled(level), Doubled(level)] && mark == Single(level)
    ensures Replaced(Rendered(ps, level), sign, mark) == Rendered(ps, next)
  {
    ReplacedRendered(ps, level, []);
    assert [] + Rendered(ps, level + 1) == Rendered(ps, level + 1);
  }

  lemma FirstReplaced(ps: seq<Part>)
    requires GoodParts(ps)
    ensures Replaced(Rendered(ps, 0), "||", "@") == Rendered(ps, 1)
  {
    AllReplaced(ps, 0, 1, "||", "@");
  }

  lemma SecondReplaced(ps: seq<Part>)
    requires GoodParts(ps)
    ensures Replaced(Rendered(ps, 1), "&&", "$") == Rendered(ps, 2)
  {
    AllReplaced(ps, 1, 2, "&&", "$");
  }

  lemma EncodedRendered(ps: seq<Part>)
    requires GoodParts(ps)
    ensures Encoded(Rendered(ps, 0)) == Rendered(ps, 2)
  {
    FirstReplaced(ps);
    SecondReplaced(ps);
  }

  // ---------------------------------------------------------------- cutting the line

  lemma CommandRead(p: Part)
    requires GoodPart(p)
    ensures Strip(Tokens(TextOf(p)), NoCommand) == Some(CommandOf(p.items))
  {
    var ts := ItemTokens(p.items);
    SpacedReads(ts, p.gaps, []);
    assert [] + ts == ts;
    StripItems(p.items, NoCommand);
    assert [] + WordsOf(p.items) == WordsOf(p.items);
  }

  lemma ShownDelim(d: string)
    requires Known(d)
    ensures var e := Shown(2, d); |e| == 1 && e[0] in SYMBOLS && DelimText(e) == d
  {
  }

  lemma TextEnds(t: string, rest: string)
    requires NoSymbols(t) && (rest == [] || rest[0] in SYMBOLS)
    ensures FirstOf(t + rest, SYMBOLS) == |t|
  {
    forall i | 0 <= i < |t|
      ensures t[i] !in SYMBOLS
    {
      Characters(t[i]);
    }
    FirstOfPlain(t, rest, SYMBOLS);
  }

  lemma PartRead(p: Part, rest: string, acc: seq<Entity>)
    requires GoodPart(p) && PlainItems(p.items) && (p.delim == "" ==> rest == [])
    ensures Pieces(TextOf(p) + (Shown(2, p.delim) + rest), acc) ==
            if p.delim == "" then Some(acc + [Cmd(CommandOf(p.items))])
            else Pieces(rest, acc + [Cmd(CommandOf(p.items)), Del(p.delim)])
  {
    var t, e := TextOf(p), Shown(2, p.delim);
    var s := t + (e + rest);
    TextPlain(p);
    CommandRead(p);
    if p.delim == "" {
      assert e + rest == [] && s == t;
      TextEnds(t, e + rest);
      assert s[..|t|] == t;
    } else {
      ShownDelim(p.delim);
      assert (e + rest)[0] == e[0];
      TextEnds(t, e + rest);
      assert s[..|t|] == t && s[|t|] == e[0] && s[|t| + 1..] == rest && e == [e[0]];
    }
  }

  lemma EntitiesOne(p: Part, rest: seq<Part>, acc: seq<Entity>)
    ensures var c, d := Cmd(CommandOf(p.items)), Del(p.delim);
            acc + Entities([p] + rest) ==
            if p.delim != "" then acc + [c, d] + Entities(rest) else acc + [c] + Entities(rest)
  {
  }

  lemma RenderedOne(ps: seq<Part>, level: nat)
    requires GoodParts(ps) && ps != []
    ensures GoodParts(ps[1..]) && GoodPart(ps[0]) && ps == [ps[0]] + ps[1..] && (ps[0].delim == "" ==> ps[1..] == [])
    ensures Rendered(ps, level) == TextOf(ps[0]) + (Shown(level, ps[0].delim) + Rendered(ps[1..], level))
  {
  }

  lemma {:induction false} PiecesRendered(ps: seq<Part>, acc: seq<Entity>)
    requires GoodParts(ps) && PlainParts(ps)
    ensures Pieces(Rendered(ps, 2), acc) == Some(acc + Entities(ps))
    decreases |ps|
  {
    if ps == [] {
      assert acc + Entities(ps) == acc;
    } else {
      RenderedOne(ps, 2);
      FirstPartRead(ps[0], ps[1..], acc);
      if ps[0].delim != "" {
        PiecesRendered(ps[1..], acc + [Cmd(CommandOf(ps[0].items)), Del(ps[0].delim)]);
      }
    }
  }

  lemma FirstPartRead(p: Part, rest: seq<Part>, acc: seq<Entity>)
    requires GoodPart(p) && PlainItems(p.items) && GoodParts(rest) && (p.delim == "" ==> rest == [])
    ensures var acc' := acc + [Cmd(CommandOf(p.items)), Del(p.delim)];
            && Pieces(TextOf(p) + (Shown(2, p.delim) + Rendered(rest, 2)), acc) ==
               (if p.delim == "" then Some(acc + Entities([p] + rest)) else Pieces(Rendered(rest, 2), acc'))
            && (p.delim != "" ==> acc + Entities([p] + rest) == acc' + Entities(rest))
  {
    PartRead(p, Rendered(rest, 2), acc);
    EntitiesOne(p, rest, acc);
    if p.delim == "" {
      var done := acc + [Cmd(CommandOf(p.items))];
      assert done + Entities(rest) == done;
    }
  }

  /** Parsing gives back what was written, whatever blanks were chosen: the commands with their words and
      redirections, the operators, the pipes marked, and a last `&` taken as the background sign. */
  lemma ParsingUndoesWriting(ps: seq<Part>)
    requires GoodParts(ps) && PlainParts(ps)
    ensures ParseLine(Rendered(ps, 0)) == Finish(Entities(ps))
  {
    EncodedRendered(ps);
    PiecesRendered(ps, []);
    assert [] + Entities(ps) == Entities(ps);
  }

  // ---------------------------------------------------------------- every line

  ghost predicate KnownDelims(cmds: seq<Entity>) {
    forall i :: 0 <= i < |cmds| && cmds[i].Del? ==> Known(cmds[i].delim)
  }

  lemma SymbolIsKnown(c: char)
    requires c in SYMBOLS
    ensures Known(DelimText([c]))
  {
  }

  lemma FirstIsOne(s: string, chars: string)
    ensures var k := FirstOf(s, chars); k < |s| ==> s[k] in chars
  {
  }

  lemma {:induction false} PiecesKnown(s: string, acc: seq<Entity>)
    requires KnownDelims(acc)
    ensures Pieces(s, acc).Some? ==> KnownDelims(Pieces(s, acc).value)
    decreases |s|
  {
    if s != [] {
      var k := FirstOf(s, SYMBOLS);
      var c := Strip(Tokens(s[..k]), NoCommand);
      if c.Some? && k < |s| {
        FirstIsOne(s, SYMBOLS);
        SymbolIsKnown(s[k]);
        PiecesKnown(s[k + 1..], acc + [Cmd(c.value), Del(DelimText([s[k]]))]);
      }
    }
  }

  /** Whatever line is read, the list is one that the shell can run: it has a meaning as a line. */
  lemma ParsedIsALine(line: string) returns (l: Line)
    requires ParseLine(line).Parsed? && ParseLine(line).cmds != []
    ensures Complete(ParseLine(line).cmds) && ListOf(ParseLine(line).cmds, l)
  {
    var pieces := Pieces(Encoded(line), []).value;
    PiecesAlternate(Encoded(line), []);
    PiecesKnown(Encoded(line), []);
    var cmds := ParseLine(line).cmds;
    KnownPrefix(pieces, cmds);
    if |cmds| % 2 == 0 {
      var n := |cmds| - 1;
      assert cmds[n] == pieces[n];
      assert Known(cmds[n].delim);
      l := EveryListIsALine(cmds[..n]);
    } else {
      l := EveryListIsALine(cmds);
      assert cmds[0..|cmds|] == cmds;
    }
  }

  lemma KnownPrefix(pieces: seq<Entity>, cmds: seq<Entity>)
    requires Alternates(pieces) && KnownDelims(pieces)
    requires |cmds| <= |pieces| && forall i :: 0 <= i < |cmds| ==> cmds[i] == MarkedEntity(pieces, i)
    ensures Alternates(cmds) && KnownDelims(cmds)
  {
  }

  /** No file is called "pipe", other than where the mark goes anyway. */
  ghost predicate NoFileNamedPipe(cmds: seq<Entity>) {
    forall i :: 0 <= i < |cmds| && cmds[i].Cmd? ==>
      && (cmds[i].cmd.outfile == "pipe" ==> PipeAt(cmds, i + 1))
      && (cmds[i].cmd.infile == "pipe" ==> PipeAt(cmds, i - 1))
  }

  lemma MarkIsExact(cmds: seq<Entity>, i: nat)
    requires Alternates(cmds) && i % 2 == 0 && i < |cmds| && Alternates(Marks(cmds))
    ensures MarkedAt(Marks(cmds), i) <==>
            && (cmds[i].cmd.outfile == "pipe" ==> PipeAt(cmds, i + 1))
            && (cmds[i].cmd.infile == "pipe" ==> PipeAt(cmds, i - 1))
  {
  }

  /** The marks say exactly where the pipes are, unless a file has the name of the mark. */
  lemma MarksAreExact(cmds: seq<Entity>)
    requires Alternates(cmds)
    ensures Alternates(Marks(cmds)) && (Marked(Marks(cmds)) <==> NoFileNamedPipe(cmds))
  {
    var ms := Marks(cmds);
    assert Alternates(ms) by {
      forall i | 0 <= i < |ms|
        ensures if i % 2 == 0 then ms[i].Cmd? else ms[i].Del?
      {
        assert ms[i] == MarkedEntity(cmds, i);
      }
    }
    forall i: nat | i < |cmds| && i % 2 == 0
      ensures MarkedAt(ms, i) <==>
              && (cmds[i].cmd.outfile == "pipe" ==> PipeAt(cmds, i + 1))
              && (cmds[i].cmd.infile == "pipe" ==> PipeAt(cmds, i - 1))
    {
      MarkIsExact(cmds, i);
    }
    if Marked(ms) {
      forall i | 0 <= i < |cmds| && cmds[i].Cmd?
        ensures (cmds[i].cmd.outfile == "pipe" ==> PipeAt(cmds, i + 1)) && (cmds[i].cmd.infile == "pipe" ==> PipeAt(cmds, i - 1))
      {
        assert MarkedAt(ms, i);
      }
    } else {
      var i: nat :| i < |ms| && i % 2 == 0 && !MarkedAt(ms, i);
      assert cmds[i].Cmd?;
    }
  }
}
