/**
  What the parser makes of a line, said of the line as it was written: command by command, operator by
  operator, and when it is taken for a background line.
 */
module ShellWritten {
  import opened Common
  import opened ShellLine
  import opened ShellParser
  import opened ShellText
  import opened ShellSymbols

  // ---------------------------------------------------------------- one command

  /** The words stand at the positions `ks`, in order, and there are no others. */
  ghost predicate WordsAt(items: seq<Item>, words: seq<string>, ks: seq<nat>) {
    && |ks| == |words| && (forall i, j :: 0 <= i < j < |ks| ==> ks[i] < ks[j])
    && (forall i :: 0 <= i < |ks| ==> ks[i] < |items| && items[ks[i]] == Word(words[i]))
    && forall k :: 0 <= k < |items| && items[k].Word? ==> k in ks
  }

  /** The file that the last redirection of the input names; the empty name if there is none. */
  ghost predicate ReadsFrom(items: seq<Item>, file: string) {
    || (file == "" && forall j :: 0 <= j < |items| ==> !items[j].From?)
    || LastIsFrom(items, file)
  }

  ghost predicate LastIsFrom(items: seq<Item>, file: string) {
    exists k :: 0 <= k < |items| && items[k] == From(file) && forall j :: k < j < |items| ==> !items[j].From?
  }

  ghost predicate WritesTo(items: seq<Item>, file: string) {
    || (file == "" && forall j :: 0 <= j < |items| ==> !items[j].To?)
    || LastIsTo(items, file)
  }

  ghost predicate LastIsTo(items: seq<Item>, file: string) {
    exists k :: 0 <= k < |items| && items[k] == To(file) && forall j :: k < j < |items| ==> !items[j].To?
  }

  /** A pipe takes the place of a redirection. */
  ghost predicate SaysCommand(c: Command, items: seq<Item>, pipeBefore: bool, pipeBehind: bool) {
    && (exists ks :: WordsAt(items, c.words, ks))
    && (if pipeBefore then c.infile == "pipe" else ReadsFrom(items, c.infile))
    && (if pipeBehind then c.outfile == "pipe" else WritesTo(items, c.outfile))
  }

  lemma {:induction false} WordsThere(items: seq<Item>) returns (ks: seq<nat>)
    ensures WordsAt(items, WordsOf(items), ks)
  {
    if items == [] {
      ks := [];
    } else {
      var ls := WordsThere(items[1..]);
      ks := ShiftedBy(items[0].Word?, ls);
      OneMoreWord(items, items[1..], ls, ks);
    }
  }

  lemma OneMoreWord(items: seq<Item>, rest: seq<Item>, ls: seq<nat>, ks: seq<nat>)
    requires items != [] && rest == items[1..] && WordsAt(rest, WordsOf(rest), ls) && ks == ShiftedBy(items[0].Word?, ls)
    ensures WordsAt(items, WordsOf(items), ks)
  {
    var first, words := items[0].Word?, WordsOf(items);
    ShiftedAscends(first, ls);
    forall i: nat | i < |ks|
      ensures ks[i] < |items| && items[ks[i]] == Word(words[i])
    {
      NextWord(items, rest, ls, i);
    }
    forall k: nat | k < |items| && items[k].Word?
      ensures k in ks
    {
      if k > 0 {
        assert items[k] == rest[k - 1];
        ShiftedHas(first, ls, k - 1);
      } else {
        assert ks[0] == 0;
      }
    }
  }

  lemma NextWord(items: seq<Item>, rest: seq<Item>, ls: seq<nat>, i: nat)
    requires items != [] && rest == items[1..] && WordsAt(rest, WordsOf(rest), ls) && i < |ShiftedBy(items[0].Word?, ls)|
    ensures var k := ShiftedBy(items[0].Word?, ls)[i];
            k < |items| && i < |WordsOf(items)| && items[k] == Word(WordsOf(items)[i])
  {
    var d := if items[0].Word? then 1 else 0;
    assert WordsOf(items) == (if items[0].Word? then [items[0].text] else []) + WordsOf(rest);
    if i >= d {
      ShiftedAt(items[0].Word?, ls, i);
      assert items[ls[i - d] + 1] == rest[ls[i - d]];
    }
  }

  lemma ShiftedAscends(first: bool, ls: seq<nat>)
    requires forall i, j :: 0 <= i < j < |ls| ==> ls[i] < ls[j]
    ensures var ks := ShiftedBy(first, ls); forall i, j :: 0 <= i < j < |ks| ==> ks[i] < ks[j]
  {
    var ks, d := ShiftedBy(first, ls), if first then 1 else 0;
    forall i, j | 0 <= i < j < |ks|
      ensures ks[i] < ks[j]
    {
      ShiftedAt(first, ls, j);
      if i >= d { ShiftedAt(first, ls, i); }
    }
  }

  lemma ShiftedAt(first: bool, ls: seq<nat>, k: nat)
    requires (if first then 1 else 0) <= k < |ShiftedBy(first, ls)|
    ensures ShiftedBy(first, ls)[k] == ls[k - if first then 1 else 0] + 1
  {
  }

  function ShiftedBy(first: bool, ls: seq<nat>): (ks: seq<nat>)
    ensures |ks| == |ls| + if first then 1 else 0
    ensures first ==> ks[0] == 0
    ensures forall i :: 0 <= i < |ls| ==> ks[i + if first then 1 else 0] == ls[i] + 1
  {
    (if first then [0] else []) + seq(|ls|, i requires 0 <= i < |ls| => ls[i] + 1)
  }

  lemma ShiftedHas(first: bool, ls: seq<nat>, k: nat)
    requires k in ls
    ensures k + 1 in ShiftedBy(first, ls)
  {
    var i :| 0 <= i < |ls| && ls[i] == k;
    assert ShiftedBy(first, ls)[i + if first then 1 else 0] == k + 1;
  }

  lemma {:induction false} FromIsLast(items: seq<Item>, none: string)
    ensures (LastFrom(items, none) == none && (forall j :: 0 <= j < |items| ==> !items[j].From?)) ||
            LastIsFrom(items, LastFrom(items, none))
  {
    if items != [] {
      var rest, now := items[1..], if items[0].From? then items[0].text else none;
      FromIsLast(rest, now);
      assert forall j :: 0 < j < |items| ==> items[j] == rest[j - 1];
      if k :| 0 <= k < |rest| && rest[k] == From(LastFrom(rest, now)) && forall j :: k < j < |rest| ==> !rest[j].From? {
        assert items[k + 1] == From(LastFrom(items, none)) && forall j :: k + 1 < j < |items| ==> !items[j].From?;
      } else if items[0].From? {
        assert items[0] == From(LastFrom(items, none)) && forall j :: 0 < j < |items| ==> !items[j].From?;
      }
    }
  }

  lemma {:induction false} ToIsLast(items: seq<Item>, none: string)
    ensures (LastTo(items, none) == none && (forall j :: 0 <= j < |items| ==> !items[j].To?)) ||
            LastIsTo(items, LastTo(items, none))
  {
    if items != [] {
      var rest, now := items[1..], if items[0].To? then items[0].text else none;
      ToIsLast(rest, now);
      assert forall j :: 0 < j < |items| ==> items[j] == rest[j - 1];
      if k :| 0 <= k < |rest| && rest[k] == To(LastTo(rest, now)) && forall j :: k < j < |rest| ==> !rest[j].To? {
        assert items[k + 1] == To(LastTo(items, none)) && forall j :: k + 1 < j < |items| ==> !items[j].To?;
      } else if items[0].To? {
        assert items[0] == To(LastTo(items, none)) && forall j :: 0 < j < |items| ==> !items[j].To?;
      }
    }
  }

  lemma CommandSays(items: seq<Item>)
    ensures SaysCommand(CommandOf(items), items, false, false)
  {
    var ks := WordsThere(items);
    FromIsLast(items, "");
    ToIsLast(items, "");
  }

  /** The last file is determined by the items, and so are the words. */
  lemma {:induction false} SamePositions(items: seq<Item>, us: seq<string>, ks: seq<nat>, vs: seq<string>, ls: seq<nat>, n: nat)
    requires WordsAt(items, us, ks) && WordsAt(items, vs, ls) && n <= |us| && n <= |vs|
    ensures us[..n] == vs[..n] && forall i :: 0 <= i < n ==> ks[i] == ls[i]
  {
    if n > 0 {
      var m := n - 1;
      SamePositions(items, us, ks, vs, ls, m);
      SameNext(ks, ls, m);
      assert us[..n] == us[..m] + [us[m]] && vs[..n] == vs[..m] + [vs[m]];
    }
  }

  lemma SameNext(ks: seq<nat>, ls: seq<nat>, m: nat)
    requires m < |ks| && m < |ls| && ks[m] in ls && ls[m] in ks && forall i :: 0 <= i < m ==> ks[i] == ls[i]
    requires forall i, j :: 0 <= i < j < |ks| ==> ks[i] < ks[j]
    requires forall i, j :: 0 <= i < j < |ls| ==> ls[i] < ls[j]
    ensures ks[m] == ls[m]
  {
    var i :| 0 <= i < |ls| && ls[i] == ks[m];
    var j :| 0 <= j < |ks| && ks[j] == ls[m];
    assert i >= m && j >= m;
  }

  lemma SameWords(items: seq<Item>, us: seq<string>, ks: seq<nat>, vs: seq<string>, ls: seq<nat>)
    requires WordsAt(items, us, ks) && WordsAt(items, vs, ls)
    ensures us == vs
  {
    var n := if |us| <= |vs| then |us| else |vs|;
    SamePositions(items, us, ks, vs, ls, n);
    if |us| < |vs| {
      NotAmong(ks, ls);
    } else if |vs| < |us| {
      NotAmong(ls, ks);
    } else {
      assert us[..n] == us && vs[..n] == vs;
    }
  }

  lemma NotAmong(ks: seq<nat>, ls: seq<nat>)
    requires |ks| < |ls| && (forall i :: 0 <= i < |ks| ==> ks[i] == ls[i])
    requires forall i, j :: 0 <= i < j < |ls| ==> ls[i] < ls[j]
    ensures ls[|ks|] !in ks
  {
  }

  lemma SameCommand(c: Command, d: Command, items: seq<Item>, pipeBefore: bool, pipeBehind: bool)
    requires SaysCommand(c, items, pipeBefore, pipeBehind) && SaysCommand(d, items, pipeBefore, pipeBehind)
    ensures c == d
  {
    var ks :| WordsAt(items, c.words, ks);
    var ls :| WordsAt(items, d.words, ls);
    SameWords(items, c.words, ks, d.words, ls);
  }

  // ---------------------------------------------------------------- a line

  /** The operator at the end of the line, or none. */
  function LastDelim(ps: seq<Part>): string {
    if ps == [] then "" else ps[|ps| - 1].delim
  }

  ghost predicate PipeBehind(ps: seq<Part>, i: int) {
    0 <= i < |ps| && ps[i].delim == "|"
  }

  /** The list and the background flag are those of the line that was written as `ps`: a command and its
      operator for each part, and the last operator is left out if there is none or if it is `&`. */
  ghost predicate Says(ps: seq<Part>, cmds: seq<Entity>, background: bool) {
    && (background <==> LastDelim(ps) == "&")
    && |cmds| == 2 * |ps| - (if ps != [] && (LastDelim(ps) == "" || LastDelim(ps) == "&") then 1 else 0)
    && (forall i: nat :: i < |ps| ==> SaysAt(ps, cmds, i))
    && forall i: nat :: 2 * i + 1 < |cmds| ==> OperatorAt(ps, cmds, i)
  }

  ghost predicate SaysAt(ps: seq<Part>, cmds: seq<Entity>, i: nat)
    requires i < |ps|
  {
    2 * i < |cmds| && cmds[2 * i].Cmd? && SaysCommand(cmds[2 * i].cmd, ps[i].items, PipeBehind(ps, i - 1), PipeBehind(ps, i))
  }

  ghost predicate OperatorAt(ps: seq<Part>, cmds: seq<Entity>, i: nat) {
    i < |ps| && 2 * i + 1 < |cmds| && cmds[2 * i + 1] == Del(ps[i].delim)
  }

  lemma EntitiesCons(ps: seq<Part>)
    requires ps != []
    ensures Entities(ps) == Head(ps[0]) + Entities(ps[1..])
  {
  }

  /** What one part adds to the list. */
  function Head(p: Part): (es: seq<Entity>)
    ensures |es| == (if p.delim == "" then 1 else 2) && es[0] == Cmd(CommandOf(p.items))
    ensures p.delim != "" ==> es[1] == Del(p.delim)
  {
    [Cmd(CommandOf(p.items))] + if p.delim == "" then [] else [Del(p.delim)]
  }

  lemma {:induction false} EntitiesLength(ps: seq<Part>)
    requires GoodParts(ps)
    ensures |Entities(ps)| == 2 * |ps| - if ps != [] && LastDelim(ps) == "" then 1 else 0
  {
    if ps != [] {
      RestIsGood(ps);
      EntitiesLength(ps[1..]);
      EntitiesCons(ps);
    }
  }

  lemma {:induction false} EntitiesAt(ps: seq<Part>, i: nat)
    requires GoodParts(ps) && i < |ps|
    ensures 2 * i < |Entities(ps)| && Entities(ps)[2 * i] == Cmd(CommandOf(ps[i].items))
    ensures 2 * i + 1 < |Entities(ps)| <==> ps[i].delim != ""  || i + 1 < |ps|
    ensures ps[i].delim != "" ==> Entities(ps)[2 * i + 1] == Del(ps[i].delim)
  {
    EntitiesLength(ps);
    EntitiesCons(ps);
    if i > 0 {
      RestIsGood(ps);
      EntitiesAt(ps[1..], i - 1);
      assert ps[i] == ps[1..][i - 1];
    }
  }

  lemma RestIsGood(ps: seq<Part>)
    requires GoodParts(ps) && ps != []
    ensures GoodParts(ps[1..]) && (ps[1..] != [] ==> ps[0].delim != "" && LastDelim(ps[1..]) == LastDelim(ps))
  {
    assert forall j :: 0 <= j < |ps| - 1 ==> ps[1..][j] == ps[j + 1];
  }

  /** Unless the line ends in `|`, what is read says what was written. */
  lemma FinishSays(ps: seq<Part>)
    requires GoodParts(ps)
    ensures Finish(Entities(ps)).Undefined? <==> LastDelim(ps) == "|"
    ensures LastDelim(ps) != "|" ==> Says(ps, Finish(Entities(ps)).cmds, Finish(Entities(ps)).background)
  {
    var es := Entities(ps);
    EntitiesLength(ps);
    FinishEnds(ps);
    if LastDelim(ps) != "|" {
      var cmds := Finish(es).cmds;
      forall i: nat | i < |ps|
        ensures SaysAt(ps, cmds, i)
      {
        CommandAt(ps, cmds, i);
      }
      forall i: nat | 2 * i + 1 < |cmds|
        ensures OperatorAt(ps, cmds, i)
      {
        OperatorThere(ps, cmds, i);
      }
    }
  }

  lemma OperatorThere(ps: seq<Part>, cmds: seq<Entity>, i: nat)
    requires GoodParts(ps) && 2 * i + 1 < |cmds| <= |Entities(ps)|
    requires forall k :: 0 <= k < |cmds| ==> cmds[k] == MarkedEntity(Entities(ps), k)
    ensures OperatorAt(ps, cmds, i)
  {
    EntitiesLength(ps);
    EntitiesAt(ps, i);
    assert cmds[2 * i + 1] == MarkedEntity(Entities(ps), 2 * i + 1);
  }

  lemma FinishEnds(ps: seq<Part>)
    requires GoodParts(ps)
    ensures var es, d := Entities(ps), LastDelim(ps);
            (EndsWith(es, "|") <==> d == "|") && (EndsWith(es, "&") <==> d == "&")
  {
    if ps != [] {
      EntitiesLength(ps);
      EntitiesAt(ps, |ps| - 1);
      assert |"|"| == 1 && |"&"| == 1;
    }
  }

  lemma CommandAt(ps: seq<Part>, cmds: seq<Entity>, i: nat)
    requires GoodParts(ps) && i < |ps| && 2 * i < |cmds| <= |Entities(ps)|
    requires forall k :: 0 <= k < |cmds| ==> cmds[k] == MarkedEntity(Entities(ps), k)
    ensures SaysAt(ps, cmds, i)
  {
    var es := Entities(ps);
    EntitiesAt(ps, i);
    PipeThere(ps, es, i, 2 * i + 1);
    if i > 0 { PipeThere(ps, es, i - 1, 2 * i - 1); }
    MarkedCommand(ps[i].items, es, 2 * i, PipeBehind(ps, i - 1), PipeBehind(ps, i));
    assert cmds[2 * i] == MarkedEntity(es, 2 * i);
  }

  lemma MarkedCommand(items: seq<Item>, es: seq<Entity>, k: nat, pipeBefore: bool, pipeBehind: bool)
    requires k < |es| && es[k] == Cmd(CommandOf(items))
    requires (PipeAt(es, k - 1) <==> pipeBefore) && (PipeAt(es, k + 1) <==> pipeBehind)
    ensures MarkedEntity(es, k).Cmd? && SaysCommand(MarkedEntity(es, k).cmd, items, pipeBefore, pipeBehind)
  {
    CommandSays(items);
  }

  lemma PipeThere(ps: seq<Part>, es: seq<Entity>, i: nat, k: nat)
    requires GoodParts(ps) && es == Entities(ps) && i < |ps| && k == 2 * i + 1
    ensures PipeAt(es, k) <==> PipeBehind(ps, i)
  {
    EntitiesAt(ps, i);
    assert |"|"| == 1;
  }

  /** Lines without the borrowed characters: undefined exactly with a `|` at the end, in the background
      exactly with an `&` at the end, and otherwise word by word and operator by operator as written. */
  lemma WrittenExactly(ps: seq<Part>)
    requires GoodParts(ps) && PlainParts(ps)
    ensures ParseLine(Rendered(ps, 0)).Undefined? <==> LastDelim(ps) == "|"
    ensures ParseLine(Rendered(ps, 0)).Parsed? ==>
              Says(ps, ParseLine(Rendered(ps, 0)).cmds, ParseLine(Rendered(ps, 0)).background)
  {
    ParsingUndoesWriting(ps);
    FinishSays(ps);
  }

  lemma SameList(ps: seq<Part>, a: seq<Entity>, b: seq<Entity>, s: bool, t: bool)
    requires Says(ps, a, s) && Says(ps, b, t)
    ensures a == b && s == t
  {
    forall k | 0 <= k < |a|
      ensures a[k] == b[k]
    {
      var i := k / 2;
      if k % 2 == 0 {
        assert SaysAt(ps, a, i) && SaysAt(ps, b, i);
        SameCommand(a[k].cmd, b[k].cmd, ps[i].items, PipeBehind(ps, i - 1), PipeBehind(ps, i));
      } else {
        assert k == 2 * i + 1;
        assert OperatorAt(ps, a, i) && OperatorAt(ps, b, i);
      }
    }
  }

  /** No list that has been read ends in `|`. */
  lemma NeverEndsInPipe(line: string)
    requires ParseLine(line).Parsed?
    ensures !EndsWith(ParseLine(line).cmds, "|")
  {
    var es := Pieces(Encoded(line), []).value;
    var cmds := ParseLine(line).cmds;
    PiecesAlternate(Encoded(line), []);
    if cmds != [] {
      var k := |cmds| - 1;
      assert cmds[k] == MarkedEntity(es, k);
      if EndsWith(es, "&") { assert k % 2 == 0; }
    }
  }

  lemma SaysPipe(ps: seq<Part>, cmds: seq<Entity>, background: bool)
    requires Says(ps, cmds, background) && LastDelim(ps) == "|"
    ensures EndsWith(cmds, "|")
  {
    assert |"|"| == 1 && "|" != "&";
    assert OperatorAt(ps, cmds, |ps| - 1);
  }

  /** Of all lines that the parser can read, it reads exactly those as they were written that use neither
      `@` nor `$`. */
  lemma ReadAsWrittenExactly(ps: seq<Part>)
    requires GoodParts(ps) && ParseLine(Rendered(ps, 0)).Parsed?
    ensures Says(ps, ParseLine(Rendered(ps, 0)).cmds, ParseLine(Rendered(ps, 0)).background) <==> PlainParts(ps)
  {
    var line := Rendered(ps, 0);
    if PlainParts(ps) {
      WrittenExactly(ps);
    } else if Says(ps, ParseLine(line).cmds, ParseLine(line).background) {
      NeverEndsInPipe(line);
      FinishSays(ps);
      if LastDelim(ps) == "|" {
        SaysPipe(ps, ParseLine(line).cmds, ParseLine(line).background);
      } else {
        SameList(ps, ParseLine(line).cmds, Finish(Entities(ps)).cmds, ParseLine(line).background, Finish(Entities(ps)).background);
        GivenBackExactly(ps);
        assert false;
      }
    }
  }

  // ---------------------------------------------------------------- lines written out

  function Simple(a: string, d: string): Part {
    Part([Word(a)], ["", ""], d)
  }

  lemma SimpleIsGood(a: string, d: string)
    requires Plain(a) && (d == "" || Known(d))
    ensures GoodPart(Simple(a, d)) && PlainItems(Simple(a, d).items) && TextOf(Simple(a, d)) == a
    ensures CommandOf(Simple(a, d).items) == Command([a], "", "")
  {
    var p := Simple(a, d);
    ItemsCons(Word(a), []);
    assert p.items == [Word(a)] + [];
    assert Spaced([a][1..], p.gaps[1..]) == "";
    assert "" + a + "" == a;
  }

  lemma ItemsCons(item: Item, rest: seq<Item>)
    ensures ItemTokens([item] + rest) == OneTokens(item) + ItemTokens(rest)
    ensures WordsOf([item] + rest) == (if item.Word? then [item.text] else []) + WordsOf(rest)
    ensures forall none :: LastFrom([item] + rest, none) == LastFrom(rest, if item.From? then item.text else none)
    ensures forall none :: LastTo([item] + rest, none) == LastTo(rest, if item.To? then item.text else none)
  {
    var items := [item] + rest;
    assert items[0] == item && items[1..] == rest;
  }

  lemma RenderedOne(ps: seq<Part>)
    requires GoodParts(ps) && |ps| == 1
    ensures Rendered(ps, 0) == TextOf(ps[0]) + ps[0].delim && Entities(ps) == Head(ps[0])
  {
    EntitiesCons(ps);
    assert ps[1..] == [] && Rendered(ps[1..], 0) == "" && Entities(ps[1..]) == [];
  }

  lemma RenderedTwo(p: Part, q: Part)
    requires GoodPart(p) && GoodPart(q) && p.delim != "" && q.delim == ""
    ensures Rendered([p, q], 0) == TextOf(p) + (p.delim + TextOf(q)) && Entities([p, q]) == Head(p) + Head(q)
  {
    var ps := [p, q];
    assert ps[1..] == [q];
    EntitiesCons(ps);
    RenderedOne([q]);
    assert TextOf(q) + "" == TextOf(q);
  }

  lemma OnePart(p: Part)
    requires GoodPart(p) && PlainItems(p.items)
    ensures ParseLine(TextOf(p) + p.delim) == Finish(Head(p))
  {
    RenderedOne([p]);
    ParsingUndoesWriting([p]);
  }

  lemma TwoParts(p: Part, q: Part)
    requires GoodPart(p) && GoodPart(q) && PlainItems(p.items) && PlainItems(q.items) && p.delim != "" && q.delim == ""
    ensures ParseLine(TextOf(p) + (p.delim + TextOf(q))) == Finish(Head(p) + Head(q))
  {
    RenderedTwo(p, q);
    ParsingUndoesWriting([p, q]);
  }

  /** One word and what stands behind it. */
  lemma OneWordLine(a: string, d: string)
    requires Plain(a) && (d == "" || Known(d))
    ensures ParseLine(a + d) ==
            if d == "|" then Undefined
            else if d == "&" then Parsed([Cmd(Command([a], "", ""))], true)
            else if d == "" then Parsed([Cmd(Command([a], "", ""))], false)
            else Parsed([Cmd(Command([a], "", "")), Del(d)], false)
  {
    SimpleIsGood(a, d);
    OnePart(Simple(a, d));
    FinishOne(Command([a], "", ""), d);
  }

  lemma FinishOne(c: Command, d: string)
    ensures var es := [Cmd(c)] + if d == "" then [] else [Del(d)];
            Finish(es) == if d == "|" then Undefined else if d == "&" then Parsed([Cmd(c)], true) else Parsed(es, false)
  {
    var es := [Cmd(c)] + if d == "" then [] else [Del(d)];
    assert |"|"| == 1 && |"&"| == 1 && |""| == 0;
    if d != "|" {
      assert Marks(es) == es;
    }
  }

  /** Two words and the operator between them. */
  lemma TwoWordsLine(a: string, d: string, b: string)
    requires Plain(a) && Plain(b) && Known(d)
    ensures ParseLine(a + (d + b)) ==
            if d == "|" then Parsed([Cmd(Command([a], "", "pipe")), Del("|"), Cmd(Command([b], "pipe", ""))], false)
            else Parsed([Cmd(Command([a], "", "")), Del(d), Cmd(Command([b], "", ""))], false)
  {
    var p, q := Simple(a, d), Simple(b, "");
    SimpleIsGood(a, d);
    SimpleIsGood(b, "");
    TwoParts(p, q);
    assert Head(p) == [Cmd(Command([a], "", "")), Del(d)] && Head(q) == [Cmd(Command([b], "", ""))];
    FinishTwo(Command([a], "", ""), d, Command([b], "", ""));
  }

  lemma FinishTwo(a: Command, d: string, b: Command)
    requires d != ""
    ensures Finish([Cmd(a), Del(d)] + [Cmd(b)]) ==
            if d == "|" then Parsed([Cmd(a.(outfile := "pipe")), Del("|"), Cmd(b.(infile := "pipe"))], false)
            else Parsed([Cmd(a), Del(d), Cmd(b)], false)
  {
    var es := [Cmd(a), Del(d)] + [Cmd(b)];
    assert es == [Cmd(a), Del(d), Cmd(b)];
    assert Marks(es) == [MarkedEntity(es, 0), MarkedEntity(es, 1), MarkedEntity(es, 2)];
  }

  /** Two words with one blank between them, of any of the six kinds. */
  lemma BlankLine(a: string, c: char, b: string)
    requires Plain(a) && Plain(b)
    requires c == ' ' || c == '\t' || c == '\r' || c == '\n' || c == '\U{0B}' || c == '\U{0C}'
    ensures ParseLine(a + ([c] + b)) == Parsed([Cmd(Command([a, b], "", ""))], false)
  {
    var p := Part([Word(a), Word(b)], ["", [c], ""], "");
    TwoWordItems(a, b);
    SpacedTwo(a, c, b, p.gaps);
    OnePart(p);
    FinishOne(Command([a, b], "", ""), "");
    assert Head(p) == [Cmd(Command([a, b], "", ""))] + [];
    assert TextOf(p) + "" == TextOf(p);
  }

  lemma TwoWordItems(a: string, b: string)
    ensures ItemTokens([Word(a), Word(b)]) == [a, b] && CommandOf([Word(a), Word(b)]) == Command([a, b], "", "")
  {
    ItemsCons(Word(b), []);
    ItemsCons(Word(a), [Word(b)]);
    assert [Word(b)] + [] == [Word(b)] && [Word(a)] + [Word(b)] == [Word(a), Word(b)];
    assert [a] + [b] == [a, b];
  }

  lemma SpacedTwo(a: string, c: char, b: string, gaps: seq<string>)
    requires gaps == ["", [c], ""]
    ensures Spaced([a, b], gaps) == a + ([c] + b)
  {
    SpacedNone([a, b], gaps);
    assert [a, b][1..] == [b] && gaps[1..] == [[c], ""];
    assert Spaced([b][1..], gaps[1..][1..]) == "";
    assert [c] + b + "" == [c] + b;
  }

  /** A command that reads one file and writes another. */
  lemma RedirectedLine(a: string, f: string, g: string)
    requires Plain(a) && Plain(f) && Plain(g)
    ensures ParseLine(a + ("<" + (f + (">" + g)))) == Parsed([Cmd(Command([a], f, g))], false)
  {
    var p := Part([Word(a), From(f), To(g)], ["", "", "", "", "", ""], "");
    var ts := [a, "<", f, ">", g];
    RedirectedItems(a, f, g);
    RedirectedSpaced(ts, p.gaps);
    RedirectedIsGood(p, a, f, g);
    OnePart(p);
    FinishOne(Command([a], f, g), "");
    assert Head(p) == [Cmd(Command([a], f, g))] + [];
    assert TextOf(p) + "" == TextOf(p);
  }

  lemma RedirectedIsGood(p: Part, a: string, f: string, g: string)
    requires Plain(a) && Plain(f) && Plain(g)
    requires p.items == [Word(a), From(f), To(g)] && p.gaps == ["", "", "", "", "", ""] && p.delim == ""
    ensures GoodPart(p) && PlainItems(p.items)
  {
    RedirectedItems(a, f, g);
    assert Redirection("<") && Redirection(">");
  }

  lemma RedirectedItems(a: string, f: string, g: string)
    ensures var items := [Word(a), From(f), To(g)];
            ItemTokens(items) == [a, "<", f, ">", g] && CommandOf(items) == Command([a], f, g)
  {
    ItemsCons(To(g), []);
    ItemsCons(From(f), [To(g)]);
    ItemsCons(Word(a), [From(f), To(g)]);
    assert [To(g)] + [] == [To(g)] && [From(f)] + [To(g)] == [From(f), To(g)];
    assert [Word(a)] + [From(f), To(g)] == [Word(a), From(f), To(g)];
  }

  lemma RedirectedSpaced(ts: seq<string>, gaps: seq<string>)
    requires |ts| == 5 && |gaps| == 6 && forall i :: 0 <= i < 6 ==> gaps[i] == ""
    ensures Spaced(ts, gaps) == ts[0] + (ts[1] + (ts[2] + (ts[3] + ts[4])))
  {
    SpacedNone(ts, gaps);
    SpacedNone(ts[1..], gaps[1..]);
    SpacedNone(ts[2..], gaps[2..]);
    SpacedNone(ts[3..], gaps[3..]);
    SpacedNone(ts[4..], gaps[4..]);
    assert Spaced(ts[5..], gaps[5..]) == "" && ts[4] + "" == ts[4];
  }

  lemma SpacedNone(ts: seq<string>, gaps: seq<string>)
    requires ts != [] && |gaps| == |ts| + 1 && gaps[0] == ""
    ensures Spaced(ts, gaps) == ts[0] + Spaced(ts[1..], gaps[1..])
  {
    assert "" + ts[0] == ts[0];
  }
}
