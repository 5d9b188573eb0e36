/**
  The parser of the shell: two-character operators are replaced by one character each, the line is cut
  at the operators, and each piece is cut into words and redirections.  Iterators are indices; what
  would read past the end of a list is `Undefined`.
 */
module ShellParser {
  import opened Common
  import opened ShellLine

  const SYMBOLS: string := "|@$&;"
  const BREAKS: string := "\t\U{0B}\r\n\U{0C}<> "

  // ---------------------------------------------------------------- strings

  /** The first position of a character out of `chars`, or the length. */
  function FirstOf(s: string, chars: string): (k: nat)
    ensures k <= |s|
  {
    if s == [] || s[0] in chars then 0 else 1 + FirstOf(s[1..], chars)
  }

  /** The first position of a text, or -1. */
  function Find(s: string, pat: string): (k: int)
    ensures -1 <= k && (k >= 0 ==> k + |pat| <= |s|)
  {
    if |s| < |pat| then -1
    else if pat <= s then 0
    else if s == [] then -1
    else
      var k := Find(s[1..], pat);
      if k < 0 then -1 else k + 1
  }

  /** Every occurrence replaced, from the left, behind `done`. */
  function ReplacedFrom(s: string, pat: string, to: string, done: string): string
    requires pat != []
    decreases |s|
  {
    var k := Find(s, pat);
    if k < 0 then done + s else ReplacedFrom(s[k + |pat|..], pat, to, done + s[..k] + to)
  }

  function Replaced(s: string, pat: string, to: string): string
    requires pat != []
  {
    ReplacedFrom(s, pat, to, [])
  }

  /** Character by character: what does not begin an occurrence stays. */
  lemma OneChar(s: string, pat: string, to: string, done: string)
    requires pat != [] && s != [] && !(pat <= s)
    ensures ReplacedFrom(s, pat, to, done) == ReplacedFrom(s[1..], pat, to, done + [s[0]])
  {
    var k := Find(s[1..], pat);
    FindPast(s, pat);
    OneFurther(s, done, k, |pat|);
    if k >= 0 {
      FoundFurther(s, pat, to, done, k);
    }
  }

  lemma FoundFurther(s: string, pat: string, to: string, done: string, k: nat)
    requires pat != [] && s != [] && Find(s[1..], pat) == k && Find(s, pat) == k + 1
    ensures ReplacedFrom(s, pat, to, done) == ReplacedFrom(s[1..], pat, to, done + [s[0]])
  {
    var rest, more, n := s[1..], done + [s[0]], |pat|;
    OneFurther(s, done, k, n);
    assert ReplacedFrom(rest, pat, to, more) == ReplacedFrom(rest[k + n..], pat, to, more + rest[..k] + to);
    assert ReplacedFrom(s, pat, to, done) == ReplacedFrom(s[k + 1 + n..], pat, to, done + s[..k + 1] + to);
  }

  lemma FindPast(s: string, pat: string)
    requires pat != [] && s != [] && !(pat <= s)
    ensures var k := Find(s[1..], pat); Find(s, pat) == if k < 0 then -1 else k + 1
  {
  }

  lemma OneFurther(s: string, done: string, k: int, n: nat)
    requires s != [] && (k >= 0 ==> k + 1 + n <= |s|)
    ensures (done + [s[0]]) + s[1..] == done + s
    ensures k >= 0 ==> s[1..][k + n..] == s[k + 1 + n..] && (done + [s[0]]) + s[1..][..k] == done + s[..k + 1]
  {
  }

  method Replace(str: string, fromstr: string, tostr: string) returns (r: string)
    requires fromstr != []
    ensures r == Replaced(str, fromstr, tostr)
  {
    r := str;
    var pos := 0;
    assert r[..pos] == [] && r[pos..] == r;
    while pos < |r|
      invariant 0 <= pos <= |r| && ReplacedFrom(r[pos..], fromstr, tostr, r[..pos]) == Replaced(str, fromstr, tostr)
      decreases |r| - pos
    {
      var found := Find(r[pos..], fromstr);
      ReplaceStep(r, pos, found, fromstr, tostr);
      if found >= 0 {
        r := Spliced(r, pos + found, |fromstr|, tostr);
        pos := pos + found + |tostr|;
      } else {
        return;
      }
    }
    assert r[pos..] == [] && r[..pos] == r;
  }

  /** The text with the occurrence at `at` replaced, and the position behind it. */
  function Spliced(r: string, at: nat, n: nat, to: string): string
    requires at + n <= |r|
  {
    r[..at] + to + r[at + n..]
  }

  lemma ReplaceStep(r: string, pos: nat, found: int, pat: string, to: string)
    requires pat != [] && pos <= |r| && found == Find(r[pos..], pat)
    ensures found < 0 ==> ReplacedFrom(r[pos..], pat, to, r[..pos]) == r
    ensures found >= 0 ==>
              var r', p := Spliced(r, pos + found, |pat|, to), pos + found + |to|;
              p <= |r'| && ReplacedFrom(r'[p..], pat, to, r'[..p]) == ReplacedFrom(r[pos..], pat, to, r[..pos])
  {
    if found < 0 {
      assert r[..pos] + r[pos..] == r;
    } else {
      SplicedParts(r, pos, found, |pat|, to);
      var s, done := r[pos..], r[..pos];
      assert ReplacedFrom(s, pat, to, done) == ReplacedFrom(s[found + |pat|..], pat, to, done + s[..found] + to);
    }
  }

  lemma SplicedParts(r: string, pos: nat, found: nat, n: nat, to: string)
    requires pos + found + n <= |r|
    ensures var r', p := Spliced(r, pos + found, n, to), pos + found + |to|;
            p <= |r'| && r'[p..] == r[pos..][found + n..] && r'[..p] == r[..pos] + r[pos..][..found] + to
  {
  }

  // ---------------------------------------------------------------- one command

  predicate Redirection(t: string) {
    t == "<" || t == ">"
  }

  /** The words of a command, behind `parts`; redirection signs are words of their own. */
  function TokensFrom(s: string, parts: seq<string>): seq<string>
    decreases |s|
  {
    var k := FirstOf(s, BREAKS);
    if k == |s| then (if s == [] then parts else parts + [s])
    else TokensFrom(s[k + 1..], parts + Lead(s, k))
  }

  function Tokens(s: string): seq<string> {
    TokensFrom(s, [])
  }

  /** The word in front of the break at position `k`, and the break if it is a sign. */
  function Lead(s: string, k: nat): seq<string>
    requires k < |s|
  {
    (if k > 0 then [s[..k]] else []) + (if Redirection([s[k]]) then [[s[k]]] else [])
  }

  /** A later redirection takes the place of an earlier one; a command needs a word. */
  function Strip(parts: seq<string>, c: Command): Option<Command> {
    if parts == [] then (if c.words == [] then None else Some(c))
    else if Redirection(parts[0]) then
      if |parts| == 1 then None
      else Strip(parts[2..], if parts[0] == "<" then c.(infile := parts[1]) else c.(outfile := parts[1]))
    else Strip(parts[1..], c.(words := c.words + [parts[0]]))
  }

  const NoCommand: Command := Command([], "", "")

  method Tokenise(str: string) returns (parts: seq<string>)
    ensures parts == Tokens(str)
  {
    parts := [];
    var pos := 0;
    assert str[pos..] == str;
    while true
      invariant Ahead(str, pos, parts) == Tokens(str) && pos <= |str|
      decreases |str| - pos
    {
      var found := FindFirstOf(str, BREAKS, pos);
      TokenStep(str, pos, found, parts);
      if found == |str| {
        parts := PushLast(parts, str, pos);
        return;
      }
      parts := PushLead(parts, str, pos, found);
      pos := found + 1;
    }
  }

  /** What the list will be in the end. */
  ghost function Ahead(str: string, pos: nat, parts: seq<string>): seq<string> {
    if pos <= |str| then TokensFrom(str[pos..], parts) else parts
  }

  function PushLast(parts: seq<string>, str: string, pos: nat): seq<string>
    requires pos <= |str|
  {
    if |str| != pos then parts + [str[pos..]] else parts
  }

  /** The first position, from `pos` on, of a character out of `chars`, or the length. */
  function FindFirstOf(s: string, chars: string, pos: nat): (k: nat)
    requires pos <= |s|
    ensures pos <= k <= |s|
  {
    pos + FirstOf(s[pos..], chars)
  }

  method PushLead(parts: seq<string>, str: string, pos: nat, found: nat) returns (more: seq<string>)
    requires pos <= found < |str|
    ensures more == parts + Lead(str[pos..], found - pos)
  {
    more := parts;
    ghost var s := str[pos..];
    assert s[found - pos] == str[found] && s[..found - pos] == str[pos..found];
    if found != pos {
      more := more + [str[pos..found]];
    }
    ghost var was := more;
    assert "<" == ['<'] && ">" == ['>'] && str[found..found + 1] == [str[found]];
    if str[found] == '<' || str[found] == '>' {
      more := more + [str[found..found + 1]];
    }
    assert more == was + if Redirection([str[found]]) then [[str[found]]] else [];
  }

  lemma TokenStep(str: string, pos: nat, found: nat, parts: seq<string>)
    requires pos <= |str| && found == FindFirstOf(str, BREAKS, pos)
    ensures Ahead(str, pos, parts) ==
            if found < |str| then Ahead(str, found + 1, parts + Lead(str[pos..], found - pos)) else PushLast(parts, str, pos)
  {
  }

  /** Takes the redirections out of the list in place. */
  method TakeRedirections(tokens: seq<string>) returns (c: Option<Command>)
    ensures c == Strip(tokens, NoCommand)
  {
    var parts := tokens;
    var infile, outfile := "", "";
    var iter := 0;
    while iter < |parts|
      invariant 0 <= iter <= |parts|
      invariant Strip(parts[iter..], Command(parts[..iter], infile, outfile)) == Strip(tokens, NoCommand)
      decreases |parts| - iter
    {
      var rest := parts[iter..];
      if Redirection(parts[iter]) {
        if iter + 1 == |parts| { return None; }
        if parts[iter] == "<" {
          infile := parts[iter + 1];
        } else {
          outfile := parts[iter + 1];
        }
        var prevIter := iter - 1;
        ghost var was := parts;
        parts := parts[..iter] + parts[iter + 1..];
        iter := prevIter + 1;
        parts := parts[..iter] + parts[iter + 1..];
        iter := prevIter;
        assert parts[..iter + 1] == was[..iter + 1] && parts[iter + 1..] == rest[2..];
      } else {
        assert parts[..iter + 1] == parts[..iter] + [rest[0]] && parts[iter + 1..] == rest[1..];
      }
      iter := iter + 1;
    }
    assert parts[iter..] == [] && parts[..iter] == parts;
    c := if parts == [] then None else Some(Command(parts, infile, outfile));
  }

  // ---------------------------------------------------------------- the line

  function DelimText(sym: string): string {
    if sym == "@" then "||" else if sym == "$" then "&&" else sym
  }

  function Encoded(line: string): string {
    Replaced(Replaced(line, "||", "@"), "&&", "$")
  }

  /** The list read from an encoded line, behind what has been read already. */
  function Pieces(s: string, acc: seq<Entity>): Option<seq<Entity>>
    decreases |s|
  {
    if s == [] then Some(acc)
    else
      var k := FirstOf(s, SYMBOLS);
      var c := Strip(Tokens(s[..k]), NoCommand);
      if c.None? then None
      else if k == |s| then Some(acc + [Cmd(c.value)])
      else Pieces(s[k + 1..], acc + [Cmd(c.value), Del(DelimText([s[k]]))])
  }

  predicate PipeAt(cmds: seq<Entity>, i: int) {
    0 <= i < |cmds| && cmds[i] == Del("|")
  }

  /** The command at position `i` with its marks. */
  function MarkedEntity(cmds: seq<Entity>, i: nat): Entity
    requires i < |cmds|
  {
    match cmds[i]
    case Del(_) => cmds[i]
    case Cmd(c) =>
      Cmd(c.(outfile := if PipeAt(cmds, i + 1) then "pipe" else c.outfile,
             infile := if PipeAt(cmds, i - 1) then "pipe" else c.infile))
  }

  function Marks(cmds: seq<Entity>): (ms: seq<Entity>)
    ensures |ms| == |cmds| && forall i :: 0 <= i < |cmds| ==> ms[i] == MarkedEntity(cmds, i)
  {
    seq(|cmds|, i requires 0 <= i < |cmds| => MarkedEntity(cmds, i))
  }

  datatype Parsed = Undefined | Parsed(cmds: seq<Entity>, background: bool)

  predicate EndsWith(cmds: seq<Entity>, delim: string) {
    cmds != [] && cmds[|cmds| - 1] == Del(delim)
  }

  /** Behind a `|` at the end the parser reads past the list; an `&` at the end is the background sign. */
  function Finish(cmds: seq<Entity>): Parsed {
    if EndsWith(cmds, "|") then Undefined
    else if EndsWith(cmds, "&") then Parsed(Marks(cmds)[..|cmds| - 1], true)
    else Parsed(Marks(cmds), false)
  }

  function ParseLine(line: string): Parsed {
    match Pieces(Encoded(line), [])
    case None => Undefined
    case Some(cmds) => Finish(cmds)
  }

  class Parser {
    var cmds: seq<Entity>
    var bkgrMode: bool

    constructor ()
      ensures cmds == [] && !bkgrMode
    {
      cmds, bkgrMode := [], false;
    }

    method AddCommand(str: string) returns (defined: bool)
      modifies this`cmds
      ensures defined <==> Strip(Tokens(str), NoCommand).Some?
      ensures defined ==> cmds == old(cmds) + [Cmd(Strip(Tokens(str), NoCommand).value)]
    {
      var parts := Tokenise(str);
      var c := TakeRedirections(parts);
      defined := c.Some?;
      if defined {
        cmds := cmds + [Cmd(c.value)];
      }
    }

    method AddDelim(str: string)
      modifies this`cmds
      ensures cmds == old(cmds) + [Del(DelimText(str))]
    {
      if str == "@" {
        cmds := cmds + [Del("||")];
      } else if str == "$" {
        cmds := cmds + [Del("&&")];
      } else {
        cmds := cmds + [Del(str)];
      }
    }

    method Cut(instructs: string) returns (defined: bool)
      requires cmds == []
      modifies this`cmds
      ensures defined <==> Pieces(instructs, []).Some?
      ensures defined ==> cmds == Pieces(instructs, []).value
    {
      defined := true;
      var pos := 0;
      assert instructs[pos..] == instructs;
      while pos < |instructs|
        invariant defined && pos <= |instructs| && Later(instructs, pos, cmds) == Pieces(instructs, [])
        decreases |instructs| - pos
      {
        var found := FindFirstOf(instructs, SYMBOLS, pos);
        PieceStep(instructs, pos, found, cmds);
        defined := AddCommand(instructs[pos..found]);
        if !defined || found == |instructs| { return; }
        AddDelim([instructs[found]]);
        pos := found + 1;
      }
      assert instructs[pos..] == [];
    }

    /** Marks the two streams of every pipe. */
    method MarkPipes() returns (defined: bool)
      requires Alternates(cmds)
      modifies this`cmds
      ensures defined <==> !EndsWith(old(cmds), "|")
      ensures defined ==> cmds == Marks(old(cmds))
    {
      ghost var was := cmds;
      for iter := 0 to |cmds|
        invariant |cmds| == |was| && (iter == |was| ==> !EndsWith(was, "|"))
        invariant forall i :: 0 <= i < |was| ==> cmds[i] == MarkedUpTo(was, iter, i)
      {
        MarkOne(was, cmds, iter);
        if cmds[iter] == Del("|") {
          if iter + 1 == |cmds| { return false; }
          cmds := cmds[iter - 1 := Cmd(cmds[iter - 1].cmd.(outfile := "pipe"))];
          cmds := cmds[iter + 1 := Cmd(cmds[iter + 1].cmd.(infile := "pipe"))];
        }
      }
      defined := true;
      assert forall i :: 0 <= i < |was| ==> MarkedUpTo(was, |was|, i) == MarkedEntity(was, i);
    }

    method Parse(line: string) returns (defined: bool)
      modifies this
      ensures defined <==> ParseLine(line).Parsed?
      ensures defined ==> ParseLine(line) == Parsed(cmds, bkgrMode)
    {
      cmds := [];
      bkgrMode := false;
      var instructs := Replace(line, "||", "@");
      instructs := Replace(instructs, "&&", "$");
      defined := Cut(instructs);
      if !defined { return; }
      PiecesAlternate(instructs, []);
      ghost var was := cmds;
      defined := MarkPipes();
      if !defined { return; }
      assert cmds != [] ==> cmds[|cmds| - 1] == MarkedEntity(was, |cmds| - 1);
      if EndsWith(cmds, "&") {
        bkgrMode := true;
        cmds := cmds[..|cmds| - 1];
      }
    }
  }

  /** The entity at position `i` when the marks of the delimiters before `iter` have been made. */
  ghost function MarkedUpTo(cmds: seq<Entity>, iter: nat, i: nat): Entity
    requires i < |cmds| && iter <= |cmds|
  {
    match cmds[i]
    case Del(_) => cmds[i]
    case Cmd(c) =>
      Cmd(c.(outfile := if i + 1 < iter && PipeAt(cmds, i + 1) then "pipe" else c.outfile,
             infile := if i - 1 < iter && PipeAt(cmds, i - 1) then "pipe" else c.infile))
  }

  /** What will have been read in the end. */
  ghost function Later(s: string, pos: nat, cmds: seq<Entity>): Option<seq<Entity>> {
    if pos <= |s| then Pieces(s[pos..], cmds) else None
  }

  lemma PieceStep(instructs: string, pos: nat, found: nat, cmds: seq<Entity>)
    requires pos < |instructs| && found == FindFirstOf(instructs, SYMBOLS, pos)
    ensures var c := Strip(Tokens(instructs[pos..found]), NoCommand);
            Later(instructs, pos, cmds) ==
            if c.None? then None
            else if found == |instructs| then Some(cmds + [Cmd(c.value)])
            else Later(instructs, found + 1, cmds + [Cmd(c.value)] + [Del(DelimText([instructs[found]]))])
  {
    var rest := instructs[pos..];
    var k := found - pos;
    assert rest[..k] == instructs[pos..found] && rest[k..] == instructs[found..];
    if found < |instructs| {
      assert rest[k] == instructs[found] && rest[k + 1..] == instructs[found + 1..];
      var c := Strip(Tokens(instructs[pos..found]), NoCommand);
      if c.Some? {
        var d := Del(DelimText([rest[k]]));
        assert cmds + [Cmd(c.value), d] == cmds + [Cmd(c.value)] + [d];
      }
    }
  }

  /** The marks of one more delimiter. */
  lemma MarkOne(was: seq<Entity>, cmds: seq<Entity>, iter: nat)
    requires Alternates(was) && |cmds| == |was| && iter < |was|
    requires forall i :: 0 <= i < |was| ==> cmds[i] == MarkedUpTo(was, iter, i)
    ensures cmds[iter] == Del("|") <==> was[iter] == Del("|")
    ensures was[iter] != Del("|") ==> forall i :: 0 <= i < |was| ==> cmds[i] == MarkedUpTo(was, iter + 1, i)
    ensures was[iter] == Del("|") ==>
              0 < iter && cmds[iter - 1].Cmd? && (iter + 1 < |was| ==> cmds[iter + 1].Cmd?) &&
              forall i :: 0 <= i < |was| ==>
                MarkedUpTo(was, iter + 1, i) ==
                if i == iter - 1 then Cmd(cmds[i].cmd.(outfile := "pipe"))
                else if i == iter + 1 then Cmd(cmds[i].cmd.(infile := "pipe")) else cmds[i]
  {
  }

  lemma {:induction false} PiecesAlternate(s: string, acc: seq<Entity>)
    requires Alternates(acc) && |acc| % 2 == 0
    ensures Pieces(s, acc).Some? ==> Alternates(Pieces(s, acc).value)
    decreases |s|
  {
    if s != [] {
      var k := FirstOf(s, SYMBOLS);
      var c := Strip(Tokens(s[..k]), NoCommand);
      if c.Some? && k < |s| {
        PiecesAlternate(s[k + 1..], acc + [Cmd(c.value), Del(DelimText([s[k]]))]);
      }
    }
  }
}
