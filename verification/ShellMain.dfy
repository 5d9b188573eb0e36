/** The loop of the shell: from the text of a line to its commands, connected and waited for. */
module ShellMain {
  import opened ShellLine
  import opened ShellParser
  import opened ShellWait
  import opened ShellRun
  import opened ShellText

  /** What stands in the line, before the marks. */
  function Written(line: string): seq<Entity>
    requires ParseLine(line).Parsed?
  {
    Pieces(Encoded(line), []).value
  }

  /** The list of a foreground line is marked exactly, unless a file has the name of the mark. */
  lemma ForegroundMarks(line: string)
    requires ParseLine(line).Parsed? && !ParseLine(line).background
    ensures Alternates(ParseLine(line).cmds) && (Marked(ParseLine(line).cmds) <==> NoFileNamedPipe(Written(line)))
  {
    PiecesAlternate(Encoded(line), []);
    MarksAreExact(Written(line));
  }

  lemma CompleteLine(line: string)
    requires ParseLine(line).Parsed?
    ensures Complete(ParseLine(line).cmds)
  {
    if ParseLine(line).cmds != [] {
      var l := ParsedIsALine(line);
    }
  }

  /** Without other children, a run of a line does what the line means exactly when it is clean. */
  lemma MeaningOfRun(cmds: seq<Entity>, l: Line, walk: seq<Walker>, unset: Status, n: nat, exits: Exits)
    requires Complete(cmds) && ListOf(cmds, l) && FullWalk(cmds, walk, {}, unset, n, exits)
    ensures walk[|walk| - 1].waiting == {}
    ensures walk[|walk| - 1].o == Eval(l, n, exits) <==> Clean(l, n, exits)
    ensures Clean(l, n, exits) ==> StagesTogether(cmds, walk[|walk| - 1].o.ran)
  {
    QuietWalk(cmds, walk, unset, n, exits);
    RunIsEvalExactly(cmds, l, unset, n, exits);
    if Clean(l, n, exits) {
      CleanLineIsConnected(cmds, l, unset, n, exits);
    }
  }

  /** One round of the shell, after the children `gone` have been found to have ended: the line is parsed
      and run, in the foreground here and in the background by a copy of the shell.  In the foreground
      `walk` is what happened, whatever children are outstanding; without any, it is what the line means. */
  method Interpret(parser: Parser, shell: Shell, gone: set<nat>, line: string, unset: Status)
    returns (defined: bool, status: Status, ghost l: Line, ghost walk: seq<Walker>)
    requires parser as object != shell as object
    modifies parser, shell`table, shell`children, shell`waiting
    ensures defined <==> ParseLine(line).Parsed?
    ensures defined ==> ParseLine(line) == Parsed(parser.cmds, parser.bkgrMode) && Complete(parser.cmds)
    ensures |old(shell.children)| <= |shell.children| && shell.children[..|old(shell.children)|] == old(shell.children)
    ensures !defined ==> shell.children == old(shell.children) && shell.table == old(shell.table)
    ensures defined && parser.bkgrMode ==>
              && |shell.children| == |old(shell.children)| + 1 && shell.table == old(shell.table)
              && shell.waiting == old(shell.waiting) - gone + {|old(shell.children)|}
    ensures defined && !parser.bkgrMode ==>
              var n, exits := |old(shell.children)|, shell.world.exits;
              && FullWalk(parser.cmds, walk, old(shell.waiting) - gone, unset, n, exits)
              && walk[|walk| - 1].o == Outcome(Started(shell.children[n..]), status)
              && walk[|walk| - 1].waiting == shell.waiting
    ensures defined && !parser.bkgrMode && parser.cmds != [] && old(shell.waiting) <= gone ==>
              var n, exits := |old(shell.children)|, shell.world.exits;
              var ran := Outcome(Started(shell.children[n..]), status);
              var base := Kept(old(shell.table));
              && ListOf(parser.cmds, l) && shell.waiting == {}
              && (ran == Eval(l, n, exits) <==> Clean(l, n, exits))
              && (NoFileNamedPipe(Written(line)) && shell.Ready(base) && Clean(l, n, exits) ==>
                    Kept(shell.table) == base && shell.AllWired(parser.cmds, n, base))
  {
    l, walk := Only(Last(Command([], "", ""))), [];
    status := unset;
    shell.Reap(gone);
    defined := parser.Parse(line);
    if !defined { return; }
    CompleteLine(line);
    if parser.bkgrMode {
      var pid := shell.Spawn();
      return;
    }
    ForegroundMarks(line);
    status, walk := shell.Run(parser.cmds, unset);
    if parser.cmds != [] && old(shell.waiting) <= gone {
      l := ParsedIsALine(line);
      MeaningOfRun(parser.cmds, l, walk, unset, |old(shell.children)|, shell.world.exits);
    }
  }
}
