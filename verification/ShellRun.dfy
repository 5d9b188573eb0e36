/**
  The shell running a list: the table of open descriptors, the children, and the walk itself.  A pipe is
  named by the number of the child that writes into it.
 */
module ShellRun {
  import opened Common
  import opened ShellLine
  import opened ShellWait

  /** What a descriptor refers to. */
  datatype File =
    | Terminal(name: string)
    | Reading(path: string)
    | Writing(path: string)
    | PipeOut(pipe: nat)
    | PipeIn(pipe: nat)

  /** A descriptor that is marked is closed when a program is executed. */
  datatype Entry = Entry(file: File, cloexec: bool)

  type Table = map<int, Entry>

  const STDIN: int := 0
  const STDOUT: int := 1

  /** The lowest number, from `from` on, that is not in use. */
  function LowestFree(used: set<int>, from: int): (fd: int)
    ensures fd >= from && fd !in used
    decreases |used|
  {
    if from in used then LowestFree(used - {from}, from + 1) else from
  }

  /** `dup2`: the copy is kept across `exec`; a number that is not open changes nothing. */
  function Dup2(t: Table, from: int, to: int): Table {
    if from !in t || from == to then t else t[to := Entry(t[from].file, false)]
  }

  function Close(t: Table, fd: int): Table {
    t - {fd}
  }

  function SetCloexec(t: Table, fd: int, on: bool): Table {
    if fd in t then t[fd := t[fd].(cloexec := on)] else t
  }

  /** What a program that is executed finds open. */
  function Exec(t: Table): map<int, File> {
    map fd | fd in t && !t[fd].cloexec :: t[fd].file
  }

  /** The descriptors that stay open between commands. */
  function Kept(t: Table): Table {
    t - {STDIN, STDOUT}
  }

  /** A child: the position of its command, and the files that the command found open.  A copy of the
      shell that runs a background line has position 0 and all files of the shell. */
  datatype Child = Child(at: nat, files: map<int, File>)

  // ---------------------------------------------------------------- what is promised

  ghost predicate MarkedAt(cmds: seq<Entity>, i: nat)
    requires Alternates(cmds) && i % 2 == 0 && i < |cmds|
  {
    && (cmds[i].cmd.outfile == "pipe" <==> DelimAt(cmds, i + 1) == "|")
    && (cmds[i].cmd.infile == "pipe" <==> DelimAt(cmds, i - 1) == "|")
  }

  /** The parser's marks: a stream is a pipe exactly when the delimiter on that side is `|`. */
  ghost predicate Marked(cmds: seq<Entity>)
    requires Alternates(cmds)
  {
    forall i: nat :: i < |cmds| && i % 2 == 0 ==> MarkedAt(cmds, i)
  }

  /** What can happen outside: how the children end, and which files can be opened for the n-th child. */
  datatype World = World(exits: Exits, readable: (nat, string) -> bool, writable: (nat, string) -> bool)

  /** The standard input of the n-th child: the pipe of the child before it, the file that its command
      names, or the shell's own, also when the file cannot be opened. */
  ghost predicate InputOf(c: Command, n: nat, own: File, w: World, f: File) {
    if c.infile == "pipe" then n > 0 && f == PipeOut(n - 1)
    else f == if c.infile != "" && w.readable(n, c.infile) then Reading(c.infile) else own
  }

  ghost predicate OutputOf(c: Command, n: nat, own: File, w: World, f: File) {
    f == if c.outfile == "pipe" then PipeIn(n)
         else if c.outfile != "" && w.writable(n, c.outfile) then Writing(c.outfile)
         else own
  }

  /** The n-th child has its two streams, and otherwise only what the shell had before. */
  ghost predicate Wired(c: Command, n: nat, files: map<int, File>, base: Table, fdStdin: int, fdStdout: int, w: World)
    requires fdStdin in base && fdStdout in base
  {
    && STDIN in files && InputOf(c, n, base[fdStdin].file, w, files[STDIN])
    && STDOUT in files && OutputOf(c, n, base[fdStdout].file, w, files[STDOUT])
    && files - {STDIN, STDOUT} == Exec(base)
  }

  /** Between commands the shell holds, besides what it had, at most the reading end of the pipe of the
      last child. */
  ghost predicate Holds(t: Table, base: Table, pending: bool, readEnd: int, n: nat) {
    if pending
    then n > 0 && readEnd > STDOUT && readEnd !in base && Kept(t) == base[readEnd := Entry(PipeOut(n - 1), true)]
    else Kept(t) == base
  }

  /** Every command behind a `|` was started right after the one before the `|`. */
  ghost predicate StagesTogether(cmds: seq<Entity>, ran: seq<nat>) {
    forall k :: 0 <= k < |ran| && 0 < ran[k] <= |cmds| && cmds[ran[k] - 1] == Del("|") ==> k > 0 && ran[k - 1] + 2 == ran[k]
  }

  // ---------------------------------------------------------------- the table around one launch

  /** Taking up the two standard descriptors leaves the others as they are. */
  lemma Occupied(t: Table, from: int, to: int)
    requires from in t && from > STDOUT && (to == STDIN || to == STDOUT)
    ensures Kept(Dup2(t, from, to)) == Kept(t) && Dup2(t, from, to)[to] == Entry(t[from].file, false)
  {
  }

  lemma KeptEntry(t: Table, fd: int)
    requires fd > STDOUT
    ensures fd in t <==> fd in Kept(t)
    ensures fd in t ==> t[fd] == Kept(t)[fd]
  {
  }

  /** Taking over the pipe gives up the shell's own end of it. */
  lemma PipeTaken(t: Table, base: Table, readEnd: int, n: nat, e: Entry)
    requires Holds(t, base, true, readEnd, n)
    ensures readEnd in t && t[readEnd] == Entry(PipeOut(n - 1), true)
    ensures Kept((t - {readEnd})[STDIN := e]) == base
  {
    KeptEntry(t, readEnd);
    assert STDIN !in Kept(t) && STDOUT !in Kept(t);
    var t' := (t - {readEnd})[STDIN := e];
    forall fd: int
      ensures fd in Kept(t') <==> fd in base
      ensures fd in base ==> Kept(t')[fd] == base[fd]
    {
      if fd > STDOUT { KeptEntry(t, fd); }
      assert fd in Kept(t) <==> fd in base || fd == readEnd;
    }
  }

  lemma KeptAfter(t: Table, e: Entry)
    ensures Kept(t[STDIN := e]) == Kept(t) && Kept(t[STDOUT := e]) == Kept(t)
  {
  }

  /** A marked descriptor is not passed on. */
  lemma PassedOn(t: Table, base: Table, pending: bool, readEnd: int, n: nat)
    requires Holds(t, base, pending, readEnd, n)
    ensures Exec(t) - {STDIN, STDOUT} == Exec(base)
    ensures STDIN in t && !t[STDIN].cloexec ==> STDIN in Exec(t) && Exec(t)[STDIN] == t[STDIN].file
    ensures STDOUT in t && !t[STDOUT].cloexec ==> STDOUT in Exec(t) && Exec(t)[STDOUT] == t[STDOUT].file
  {
    assert STDIN !in Kept(t) && STDOUT !in Kept(t);
    forall fd | fd > STDOUT || fd < STDIN
      ensures fd in Exec(t) <==> fd in Exec(base)
      ensures fd in Exec(t) ==> Exec(t)[fd] == Exec(base)[fd]
    {
      assert fd in t <==> fd in Kept(t);
      assert fd in t ==> t[fd] == Kept(t)[fd];
    }
  }

  // ---------------------------------------------------------------- the shell

  class Shell {
    const fdStdin: int
    const fdStdout: int
    const world: World
    var table: Table
    /** Every child that has been started, and the numbers of those that have not been waited for. */
    var children: seq<Child>
    var waiting: set<nat>

    constructor (table: Table, fdStdin: int, fdStdout: int, world: World)
      ensures this.table == table && this.fdStdin == fdStdin && this.fdStdout == fdStdout && this.world == world
      ensures children == [] && waiting == {}
    {
      this.table, this.fdStdin, this.fdStdout, this.world := table, fdStdin, fdStdout, world;
      children, waiting := [], {};
    }

    /** The copies of the terminal's descriptors that the shell has made for itself. */
    ghost predicate Ready(base: Table) {
      fdStdin in base && fdStdout in base && fdStdin > STDOUT && fdStdout > STDOUT
    }

    /** The standard input is what the command asks for; any descriptor used on the way is closed again. */
    ghost predicate InputDone(cmd: Command, t: Table, readEnd: int, n: nat, t': Table) {
      && (cmd.infile == "pipe" && readEnd in t && readEnd > STDOUT ==>
            t' == (t - {readEnd})[STDIN := Entry(t[readEnd].file, false)])
      && (cmd.infile != "pipe" && cmd.infile != "" && STDIN in t ==>
            t' == if world.readable(n, cmd.infile) then t[STDIN := Entry(Reading(cmd.infile), false)] else t)
      && (cmd.infile == "" && fdStdin in t && fdStdin > STDOUT ==>
            t' == t[STDIN := Entry(t[fdStdin].file, false)])
    }

    /** The same for the standard output; of a new pipe the reading end stays, marked. */
    ghost predicate OutputDone(cmd: Command, t: Table, newEnd: int, n: nat, t': Table) {
      && (cmd.outfile == "pipe" && STDIN in t && STDOUT in t ==>
            && newEnd > STDOUT && newEnd !in t
            && t' == t[newEnd := Entry(PipeOut(n), true)][STDOUT := Entry(PipeIn(n), false)])
      && (cmd.outfile != "pipe" && cmd.outfile != "" && STDIN in t && STDOUT in t ==>
            t' == if world.writable(n, cmd.outfile) then t[STDOUT := Entry(Writing(cmd.outfile), false)] else t)
      && (cmd.outfile == "" && fdStdout in t && fdStdout > STDOUT ==>
            t' == t[STDOUT := Entry(t[fdStdout].file, false)])
    }

    /** Waits `cnt` times, for whichever children end first. */
    method Collect(cnt: nat, curPid: nat, before: Status) returns (status: Status)
      modifies this`waiting
      ensures Waited(old(waiting), cnt, curPid, before, world.exits, waiting, status)
    {
      status := before;
      for i := 0 to cnt
        invariant Waited(old(waiting), i, curPid, before, world.exits, waiting, status)
      {
        if waiting != {} {
          var pid := AnyOf(waiting);
          waiting := waiting - {pid};
          if pid == curPid {
            status := world.exits(pid);
          }
        }
      }
    }

    method ForwardInput(cmd: Command, readEnd: int)
      modifies this`table
      ensures InputDone(cmd, old(table), readEnd, |children|, table)
    {
      if cmd.infile == "pipe" {
        table := SetCloexec(table, readEnd, false);
        table := Dup2(table, readEnd, STDIN);
        table := Close(table, readEnd);
      } else if cmd.infile != "" {
        var fd := -1;
        if world.readable(|children|, cmd.infile) {
          fd := LowestFree(table.Keys, 0);
          table := table[fd := Entry(Reading(cmd.infile), false)];
          table := Dup2(table, fd, STDIN);
          table := Close(table, fd);
        }
      } else {
        table := Dup2(table, fdStdin, STDIN);
      }
    }

    method ForwardOutput(cmd: Command, readEnd: int) returns (newEnd: int)
      modifies this`table
      ensures OutputDone(cmd, old(table), newEnd, |children|, table)
    {
      newEnd := readEnd;
      if cmd.outfile == "pipe" {
        newEnd := LowestFree(table.Keys, 0);
        var writeEnd := LowestFree(table.Keys + {newEnd}, 0);
        table := table[newEnd := Entry(PipeOut(|children|), false)][writeEnd := Entry(PipeIn(|children|), false)];
        table := SetCloexec(table, writeEnd, false);
        table := SetCloexec(table, newEnd, true);
        table := Dup2(table, writeEnd, STDOUT);
        table := Close(table, writeEnd);
      } else if cmd.outfile != "" {
        if world.writable(|children|, cmd.outfile) {
          var fd := LowestFree(table.Keys, 0);
          table := table[fd := Entry(Writing(cmd.outfile), false)];
          table := Dup2(table, fd, STDOUT);
          table := Close(table, fd);
        }
      } else {
        table := Dup2(table, fdStdout, STDOUT);
      }
    }

    /** Starts one command, connected as it asks for. */
    method Launch(at: nat, cmd: Command, readEnd: int, ghost base: Table, ghost pending: bool)
      returns (pid: nat, newEnd: int)
      modifies this`table, this`children, this`waiting
      ensures pid == |old(children)| && |children| == pid + 1
      ensures children[..pid] == old(children) && children[pid].at == at && waiting == old(waiting) + {pid}
      ensures Ready(base) && Holds(old(table), base, pending, readEnd, pid) && (cmd.infile == "pipe" <==> pending) ==>
                && Wired(cmd, pid, children[pid].files, base, fdStdin, fdStdout, world)
                && Holds(table, base, cmd.outfile == "pipe", newEnd, pid + 1)
    {
      ghost var t0, n := table, |children|;
      table := Dup2(table, fdStdin, STDIN);
      table := Dup2(table, fdStdout, STDOUT);
      ghost var t1 := table;
      ForwardInput(cmd, readEnd);
      ghost var t2 := table;
      newEnd := ForwardOutput(cmd, readEnd);
      ghost var t3 := table;
      pid := |children|;
      children := children + [Child(at, Exec(table))];
      waiting := waiting + {pid};
      table := Close(table, STDIN);
      table := Close(table, STDOUT);
      if Ready(base) && Holds(t0, base, pending, readEnd, n) && (cmd.infile == "pipe" <==> pending) {
        AroundLaunch(cmd, t0, t1, t2, t3, base, pending, readEnd, newEnd, n);
        assert table == Kept(t3);
      }
    }

    /** The table when both streams are taken up. */
    ghost predicate Set(t: Table, base: Table, pending: bool, readEnd: int, n: nat, input: File, output: File) {
      && Holds(t, base, pending, readEnd, n)
      && STDIN in t && t[STDIN] == Entry(input, false)
      && STDOUT in t && t[STDOUT] == Entry(output, false)
    }

    lemma AroundInput(cmd: Command, t0: Table, t1: Table, t2: Table, base: Table, pending: bool, readEnd: int, n: nat)
      returns (input: File)
      requires Ready(base) && Holds(t0, base, pending, readEnd, n) && (cmd.infile == "pipe" <==> pending)
      requires t1 == Dup2(Dup2(t0, fdStdin, STDIN), fdStdout, STDOUT) && InputDone(cmd, t1, readEnd, n, t2)
      ensures Set(t2, base, false, readEnd, n, input, base[fdStdout].file)
      ensures InputOf(cmd, n, base[fdStdin].file, world, input)
    {
      KeptEntry(t0, fdStdin);
      KeptEntry(t0, fdStdout);
      Occupied(t0, fdStdin, STDIN);
      Occupied(Dup2(t0, fdStdin, STDIN), fdStdout, STDOUT);
      assert Set(t1, base, pending, readEnd, n, base[fdStdin].file, base[fdStdout].file);
      KeptEntry(t1, fdStdin);
      if pending {
        PipeTaken(t1, base, readEnd, n, Entry(PipeOut(n - 1), false));
        input := PipeOut(n - 1);
      } else if cmd.infile != "" && world.readable(n, cmd.infile) {
        input := Reading(cmd.infile);
        KeptAfter(t1, Entry(input, false));
      } else {
        input := base[fdStdin].file;
        KeptAfter(t1, Entry(input, false));
      }
    }

    lemma AroundOutput(cmd: Command, t2: Table, t3: Table, base: Table, newEnd: int, n: nat, input: File)
      returns (output: File)
      requires Ready(base) && Set(t2, base, false, newEnd, n, input, base[fdStdout].file)
      requires OutputDone(cmd, t2, newEnd, n, t3)
      ensures Set(t3, base, cmd.outfile == "pipe", newEnd, n + 1, input, output)
      ensures OutputOf(cmd, n, base[fdStdout].file, world, output)
    {
      KeptEntry(t2, fdStdout);
      if cmd.outfile == "pipe" {
        output := PipeIn(n);
        KeptAfter(t2[newEnd := Entry(PipeOut(n), true)], Entry(output, false));
        assert Kept(t2[newEnd := Entry(PipeOut(n), true)]) == base[newEnd := Entry(PipeOut(n), true)];
        KeptEntry(t2, newEnd);
      } else {
        output := if cmd.outfile != "" && world.writable(n, cmd.outfile) then Writing(cmd.outfile) else base[fdStdout].file;
        KeptAfter(t2, Entry(output, false));
      }
    }

    /** What the steps of one launch come to. */
    lemma AroundLaunch(cmd: Command, t0: Table, t1: Table, t2: Table, t3: Table, base: Table, pending: bool,
                       readEnd: int, newEnd: int, n: nat)
      requires Ready(base) && Holds(t0, base, pending, readEnd, n) && (cmd.infile == "pipe" <==> pending)
      requires t1 == Dup2(Dup2(t0, fdStdin, STDIN), fdStdout, STDOUT)
      requires InputDone(cmd, t1, readEnd, n, t2) && OutputDone(cmd, t2, newEnd, n, t3)
      ensures Wired(cmd, n, Exec(t3), base, fdStdin, fdStdout, world)
      ensures Holds(t3, base, cmd.outfile == "pipe", newEnd, n + 1)
    {
      var input := AroundInput(cmd, t0, t1, t2, base, pending, readEnd, n);
      var output := AroundOutput(cmd, t2, t3, base, newEnd, n, input);
      PassedOn(t3, base, cmd.outfile == "pipe", newEnd, n + 1);
    }

    /** The n-th child and the later ones are connected as their commands ask for. */
    ghost predicate AllWired(cmds: seq<Entity>, n0: nat, base: Table)
      reads this`children
      requires Ready(base)
    {
      forall n :: n0 <= n < |children| ==>
        && children[n].at < |cmds| && cmds[children[n].at].Cmd?
        && Wired(cmds[children[n].at].cmd, n, children[n].files, base, fdStdin, fdStdout, world)
    }

    /** The descriptors at position `i`, when `ran` has been started. */
    ghost predicate Wiring(cmds: seq<Entity>, n0: nat, base: Table, ran: seq<nat>, i: nat, prevOp: string, readEnd: int)
      reads this`children, this`table
      requires Alternates(cmds)
    {
      Marked(cmds) && Ready(base) && StagesTogether(cmds, ran) ==>
        AllWired(cmds, n0, base) && Holds(table, base, Pending(ran, i, prevOp), readEnd, |children|)
    }

    /** Waits for all stages of a job if its end has been reached. */
    method FinishJob(delim: string, cntProc: nat, curPid: nat, before: Status) returns (cnt: nat, status: Status)
      modifies this`waiting
      ensures if Separates(delim)
              then cnt == 0 && Waited(old(waiting), cntProc, curPid, before, world.exits, waiting, status)
              else cnt == cntProc && status == before && waiting == old(waiting)
    {
      cnt, status := cntProc, before;
      if delim == "||" || delim == "&&" || delim == ";" {
        status := Collect(cntProc, curPid, status);
        cnt := 0;
      }
    }

    /** Starts the command at position `i`. */
    method LaunchAt(cmds: seq<Entity>, i: nat, readEnd: int, ghost prevOp: string,
                    ghost n0: nat, ghost base: Table, ghost ran: seq<nat>)
      returns (pid: nat, newEnd: int)
      requires Alternates(cmds) && i % 2 == 0 && i < |cmds| && prevOp == DelimAt(cmds, i - 1)
      requires n0 + |ran| == |children| && Wiring(cmds, n0, base, ran, i, prevOp, readEnd)
      modifies this`table, this`children, this`waiting
      ensures pid == |old(children)| && |children| == pid + 1 && children[..pid] == old(children)
      ensures children[pid].at == i && waiting == old(waiting) + {pid}
      ensures Wiring(cmds, n0, base, ran + [i], i + 2, DelimAt(cmds, i + 1), newEnd)
    {
      ghost var pending := Pending(ran, i, prevOp);
      ghost var was := children;
      if Marked(cmds) && StagesTogether(cmds, ran + [i]) {
        StagesExtend(cmds, ran, i);
        assert MarkedAt(cmds, i);
        assert cmds[i].cmd.infile == "pipe" <==> pending;
      }
      pid, newEnd := Launch(i, cmds[i].cmd, readEnd, base, pending);
      assert forall n :: 0 <= n < |was| ==> children[n] == children[..pid][n] == was[n];
    }

    /** Runs the command at position `i` and, behind the last stage of a job, waits for the job. */
    method RunCommand(cmds: seq<Entity>, i: nat, readEnd: int, cntProc: nat, before: Status, ghost prevOp: string,
                      ghost n0: nat, ghost base: Table, ghost ran: seq<nat>)
      returns (newEnd: int, cnt: nat, status: Status)
      requires Alternates(cmds) && i % 2 == 0 && i < |cmds| && prevOp == DelimAt(cmds, i - 1)
      requires n0 + |ran| == |children| && !Skips(prevOp, before) && Wiring(cmds, n0, base, ran, i, prevOp, readEnd)
      modifies this`table, this`children, this`waiting
      ensures |children| == |old(children)| + 1 && children[..|old(children)|] == old(children)
      ensures children[|old(children)|].at == i
      ensures Moves(cmds, Walker(i, prevOp, Outcome(ran, before), old(waiting), cntProc),
                    Walker(i + 2, DelimAt(cmds, i + 1), Outcome(ran + [i], status), waiting, cnt), n0, world.exits)
      ensures Wiring(cmds, n0, base, ran + [i], i + 2, DelimAt(cmds, i + 1), newEnd)
    {
      var curPid;
      curPid, newEnd := LaunchAt(cmds, i, readEnd, prevOp, n0, base, ran);
      cnt, status := FinishJob(DelimAt(cmds, i + 1), cntProc + 1, curPid, before);
    }

    /** An operand that is passed over changes no descriptor. */
    lemma PassedOver(cmds: seq<Entity>, i: nat, readEnd: int, prevOp: string, n0: nat, base: Table, ran: seq<nat>)
      requires Alternates(cmds) && i % 2 == 0 && i < |cmds| && (ran != [] ==> ran[|ran| - 1] < i)
      requires prevOp != "|" && Wiring(cmds, n0, base, ran, i, prevOp, readEnd)
      ensures Wiring(cmds, n0, base, ran, i + 2, DelimAt(cmds, i + 1), readEnd)
    {
    }

    /** At the end of the list no pipe is left. */
    lemma AtTheEnd(cmds: seq<Entity>, i: nat, readEnd: int, prevOp: string, n0: nat, base: Table, ran: seq<nat>)
      requires Complete(cmds) && i % 2 == 0 && |cmds| <= i <= |cmds| + 1 && prevOp == DelimAt(cmds, i - 1)
      requires Wiring(cmds, n0, base, ran, i, prevOp, readEnd) && Marked(cmds) && Ready(base) && StagesTogether(cmds, ran)
      ensures AllWired(cmds, n0, base) && Kept(table) == base
    {
    }

    /** One round of the loop: the command at position `i` is run or passed over. */
    method RunNext(cmds: seq<Entity>, i: nat, readEnd: int, cntProc: nat, before: Status, prevOp: string,
                   ghost n0: nat, ghost base: Table, ghost ran: seq<nat>)
      returns (newEnd: int, cnt: nat, status: Status, ghost ran': seq<nat>)
      requires Alternates(cmds) && i % 2 == 0 && i < |cmds| && prevOp == DelimAt(cmds, i - 1) && (ran != [] ==> ran[|ran| - 1] < i)
      requires n0 <= |children| && ran == Started(children[n0..]) && Wiring(cmds, n0, base, ran, i, prevOp, readEnd)
      modifies this`table, this`children, this`waiting
      ensures |old(children)| <= |children| && children[..n0] == old(children[..n0]) && ran' == Started(children[n0..])
      ensures ran' != [] ==> ran'[|ran'| - 1] < i + 2
      ensures Moves(cmds, Walker(i, prevOp, Outcome(ran, before), old(waiting), cntProc),
                    Walker(i + 2, DelimAt(cmds, i + 1), Outcome(ran', status), waiting, cnt), n0, world.exits)
      ensures Wiring(cmds, n0, base, ran', i + 2, DelimAt(cmds, i + 1), newEnd)
    {
      ghost var was := children;
      newEnd, cnt, status, ran' := readEnd, cntProc, before, ran;
      if Skips(prevOp, before) {
        PassedOver(cmds, i, readEnd, prevOp, n0, base, ran);
      } else {
        newEnd, cnt, status := RunCommand(cmds, i, readEnd, cntProc, before, prevOp, n0, base, ran);
        OneMore(was, children, n0);
        ran' := ran + [i];
      }
    }

    /** The state of the loop: the walk so far, the children since the n0-th, and the descriptors. */
    ghost predicate Running(cmds: seq<Entity>, i: nat, prevOp: string, cnt: nat, status: Status, readEnd: int,
                            n0: nat, base: Table, walk: seq<Walker>, first: Walker)
      reads this`table, this`children, this`waiting
      requires Alternates(cmds)
    {
      && i % 2 == 0 && i <= |cmds| + 1 && prevOp == DelimAt(cmds, i - 1) && n0 <= |children|
      && WalkFrom(cmds, walk, first, n0, world.exits)
      && var ran := Started(children[n0..]);
         && walk[|walk| - 1] == Walker(i, prevOp, Outcome(ran, status), waiting, cnt)
         && (ran != [] ==> ran[|ran| - 1] < i) && Wiring(cmds, n0, base, ran, i, prevOp, readEnd)
    }

    method Round(cmds: seq<Entity>, i: nat, readEnd: int, cntProc: nat, before: Status, prevOp: string,
                 ghost n0: nat, ghost base: Table, ghost walk: seq<Walker>, ghost first: Walker)
      returns (newEnd: int, cnt: nat, status: Status, ghost walk': seq<Walker>)
      requires Alternates(cmds) && i < |cmds| && Running(cmds, i, prevOp, cntProc, before, readEnd, n0, base, walk, first)
      modifies this`table, this`children, this`waiting
      ensures |old(children)| <= |children| && children[..n0] == old(children[..n0])
      ensures Running(cmds, i + 2, DelimAt(cmds, i + 1), cnt, status, newEnd, n0, base, walk', first)
    {
      ghost var ran := Started(children[n0..]);
      newEnd, cnt, status, ran := RunNext(cmds, i, readEnd, cntProc, before, prevOp, n0, base, ran);
      ghost var next := Walker(i + 2, DelimAt(cmds, i + 1), Outcome(ran, status), waiting, cnt);
      WalkSnoc(cmds, walk, first, next, n0, world.exits);
      walk' := walk + [next];
    }

    /** Children that have ended are noticed before the next line is read. */
    method Reap(gone: set<nat>)
      modifies this`waiting
      ensures waiting == old(waiting) - gone
    {
      waiting := waiting - gone;
    }

    /** A copy of the shell is left in the background. */
    method Spawn() returns (pid: nat)
      modifies this`children, this`waiting
      ensures pid == |old(children)| && |children| == pid + 1 && children[..pid] == old(children)
      ensures children[pid].files.Keys == table.Keys && waiting == old(waiting) + {pid}
    {
      pid := |children|;
      children := children + [Child(0, map fd | fd in table :: table[fd].file)];
      waiting := waiting + {pid};
    }

    /** Runs a whole list.  `unset` is what the status holds before the first wait.  Children that were
        left running before may be caught instead of the list's own; `walk` is what happened. */
    method Run(cmds: seq<Entity>, unset: Status) returns (curStatus: Status, ghost walk: seq<Walker>)
      requires Complete(cmds)
      modifies this`table, this`children, this`waiting
      ensures |old(children)| <= |children| && children[..|old(children)|] == old(children)
      ensures FullWalk(cmds, walk, old(waiting), unset, |old(children)|, world.exits)
      ensures walk[|walk| - 1].o == Outcome(Started(children[|old(children)|..]), curStatus)
      ensures walk[|walk| - 1].waiting == waiting
      ensures Marked(cmds) && Ready(Kept(old(table))) && StagesTogether(cmds, Started(children[|old(children)|..])) ==>
                Kept(table) == Kept(old(table)) && AllWired(cmds, |old(children)|, Kept(old(table)))
    {
      curStatus := unset;
      var cntProc := 0;
      var prevOp := "";
      var readEnd := -1;
      var i := 0;
      ghost var n0, base, first := |children|, Kept(table), First(waiting, unset);
      walk := [first];
      while i < |cmds|
        invariant 0 <= i && 0 <= cntProc && n0 <= |children| && children[..n0] == old(children)
        invariant Running(cmds, i, prevOp, cntProc, curStatus, readEnd, n0, base, walk, first)
      {
        readEnd, cntProc, curStatus, walk := Round(cmds, i, readEnd, cntProc, curStatus, prevOp, n0, base, walk, first);
        prevOp := DelimAt(cmds, i + 1);
        i := i + 2;
      }
      ghost var ran := Started(children[n0..]);
      if Marked(cmds) && Ready(base) && StagesTogether(cmds, ran) {
        AtTheEnd(cmds, i, readEnd, prevOp, n0, base, ran);
      }
    }
  }

  /** The command before a `|` was the last to be started. */
  ghost predicate Pending(ran: seq<nat>, i: nat, prevOp: string) {
    prevOp == "|" && ran != [] && ran[|ran| - 1] + 2 == i
  }

  /** The positions of the commands of some children. */
  function Started(cs: seq<Child>): (ps: seq<nat>)
    ensures |ps| == |cs| && forall k :: 0 <= k < |cs| ==> ps[k] == cs[k].at
  {
    seq(|cs|, k requires 0 <= k < |cs| => cs[k].at)
  }

  lemma OneMore(was: seq<Child>, cs: seq<Child>, n0: nat)
    requires n0 <= |was| && |cs| == |was| + 1 && cs[..|was|] == was
    ensures cs[..n0] == was[..n0] && Started(cs[n0..]) == Started(was[n0..]) + [cs[|was|].at]
  {
  }

  lemma StagesExtend(cmds: seq<Entity>, ran: seq<nat>, i: nat)
    requires StagesTogether(cmds, ran + [i]) && i <= |cmds|
    ensures StagesTogether(cmds, ran)
    ensures i > 0 && cmds[i - 1] == Del("|") ==> Pending(ran, i, "|")
  {
    var more := ran + [i];
    forall k | 0 <= k < |ran| && 0 < ran[k] <= |cmds| && cmds[ran[k] - 1] == Del("|")
      ensures k > 0 && ran[k - 1] + 2 == ran[k]
    {
      assert more[k] == ran[k];
      assert k > 0 ==> more[k - 1] == ran[k - 1];
    }
    assert more[|ran|] == i;
    assert |ran| > 0 ==> more[|ran| - 1] == ran[|ran| - 1];
  }

  // ---------------------------------------------------------------- what a clean line gives

  lemma TogetherGrows(cmds: seq<Entity>, ran: seq<nat>, at: nat)
    requires StagesTogether(cmds, ran)
    requires 0 < at <= |cmds| && cmds[at - 1] == Del("|") ==> Pending(ran, at, "|")
    ensures StagesTogether(cmds, ran + [at])
  {
  }

  lemma {:induction false} JobTogether(cmds: seq<Entity>, ran: seq<nat>, j: Job, at: nat)
    requires StagesTogether(cmds, ran + [at])
    ensures StagesTogether(cmds, ran + Positions(j, at))
    decreases j
  {
    if j.Stage? {
      var more := ran + [at];
      TogetherGrows(cmds, more, at + 2);
      JobTogether(cmds, more, j.rest, at + 2);
      assert more + Positions(j.rest, at + 2) == ran + Positions(j, at);
    }
  }

  lemma {:induction false} LineTogether(cmds: seq<Entity>, l: Line, n: nat, exits: Exits)
    requires At(cmds, 0, Flatten(l))
    ensures StagesTogether(cmds, Eval(l, n, exits).ran)
    decreases l
  {
    if l.Only? {
      JobTogether(cmds, [], l.job, 0);
      assert [] + Positions(l.job, 0) == Positions(l.job, 0);
    } else {
      PartsAreThere(cmds, l);
      LineTogether(cmds, l.line, n, exits);
      var at, o := |Flatten(l.line)| + 1, Eval(l.line, n, exits);
      if Goes(l.op, o.status) {
        assert cmds[at - 1] == Del(OperatorText(l.op));
        TogetherGrows(cmds, o.ran, at);
        JobTogether(cmds, o.ran, l.job, at);
      }
    }
  }

  /** A clean line never leaves a pipe with one end: what was started satisfies the condition under which
      a run connects every child and gives every pipe back. */
  lemma CleanLineIsConnected(cmds: seq<Entity>, l: Line, s: Status, n: nat, exits: Exits)
    requires ListOf(cmds, l) && Clean(l, n, exits)
    ensures StagesTogether(cmds, WalkAll(cmds, s, n, exits).ran)
  {
    RunIsEvalExactly(cmds, l, s, n, exits);
    LineTogether(cmds, l, n, exits);
  }
}
