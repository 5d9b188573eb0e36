/**
  Command lines of the shell: the flat list that the parser leaves, what walking along it runs, and what
  the line means.  Commands are named by their positions in the list, children by the order in which
  they are started.
 */
module ShellLine {

  /** An empty name means that the stream is not redirected. */
  datatype Command = Command(words: seq<string>, infile: string, outfile: string)

  datatype Entity = Cmd(cmd: Command) | Del(delim: string)

  /** How a child has ended. */
  datatype Status = Exited(code: nat) | Killed(signal: nat)

  predicate Success(s: Status) {
    s == Exited(0)
  }

  /** Stages that run side by side. */
  datatype Job = Last(cmd: Command) | Stage(cmd: Command, joint: Joint, rest: Job)

  datatype Joint = Pipe | Beside

  datatype Operator = Always | IfOk | IfFailed

  /** `a && b || c ; d` groups to the left. */
  datatype Line = Only(job: Job) | Then(line: Line, op: Operator, job: Job)

  function JointText(j: Joint): string {
    match j
    case Pipe => "|"
    case Beside => "&"
  }

  function OperatorText(o: Operator): string {
    match o
    case Always => ";"
    case IfOk => "&&"
    case IfFailed => "||"
  }

  function FlattenJob(j: Job): (cmds: seq<Entity>)
    ensures cmds != []
  {
    match j
    case Last(c) => [Cmd(c)]
    case Stage(c, joint, rest) => [Cmd(c), Del(JointText(joint))] + FlattenJob(rest)
  }

  function Flatten(l: Line): (cmds: seq<Entity>)
    ensures cmds != []
  {
    match l
    case Only(j) => FlattenJob(j)
    case Then(l, op, j) => Flatten(l) + [Del(OperatorText(op))] + FlattenJob(j)
  }

  // ---------------------------------------------------------------- what a line means

  /** The positions of the commands that were started, and the status that the line has. */
  datatype Outcome = Outcome(ran: seq<nat>, status: Status)

  /** The status of the child that is started as the n-th. */
  type Exits = nat -> Status

  function Stages(j: Job): (n: nat)
    ensures n >= 1
  {
    match j
    case Last(_) => 1
    case Stage(_, _, rest) => 1 + Stages(rest)
  }

  function Positions(j: Job, at: nat): (ps: seq<nat>)
    ensures |ps| == Stages(j)
  {
    match j
    case Last(_) => [at]
    case Stage(_, _, rest) => [at] + Positions(rest, at + 2)
  }

  predicate Goes(op: Operator, s: Status) {
    match op
    case Always => true
    case IfOk => Success(s)
    case IfFailed => !Success(s)
  }

  /** Every stage is started, and the status is that of the last one. */
  function JobOutcome(j: Job, at: nat, o: Outcome, n: nat, exits: Exits): Outcome {
    Outcome(o.ran + Positions(j, at), exits(n + |o.ran| + Stages(j) - 1))
  }

  lemma StageOutcome(j: Job, at: nat, o: Outcome, n: nat, exits: Exits)
    requires j.Stage?
    ensures JobOutcome(j, at, o, n, exits) == JobOutcome(j.rest, at + 2, Outcome(o.ran + [at], o.status), n, exits)
  {
  }

  /** A job has the status of its last stage; an operand that is passed over leaves the status as it is. */
  function Eval(l: Line, n: nat, exits: Exits): Outcome {
    match l
    case Only(j) => Outcome(Positions(j, 0), exits(n + Stages(j) - 1))
    case Then(l, op, j) =>
      var o := Eval(l, n, exits);
      if Goes(op, o.status) then JobOutcome(j, |Flatten(l)| + 1, o, n, exits) else o
  }

  // ---------------------------------------------------------------- what the shell does

  predicate Separates(delim: string) {
    delim == "||" || delim == "&&" || delim == ";"
  }

  /** A command always comes first, and delimiters stand between commands. */
  ghost predicate Alternates(cmds: seq<Entity>) {
    forall i :: 0 <= i < |cmds| ==> if i % 2 == 0 then cmds[i].Cmd? else cmds[i].Del?
  }

  /** The list does not end in the middle of a job. */
  ghost predicate Complete(cmds: seq<Entity>) {
    Alternates(cmds) && (|cmds| % 2 == 0 && cmds != [] ==> Separates(cmds[|cmds| - 1].delim))
  }

  predicate Skips(prevOp: string, s: Status) {
    (prevOp == "||" && Success(s)) || (prevOp == "&&" && !Success(s))
  }

  /** Going on from position `i`, after the commands in `ran` have been started. */
  ghost function Walk(cmds: seq<Entity>, i: nat, prevOp: string, o: Outcome, n: nat, exits: Exits): Outcome
    requires Alternates(cmds) && i % 2 == 0
    decreases |cmds| - i
  {
    if i >= |cmds| then o
    else if Skips(prevOp, o.status) then
      if i + 1 == |cmds| then o else Walk(cmds, i + 2, cmds[i + 1].delim, o, n, exits)
    else
      var ran := o.ran + [i];
      var own := exits(n + |o.ran|);
      if i + 1 == |cmds| then Outcome(ran, own)
      else
        var delim := cmds[i + 1].delim;
        Walk(cmds, i + 2, delim, Outcome(ran, if Separates(delim) then own else o.status), n, exits)
  }

  ghost function WalkAll(cmds: seq<Entity>, s: Status, n: nat, exits: Exits): Outcome
    requires Alternates(cmds)
  {
    Walk(cmds, 0, "", Outcome([], s), n, exits)
  }

  // ---------------------------------------------------------------- jobs

  /** `part` stands in the list from position `i` on, and a separator or nothing follows. */
  ghost predicate At(cmds: seq<Entity>, i: nat, part: seq<Entity>) {
    && i + |part| <= |cmds| && cmds[i..i + |part|] == part
    && (i + |part| < |cmds| ==> cmds[i + |part|].Del? && Separates(cmds[i + |part|].delim))
  }

  /** What comes after the separator at position `i`. */
  ghost function After(cmds: seq<Entity>, i: nat, o: Outcome, n: nat, exits: Exits): Outcome
    requires Alternates(cmds) && (i % 2 == 1 || i >= |cmds|)
  {
    if i >= |cmds| then o else Walk(cmds, i + 1, cmds[i].delim, o, n, exits)
  }

  lemma {:induction false} JobLength(j: Job)
    ensures |FlattenJob(j)| == 2 * Stages(j) - 1
  {
    if j.Stage? { JobLength(j.rest); }
  }

  lemma {:induction false} LineLength(l: Line)
    ensures |Flatten(l)| % 2 == 1
  {
    match l
    case Only(j) => JobLength(j);
    case Then(k, _, j) =>
      LineLength(k);
      JobLength(j);
  }

  /** A job that is entered is run to its end, whatever its stages return. */
  lemma {:induction false} JobRuns(cmds: seq<Entity>, i: nat, prevOp: string, j: Job, o: Outcome, n: nat, exits: Exits)
    requires Alternates(cmds) && i % 2 == 0 && At(cmds, i, FlattenJob(j)) && !Skips(prevOp, o.status)
    ensures (i + |FlattenJob(j)|) % 2 == 1
    ensures Walk(cmds, i, prevOp, o, n, exits) ==
            After(cmds, i + |FlattenJob(j)|, JobOutcome(j, i, o, n, exits), n, exits)
    decreases j
  {
    JobLength(j);
    StageStarts(cmds, i, prevOp, j, o, n, exits);
    if j.Stage? {
      RestIsThere(cmds, i, j);
      var o' := Outcome(o.ran + [i], o.status);
      JobRuns(cmds, i + 2, JointText(j.joint), j.rest, o', n, exits);
      StageOutcome(j, i, o, n, exits);
    }
  }

  lemma StageStarts(cmds: seq<Entity>, i: nat, prevOp: string, j: Job, o: Outcome, n: nat, exits: Exits)
    requires Alternates(cmds) && i % 2 == 0 && At(cmds, i, FlattenJob(j)) && !Skips(prevOp, o.status)
    ensures var o' := Outcome(o.ran + [i], exits(n + |o.ran|));
            Walk(cmds, i, prevOp, o, n, exits) ==
            if j.Last? then After(cmds, i + 1, o', n, exits)
            else Walk(cmds, i + 2, JointText(j.joint), o'.(status := o.status), n, exits)
  {
  }

  lemma RestIsThere(cmds: seq<Entity>, i: nat, j: Job)
    requires j.Stage? && At(cmds, i, FlattenJob(j))
    ensures At(cmds, i + 2, FlattenJob(j.rest))
  {
    var part, rest := FlattenJob(j), FlattenJob(j.rest);
    assert part[2..] == rest;
    assert cmds[i + 2..i + 2 + |rest|] == cmds[i..i + |part|][2..];
  }

  // ---------------------------------------------------------------- lines

  /** No operand that is passed over has more than one stage. */
  predicate Clean(l: Line, n: nat, exits: Exits) {
    match l
    case Only(_) => true
    case Then(k, op, j) => Clean(k, n, exits) && (Goes(op, Eval(k, n, exits).status) || j.Last?)
  }

  lemma PartsAreThere(cmds: seq<Entity>, l: Line)
    requires l.Then? && At(cmds, 0, Flatten(l))
    ensures At(cmds, 0, Flatten(l.line))
    ensures var at := |Flatten(l.line)|;
            cmds[at] == Del(OperatorText(l.op)) && At(cmds, at + 1, FlattenJob(l.job))
  {
    var a, d, b := Flatten(l.line), Del(OperatorText(l.op)), FlattenJob(l.job);
    assert cmds[..|a + [d] + b|] == cmds[0..0 + |a + [d] + b|];
    ThreeParts(cmds, a, d, b, |a| + 1, |a| + 1 + |b|);
    assert cmds[0..0 + |a|] == cmds[..|a|];
  }

  lemma ThreeParts(cmds: seq<Entity>, a: seq<Entity>, d: Entity, b: seq<Entity>, i: nat, j: nat)
    requires i == |a| + 1 && j == i + |b| && j <= |cmds| && cmds[..j] == a + [d] + b
    ensures cmds[..|a|] == a && cmds[|a|] == d && cmds[i..j] == b
  {
    var all := a + [d] + b;
    assert all[..|a|] == a && all[|a|] == d && all[i..] == b;
    assert cmds[..|a|] == cmds[..j][..|a|] && cmds[i..j] == cmds[..j][i..];
  }

  /** On a clean line the walk does what the line means. */
  lemma {:induction false} LineRuns(cmds: seq<Entity>, l: Line, s: Status, n: nat, exits: Exits)
    requires Alternates(cmds) && At(cmds, 0, Flatten(l)) && Clean(l, n, exits)
    ensures |Flatten(l)| % 2 == 1
    ensures WalkAll(cmds, s, n, exits) == After(cmds, |Flatten(l)|, Eval(l, n, exits), n, exits)
    decreases l
  {
    if l.Only? {
      JobRuns(cmds, 0, "", l.job, Outcome([], s), n, exits);
      assert [] + Positions(l.job, 0) == Positions(l.job, 0);
    } else {
      PartsAreThere(cmds, l);
      LineRuns(cmds, l.line, s, n, exits);
      ThenRuns(cmds, l, Eval(l.line, n, exits), n, exits);
    }
  }

  lemma ThenRuns(cmds: seq<Entity>, l: Line, o: Outcome, n: nat, exits: Exits)
    requires Alternates(cmds) && l.Then? && At(cmds, 0, Flatten(l)) && Clean(l, n, exits)
    requires o == Eval(l.line, n, exits)
    ensures |Flatten(l)| % 2 == 1 && |Flatten(l.line)| % 2 == 1
    ensures After(cmds, |Flatten(l.line)|, o, n, exits) == After(cmds, |Flatten(l)|, Eval(l, n, exits), n, exits)
  {
    LineLength(l);
    LineLength(l.line);
    PartsAreThere(cmds, l);
    var i, e := |Flatten(l.line)| + 1, Eval(l, n, exits);
    assert |Flatten(l)| == i + |FlattenJob(l.job)|;
    assert e == if Goes(l.op, o.status) then JobOutcome(l.job, i, o, n, exits) else o;
    OperandRuns(cmds, i, l.op, l.job, o, n, exits);
  }

  /** An operand is run or passed over as its operator says. */
  lemma OperandRuns(cmds: seq<Entity>, i: nat, op: Operator, j: Job, o: Outcome, n: nat, exits: Exits)
    requires Alternates(cmds) && i % 2 == 0 && At(cmds, i, FlattenJob(j)) && (Goes(op, o.status) || j.Last?)
    ensures (i + |FlattenJob(j)|) % 2 == 1
    ensures Walk(cmds, i, OperatorText(op), o, n, exits) ==
            After(cmds, i + |FlattenJob(j)|,
                  if Goes(op, o.status) then JobOutcome(j, i, o, n, exits) else o,
                  n, exits)
  {
    JobLength(j);
    if Goes(op, o.status) {
      JobRuns(cmds, i, OperatorText(op), j, o, n, exits);
    }
  }

  /** What has been started stays started, and the walk never goes back. */
  lemma {:induction false} WalkExtends(cmds: seq<Entity>, i: nat, prevOp: string, o: Outcome, n: nat, exits: Exits)
    requires Alternates(cmds) && i % 2 == 0
    ensures o.ran <= Walk(cmds, i, prevOp, o, n, exits).ran
    decreases |cmds| - i
  {
    if i + 1 < |cmds| {
      var delim := cmds[i + 1].delim;
      if Skips(prevOp, o.status) {
        WalkExtends(cmds, i + 2, delim, o, n, exits);
      } else {
        var own := exits(n + |o.ran|);
        WalkExtends(cmds, i + 2, delim, Outcome(o.ran + [i], if Separates(delim) then own else o.status), n, exits);
      }
    }
  }

  lemma {:induction false} PositionsWithin(j: Job, at: nat, p: nat)
    requires p in Positions(j, at)
    ensures at <= p < at + |FlattenJob(j)|
  {
    if j.Stage? && p != at { PositionsWithin(j.rest, at + 2, p); }
  }

  lemma {:induction false} EvalWithin(l: Line, n: nat, exits: Exits, p: nat)
    requires p in Eval(l, n, exits).ran
    ensures p < |Flatten(l)|
  {
    match l
    case Only(j) => PositionsWithin(j, 0, p);
    case Then(k, op, j) =>
      if p in Eval(k, n, exits).ran {
        EvalWithin(k, n, exits, p);
      } else {
        PositionsWithin(j, |Flatten(k)| + 1, p);
      }
  }

  /** Otherwise the walk starts a command of an operand that ought to be passed over. */
  lemma {:induction false} DirtyLine(cmds: seq<Entity>, l: Line, s: Status, n: nat, exits: Exits) returns (p: nat)
    requires Alternates(cmds) && At(cmds, 0, Flatten(l)) && !Clean(l, n, exits)
    ensures p in WalkAll(cmds, s, n, exits).ran && p !in Eval(l, n, exits).ran && p < |Flatten(l)|
    decreases l
  {
    PartsAreThere(cmds, l);
    var k, j := l.line, l.job;
    var at, o := |Flatten(k)|, Eval(k, n, exits);
    LineLength(k);
    if !Clean(k, n, exits) {
      p := DirtyLine(cmds, k, s, n, exits);
      if p in Positions(j, at + 1) { PositionsWithin(j, at + 1, p); }
    } else {
      p := at + 1 + 2;
      LineRuns(cmds, k, s, n, exits);
      DirtyOperand(cmds, l, at + 1, o, n, exits);
    }
  }

  lemma DirtyOperand(cmds: seq<Entity>, l: Line, i: nat, o: Outcome, n: nat, exits: Exits)
    requires Alternates(cmds) && At(cmds, 0, Flatten(l)) && !Clean(l, n, exits) && l.Then? && Clean(l.line, n, exits)
    requires o == Eval(l.line, n, exits) && i == |Flatten(l.line)| + 1 && i % 2 == 0
    ensures i + 2 in After(cmds, i - 1, o, n, exits).ran && i + 2 !in Eval(l, n, exits).ran && i + 2 < |Flatten(l)|
  {
    PartsAreThere(cmds, l);
    SecondStageRuns(cmds, i, OperatorText(l.op), l.job, o, n, exits);
    NotMeant(l, i + 2, n, exits);
  }

  lemma NotMeant(l: Line, p: nat, n: nat, exits: Exits)
    requires l.Then? && !Goes(l.op, Eval(l.line, n, exits).status) && p >= |Flatten(l.line)|
    ensures p !in Eval(l, n, exits).ran
  {
    if p in Eval(l.line, n, exits).ran { EvalWithin(l.line, n, exits, p); }
  }

  lemma SecondStageRuns(cmds: seq<Entity>, i: nat, prevOp: string, j: Job, o: Outcome, n: nat, exits: Exits)
    requires Alternates(cmds) && i % 2 == 0 && At(cmds, i, FlattenJob(j)) && j.Stage? && Skips(prevOp, o.status)
    ensures i + 2 in Walk(cmds, i, prevOp, o, n, exits).ran && 2 < |FlattenJob(j)|
  {
    var part := FlattenJob(j);
    assert cmds[i + 1] == part[1];
    JobLength(j.rest);
    var joint := JointText(j.joint);
    assert Walk(cmds, i, prevOp, o, n, exits) == Walk(cmds, i + 2, joint, o, n, exits);
    var ran := o.ran + [i + 2];
    if i + 3 < |cmds| {
      var delim := cmds[i + 3].delim;
      var o' := Outcome(ran, if Separates(delim) then exits(n + |o.ran|) else o.status);
      WalkExtends(cmds, i + 4, delim, o', n, exits);
      assert i + 2 == ran[|o.ran|];
    }
  }

  /** The list of a line, with or without a separator at the end. */
  ghost predicate ListOf(cmds: seq<Entity>, l: Line) {
    Alternates(cmds) && At(cmds, 0, Flatten(l)) && |cmds| <= |Flatten(l)| + 1
  }

  /** A run starts the commands that the line means to start, and ends with its status, exactly when no
      operand of more than one stage has been passed over. */
  lemma RunIsEvalExactly(cmds: seq<Entity>, l: Line, s: Status, n: nat, exits: Exits)
    requires ListOf(cmds, l)
    ensures WalkAll(cmds, s, n, exits) == Eval(l, n, exits) <==> Clean(l, n, exits)
  {
    if Clean(l, n, exits) {
      LineRuns(cmds, l, s, n, exits);
    } else {
      var p := DirtyLine(cmds, l, s, n, exits);
    }
  }

  // ---------------------------------------------------------------- what decides, in exit codes

  /** Positions that a walk adds are not behind the one it starts from. */
  lemma {:induction false} WalkAdds(cmds: seq<Entity>, i: nat, prevOp: string, o: Outcome, n: nat, exits: Exits, p: nat)
    requires Alternates(cmds) && i % 2 == 0 && p in Walk(cmds, i, prevOp, o, n, exits).ran && p !in o.ran
    ensures i <= p < |cmds|
    decreases |cmds| - i
  {
    if i + 1 < |cmds| {
      var delim := cmds[i + 1].delim;
      if Skips(prevOp, o.status) {
        WalkAdds(cmds, i + 2, delim, o, n, exits, p);
      } else if p != i {
        var o' := Outcome(o.ran + [i], if Separates(delim) then exits(n + |o.ran|) else o.status);
        WalkAdds(cmds, i + 2, delim, o', n, exits, p);
      }
    }
  }

  /** Wherever a walk stands, the command there is started exactly when, behind `&&`, the status is exit
      code 0, and behind `||` it is another code or a signal. */
  lemma StartsExactly(cmds: seq<Entity>, i: nat, prevOp: string, o: Outcome, n: nat, exits: Exits)
    requires Alternates(cmds) && i % 2 == 0 && i < |cmds| && i !in o.ran
    ensures i in Walk(cmds, i, prevOp, o, n, exits).ran <==>
            (prevOp == "&&" ==> o.status == Exited(0)) && (prevOp == "||" ==> o.status != Exited(0))
  {
    if Skips(prevOp, o.status) {
      if i + 1 < |cmds| && i in Walk(cmds, i + 2, cmds[i + 1].delim, o, n, exits).ran {
        WalkAdds(cmds, i + 2, cmds[i + 1].delim, o, n, exits, i);
      }
    } else if i + 1 < |cmds| {
      var delim := cmds[i + 1].delim;
      var o' := Outcome(o.ran + [i], if Separates(delim) then exits(n + |o.ran|) else o.status);
      WalkExtends(cmds, i + 2, delim, o', n, exits);
      assert i == o'.ran[|o.ran|];
    }
  }

  /** In every line, an operand is run exactly when the status before it has that exit code. */
  lemma OperandRunsExactly(l: Line, n: nat, exits: Exits)
    requires l.Then?
    ensures var before, first := Eval(l.line, n, exits), |Flatten(l.line)| + 1;
            (first in Eval(l, n, exits).ran <==>
              (OperatorText(l.op) == "&&" ==> before.status == Exited(0)) &&
              (OperatorText(l.op) == "||" ==> before.status != Exited(0))) &&
            (first !in Eval(l, n, exits).ran ==> Eval(l, n, exits) == before) &&
            (first in Eval(l, n, exits).ran ==> Eval(l, n, exits).status == exits(n + |Eval(l, n, exits).ran| - 1))
  {
    var before, first := Eval(l.line, n, exits), |Flatten(l.line)| + 1;
    if first in before.ran { EvalWithin(l.line, n, exits, first); }
    assert Positions(l.job, first)[0] == first;
  }

  /** Two commands: what is started, and the status at the end. */
  lemma TwoCommands(a: Command, b: Command, delim: string, s: Status, n: nat, exits: Exits)
    ensures var cmds := [Cmd(a), Del(delim), Cmd(b)];
            WalkAll(cmds, s, n, exits) ==
            if (delim == "&&" && exits(n) != Exited(0)) || (delim == "||" && exits(n) == Exited(0))
            then Outcome([0], exits(n)) else Outcome([0, 2], exits(n + 1))
  {
    var cmds := [Cmd(a), Del(delim), Cmd(b)];
    var o := Outcome([0], if Separates(delim) then exits(n) else s);
    assert [] + [0] == [0] && [0] + [2] == [0, 2] && |""| == 0 && |"||"| == |"&&"| == 2;
    assert WalkAll(cmds, s, n, exits) == Walk(cmds, 2, delim, o, n, exits);
  }

  // ---------------------------------------------------------------- for all exit statuses

  /** Only single commands stand behind the conditional operators. */
  predicate SingleOperands(l: Line) {
    match l
    case Only(_) => true
    case Then(k, op, j) => SingleOperands(k) && (op == Always || j.Last?)
  }

  lemma {:induction false} SinglesAreClean(l: Line, n: nat, exits: Exits)
    requires SingleOperands(l)
    ensures Clean(l, n, exits)
  {
    if l.Then? { SinglesAreClean(l.line, n, exits); }
  }

  lemma {:induction false} ConstantStatus(l: Line, n: nat, s: Status)
    ensures Eval(l, n, (_: nat) => s).status == s
  {
    if l.Then? { ConstantStatus(l.line, n, s); }
  }

  lemma {:induction false} OthersAreNot(l: Line, n: nat)
    requires !SingleOperands(l)
    ensures !Clean(l, n, (_: nat) => Exited(0)) || !Clean(l, n, (_: nat) => Exited(1))
  {
    if SingleOperands(l.line) {
      ConstantStatus(l.line, n, Exited(0));
      ConstantStatus(l.line, n, Exited(1));
    } else {
      OthersAreNot(l.line, n);
    }
  }

  /** The shell is right about a line whatever its commands return exactly when every operand behind
      `&&` or `||` is a single command. */
  lemma RightForAllExitsExactly(cmds: seq<Entity>, l: Line, s: Status, n: nat)
    requires ListOf(cmds, l)
    ensures (forall exits: Exits :: WalkAll(cmds, s, n, exits) == Eval(l, n, exits)) <==> SingleOperands(l)
  {
    if SingleOperands(l) {
      forall exits: Exits
        ensures WalkAll(cmds, s, n, exits) == Eval(l, n, exits)
      {
        SinglesAreClean(l, n, exits);
        RunIsEvalExactly(cmds, l, s, n, exits);
      }
    } else {
      OthersAreNot(l, n);
      RunIsEvalExactly(cmds, l, s, n, (_: nat) => Exited(0));
      RunIsEvalExactly(cmds, l, s, n, (_: nat) => Exited(1));
    }
  }

  // ---------------------------------------------------------------- every list is a line's

  ghost predicate Known(delim: string) {
    Separates(delim) || delim == "|" || delim == "&"
  }

  function JointOf(delim: string): Joint {
    if delim == "|" then Pipe else Beside
  }

  function OperatorOf(delim: string): Operator {
    if delim == "&&" then IfOk else if delim == "||" then IfFailed else Always
  }

  /** The line of a list that ends with a command: the last separator splits it. */
  lemma {:induction false} EveryListIsALine(cmds: seq<Entity>) returns (l: Line)
    requires Alternates(cmds) && |cmds| % 2 == 1
    requires forall i :: 0 <= i < |cmds| && i % 2 == 1 ==> Known(cmds[i].delim)
    ensures Flatten(l) == cmds
  {
    if |cmds| == 1 {
      l := Only(Last(cmds[0].cmd));
    } else {
      var n := |cmds|;
      var k := EveryListIsALine(cmds[..n - 2]);
      var delim := cmds[n - 2].delim;
      assert Known(delim);
      assert cmds == cmds[..n - 2] + [cmds[n - 2], cmds[n - 1]];
      if Separates(delim) {
        l := Then(k, OperatorOf(delim), Last(cmds[n - 1].cmd));
      } else {
        l := Joined(k, JointOf(delim), cmds[n - 1].cmd);
        JoinedFlattens(k, JointOf(delim), cmds[n - 1].cmd);
      }
    }
  }

  function JoinedJob(j: Job, joint: Joint, c: Command): Job {
    match j
    case Last(first) => Stage(first, joint, Last(c))
    case Stage(first, other, rest) => Stage(first, other, JoinedJob(rest, joint, c))
  }

  /** One stage more at the end. */
  function Joined(l: Line, joint: Joint, c: Command): Line {
    match l
    case Only(j) => Only(JoinedJob(j, joint, c))
    case Then(k, op, j) => Then(k, op, JoinedJob(j, joint, c))
  }

  lemma {:induction false} JoinedJobFlattens(j: Job, joint: Joint, c: Command)
    ensures FlattenJob(JoinedJob(j, joint, c)) == FlattenJob(j) + [Del(JointText(joint)), Cmd(c)]
  {
    if j.Stage? { JoinedJobFlattens(j.rest, joint, c); }
  }

  lemma JoinedFlattens(l: Line, joint: Joint, c: Command)
    ensures Flatten(Joined(l, joint, c)) == Flatten(l) + [Del(JointText(joint)), Cmd(c)]
  {
    JoinedJobFlattens(l.job, joint, c);
  }
}
