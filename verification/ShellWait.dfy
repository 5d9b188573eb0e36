/**
  Waiting for children.  The shell waits as often as a job has stages, for whichever children end first;
  a child that was left running in the background can be caught in place of one of the job's own.  Here a
  walk along a list is a sequence of such moves, and it is compared with the walk of `ShellLine`.
 */
module ShellWait {
  import opened ShellLine

  /** The end of the list acts as a separator. */
  function DelimAt(cmds: seq<Entity>, i: int): string
    requires Alternates(cmds) && (0 <= i ==> i % 2 == 1)
  {
    if i < 0 then "" else if i < |cmds| then cmds[i].delim else ";"
  }

  // ---------------------------------------------------------------- one round of waits

  /** What `cnt` waits can lead to: so many children are gone, and the status is that of `pid` if it is
      among them. */
  ghost predicate Waited(waiting: set<nat>, cnt: nat, pid: nat, before: Status, exits: Exits, left: set<nat>, st: Status) {
    && left <= waiting && |left| == (if |waiting| <= cnt then 0 else |waiting| - cnt)
    && st == if pid in waiting - left then exits(pid) else before
  }

  lemma {:induction false} SubsetWith(s: set<nat>, x: nat, size: nat) returns (t: set<nat>)
    requires x in s && 1 <= size <= |s|
    ensures x in t && t <= s && |t| == size
  {
    if size == |s| {
      t := s;
    } else {
      assert |s - {x}| == |s| - 1;
      var y :| y in s - {x};
      t := SubsetWith(s - {y}, x, size);
    }
  }

  /** The child that is waited for can be left over whenever there are more children than waits. */
  lemma CanBeMissed(waiting: set<nat>, cnt: nat, pid: nat, before: Status, exits: Exits) returns (left: set<nat>)
    requires pid in waiting && cnt < |waiting|
    ensures pid in left && Waited(waiting, cnt, pid, before, exits, left, before)
  {
    left := SubsetWith(waiting, pid, |waiting| - cnt);
  }

  /** The status after the waits is that of the last stage in every order exactly when no other children
      are outstanding, or when it makes no difference. */
  lemma CaughtInEveryOrder(waiting: set<nat>, cnt: nat, pid: nat, before: Status, exits: Exits)
    requires pid in waiting && cnt <= |waiting|
    ensures (forall left, st :: Waited(waiting, cnt, pid, before, exits, left, st) ==> st == exits(pid))
            <==> cnt == |waiting| || before == exits(pid)
  {
    if cnt < |waiting| {
      var left := CanBeMissed(waiting, cnt, pid, before, exits);
    } else {
      forall left, st | Waited(waiting, cnt, pid, before, exits, left, st)
        ensures st == exits(pid)
      {
        assert left == {};
      }
    }
  }

  // ---------------------------------------------------------------- walks

  /** Where the walk stands: the position, the operator before it, what was started with what status, the
      children that are outstanding and how many of them the current job has. */
  datatype Walker = Walker(i: nat, prevOp: string, o: Outcome, waiting: set<nat>, cnt: nat)

  /** One round of the loop; the first child of the walk is the n-th. */
  ghost predicate Moves(cmds: seq<Entity>, w: Walker, w': Walker, n: nat, exits: Exits)
    requires Alternates(cmds)
  {
    && w.i % 2 == 0 && w.i < |cmds| && w'.i == w.i + 2 && w'.prevOp == DelimAt(cmds, w.i + 1)
    && if Skips(w.prevOp, w.o.status) then w'.o == w.o && w'.waiting == w.waiting && w'.cnt == w.cnt
       else
         var pid := n + |w.o.ran|;
         var all := w.waiting + {pid};
         && w'.o.ran == w.o.ran + [w.i]
         && if Separates(w'.prevOp)
            then w'.cnt == 0 && Waited(all, w.cnt + 1, pid, w.o.status, exits, w'.waiting, w'.o.status)
            else w'.cnt == w.cnt + 1 && w'.waiting == all && w'.o.status == w.o.status
  }

  ghost predicate WalkFrom(cmds: seq<Entity>, ws: seq<Walker>, first: Walker, n: nat, exits: Exits)
    requires Alternates(cmds)
  {
    ws != [] && ws[0] == first && forall k :: 0 < k < |ws| ==> Moves(cmds, ws[k - 1], ws[k], n, exits)
  }

  function First(waiting: set<nat>, unset: Status): Walker {
    Walker(0, "", Outcome([], unset), waiting, 0)
  }

  /** A walk from the beginning of the list to its end, with the given children outstanding at first. */
  ghost predicate FullWalk(cmds: seq<Entity>, ws: seq<Walker>, waiting: set<nat>, unset: Status, n: nat, exits: Exits)
    requires Alternates(cmds)
  {
    WalkFrom(cmds, ws, First(waiting, unset), n, exits) && ws[|ws| - 1].i >= |cmds|
  }

  lemma WalkSnoc(cmds: seq<Entity>, ws: seq<Walker>, first: Walker, w': Walker, n: nat, exits: Exits)
    requires Alternates(cmds) && WalkFrom(cmds, ws, first, n, exits) && Moves(cmds, ws[|ws| - 1], w', n, exits)
    ensures WalkFrom(cmds, ws + [w'], first, n, exits)
  {
    var more := ws + [w'];
    forall k | 0 < k < |more|
      ensures Moves(cmds, more[k - 1], more[k], n, exits)
    {
      if k < |ws| { assert more[k - 1] == ws[k - 1] && more[k] == ws[k]; }
    }
  }

  lemma WalkCons(cmds: seq<Entity>, w: Walker, ws: seq<Walker>, first: Walker, n: nat, exits: Exits)
    requires Alternates(cmds) && WalkFrom(cmds, ws, first, n, exits) && Moves(cmds, w, first, n, exits)
    ensures WalkFrom(cmds, [w] + ws, w, n, exits)
  {
    var more := [w] + ws;
    forall k | 0 < k < |more|
      ensures Moves(cmds, more[k - 1], more[k], n, exits)
    {
      if k > 1 { assert more[k - 1] == ws[k - 2] && more[k] == ws[k - 1]; }
    }
  }

  /** Where a walk stands after `k` rounds: all that it has started lies before. */
  lemma {:induction false} WalkAt(cmds: seq<Entity>, ws: seq<Walker>, waiting: set<nat>, unset: Status, n: nat, exits: Exits, k: nat)
    requires Alternates(cmds) && FullWalk(cmds, ws, waiting, unset, n, exits) && k < |ws|
    ensures ws[k].i == 2 * k && ws[k].prevOp == DelimAt(cmds, 2 * k - 1) && forall p :: p in ws[k].o.ran ==> p < 2 * k
  {
    if k > 0 {
      WalkAt(cmds, ws, waiting, unset, n, exits, k - 1);
      assert Moves(cmds, ws[k - 1], ws[k], n, exits);
    }
  }

  /** What is started later lies behind. */
  lemma {:induction false} WalkKeeps(cmds: seq<Entity>, ws: seq<Walker>, waiting: set<nat>, unset: Status, n: nat, exits: Exits,
                                     k: nat, m: nat)
    requires Alternates(cmds) && FullWalk(cmds, ws, waiting, unset, n, exits) && k < m < |ws|
    ensures 2 * k in ws[m].o.ran <==> 2 * k in ws[k + 1].o.ran
  {
    if m > k + 1 {
      WalkKeeps(cmds, ws, waiting, unset, n, exits, k, m - 1);
      WalkAt(cmds, ws, waiting, unset, n, exits, m - 1);
      assert Moves(cmds, ws[m - 1], ws[m], n, exits);
    }
  }

  /** Whatever children are outstanding: in the round of a command, it is started exactly when behind `&&`
      the status at that time is exit code 0, and behind `||` it is another code or a signal. */
  lemma RunsExactly(cmds: seq<Entity>, ws: seq<Walker>, waiting: set<nat>, unset: Status, n: nat, exits: Exits, k: nat)
    requires Alternates(cmds) && FullWalk(cmds, ws, waiting, unset, n, exits) && k + 1 < |ws|
    ensures 2 * k < |cmds|
    ensures 2 * k in ws[|ws| - 1].o.ran <==>
            (DelimAt(cmds, 2 * k - 1) == "&&" ==> ws[k].o.status == Exited(0)) &&
            (DelimAt(cmds, 2 * k - 1) == "||" ==> ws[k].o.status != Exited(0))
  {
    WalkAt(cmds, ws, waiting, unset, n, exits, k);
    WalkKeeps(cmds, ws, waiting, unset, n, exits, k, |ws| - 1);
    assert Moves(cmds, ws[k], ws[k + 1], n, exits);
  }

  // ---------------------------------------------------------------- without other children

  /** The numbers of the last `cnt` of `n` children. */
  ghost function Latest(n: nat, cnt: nat): set<nat>
    requires cnt <= n
  {
    if cnt == 0 then {} else Latest(n - 1, cnt - 1) + {n - 1}
  }

  lemma {:induction false} LatestSize(n: nat, cnt: nat)
    requires cnt <= n
    ensures |Latest(n, cnt)| == cnt && (forall k :: k in Latest(n, cnt) ==> k < n)
  {
    if cnt > 0 { LatestSize(n - 1, cnt - 1); }
  }

  /** Only the children of the current job are outstanding, and the rest of the walk gives what the whole
      walk of `ShellLine` gives. */
  ghost predicate Quiet(cmds: seq<Entity>, w: Walker, unset: Status, n: nat, exits: Exits)
    requires Alternates(cmds)
  {
    && w.i % 2 == 0 && w.cnt <= |w.o.ran| && w.waiting == Latest(n + |w.o.ran|, w.cnt)
    && w.prevOp == DelimAt(cmds, w.i - 1) && (w.i == 0 || Separates(w.prevOp) ==> w.cnt == 0)
    && WalkAll(cmds, unset, n, exits) == Walk(cmds, w.i, w.prevOp, w.o, n, exits)
  }

  /** All children of the job are caught, whatever the order. */
  lemma AllCaught(n: nat, cnt: nat, before: Status, exits: Exits, left: set<nat>, st: Status)
    requires cnt <= n && Waited(Latest(n, cnt) + {n}, cnt + 1, n, before, exits, left, st)
    ensures left == {} && st == exits(n)
  {
    LatestSize(n + 1, cnt + 1);
    assert Latest(n + 1, cnt + 1) == Latest(n, cnt) + {n};
    CaughtInEveryOrder(Latest(n + 1, cnt + 1), cnt + 1, n, before, exits);
  }

  lemma WalkRuns(cmds: seq<Entity>, i: nat, prevOp: string, o: Outcome, n: nat, exits: Exits)
    requires Alternates(cmds) && i % 2 == 0 && i < |cmds| && !Skips(prevOp, o.status)
    ensures var delim := DelimAt(cmds, i + 1);
            Walk(cmds, i, prevOp, o, n, exits) ==
            Walk(cmds, i + 2, delim,
                 Outcome(o.ran + [i], if Separates(delim) then exits(n + |o.ran|) else o.status), n, exits)
  {
  }

  lemma WalkSkips(cmds: seq<Entity>, i: nat, prevOp: string, o: Outcome, n: nat, exits: Exits)
    requires Alternates(cmds) && i % 2 == 0 && i < |cmds| && Skips(prevOp, o.status)
    ensures Walk(cmds, i, prevOp, o, n, exits) == Walk(cmds, i + 2, DelimAt(cmds, i + 1), o, n, exits)
  {
  }

  lemma QuietSkip(cmds: seq<Entity>, w: Walker, w': Walker, unset: Status, n: nat, exits: Exits)
    requires Alternates(cmds) && Quiet(cmds, w, unset, n, exits) && Moves(cmds, w, w', n, exits)
    requires Skips(w.prevOp, w.o.status)
    ensures Quiet(cmds, w', unset, n, exits)
  {
    WalkSkips(cmds, w.i, w.prevOp, w.o, n, exits);
  }

  /** What a command that is started adds to the walk. */
  lemma MovedTo(w: Walker, w': Walker, cmds: seq<Entity>, n: nat, exits: Exits)
    requires Alternates(cmds) && Moves(cmds, w, w', n, exits) && !Skips(w.prevOp, w.o.status)
    requires w.cnt <= |w.o.ran| && w.waiting == Latest(n + |w.o.ran|, w.cnt)
    ensures w'.o == Outcome(w.o.ran + [w.i], if Separates(w'.prevOp) then exits(n + |w.o.ran|) else w.o.status)
    ensures w'.cnt == if Separates(w'.prevOp) then 0 else w.cnt + 1
    ensures w'.cnt <= |w'.o.ran| && w'.waiting == Latest(n + |w'.o.ran|, w'.cnt)
  {
    if Separates(w'.prevOp) {
      AllCaught(n + |w.o.ran|, w.cnt, w.o.status, exits, w'.waiting, w'.o.status);
    }
  }

  lemma QuietRun(cmds: seq<Entity>, w: Walker, w': Walker, unset: Status, n: nat, exits: Exits)
    requires Alternates(cmds) && Quiet(cmds, w, unset, n, exits) && Moves(cmds, w, w', n, exits)
    requires !Skips(w.prevOp, w.o.status)
    ensures Quiet(cmds, w', unset, n, exits)
  {
    WalkRuns(cmds, w.i, w.prevOp, w.o, n, exits);
    MovedTo(w, w', cmds, n, exits);
  }

  lemma {:induction false} QuietUpTo(cmds: seq<Entity>, ws: seq<Walker>, unset: Status, n: nat, exits: Exits, k: nat)
    requires Alternates(cmds) && WalkFrom(cmds, ws, First({}, unset), n, exits) && k < |ws|
    ensures Quiet(cmds, ws[k], unset, n, exits)
    ensures k > 0 ==> ws[k - 1].i < |cmds| && ws[k].i == ws[k - 1].i + 2
  {
    if k > 0 {
      QuietUpTo(cmds, ws, unset, n, exits, k - 1);
      var w, w' := ws[k - 1], ws[k];
      if Skips(w.prevOp, w.o.status) {
        QuietSkip(cmds, w, w', unset, n, exits);
      } else {
        QuietRun(cmds, w, w', unset, n, exits);
      }
    }
  }

  /** Without other children every walk ends as the walk of `ShellLine`, in every order of termination,
      and leaves no child. */
  lemma QuietWalk(cmds: seq<Entity>, ws: seq<Walker>, unset: Status, n: nat, exits: Exits)
    requires Complete(cmds) && FullWalk(cmds, ws, {}, unset, n, exits)
    ensures ws[|ws| - 1].o == WalkAll(cmds, unset, n, exits) && ws[|ws| - 1].waiting == {}
  {
    var last := ws[|ws| - 1];
    QuietUpTo(cmds, ws, unset, n, exits, |ws| - 1);
    assert last.i == 0 || Separates(last.prevOp);
  }

  // ---------------------------------------------------------------- with other children

  /** One move on which the status stays what it was. */
  lemma MoveMissing(cmds: seq<Entity>, w: Walker, n: nat, exits: Exits) returns (w': Walker)
    requires Alternates(cmds) && w.i % 2 == 0 && w.i < |cmds|
    requires w.cnt < |w.waiting| && forall p :: p in w.waiting ==> p < n + |w.o.ran|
    ensures Moves(cmds, w, w', n, exits) && w'.o.status == w.o.status
    ensures w'.cnt < |w'.waiting| && forall p :: p in w'.waiting ==> p < n + |w'.o.ran|
  {
    var delim := DelimAt(cmds, w.i + 1);
    if Skips(w.prevOp, w.o.status) {
      w' := w.(i := w.i + 2, prevOp := delim);
    } else {
      var pid := n + |w.o.ran|;
      var all := w.waiting + {pid};
      assert |all| == |w.waiting| + 1;
      var o := Outcome(w.o.ran + [w.i], w.o.status);
      if Separates(delim) {
        var left := CanBeMissed(all, w.cnt + 1, pid, w.o.status, exits);
        w' := Walker(w.i + 2, delim, o, left, 0);
      } else {
        w' := Walker(w.i + 2, delim, o, all, w.cnt + 1);
      }
    }
  }

  /** With one child too many, every wait can miss the last stage. */
  lemma {:induction false} WalkMissing(cmds: seq<Entity>, w: Walker, n: nat, exits: Exits) returns (ws: seq<Walker>)
    requires Alternates(cmds) && w.i % 2 == 0
    requires w.cnt < |w.waiting| && forall p :: p in w.waiting ==> p < n + |w.o.ran|
    ensures WalkFrom(cmds, ws, w, n, exits) && ws[|ws| - 1].i >= |cmds| && ws[|ws| - 1].o.status == w.o.status
    decreases |cmds| - w.i
  {
    if w.i >= |cmds| {
      ws := [w];
    } else {
      var w' := MoveMissing(cmds, w, n, exits);
      ws := WalkMissing(cmds, w', n, exits);
      WalkCons(cmds, w, ws, w', n, exits);
      ws := [w] + ws;
    }
  }

  /** Where all commands end alike, a list that starts any command ends so too. */
  lemma {:induction false} AlikeWalk(cmds: seq<Entity>, i: nat, prevOp: string, o: Outcome, n: nat, t: Status)
    requires Complete(cmds) && i % 2 == 0
    requires o.status == t || (i < |cmds| && !Skips(prevOp, o.status))
    ensures Walk(cmds, i, prevOp, o, n, (_: nat) => t).status == t
    decreases |cmds| - i
  {
    if i < |cmds| && i + 1 < |cmds| {
      var delim := cmds[i + 1].delim;
      assert !Separates(delim) ==> i + 2 < |cmds|;
      if Skips(prevOp, o.status) {
        AlikeWalk(cmds, i + 2, delim, o, n, t);
      } else {
        AlikeWalk(cmds, i + 2, delim, Outcome(o.ran + [i], if Separates(delim) then t else o.status), n, t);
      }
    }
  }

  /** The shell ends a list with the right status, whatever the children return and in whatever order they
      end, exactly when no child has been left running in the background. */
  lemma RightInEveryOrderExactly(cmds: seq<Entity>, waiting: set<nat>, unset: Status, n: nat)
    requires Complete(cmds) && cmds != [] && forall p :: p in waiting ==> p < n
    ensures (forall exits: Exits, ws: seq<Walker> :: FullWalk(cmds, ws, waiting, unset, n, exits) ==>
                                   ws[|ws| - 1].o == WalkAll(cmds, unset, n, exits)) <==> waiting == {}
  {
    if waiting == {} {
      forall exits: Exits, ws: seq<Walker> | FullWalk(cmds, ws, waiting, unset, n, exits)
        ensures ws[|ws| - 1].o == WalkAll(cmds, unset, n, exits)
      {
        QuietWalk(cmds, ws, unset, n, exits);
      }
    } else {
      var t := if unset == Exited(0) then Exited(1) else Exited(0);
      var exits := (_: nat) => t;
      var ws := WalkMissing(cmds, First(waiting, unset), n, exits);
      AlikeWalk(cmds, 0, "", Outcome([], unset), n, t);
      assert FullWalk(cmds, ws, waiting, unset, n, exits);
    }
  }
}
