/**
  The two recursive calls of merge sort as concurrent sections.  A process is a tree of activities; a
  step performs one memory access of any activity that is able to run, so a run is an arbitrary
  interleaving at every level of the recursion.
 */
module ParallelSort {
  import opened Common
  import opened MergeSort

  type Memory = seq<int>

  datatype Process =
    | Start(lo: nat, hi: nat)
    | Sections(lo: nat, hi: nat, left: Process, right: Process)
    | Merging(lo: nat, hi: nat, startLeft: nat, startRight: nat, tmp: seq<int>)
    | Copying(lo: nat, hi: nat, tmp: seq<int>, next: nat)
    | Finished(lo: nat, hi: nat)

  function Mid(lo: nat, hi: nat): nat
    requires lo <= hi
  {
    lo + (hi - lo) / 2
  }

  /** One step of the process: which of the two sections moves is not determined. */
  ghost predicate Step(p: Process, m: Memory, p': Process, m': Memory) {
    match p
    case Start(lo, hi) =>
      lo <= hi && m' == m &&
      p' == if hi - lo <= 1 then Finished(lo, hi)
            else Sections(lo, hi, Start(lo, Mid(lo, hi)), Start(Mid(lo, hi), hi))
    case Sections(lo, hi, left, right) =>
      || (p'.Sections? && p' == p.(left := p'.left) && Step(left, m, p'.left, m'))
      || (p'.Sections? && p' == p.(right := p'.right) && Step(right, m, p'.right, m'))
      || (left.Finished? && right.Finished? && lo <= hi && m' == m && p' == Merging(lo, hi, lo, Mid(lo, hi), []))
    case Merging(lo, hi, i, j, tmp) =>
      lo <= i && lo <= hi <= |m| && i <= Mid(lo, hi) <= j <= hi && m' == m &&
      p' == (if i == Mid(lo, hi) && j == hi then Copying(lo, hi, tmp, 0)
             else if i == Mid(lo, hi) then p.(tmp := tmp + [m[j]], startRight := j + 1)
             else if j == hi || m[i] < m[j] then p.(tmp := tmp + [m[i]], startLeft := i + 1)
             else p.(tmp := tmp + [m[j]], startRight := j + 1))
    case Copying(lo, hi, tmp, k) =>
      lo <= hi <= |m| && |tmp| == hi - lo && k <= hi - lo &&
      if k == hi - lo then p' == Finished(lo, hi) && m' == m
      else p' == p.(next := k + 1) && m' == m[lo + k := tmp[k]]
    case Finished(_, _) =>
      false
  }

  /** `p` is sorting the range from `lo` to `hi`, which held `orig` at first. */
  ghost predicate Inv(p: Process, lo: nat, hi: nat, orig: seq<int>, m: Memory) {
    lo <= hi <= |m| && |orig| == hi - lo && p.lo == lo && p.hi == hi &&
    match p
    case Start(_, _) => m[lo..hi] == orig
    case Sections(_, _, left, right) =>
      Inv(left, lo, Mid(lo, hi), orig[..Mid(lo, hi) - lo], m) && Inv(right, Mid(lo, hi), hi, orig[Mid(lo, hi) - lo..], m) &&
      1 < hi - lo
    case Merging(_, _, i, j, tmp) =>
      lo <= i <= Mid(lo, hi) <= j <= hi && |tmp| == i - lo + j - Mid(lo, hi) &&
      tmp + Merge(m[i..Mid(lo, hi)], m[j..hi]) == MergeSorted(orig)
    case Copying(_, _, tmp, k) =>
      k <= hi - lo && tmp == MergeSorted(orig) && m[lo..lo + k] == tmp[..k]
    case Finished(_, _) =>
      m[lo..hi] == MergeSorted(orig)
  }

  lemma SameWithin(m: Memory, m': Memory, lo: nat, hi: nat, a: nat, b: nat)
    requires lo <= a <= b <= hi <= |m| == |m'| && m'[lo..hi] == m[lo..hi]
    ensures m'[a..b] == m[a..b]
  {
    forall k | a <= k < b
      ensures m'[k] == m[k]
    {
      assert m'[lo..hi][k - lo] == m[lo..hi][k - lo];
    }
  }

  /** A process looks only at its own range. */
  lemma {:induction false} InvFrame(p: Process, lo: nat, hi: nat, orig: seq<int>, m: Memory, m': Memory)
    requires Inv(p, lo, hi, orig, m) && |m'| == |m| && m'[lo..hi] == m[lo..hi]
    ensures Inv(p, lo, hi, orig, m')
  {
    if p.Sections? {
      var mid := Mid(lo, hi);
      SameWithin(m, m', lo, hi, lo, mid);
      SameWithin(m, m', lo, hi, mid, hi);
      InvFrame(p.left, lo, mid, orig[..mid - lo], m, m');
      InvFrame(p.right, mid, hi, orig[mid - lo..], m, m');
    } else if p.Merging? {
      SameWithin(m, m', lo, hi, p.startLeft, Mid(lo, hi));
      SameWithin(m, m', lo, hi, p.startRight, hi);
    } else if p.Copying? {
      SameWithin(m, m', lo, hi, lo, lo + p.next);
    }
  }

  /** Nothing outside the range has changed. */
  ghost predicate Confined(lo: nat, hi: nat, m: Memory, m': Memory) {
    |m'| == |m| && forall a :: 0 <= a < |m| && !(lo <= a < hi) ==> m'[a] == m[a]
  }

  /** A step of any activity keeps the whole tree consistent and writes only inside its own range. */
  lemma {:induction false} StepKeeps(p: Process, lo: nat, hi: nat, orig: seq<int>, m: Memory, p': Process, m': Memory)
    requires Inv(p, lo, hi, orig, m) && Step(p, m, p', m')
    ensures Inv(p', lo, hi, orig, m') && Confined(lo, hi, m, m')
  {
    match p
    case Start(_, _) =>
      StartKeeps(lo, hi, orig, m, p');
    case Sections(_, _, left, right) =>
      var mid := Mid(lo, hi);
      if p'.Sections? && p' == p.(left := p'.left) && Step(left, m, p'.left, m') {
        StepKeeps(left, lo, mid, orig[..mid - lo], m, p'.left, m');
        OtherHalf(m, m', lo, mid, hi);
        InvFrame(right, mid, hi, orig[mid - lo..], m, m');
      } else if p'.Sections? && p' == p.(right := p'.right) && Step(right, m, p'.right, m') {
        StepKeeps(right, mid, hi, orig[mid - lo..], m, p'.right, m');
        OtherHalf(m, m', lo, mid, hi);
        InvFrame(left, lo, mid, orig[..mid - lo], m, m');
      } else {
        assert orig[..mid - lo] == orig[..|orig| / 2] && orig[mid - lo..] == orig[|orig| / 2..];
        assert [] + Merge(m[lo..mid], m[mid..hi]) == Merge(m[lo..mid], m[mid..hi]);
      }
    case Merging(_, _, _, _, _) =>
      MergingKeeps(p, lo, hi, orig, m, p');
    case Copying(_, _, _, _) =>
      CopyingKeeps(p, lo, hi, orig, m, p', m');
    case Finished(_, _) =>
  }

  /** What is confined to one half leaves the other half alone. */
  lemma OtherHalf(m: Memory, m': Memory, lo: nat, mid: nat, hi: nat)
    requires lo <= mid <= hi <= |m|
    ensures Confined(lo, mid, m, m') ==> m'[mid..hi] == m[mid..hi] && Confined(lo, hi, m, m')
    ensures Confined(mid, hi, m, m') ==> m'[lo..mid] == m[lo..mid] && Confined(lo, hi, m, m')
  {
  }

  lemma MergingKeeps(p: Process, lo: nat, hi: nat, orig: seq<int>, m: Memory, p': Process)
    requires Inv(p, lo, hi, orig, m) && p.Merging? && Step(p, m, p', m)
    ensures Inv(p', lo, hi, orig, m)
  {
    var mid, i, j := Mid(lo, hi), p.startLeft, p.startRight;
    if i < mid && (j == hi || m[i] < m[j]) {
      TakeLeft(m, p.tmp, i, mid, j, hi);
    } else if j < hi {
      TakeRight(m, p.tmp, i, mid, j, hi);
    } else {
      assert p.tmp + Merge(m[i..mid], m[j..hi]) == p.tmp;
    }
  }

  lemma CopyingKeeps(p: Process, lo: nat, hi: nat, orig: seq<int>, m: Memory, p': Process, m': Memory)
    requires Inv(p, lo, hi, orig, m) && p.Copying? && Step(p, m, p', m')
    ensures Inv(p', lo, hi, orig, m') && Confined(lo, hi, m, m')
  {
    var k := p.next;
    if k < hi - lo {
      assert m'[lo..lo + k + 1] == m[lo..lo + k] + [p.tmp[k]];
      assert p.tmp[..k + 1] == p.tmp[..k] + [p.tmp[k]];
    }
  }

  lemma StartKeeps(lo: nat, hi: nat, orig: seq<int>, m: Memory, p': Process)
    requires Inv(Start(lo, hi), lo, hi, orig, m) && Step(Start(lo, hi), m, p', m)
    ensures Inv(p', lo, hi, orig, m)
  {
  }

  // ---------------------------------------------------------------- every run ends

  /** The number of steps that sorting `n` elements takes. */
  ghost function Steps(n: nat): nat {
    if n <= 1 then 1 else 1 + Steps(n / 2) + Steps(n - n / 2) + 1 + (n + 1) + (n + 1)
  }

  /** The number of steps that are left. */
  ghost function Work(p: Process): int {
    match p
    case Start(lo, hi) => if lo <= hi then Steps(hi - lo) else 0
    case Sections(lo, hi, left, right) => Work(left) + Work(right) + 1 + (hi - lo + 1) + (hi - lo + 1)
    case Merging(lo, hi, i, j, _) => if lo <= hi then (Mid(lo, hi) - i) + (hi - j) + 1 + (hi - lo + 1) else 0
    case Copying(lo, hi, _, k) => hi - lo - k + 1
    case Finished(_, _) => 0
  }

  lemma {:induction false} StepsCount(p: Process, lo: nat, hi: nat, orig: seq<int>, m: Memory, p': Process, m': Memory)
    requires Inv(p, lo, hi, orig, m) && Step(p, m, p', m')
    ensures Work(p') == Work(p) - 1
  {
    if p.Sections? {
      var mid := Mid(lo, hi);
      if p'.Sections? && p' == p.(left := p'.left) && Step(p.left, m, p'.left, m') {
        StepsCount(p.left, lo, mid, orig[..mid - lo], m, p'.left, m');
      } else if p'.Sections? && p' == p.(right := p'.right) && Step(p.right, m, p'.right, m') {
        StepsCount(p.right, mid, hi, orig[mid - lo..], m, p'.right, m');
      }
    } else {
      LoopStepsCount(p, m, p', m');
    }
  }

  lemma LoopStepsCount(p: Process, m: Memory, p': Process, m': Memory)
    requires Step(p, m, p', m') && !p.Sections?
    ensures Work(p') == Work(p) - 1
  {
    if p.Start? {
      StartStepCounts(p, m, p', m');
    } else if p.Merging? {
      MergeStepCounts(p, m, p', m');
    }
  }

  lemma StartStepCounts(p: Process, m: Memory, p': Process, m': Memory)
    requires Step(p, m, p', m') && p.Start?
    ensures Work(p') == Work(p) - 1
  {
    StartWork(p.lo, p.hi, Mid(p.lo, p.hi), p');
  }

  lemma StartWork(lo: nat, hi: nat, mid: nat, q: Process)
    requires lo <= hi && mid == Mid(lo, hi)
    requires q == if hi - lo <= 1 then Finished(lo, hi) else Sections(lo, hi, Start(lo, mid), Start(mid, hi))
    ensures Work(q) == Work(Start(lo, hi)) - 1
  {
    var n, a, b := hi - lo, mid - lo, hi - mid;
    StartWorkIs(lo, hi, n);
    if n > 1 {
      HalvesOfLength(lo, hi, mid, n, a, b);
      StepsOfHalves(n, a, b);
      SectionsWork(lo, hi, mid, n, a, b);
    }
  }

  lemma HalvesOfLength(lo: nat, hi: nat, mid: nat, n: nat, a: nat, b: nat)
    requires lo <= hi && mid == Mid(lo, hi) && n == hi - lo && a == mid - lo && b == hi - mid
    ensures a == n / 2 && b == n - a
  {
  }

  lemma StartWorkIs(lo: nat, hi: nat, n: nat)
    requires lo <= hi && n == hi - lo
    ensures Work(Start(lo, hi)) == Steps(n) && (n <= 1 ==> Steps(n) == 1)
  {
  }

  lemma StepsOfHalves(n: nat, a: nat, b: nat)
    requires n > 1 && a == n / 2 && b == n - a
    ensures Steps(n) == 1 + Steps(a) + Steps(b) + 1 + (n + 1) + (n + 1)
  {
  }

  lemma SectionsWork(lo: nat, hi: nat, mid: nat, n: nat, a: nat, b: nat)
    requires lo <= mid <= hi && n == hi - lo && a == mid - lo && b == hi - mid
    ensures Work(Sections(lo, hi, Start(lo, mid), Start(mid, hi))) == Steps(a) + Steps(b) + 1 + (n + 1) + (n + 1)
  {
    StartWorkIs(lo, mid, a);
    StartWorkIs(mid, hi, b);
  }

  lemma MergeStepCounts(p: Process, m: Memory, p': Process, m': Memory)
    requires Step(p, m, p', m') && p.Merging?
    ensures Work(p') == Work(p) - 1
  {
    assert p'.Copying? || p' == p.(tmp := p'.tmp, startLeft := p'.startLeft, startRight := p'.startRight);
  }

  lemma {:induction false} WorkIsLeft(p: Process, lo: nat, hi: nat, orig: seq<int>, m: Memory)
    requires Inv(p, lo, hi, orig, m)
    ensures Work(p) >= 0 && (Work(p) == 0 <==> p.Finished?)
  {
    if p.Sections? {
      var mid := Mid(lo, hi);
      WorkIsLeft(p.left, lo, mid, orig[..mid - lo], m);
      WorkIsLeft(p.right, mid, hi, orig[mid - lo..], m);
    }
  }

  /** While both sections are unfinished either of them may go on, whatever the other has done. */
  lemma EitherSection(p: Process, lo: nat, hi: nat, orig: seq<int>, m: Memory, left: bool) returns (q: Process, m': Memory)
    requires Inv(p, lo, hi, orig, m) && p.Sections? && !(if left then p.left else p.right).Finished?
    ensures Step(p, m, if left then p.(left := q) else p.(right := q), m')
  {
    var mid := Mid(lo, hi);
    if left {
      q, m' := Progress(p.left, lo, mid, orig[..mid - lo], m);
    } else {
      q, m' := Progress(p.right, mid, hi, orig[mid - lo..], m);
    }
  }

  /** A step writes at most one number. */
  lemma {:induction false} OneWrite(p: Process, lo: nat, hi: nat, orig: seq<int>, m: Memory, p': Process, m': Memory, a: nat, b: nat)
    requires Inv(p, lo, hi, orig, m) && Step(p, m, p', m') && a < |m| && b < |m|
    ensures |m'| == |m| && (m'[a] != m[a] && m'[b] != m[b] ==> a == b)
  {
    if p.Sections? {
      var mid := Mid(lo, hi);
      if p'.Sections? && p' == p.(left := p'.left) && Step(p.left, m, p'.left, m') {
        OneWrite(p.left, lo, mid, orig[..mid - lo], m, p'.left, m', a, b);
      } else if p'.Sections? && p' == p.(right := p'.right) && Step(p.right, m, p'.right, m') {
        OneWrite(p.right, mid, hi, orig[mid - lo..], m, p'.right, m', a, b);
      }
    }
  }

  /** A process that is not finished can always move: the sections never wait for each other. */
  lemma {:induction false} Progress(p: Process, lo: nat, hi: nat, orig: seq<int>, m: Memory) returns (p': Process, m': Memory)
    requires Inv(p, lo, hi, orig, m) && !p.Finished?
    ensures Step(p, m, p', m')
  {
    p', m' := p, m;
    match p
    case Start(_, _) =>
      p' := if hi - lo <= 1 then Finished(lo, hi)
            else Sections(lo, hi, Start(lo, Mid(lo, hi)), Start(Mid(lo, hi), hi));
    case Sections(_, _, left, right) =>
      var mid := Mid(lo, hi);
      if !left.Finished? {
        var l;
        l, m' := Progress(left, lo, mid, orig[..mid - lo], m);
        p' := p.(left := l);
      } else if !right.Finished? {
        var r;
        r, m' := Progress(right, mid, hi, orig[mid - lo..], m);
        p' := p.(right := r);
      } else {
        p' := Merging(lo, hi, lo, mid, []);
      }
    case Merging(_, _, i, j, tmp) =>
      var mid := Mid(lo, hi);
      p' := if i == mid && j == hi then Copying(lo, hi, tmp, 0)
            else if i == mid then p.(tmp := tmp + [m[j]], startRight := j + 1)
            else if j == hi || m[i] < m[j] then p.(tmp := tmp + [m[i]], startLeft := i + 1)
            else p.(tmp := tmp + [m[j]], startRight := j + 1);
    case Copying(_, _, tmp, k) =>
      if k == hi - lo {
        p' := Finished(lo, hi);
      } else {
        p', m' := p.(next := k + 1), m[lo + k := tmp[k]];
      }
  }

  // ---------------------------------------------------------------- runs

  datatype State = State(p: Process, m: Memory)

  ghost predicate Run(states: seq<State>, lo: nat, hi: nat) {
    states != [] && lo <= hi <= |states[0].m| && states[0].p == Start(lo, hi) &&
    forall i :: 0 < i < |states| ==> Step(states[i - 1].p, states[i - 1].m, states[i].p, states[i].m)
  }

  lemma {:induction false} RunInv(states: seq<State>, lo: nat, hi: nat, i: nat)
    requires Run(states, lo, hi) && i < |states|
    ensures Inv(states[i].p, lo, hi, states[0].m[lo..hi], states[i].m)
    ensures Confined(lo, hi, states[0].m, states[i].m)
    ensures Work(states[i].p) == Steps(hi - lo) - i
  {
    if i > 0 {
      RunInv(states, lo, hi, i - 1);
      var s, s' := states[i - 1], states[i];
      StepKeeps(s.p, lo, hi, states[0].m[lo..hi], s.m, s'.p, s'.m);
      StepsCount(s.p, lo, hi, states[0].m[lo..hi], s.m, s'.p, s'.m);
    }
  }

  ghost predicate CanStep(s: State) {
    exists s': State :: StateStep(s, s')
  }

  ghost predicate StateStep(s: State, s': State) {
    Step(s.p, s.m, s'.p, s'.m)
  }

  /** Every interleaving takes the same number of steps, none gets stuck on the way, and each ends with
      exactly the array that the sequential program leaves. */
  lemma AnyInterleaving(states: seq<State>, lo: nat, hi: nat)
    requires Run(states, lo, hi)
    ensures |states| <= Steps(hi - lo) + 1
    ensures states[|states| - 1].p.Finished? <==> |states| == Steps(hi - lo) + 1
    ensures |states| <= Steps(hi - lo) ==> CanStep(states[|states| - 1])
    ensures states[|states| - 1].p.Finished? ==> states[|states| - 1].m == SortedWithin(states[0].m, lo, hi)
  {
    var n := |states| - 1;
    var m0, last := states[0].m, states[n];
    RunInv(states, lo, hi, n);
    WorkIsLeft(last.p, lo, hi, m0[lo..hi], last.m);
    if !last.p.Finished? {
      var p', m' := Progress(last.p, lo, hi, m0[lo..hi], last.m);
      assert StateStep(last, State(p', m'));
    } else {
      WholeArray(m0, last.m, lo, hi);
    }
  }

  lemma WholeArray(m0: Memory, m: Memory, lo: nat, hi: nat)
    requires lo <= hi <= |m0| && Confined(lo, hi, m0, m) && m[lo..hi] == MergeSorted(m0[lo..hi])
    ensures m == SortedWithin(m0, lo, hi)
  {
    InParts(m, lo, hi);
    OutsideSame(m0, m, lo, hi);
  }

  lemma InParts(m: Memory, lo: nat, hi: nat)
    requires lo <= hi <= |m|
    ensures m == m[..lo] + m[lo..hi] + m[hi..]
  {
  }

  lemma OutsideSame(m0: Memory, m: Memory, lo: nat, hi: nat)
    requires lo <= hi <= |m0| && Confined(lo, hi, m0, m)
    ensures m[..lo] == m0[..lo] && m[hi..] == m0[hi..]
  {
  }

  /** The result is sorted and a permutation, in every interleaving. */
  lemma SortsTheRange(states: seq<State>, lo: nat, hi: nat)
    requires Run(states, lo, hi) && states[|states| - 1].p.Finished?
    ensures var m0, m := states[0].m, states[|states| - 1].m;
            && |m| == |m0| && Sorted(m[lo..hi]) && multiset(m[lo..hi]) == multiset(m0[lo..hi])
            && m[..lo] == m0[..lo] && m[hi..] == m0[hi..]
  {
    var m0, m := states[0].m, states[|states| - 1].m;
    AnyInterleaving(states, lo, hi);
    MergeSortedSorts(m0[lo..hi]);
    assert m[lo..hi] == MergeSorted(m0[lo..hi]);
  }
}
