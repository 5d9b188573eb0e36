/**
  What the allocator promises its clients: a map from live handle to byte string that may hold at
  most `cap` bytes.  Nothing here knows about addresses, blocks or defragmentation.
 */
module HeapSpec {
  import opened Bytes

  type Heap<!H> = map<H, seq<Byte>>

  datatype Op<H> =
    | Alloc(size: nat, got: H)
    | AllocFails(size: nat)
    | Free(h: H)
    | Realloc(h: H, size: nat)
    | ReallocFails(h: H, size: nat)
    | Defrag
    | Store(h: H, at: nat, value: Byte)

  /** The bytes held by all live handles together. */
  ghost function Footprint<H>(s: Heap<H>): nat {
    if s == map[] then 0 else var h :| h in s; |s[h]| + Footprint(s - {h})
  }

  ghost predicate Fits<H>(s: Heap<H>, grown: int, cap: nat) {
    Footprint(s) + grown <= cap
  }

  ghost predicate SamePrefix(s: seq<Byte>, t: seq<Byte>) {
    forall i :: 0 <= i < |s| && i < |t| ==> s[i] == t[i]
  }

  /** Only the bytes behind `h` change: there are now `n`, the same as before as far as both go. */
  ghost predicate Resized<H>(s: Heap<H>, s': Heap<H>, h: H, n: nat) {
    h in s && h in s' && s' - {h} == s - {h} && |s'[h]| == n && SamePrefix(s[h], s'[h])
  }

  ghost predicate Step<H>(s: Heap<H>, op: Op<H>, s': Heap<H>, cap: nat) {
    match op
    case Alloc(n, h) =>
      Fits(s, n, cap) && h !in s && h in s' && |s'[h]| == n && s' - {h} == s
    case AllocFails(n) =>
      !Fits(s, n, cap) && s' == s
    case Free(h) =>
      h in s && s' == s - {h}
    case Realloc(h, n) =>
      Resized(s, s', h, n) && Fits(s, n - |s[h]|, cap)
    case ReallocFails(h, n) =>
      h in s && !Fits(s, n - |s[h]|, cap) && s' == s
    case Defrag =>
      s' == s
    case Store(h, i, v) =>
      h in s && i < |s[h]| && s' == s[h := s[h][i := v]]
  }

  /** `states[i + 1]` comes from `states[i]` by `ops[i]`. */
  ghost predicate Run<H>(states: seq<Heap<H>>, ops: seq<Op<H>>, cap: nat) {
    |states| == |ops| + 1 &&
    forall i :: 0 <= i < |ops| ==> Step(states[i], ops[i], states[i + 1], cap)
  }

  ghost predicate Names<H>(op: Op<H>, h: H) {
    match op
    case Alloc(_, g) => g == h
    case Free(g) => g == h
    case Realloc(g, _) => g == h
    case Store(g, _, _) => g == h
    case _ => false
  }

  /** `op` leaves the first `k` bytes behind `h` alone: no free, no store below k, no shrink below k. */
  ghost predicate KeepsFirst<H>(op: Op<H>, h: H, k: nat) {
    match op
    case Free(g) => g != h
    case Realloc(g, n) => g == h ==> k <= n
    case Store(g, i, _) => g == h ==> k <= i
    case _ => true
  }

  /** The order in which Footprint visits the handles does not matter. */
  lemma {:induction false} FootprintRemove<H>(s: Heap<H>, h: H)
    requires h in s
    ensures Footprint(s) == |s[h]| + Footprint(s - {h})
    decreases |s|
  {
    var g :| g in s && Footprint(s) == |s[g]| + Footprint(s - {g});
    if g != h {
      FootprintRemove(s - {g}, h);
      FootprintRemove(s - {h}, g);
      assert (s - {g}) - {h} == (s - {h}) - {g};
    }
  }

  lemma FootprintSet<H>(s: Heap<H>, h: H, v: seq<Byte>)
    ensures Footprint(s[h := v]) == Footprint(s - {h}) + |v|
  {
    FootprintRemove(s[h := v], h);
    assert s[h := v] - {h} == s - {h};
  }

  lemma StepKeepsCapacity<H>(s: Heap<H>, op: Op<H>, s': Heap<H>, cap: nat)
    requires Step(s, op, s', cap) && Footprint(s) <= cap
    ensures Footprint(s') <= cap
  {
    match op
    case Alloc(n, h) => FootprintRemove(s', h);
    case Free(h) => FootprintRemove(s, h);
    case Realloc(h, n) => FootprintRemove(s, h); FootprintRemove(s', h);
    case Store(h, i, v) => FootprintRemove(s, h); FootprintSet(s, h, s[h][i := v]);
    case _ =>
  }

  /** Over every run the live handles never hold more than the capacity. */
  lemma {:induction false} CapacityHolds<H>(states: seq<Heap<H>>, ops: seq<Op<H>>, cap: nat, i: nat)
    requires Run(states, ops, cap) && Footprint(states[0]) <= cap && i < |states|
    ensures Footprint(states[i]) <= cap
  {
    if i > 0 {
      CapacityHolds(states, ops, cap, i - 1);
      StepKeepsCapacity(states[i - 1], ops[i - 1], states[i], cap);
    }
  }

  lemma StepKeepsOthers<H>(s: Heap<H>, op: Op<H>, s': Heap<H>, cap: nat, h: H)
    requires Step(s, op, s', cap) && h in s && !Names(op, h)
    ensures h in s' && s'[h] == s[h]
  {
    if op.Alloc? || op.Realloc? {
      var g := if op.Alloc? then op.got else op.h;
      assert h in s - {g};
      assert h in s' - {g} && (s' - {g})[h] == (s - {g})[h];
    }
  }

  /** A handle that no operation of a run names keeps every byte, whatever the others do. */
  lemma {:induction false} UnnamedIsUntouched<H>(states: seq<Heap<H>>, ops: seq<Op<H>>, cap: nat, h: H, i: nat)
    requires Run(states, ops, cap) && h in states[0] && i < |states|
    requires forall j :: 0 <= j < i ==> !Names(ops[j], h)
    ensures h in states[i] && states[i][h] == states[0][h]
  {
    if i > 0 {
      UnnamedIsUntouched(states, ops, cap, h, i - 1);
      StepKeepsOthers(states[i - 1], ops[i - 1], states[i], cap, h);
    }
  }

  lemma StepKeepsPrefix<H>(s: Heap<H>, op: Op<H>, s': Heap<H>, cap: nat, h: H, k: nat)
    requires Step(s, op, s', cap) && h in s && k <= |s[h]| && KeepsFirst(op, h, k)
    ensures h in s' && k <= |s'[h]| && s'[h][..k] == s[h][..k]
  {
    if !Names(op, h) {
      StepKeepsOthers(s, op, s', cap, h);
    }
  }

  /** Any number of resizes, moves and compactions keeps the first `k` bytes behind a handle as long
      as the client itself neither frees it, overwrites them nor shrinks below `k`. */
  lemma {:induction false} PrefixSurvives<H>(states: seq<Heap<H>>, ops: seq<Op<H>>, cap: nat, h: H, k: nat, i: nat)
    requires Run(states, ops, cap) && h in states[0] && k <= |states[0][h]| && i < |states|
    requires forall j :: 0 <= j < i ==> KeepsFirst(ops[j], h, k)
    ensures h in states[i] && k <= |states[i][h]| && states[i][h][..k] == states[0][h][..k]
  {
    if i > 0 {
      PrefixSurvives(states, ops, cap, h, k, i - 1);
      StepKeepsPrefix(states[i - 1], ops[i - 1], states[i], cap, h, k);
    }
  }
}
