/**
  A client at work: any sequence of requests, on handles that it keeps, is a run of `HeapSpec`, so that
  what is proved there about runs holds of the allocator.
 */
module AllocatorSession {
  import opened Bytes
  import opened HeapSpec
  import opened Allocator

  /** Handles are named by their numbers in the client's list. */
  datatype Request =
    | New(size: nat)
    | Release(i: nat)
    | Resize(i: nat, size: nat)
    | Compact
    | Write(i: nat, at: nat, value: Byte)

  /** Which handles are live after an operation. */
  ghost function KeysAfter(keys: set<MemoryBlock>, op: Op<MemoryBlock>): set<MemoryBlock> {
    match op
    case Alloc(_, h) => keys + {h}
    case Free(h) => keys - {h}
    case _ => keys
  }

  lemma StepKeys(s: Heap<MemoryBlock>, op: Op<MemoryBlock>, s': Heap<MemoryBlock>, cap: nat)
    requires Step<MemoryBlock>(s, op, s', cap)
    ensures s'.Keys == KeysAfter(s.Keys, op)
  {
    match op
    case Alloc(_, h) => assert s'.Keys == (s' - {h}).Keys + {h};
    case Realloc(h, _) => assert s'.Keys == (s' - {h}).Keys + {h} && s.Keys == (s - {h}).Keys + {h};
    case _ =>
  }

  lemma RunSnoc(states: seq<Heap<MemoryBlock>>, ops: seq<Op<MemoryBlock>>, op: Op<MemoryBlock>, s': Heap<MemoryBlock>, cap: nat)
    requires Run<MemoryBlock>(states, ops, cap) && Step<MemoryBlock>(states[|ops|], op, s', cap)
    ensures Run<MemoryBlock>(states + [s'], ops + [op], cap)
  {
    var ss, os := states + [s'], ops + [op];
    forall i | 0 <= i < |os|
      ensures Step<MemoryBlock>(ss[i], os[i], ss[i + 1], cap)
    {
      if i < |ops| { assert ss[i] == states[i] && ss[i + 1] == states[i + 1] && os[i] == ops[i]; }
    }
  }

  ghost function AllocOp(n: nat, got: MemoryBlock?): Op<MemoryBlock> {
    if got == null then AllocFails(n)
    else
      var b: MemoryBlock := got;
      Op<MemoryBlock>.Alloc(n, b)
  }

  ghost function ReallocOp(h: MemoryBlock, n: nat, st: Status): Op<MemoryBlock> {
    if st == Done then Op<MemoryBlock>.Realloc(h, n) else Op<MemoryBlock>.ReallocFails(h, n)
  }

  /** The blocks of a list of handles. */
  ghost function BlocksOf(handles: seq<Pointer>): (bs: seq<MemoryBlock?>)
    reads handles
    ensures |bs| == |handles| && forall i :: 0 <= i < |handles| ==> bs[i] == handles[i].block
  {
    seq(|handles|, i requires 0 <= i < |handles| reads handles => handles[i].block)
  }

  /** Every handle is null or live, and no two handles name the same block. */
  ghost predicate Sound(bs: seq<MemoryBlock?>, keys: set<MemoryBlock>) {
    && (forall i :: 0 <= i < |bs| && bs[i] != null ==> bs[i] in keys)
    && forall i, j :: 0 <= i < j < |bs| && bs[i] != null ==> bs[i] != bs[j]
  }

  lemma SoundNew(bs: seq<MemoryBlock?>, keys: set<MemoryBlock>, b: MemoryBlock)
    requires Sound(bs, keys) && b !in keys
    ensures Sound(bs + [b], keys + {b})
    ensures forall i :: 0 <= i < |bs| && bs[i] == null ==> Sound(bs[i := b], keys + {b})
  {
  }

  lemma SoundFreed(bs: seq<MemoryBlock?>, keys: set<MemoryBlock>, i: nat)
    requires Sound(bs, keys) && i < |bs| && bs[i] != null
    ensures Sound(bs[i := null], keys - {bs[i]})
  {
  }

  /** Room is asked for at a null handle: it may be granted or not. */
  ghost predicate Asks(op: Op<MemoryBlock>, n: nat) {
    op == AllocFails(n) || (op.Alloc? && op.size == n)
  }

  /** The operation that answers a request of a client whose handles have the blocks `bs`. */
  ghost predicate Answers(op: Op<MemoryBlock>, r: Request, bs: seq<MemoryBlock?>) {
    match r
    case New(n) => Asks(op, n)
    case Release(i) => i < |bs| && bs[i] != null && op == Op<MemoryBlock>.Free(bs[i])
    case Resize(i, n) =>
      i < |bs| &&
      if bs[i] == null then Asks(op, n)
      else op == Op<MemoryBlock>.Realloc(bs[i], n) || op == Op<MemoryBlock>.ReallocFails(bs[i], n)
    case Compact => op == Op<MemoryBlock>.Defrag
    case Write(i, at, v) => i < |bs| && bs[i] != null && op == Op<MemoryBlock>.Store(bs[i], at, v)
  }

  /** The blocks behind the handles after it. */
  ghost function BlocksAfter(bs: seq<MemoryBlock?>, r: Request, op: Op<MemoryBlock>): seq<MemoryBlock?> {
    match r
    case New(_) => if op.Alloc? then bs + [op.got] else bs
    case Release(i) => if i < |bs| then bs[i := null] else bs
    case Resize(i, _) => if i < |bs| && op.Alloc? then bs[i := op.got] else bs
    case _ => bs
  }

  /** Exactly one operation has been done, and it answers the request. */
  ghost predicate Served(r: Request, bs: seq<MemoryBlock?>, ops: seq<Op<MemoryBlock>>,
                         ops': seq<Op<MemoryBlock>>, bs': seq<MemoryBlock?>) {
    |ops'| == |ops| + 1 && ops <= ops' && Answers(ops'[|ops|], r, bs) && bs' == BlocksAfter(bs, r, ops'[|ops|])
  }

  /** The client names a handle it does not have, frees a null handle, or writes outside of its block. */
  ghost predicate Refused(r: Request, bs: seq<MemoryBlock?>, s: Heap<MemoryBlock>) {
    match r
    case Release(i) => i >= |bs| || bs[i] == null
    case Resize(i, _) => i >= |bs|
    case Write(i, at, _) => i >= |bs| || bs[i] == null || bs[i] !in s || at >= |s[bs[i]]|
    case _ => false
  }

  /** How many operations had been done, and what the handles were, before each request and at the end. */
  datatype Trace = Trace(done: seq<nat>, held: seq<seq<MemoryBlock?>>)

  /** Request `k` was refused, or answered by the operation that was due. */
  ghost predicate Dealt(r: Request, t: Trace, k: nat, states: seq<Heap<MemoryBlock>>, ops: seq<Op<MemoryBlock>>)
    requires k + 1 < |t.done| == |t.held|
  {
    var n := t.done[k];
    && n < |states| && t.done[k + 1] <= |ops|
    && if Refused(r, t.held[k], states[n]) then t.done[k + 1] == n && t.held[k + 1] == t.held[k]
       else
         && t.done[k + 1] == n + 1 && Answers(ops[n], r, t.held[k])
         && t.held[k + 1] == BlocksAfter(t.held[k], r, ops[n])
  }

  ghost predicate InOrder(rs: seq<Request>, t: Trace, states: seq<Heap<MemoryBlock>>, ops: seq<Op<MemoryBlock>>) {
    |t.done| == |t.held| == |rs| + 1 && forall k :: 0 <= k < |rs| ==> Dealt(rs[k], t, k, states, ops)
  }

  lemma OneMore(rs: seq<Request>, k: nat, next: nat, t: Trace, t': Trace, was: seq<Heap<MemoryBlock>>, before: seq<Op<MemoryBlock>>,
                states: seq<Heap<MemoryBlock>>, ops: seq<Op<MemoryBlock>>)
    requires k < |rs| && next == k + 1 && InOrder(rs[..k], t, was, before) && was <= states && before <= ops
    requires |was| == |before| + 1 && t.done[k] == |before|
    requires |t'.done| == |t'.held| == k + 2 && t'.done[..next] == t.done && t'.held[..next] == t.held
    requires t'.done[next] == |ops|
    requires if Refused(rs[k], t.held[k], was[|before|]) then ops == before && t'.held[next] == t.held[k]
             else Served(rs[k], t.held[k], before, ops, t'.held[next])
    ensures InOrder(rs[..next], t', states, ops)
  {
    forall i | 0 <= i < next
      ensures Dealt(rs[..next][i], t', i, states, ops)
    {
      assert t'.done[i] == t'.done[..next][i] && t'.held[i] == t'.held[..next][i];
      if i < k {
        assert Dealt(rs[..k][i], t, i, was, before);
        assert t'.done[i + 1] == t'.done[..next][i + 1] && t'.held[i + 1] == t'.held[..next][i + 1];
      }
    }
  }

  class Session {
    const a: Allocator
    var handles: seq<Pointer>
    ghost var states: seq<Heap<MemoryBlock>>
    ghost var ops: seq<Op<MemoryBlock>>

    /** What has happened so far is a run from the empty heap. */
    ghost predicate History()
      reads this, a, a.blocks, a.mem
    {
      a.Valid() && Run<MemoryBlock>(states, ops, a.part) && states[0] == map[] && states[|ops|] == a.Contents()
    }

    ghost predicate Valid()
      reads this, a, a.blocks, a.mem, handles
    {
      && History() && (forall i, j :: 0 <= i < j < |handles| ==> handles[i] != handles[j])
      && Sound(BlocksOf(handles), a.Contents().Keys)
    }

    constructor (mem: array<Byte>)
      ensures Valid() && fresh(a) && fresh(a.blocks) && a.mem == mem && handles == [] && ops == []
    {
      a := new Allocator(mem);
      handles := [];
      new;
      states, ops := [map[]], [];
    }

    lemma HandleOwned(i: nat)
      requires Valid() && i < |handles|
      ensures handles[i].block != null ==> a.Owns(handles[i].block)
      ensures handles[i].block != null ==>
                handles[i].block in a.Contents() && |a.Contents()[handles[i].block]| == handles[i].block.size
    {
      if handles[i].block != null {
        assert BlocksOf(handles)[i] in a.Contents().Keys;
        a.OwnsIsView(handles[i].block);
        a.LiveBlock(handles[i].block);
      }
    }

    /** Notes the operation that has just been done. */
    ghost method Note(op: Op<MemoryBlock>)
      requires Run<MemoryBlock>(states, ops, a.part) && Step<MemoryBlock>(states[|ops|], op, a.Contents(), a.part)
      modifies `states, `ops
      ensures Run<MemoryBlock>(states, ops, a.part) && states[0] == old(states[0]) && states[|ops|] == a.Contents()
      ensures ops == old(ops) + [op] && states == old(states) + [a.Contents()]
    {
      RunSnoc(states, ops, op, a.Contents(), a.part);
      states, ops := states + [a.Contents()], ops + [op];
    }

    method AllocNoted(n: nat) returns (st: Status, p: Pointer)
      requires History()
      modifies `states, `ops, a, a.blocks, a.mem
      ensures History() && fresh(p) && (p.block != null <==> st == Done) && ops == old(ops) + [AllocOp(n, p.block)]
      ensures old(states) <= states
      ensures forall i :: 0 <= i < |a.blocks| ==> a.blocks[i] in old(a.blocks) || fresh(a.blocks[i])
      ensures st != Done ==> a.Contents().Keys == old(a.Contents().Keys)
      ensures st == Done ==> p.block !in old(a.Contents().Keys) && a.Contents().Keys == old(a.Contents().Keys) + {p.block}
    {
      st, p := a.Alloc(n);
      ghost var op := AllocOp(n, p.block);
      StepKeys(states[|ops|], op, a.Contents(), a.part);
      Note(op);
    }

    method DoNew(n: nat) returns (st: Status)
      requires Valid()
      modifies this, a, a.blocks, a.mem
      ensures Valid() && Served(New(n), old(BlocksOf(handles)), old(ops), ops, BlocksOf(handles))
      ensures old(states) <= states
      ensures forall i :: 0 <= i < |a.blocks| ==> a.blocks[i] in old(a.blocks) || fresh(a.blocks[i])
      ensures forall i :: 0 <= i < |handles| ==> handles[i] in old(handles) || fresh(handles[i])
    {
      ghost var keys, bs := a.Contents().Keys, BlocksOf(handles);
      var p;
      st, p := AllocNoted(n);
      if st == Done {
        SoundNew(bs, keys, p.block);
        handles := handles + [p];
        assert BlocksOf(handles) == bs + [p.block];
      }
    }

    method DoFree(i: nat) returns (st: Status)
      requires Valid() && i < |handles|
      modifies this, a, a.blocks, handles[i]
      ensures Valid() && (st == Done <==> old(handles[i].block) != null)
      ensures if st == Done then Served(Release(i), old(BlocksOf(handles)), old(ops), ops, BlocksOf(handles))
              else ops == old(ops) && BlocksOf(handles) == old(BlocksOf(handles))
      ensures old(states) <= states
      ensures forall i :: 0 <= i < |a.blocks| ==> a.blocks[i] in old(a.blocks) || fresh(a.blocks[i])
      ensures forall i :: 0 <= i < |handles| ==> handles[i] in old(handles) || fresh(handles[i])
    {
      HandleOwned(i);
      ghost var h, bs, keys := handles[i].block, BlocksOf(handles), a.Contents().Keys;
      st := a.Free(handles[i]);
      if st == Done {
        SoundFreed(bs, keys, i);
        assert BlocksOf(handles) == bs[i := null];
        StepKeys(states[|ops|], Op.Free(h), a.Contents(), a.part);
        Note(Op.Free(h));
      }
    }

    method ReallocNoted(p: Pointer, n: nat) returns (st: Status)
      requires History() && (p.block != null ==> a.Owns(p.block))
      modifies `states, `ops, a, a.blocks, a.mem, p
      ensures History()
      ensures ops == old(ops) + [if old(p.block) == null then AllocOp(n, p.block) else ReallocOp(old(p.block), n, st)]
      ensures old(states) <= states
      ensures forall i :: 0 <= i < |a.blocks| ==> a.blocks[i] in old(a.blocks) || fresh(a.blocks[i])
      ensures old(p.block) != null || st != Done ==> p.block == old(p.block) && a.Contents().Keys == old(a.Contents().Keys)
      ensures old(p.block) == null && st == Done ==>
                p.block != null && p.block !in old(a.Contents().Keys) && a.Contents().Keys == old(a.Contents().Keys) + {p.block}
    {
      ghost var h := p.block;
      st := a.Realloc(p, n);
      ghost var op := if h == null then AllocOp(n, p.block) else ReallocOp(h, n, st);
      StepKeys(states[|ops|], op, a.Contents(), a.part);
      Note(op);
    }

    method DoResize(i: nat, n: nat) returns (st: Status)
      requires Valid() && i < |handles|
      modifies this, a, a.blocks, a.mem, handles[i]
      ensures Valid() && Served(Resize(i, n), old(BlocksOf(handles)), old(ops), ops, BlocksOf(handles))
      ensures old(states) <= states
      ensures forall i :: 0 <= i < |a.blocks| ==> a.blocks[i] in old(a.blocks) || fresh(a.blocks[i])
      ensures forall i :: 0 <= i < |handles| ==> handles[i] in old(handles) || fresh(handles[i])
    {
      HandleOwned(i);
      ghost var h, bs, keys := handles[i].block, BlocksOf(handles), a.Contents().Keys;
      st := ReallocNoted(handles[i], n);
      assert BlocksOf(handles) == bs[i := handles[i].block];
      if h == null && st == Done { SoundNew(bs, keys, handles[i].block); }
    }

    method DoCompact()
      requires Valid()
      modifies this, a, a.blocks, a.mem
      ensures Valid() && Served(Compact, old(BlocksOf(handles)), old(ops), ops, BlocksOf(handles))
      ensures old(states) <= states
      ensures forall i :: 0 <= i < |a.blocks| ==> a.blocks[i] in old(a.blocks) || fresh(a.blocks[i])
      ensures forall i :: 0 <= i < |handles| ==> handles[i] in old(handles) || fresh(handles[i])
    {
      a.Defrag();
      Note(Op.Defrag);
    }

    /** The client stays within its block. */
    method DoWrite(i: nat, at: nat, value: Byte)
      requires Valid() && i < |handles| && handles[i].block != null && at < handles[i].block.size
      modifies this, a.mem
      ensures Valid() && Served(Write(i, at, value), old(BlocksOf(handles)), old(ops), ops, BlocksOf(handles))
      ensures old(states) <= states
      ensures forall i :: 0 <= i < |a.blocks| ==> a.blocks[i] in old(a.blocks) || fresh(a.blocks[i])
      ensures forall i :: 0 <= i < |handles| ==> handles[i] in old(handles) || fresh(handles[i])
    {
      HandleOwned(i);
      ghost var h := handles[i].block;
      a.Store(handles[i], at, value);
      StepKeys(states[|ops|], Op.Store(h, at, value), a.Contents(), a.part);
      Note(Op.Store(h, at, value));
    }

    /** One request; a client that names a handle it does not have, or writes outside, is refused. */
    method Perform(r: Request)
      requires Valid()
      modifies this, a, a.blocks, a.mem, handles
      ensures Valid() && if old(Refused(r, BlocksOf(handles), a.Contents())) then
                           ops == old(ops) && BlocksOf(handles) == old(BlocksOf(handles))
                         else Served(r, old(BlocksOf(handles)), old(ops), ops, BlocksOf(handles))
      ensures old(states) <= states
      ensures forall i :: 0 <= i < |a.blocks| ==> a.blocks[i] in old(a.blocks) || fresh(a.blocks[i])
      ensures forall i :: 0 <= i < |handles| ==> handles[i] in old(handles) || fresh(handles[i])
    {
      var st;
      match r {
        case New(n) => st := DoNew(n);
        case Release(i) => if i < |handles| { st := DoFree(i); }
        case Resize(i, n) => if i < |handles| { st := DoResize(i, n); }
        case Compact => DoCompact();
        case Write(i, at, v) =>
          if i < |handles| { HandleOwned(i); }
          if i < |handles| && handles[i].block != null && at < handles[i].block.size { DoWrite(i, at, v); }
      }
    }

    /** Any requests whatsoever: they are answered in order, but for those that are refused, what happens
        is a run of `HeapSpec`, and the bytes that are held never exceed half of the buffer. */
    method Drive(rs: seq<Request>) returns (ghost t: Trace)
      requires Valid()
      modifies this, a, a.blocks, a.mem, handles
      ensures Valid() && old(ops) <= ops && Footprint(a.Contents()) <= a.part
      ensures InOrder(rs, t, states, ops)
      ensures t.done[0] == |old(ops)| && t.done[|rs|] == |ops|
      ensures t.held[0] == old(BlocksOf(handles)) && t.held[|rs|] == BlocksOf(handles)
    {
      t := Trace([|ops|], [BlocksOf(handles)]);
      for k := 0 to |rs|
        invariant Valid() && old(ops) <= ops && InOrder(rs[..k], t, states, ops)
        invariant t.done[0] == |old(ops)| && t.done[k] == |ops|
        invariant t.held[0] == old(BlocksOf(handles)) && t.held[k] == BlocksOf(handles)
        invariant forall i :: 0 <= i < |a.blocks| ==> a.blocks[i] in old(a.blocks) || fresh(a.blocks[i])
        invariant forall i :: 0 <= i < |handles| ==> handles[i] in old(handles) || fresh(handles[i])
      {
        ghost var before, was := ops, states;
        Perform(rs[k]);
        ghost var t' := Trace(t.done + [|ops|], t.held + [BlocksOf(handles)]);
        OneMore(rs, k, k + 1, t, t', was, before, states, ops);
        t := t';
      }
      assert rs[..|rs|] == rs;
      CapacityHolds(states, ops, a.part, |ops|);
    }
  }
}
