/**
  The compacting handle allocator.  One half of the buffer is in use at a time; `Defrag` evacuates
  the live blocks to the other half.  Clients hold a `Pointer` to a block object, so their bytes may
  move while the handle stays the same.

  Addresses are offsets into the buffer.  Every public method is proved against `HeapSpec.Step`.
 */
module Allocator {
  import opened Bytes
  import opened BlockLayout
  import opened HeapLayout
  import opened HeapSpec

  class MemoryBlock {
    var start: nat
    var size: nat
    var free: bool

    constructor (start: nat, size: nat, free: bool)
      ensures this.start == start && this.size == size && this.free == free
    {
      this.start, this.size, this.free := start, size, free;
    }
  }

  class Pointer {
    var block: MemoryBlock?

    constructor (block: MemoryBlock?)
      ensures this.block == block
    {
      this.block := block;
    }
  }

  datatype Status = Done | InvalidFree | NoMemory

  ghost function CellOf(b: MemoryBlock): Cell<MemoryBlock>
    reads b
  {
    Cell(b, b.start, b.size, b.free)
  }

  ghost function CellsOf(bs: seq<MemoryBlock>): (cs: seq<Cell<MemoryBlock>>)
    reads bs
    ensures |cs| == |bs|
    ensures forall i :: 0 <= i < |bs| ==> cs[i] == CellOf(bs[i])
  {
    seq(|bs|, i requires 0 <= i < |bs| reads bs => CellOf(bs[i]))
  }

  lemma CellsOfSnoc(bs: seq<MemoryBlock>, b: MemoryBlock)
    ensures CellsOf(bs + [b]) == CellsOf(bs) + [CellOf(b)]
  {
  }

  /** The view of a well-formed list weighs as much as its live cells. */
  lemma {:induction false} FootprintIsLive<H>(cs: seq<Cell<H>>, lo: nat, hi: nat, m: seq<Byte>)
    requires Tiles(cs, lo, hi) && Distinct(cs) && hi <= |m|
    ensures Footprint(View(cs, m)) == LiveBytes(cs)
  {
    if cs != [] {
      TilesExtent(cs, lo, hi);
      FootprintIsLive(cs[1..], lo + cs[0].size, hi, m);
      if !cs[0].free {
        DisjointKeys([cs[0]], cs[1..], m);
        OneCell(cs[0]);
        var rest := View(cs[1..], m);
        assert View(cs, m) == rest[cs[0].id := Span(cs[0], m)];
        FootprintSet(rest, cs[0].id, Span(cs[0], m));
        assert rest - {cs[0].id} == rest;
      }
    }
  }

  class Allocator {
    const mem: array<Byte>
    const part: nat
    var pingPong: bool
    var blocks: seq<MemoryBlock>
    var freeBytes: nat

    ghost function Cells(): (cs: seq<Cell<MemoryBlock>>)
      reads `blocks, blocks
    {
      CellsOf(blocks)
    }

    /** Where the half in use begins. */
    ghost function Base(): nat
      reads `pingPong
    {
      if pingPong then part else 0
    }

    /** The block list tiles the half in use, the blocks are distinct objects, no free neighbours
        remain apart, and the counter is the number of free bytes. */
    ghost predicate Valid()
      reads this, blocks
    {
      part == mem.Length / 2 &&
      WellFormed(Cells(), Base(), Base() + part) &&
      freeBytes == FreeBytes(Cells())
    }

    ghost function Contents(): Heap<MemoryBlock>
      reads `blocks, blocks, mem
    {
      View(Cells(), mem[..])
    }

    ghost predicate Owns(b: MemoryBlock)
      reads `blocks, blocks
    {
      IsLive(Cells(), b)
    }

    lemma Accounting()
      requires Valid()
      ensures Footprint(Contents()) + freeBytes == part
      ensures Base() + part <= mem.Length
    {
      TilesExtent(Cells(), Base(), Base() + part);
      FootprintIsLive(Cells(), Base(), Base() + part, mem[..]);
    }

    constructor (mem: array<Byte>)
      ensures Valid() && this.mem == mem && Contents() == map[]
      ensures fresh(blocks) && freeBytes == mem.Length / 2
    {
      var block := new MemoryBlock(0, mem.Length / 2, true);
      this.mem, this.part, this.pingPong := mem, mem.Length / 2, false;
      this.freeBytes := mem.Length / 2;
      this.blocks := [block];
      new;
      assert Cells() == [CellOf(block)];
      OneCell(CellOf(block));
    }

    /** First fit. */
    method FindBlock(n: nat) returns (k: nat)
      ensures k <= |blocks|
      ensures k < |blocks| ==> blocks[k].free && blocks[k].size >= n
      ensures forall i :: 0 <= i < k ==> !(blocks[i].free && blocks[i].size >= n)
    {
      k := 0;
      while k < |blocks|
        invariant k <= |blocks|
        invariant forall i :: 0 <= i < k ==> !(blocks[i].free && blocks[i].size >= n)
      {
        if blocks[k].free && blocks[k].size >= n { return; }
        k := k + 1;
      }
    }

    method IndexOf(b: MemoryBlock) returns (k: nat)
      requires b in blocks
      ensures k < |blocks| && blocks[k] == b
    {
      k := 0;
      while blocks[k] != b
        invariant k < |blocks| && b in blocks[k..]
        decreases |blocks| - k
      {
        k := k + 1;
      }
    }

    method AppendFollowAt(k: nat)
      requires k + 1 < |blocks| && Distinct(Cells())
      modifies `blocks, blocks
      ensures blocks == old(blocks[..k + 1] + blocks[k + 2..])
      ensures Cells() == AppendFollow(old(Cells()), k)
      ensures forall b :: b in old(blocks) && b != old(blocks[k]) ==> CellOf(b) == old(CellOf(b))
      ensures old(blocks[k]).start == old(blocks[k].start) && old(blocks[k]).free == old(blocks[k].free)
    {
      var follow := blocks[k + 1].size;
      blocks := blocks[..k + 1] + blocks[k + 2..];
      blocks[k].size := blocks[k].size + follow;
      ghost var cs := old(Cells());
      assert forall i :: 0 <= i < |cs| ==> cs[i].id == old(blocks)[i];
      forall i | 0 <= i < |blocks|
        ensures Cells()[i] == AppendFollow(cs, k)[i]
      {
        if i > k { assert blocks[i] == old(blocks)[i + 1] && cs[i + 1].id != cs[k].id; }
        if i < k { assert cs[i].id != cs[k].id; }
      }
    }

    /** Merging two free neighbours is invisible to the clients. */
    method MergeFree(k: nat, ghost lo: nat, ghost hi: nat)
      requires k + 1 < |blocks| && blocks[k].free && blocks[k + 1].free
      requires Tiles(Cells(), lo, hi) && Distinct(Cells())
      modifies `blocks, blocks
      ensures Tiles(Cells(), lo, hi) && Distinct(Cells())
      ensures FreeBytes(Cells()) == old(FreeBytes(Cells())) && Contents() == old(Contents())
      ensures blocks == old(blocks[..k + 1] + blocks[k + 2..])
      ensures forall b :: b in old(blocks) && b != old(blocks[k]) ==> CellOf(b) == old(CellOf(b))
      ensures blocks[k].free && (CoalescedTo(old(Cells()), k) ==> Coalesced(Cells()))
      ensures CoalescedBut(old(Cells()), k + 1) ==> CoalescedTo(Cells(), k)
      ensures forall i :: 0 <= i < |blocks| ==> blocks[i] in old(blocks)
      ensures Lives(Cells()) == old(Lives(Cells()))
    {
      if CoalescedTo(Cells(), k) { AppendFollowCoalesced(Cells(), k); }
      if CoalescedBut(Cells(), k + 1) { AppendFollowTo(Cells(), k); }
      ghost var bs := blocks;
      AppendFollowKeeps(Cells(), k, lo, hi);
      AppendFreeView(Cells(), k, mem[..]);
      LivesJoined(Cells(), k);
      AppendFollowAt(k);
      assert forall i :: 0 <= i < |blocks| ==> blocks[i] == bs[if i <= k then i else i + 1];
    }

    method JoinBefore(k: nat, ghost lo: nat, ghost hi: nat) returns (at: nat)
      requires k < |blocks| && blocks[k].free
      requires Tiles(Cells(), lo, hi) && Distinct(Cells()) && CoalescedBut(Cells(), k)
      modifies `blocks, blocks
      ensures at < |blocks| && blocks[at].free
      ensures Tiles(Cells(), lo, hi) && Distinct(Cells()) && CoalescedTo(Cells(), at)
      ensures FreeBytes(Cells()) == old(FreeBytes(Cells())) && Contents() == old(Contents())
      ensures forall i :: 0 <= i < |blocks| ==> blocks[i] in old(blocks)
      ensures forall b :: b in old(blocks) && !old(b.free) ==> CellOf(b) == old(CellOf(b))
      ensures Lives(Cells()) == old(Lives(Cells()))
    {
      at := k;
      if at > 0 {
        at := at - 1;
        if blocks[at].free {
          MergeFree(at, lo, hi);
        } else {
          at := at + 1;
          NoneBefore(Cells(), k);
        }
      } else {
        NoneBefore(Cells(), k);
      }
    }

    method JoinAfter(k: nat, ghost lo: nat, ghost hi: nat)
      requires k < |blocks| && blocks[k].free
      requires Tiles(Cells(), lo, hi) && Distinct(Cells()) && CoalescedTo(Cells(), k)
      modifies `blocks, blocks
      ensures WellFormed(Cells(), lo, hi)
      ensures FreeBytes(Cells()) == old(FreeBytes(Cells())) && Contents() == old(Contents())
      ensures forall i :: 0 <= i < |blocks| ==> blocks[i] in old(blocks)
      ensures forall b :: b in old(blocks) && !old(b.free) ==> CellOf(b) == old(CellOf(b))
      ensures Lives(Cells()) == old(Lives(Cells()))
    {
      var at := k + 1;
      if at < |blocks| && blocks[at].free {
        at := at - 1;
        MergeFree(at, lo, hi);
      } else {
        NoNeighbours(Cells(), k);
      }
    }

    /** Coalescing around block `k`, which has just become free: first backwards, then forwards. */
    method JoinFree(k: nat, ghost lo: nat, ghost hi: nat)
      requires k < |blocks| && blocks[k].free
      requires Tiles(Cells(), lo, hi) && Distinct(Cells()) && CoalescedBut(Cells(), k)
      modifies `blocks, blocks
      ensures WellFormed(Cells(), lo, hi)
      ensures FreeBytes(Cells()) == old(FreeBytes(Cells())) && Contents() == old(Contents())
      ensures forall i :: 0 <= i < |blocks| ==> blocks[i] in old(blocks)
      ensures forall b :: b in old(blocks) && !old(b.free) ==> CellOf(b) == old(CellOf(b))
      ensures Lives(Cells()) == old(Lives(Cells()))
    {
      var at := JoinBefore(k, lo, hi);
      JoinAfter(at, lo, hi);
    }

    /** memcpy, whose contract forbids overlapping ranges. */
    method Memcpy(dst: nat, src: nat, n: nat)
      requires dst + n <= mem.Length && src + n <= mem.Length
      requires dst + n <= src || src + n <= dst
      modifies mem
      ensures mem[dst..dst + n] == old(mem[src..src + n])
      ensures forall i :: 0 <= i < mem.Length && !(dst <= i < dst + n) ==> mem[i] == old(mem[i])
    {
      forall i | 0 <= i < n {
        mem[dst + i] := mem[src + i];
      }
    }

    ghost function Target(): nat
      reads `pingPong
    {
      if pingPong then 0 else part
    }

    static ghost function Only(b: MemoryBlock?): set<MemoryBlock> {
      if b == null then {} else {b}
    }

    /** The blocks `moved` now lie one behind the other from the start of the other half up to `cur`,
        with the bytes that the cells `was` had in memory `m0`. */
    ghost predicate Evacuated(moved: seq<MemoryBlock>, cur: nat, was: seq<Cell<MemoryBlock>>, m0: seq<Byte>)
      reads `pingPong, mem, moved
    {
      Landed(CellsOf(moved), mem[..], Target(), cur, was, m0)
    }

    ghost predicate InUsedHalf(b: MemoryBlock)
      reads `pingPong, b
    {
      Base() <= b.start && b.start + b.size <= Base() + part
    }

    method Evacuate(b: MemoryBlock, moved: seq<MemoryBlock>, cur: nat,
                    ghost was: seq<Cell<MemoryBlock>>, ghost m0: seq<Byte>)
      requires Evacuated(moved, cur, was, m0) && b !in moved && !b.free
      requires 2 * part <= mem.Length == |m0| && InUsedHalf(b) && cur + b.size <= Target() + part
      requires Span(CellOf(b), mem[..]) == Span(CellOf(b), m0)
      modifies mem, b`start
      ensures Evacuated(moved + [b], cur + b.size, was + [old(CellOf(b))], m0)
      ensures forall i :: 0 <= i < mem.Length && !(cur <= i < cur + b.size) ==> mem[i] == old(mem[i])
    {
      ghost var c, m, cs := CellOf(b), mem[..], CellsOf(moved);
      Memcpy(cur, b.start, b.size);
      b.start := cur;
      assert CellsOf(moved) == cs && CellOf(b) == c.(start := cur);
      assert mem[cur..cur + c.size] == m[c.start..c.start + c.size];
      LandedNext(b, moved, cur, was, m0, c, m);
    }

    lemma LandedNext(b: MemoryBlock, moved: seq<MemoryBlock>, cur: nat, was: seq<Cell<MemoryBlock>>, m0: seq<Byte>,
                     c: Cell<MemoryBlock>, m: seq<Byte>)
      requires Landed(CellsOf(moved), m, Target(), cur, was, m0) && CellOf(b) == c.(start := cur) && !c.free
      requires |m| == mem.Length && c.start + c.size <= |m| && cur + c.size <= |m|
      requires forall i :: 0 <= i < cur ==> mem[i] == m[i]
      requires mem[cur..cur + c.size] == m[c.start..c.start + c.size] && Span(c, m) == Span(c, m0)
      ensures Evacuated(moved + [b], cur + c.size, was + [c], m0)
    {
      assert Span(c.(start := cur), mem[..]) == Span(c, m0);
      LandNext(CellsOf(moved), m, Target(), cur, was, m0, c, mem[..]);
      CellsOfSnoc(moved, b);
    }

    /** Progress of a compaction after `k` list entries: everything not yet moved is as it was. */
    ghost predicate Moving(k: nat, moved: seq<MemoryBlock>, cur: nat, skip: MemoryBlock?,
                           cs: seq<Cell<MemoryBlock>>, m0: seq<Byte>)
      reads this, mem, blocks, moved
    {
      k <= |blocks| == |cs| && |m0| == mem.Length &&
      (forall b :: b in moved ==> b in blocks && b != skip) &&
      (forall i :: k <= i < |blocks| ==> blocks[i] !in moved) &&
      (forall i :: 0 <= i < |blocks| ==> cs[i].id == blocks[i] && (blocks[i] !in moved ==> CellOf(blocks[i]) == cs[i])) &&
      (forall i :: 0 <= i < mem.Length && !(Target() <= i < cur) ==> mem[i] == m0[i]) &&
      Evacuated(moved, cur, Movers(cs[..k], Only(skip)), m0)
    }

    /** The next block to move has not been overwritten yet and still fits into the other half. */
    lemma SourceIntact(k: nat, moved: seq<MemoryBlock>, cur: nat, skip: MemoryBlock?,
                       cs: seq<Cell<MemoryBlock>>, m0: seq<Byte>)
      requires k < |blocks| && Moving(k, moved, cur, skip, cs, m0)
      requires 2 * part <= mem.Length && Tiles(cs, Base(), Base() + part)
      ensures CellOf(blocks[k]) == cs[k] && InUsedHalf(blocks[k])
      ensures blocks[k] == skip || blocks[k].free ==> Movers(cs[..k + 1], Only(skip)) == Movers(cs[..k], Only(skip))
      ensures blocks[k] != skip && !blocks[k].free ==>
                Movers(cs[..k + 1], Only(skip)) == Movers(cs[..k], Only(skip)) + [cs[k]] &&
                cur + blocks[k].size <= Target() + part
      ensures Span(cs[k], mem[..]) == Span(cs[k], m0)
    {
      MoversStep(cs, k, Only(skip), Base(), Base() + part);
      OneCell(cs[k]);
    }

    method EvacuateNext(k: nat, moved: seq<MemoryBlock>, cur: nat, skip: MemoryBlock?,
                        ghost cs: seq<Cell<MemoryBlock>>, ghost m0: seq<Byte>)
      returns (moved': seq<MemoryBlock>, cur': nat)
      requires k < |blocks| && Moving(k, moved, cur, skip, cs, m0)
      requires 2 * part <= mem.Length && Tiles(cs, Base(), Base() + part) && Distinct(cs)
      modifies mem, blocks
      ensures Moving(k + 1, moved', cur', skip, cs, m0)
    {
      var b := blocks[k];
      SourceIntact(k, moved, cur, skip, cs, m0);
      moved', cur' := moved, cur;
      if b != skip && !b.free {
        Evacuate(b, moved, cur, Movers(cs[..k], Only(skip)), m0);
        moved', cur' := moved + [b], cur + b.size;
        assert forall i :: 0 <= i < |blocks| && i != k ==> CellOf(blocks[i]) == old(CellOf(blocks[i]));
      }
    }

    /** The copying loop of both compactions: every live block but `skip` moves to the other half. */
    method EvacuateExcept(skip: MemoryBlock?) returns (moved: seq<MemoryBlock>, cur: nat)
      requires Valid()
      modifies mem, blocks
      ensures Moving(|blocks|, moved, cur, skip, old(Cells()), old(mem[..]))
      ensures Evacuated(moved, cur, Movers(old(Cells()), Only(skip)), old(mem[..]))
    {
      ghost var cs, m0 := Cells(), mem[..];
      cur := if pingPong then 0 else part;
      moved := [];
      for k := 0 to |blocks|
        invariant Moving(k, moved, cur, skip, cs, m0)
      {
        moved, cur := EvacuateNext(k, moved, cur, skip, cs, m0);
      }
      assert cs[..|blocks|] == cs;
    }

    /** Switches halves: the moved blocks and one free block behind them become the block list. */
    method Install(moved: seq<MemoryBlock>, cur: nat, ghost was: seq<Cell<MemoryBlock>>, ghost m0: seq<Byte>)
      requires Evacuated(moved, cur, was, m0) && Distinct(was)
      requires part == mem.Length / 2 && LiveBytes(was) + freeBytes == part
      requires forall c :: c in was ==> !c.free && c.id in blocks
      modifies this
      ensures Valid() && pingPong != old(pingPong) && freeBytes == old(freeBytes)
      ensures Contents() == View(was, m0)
      ensures |blocks| == |moved| + 1 && blocks[..|moved|] == moved && fresh(blocks[|moved|])
      ensures Cells() == Compacted(was, Base(), blocks[|moved|], freeBytes)
    {
      var tail := new MemoryBlock(cur, freeBytes, true);
      CompactedWellFormed(was, Target(), tail, freeBytes);
      CompactedView(CellsOf(moved), mem[..], Target(), cur, was, m0, tail, freeBytes);
      blocks := moved + [tail];
      pingPong := !pingPong;
      assert Cells() == CellsOf(moved) + [Cell(tail, cur, freeBytes, true)];
    }

    /** Compaction: the live blocks keep identity, size, order and bytes, only the other half is
        written, and all free memory ends up in one block at the end. */
    method Defrag()
      requires Valid()
      modifies this, blocks, mem
      ensures Valid() && Step(old(Contents()), Op.Defrag, Contents(), part)
      ensures pingPong != old(pingPong) && freeBytes == old(freeBytes)
      ensures forall i :: 0 <= i < |blocks| ==> blocks[i] in old(blocks) || fresh(blocks[i])
      ensures |blocks| > 0
      ensures Cells() == Compacted(Movers(old(Cells()), {}), Base(), blocks[|blocks| - 1], freeBytes)
      ensures forall i :: 0 <= i < mem.Length && !(Base() <= i < Base() + part) ==> mem[i] == old(mem[i])
    {
      ghost var cs, m0 := Cells(), mem[..];
      AllMovers(cs, Base(), Base() + part, m0);
      var moved, cur := EvacuateExcept(null);
      Install(moved, cur, Movers(cs, {}), m0);
    }

    lemma LastIntact(k: nat, moved: seq<MemoryBlock>, cur: nat, cs: seq<Cell<MemoryBlock>>, m0: seq<Byte>)
      requires k < |blocks| && Moving(|blocks|, moved, cur, blocks[k], cs, m0)
      requires 2 * part <= mem.Length && Tiles(cs, Base(), Base() + part) && Distinct(cs) && !cs[k].free
      ensures CellOf(blocks[k]) == cs[k] && InUsedHalf(blocks[k]) && cur + blocks[k].size <= Target() + part
      ensures Evacuated(moved, cur, Movers(cs, {blocks[k]}), m0)
      ensures Span(cs[k], mem[..]) == Span(cs[k], m0)
    {
      assert cs[..|blocks|] == cs;
      MoversWithout(cs, k);
      TilesExtent(cs, Base(), Base() + part);
    }

    method EvacuateWithLast(k: nat) returns (moved: seq<MemoryBlock>, cur: nat)
      requires Valid() && k < |blocks| && !blocks[k].free
      modifies mem, blocks
      ensures Evacuated(moved, cur, Movers(old(Cells()), {blocks[k]}) + [old(Cells()[k])], old(mem[..]))
      ensures |moved| > 0 && moved[|moved| - 1] == blocks[k] && forall b :: b in moved ==> b in blocks
      ensures forall i :: 0 <= i < mem.Length && !(Target() <= i < Target() + part) ==> mem[i] == old(mem[i])
    {
      ghost var cs, m0 := Cells(), mem[..];
      var b := blocks[k];
      moved, cur := EvacuateExcept(b);
      LastIntact(k, moved, cur, cs, m0);
      Evacuate(b, moved, cur, Movers(cs, {b}), m0);
      moved, cur := moved + [b], cur + b.size;
    }

    /** Compaction that puts block `k` last, right before the free memory. */
    method DefragWithLast(k: nat)
      requires Valid() && k < |blocks| && !blocks[k].free
      modifies this, blocks, mem
      ensures Valid() && Step(old(Contents()), Op.Defrag, Contents(), part)
      ensures pingPong != old(pingPong) && freeBytes == old(freeBytes)
      ensures forall i :: 0 <= i < |blocks| ==> blocks[i] in old(blocks) || fresh(blocks[i])
      ensures |blocks| > 1 && blocks[|blocks| - 2] == old(blocks[k])
      ensures blocks[|blocks| - 1].free && blocks[|blocks| - 1].size == freeBytes
      ensures Cells() == Compacted(Movers(old(Cells()), {old(blocks[k])}) + [old(Cells()[k])], Base(),
                                   blocks[|blocks| - 1], freeBytes)
      ensures forall i :: 0 <= i < mem.Length && !(Base() <= i < Base() + part) ==> mem[i] == old(mem[i])
      ensures Last(old(Cells()), old(blocks[k]), Base(), Cells()[|blocks| - 2], Lives(Cells()))
    {
      ghost var cs := Cells();
      CompactWithLast(k);
      LastThere(cs, k, Base(), blocks[|blocks| - 1], freeBytes, Cells());
      assert CellOf(blocks[|blocks| - 1]) == Cells()[|blocks| - 1];
    }

    method CompactWithLast(k: nat)
      requires Valid() && k < |blocks| && !blocks[k].free
      modifies this, blocks, mem
      ensures Valid() && Contents() == old(Contents())
      ensures pingPong != old(pingPong) && freeBytes == old(freeBytes)
      ensures forall i :: 0 <= i < |blocks| ==> blocks[i] in old(blocks) || fresh(blocks[i])
      ensures |blocks| > 1 && blocks[|blocks| - 2] == old(blocks[k])
      ensures Cells() == Compacted(Movers(old(Cells()), {old(blocks[k])}) + [old(Cells()[k])], Base(),
                                   blocks[|blocks| - 1], freeBytes)
      ensures forall i :: 0 <= i < mem.Length && !(Base() <= i < Base() + part) ==> mem[i] == old(mem[i])
    {
      ghost var cs, m0 := Cells(), mem[..];
      AllMoversWithLast(cs, k, Base(), Base() + part, m0);
      var moved, cur := EvacuateWithLast(k);
      Install(moved, cur, Movers(cs, {old(blocks[k])}) + [cs[k]], m0);
    }

    /** A new block takes the first `n` bytes of the free block `k` and goes in front of it. */
    method CutFront(k: nat, n: nat, free: bool) returns (block: MemoryBlock)
      requires k < |blocks| && Distinct(Cells()) && blocks[k].free && n <= blocks[k].size
      modifies `blocks, blocks
      ensures fresh(block) && blocks == old(blocks[..k] + [block] + blocks[k..])
      ensures var c := old(Cells()[k]);
              Cells() == Split(old(Cells()), k, Cell(block, c.start, n, free), c.(start := c.start + n, size := c.size - n))
      ensures CellOf(block) == Cell(block, old(blocks[k].start), n, free) && forall b :: b in old(blocks) ==> b in blocks
      ensures forall b :: b in old(blocks) && b != old(blocks[k]) ==> CellOf(b) == old(CellOf(b))
    {
      var b := blocks[k];
      ghost var cs := Cells();
      block := new MemoryBlock(b.start, n, free);
      b.size := b.size - n;
      b.start := b.start + n;
      blocks := blocks[..k] + [block] + blocks[k..];
      assert forall i :: 0 <= i < |cs| ==> cs[i].id == old(blocks)[i];
      assert forall i :: 0 <= i < |cs| && i != k ==> CellOf(old(blocks)[i]) == cs[i];
      Inserted(old(blocks), k, block);
    }

    method TakeWhole(k: nat, n: nat) returns (b: MemoryBlock)
      requires Valid() && k < |blocks| && blocks[k].free && blocks[k].size == n
      modifies this, blocks
      ensures Valid() && Owns(b) && b !in old(Contents())
      ensures b in Contents() && |Contents()[b]| == n && Contents() == old(Contents())[b := Contents()[b]]
      ensures forall i :: 0 <= i < |blocks| ==> blocks[i] in old(blocks) || fresh(blocks[i])
      ensures pingPong == old(pingPong) && freeBytes == old(freeBytes) - n
      ensures Lives(Cells()) == Put(old(Lives(Cells())), Cell(b, old(blocks[k].start), n, false))
    {
      ghost var now;
      b, now := MarkTaken(k);
      SetFreeBytes(freeBytes - n);
      assert Cells() == now;
    }

    method MarkTaken(k: nat) returns (b: MemoryBlock, ghost now: seq<Cell<MemoryBlock>>)
      requires Valid() && k < |blocks| && blocks[k].free
      modifies blocks[k]
      ensures b == blocks[k] && Owns(b) && b !in old(Contents()) && b.size == old(b.size)
      ensures b in Contents() && |Contents()[b]| == b.size && Contents() == old(Contents())[b := Contents()[b]]
      ensures now == Cells() && WellFormed(now, Base(), Base() + part) && FreeBytes(now) == freeBytes - b.size && b.size <= freeBytes
      ensures Lives(now) == Put(old(Lives(Cells())), Cell(b, old(b.start), b.size, false))
    {
      ghost var cs := Cells();
      Accounting();
      HandOutWhole(cs, k, Base(), Base() + part, mem[..]);
      LivesUpdated(cs, k, cs[k].(free := false));
      b := blocks[k];
      b.free := false;
      now := Cells();
      assert now == cs[k := cs[k].(free := false)] && now[k].id == b;
    }

    method TakeFront(k: nat, n: nat) returns (b: MemoryBlock)
      requires Valid() && k < |blocks| && blocks[k].free && blocks[k].size >= n
      modifies this, blocks
      ensures Valid() && Owns(b) && b !in old(Contents())
      ensures b in Contents() && |Contents()[b]| == n && Contents() == old(Contents())[b := Contents()[b]]
      ensures forall i :: 0 <= i < |blocks| ==> blocks[i] in old(blocks) || fresh(blocks[i])
      ensures pingPong == old(pingPong) && freeBytes == old(freeBytes) - n
      ensures Lives(Cells()) == Put(old(Lives(Cells())), Cell(b, old(blocks[k].start), n, false))
    {
      ghost var now;
      b, now := HandOut(k, n);
      SetFreeBytes(freeBytes - n);
      assert Cells() == now;
    }

    method CutLiveFront(k: nat, n: nat) returns (b: MemoryBlock)
      requires k < |blocks| && Distinct(Cells()) && blocks[k].free && n <= blocks[k].size
      modifies `blocks, blocks
      ensures fresh(b) && blocks == old(blocks[..k] + [b] + blocks[k..])
      ensures var c := old(Cells()[k]);
              Cells() == Split(old(Cells()), k, Cell(b, c.start, n, false), c.(start := c.start + n, size := c.size - n))
    {
      b := CutFront(k, n, false);
    }

    method HandOut(k: nat, n: nat) returns (b: MemoryBlock, ghost now: seq<Cell<MemoryBlock>>)
      requires Valid() && k < |blocks| && blocks[k].free && blocks[k].size >= n
      modifies `blocks, blocks
      ensures fresh(b) && Owns(b) && b !in old(Contents())
      ensures b in Contents() && |Contents()[b]| == n && Contents() == old(Contents())[b := Contents()[b]]
      ensures forall i :: 0 <= i < |blocks| ==> blocks[i] in old(blocks) || fresh(blocks[i])
      ensures now == Cells() && WellFormed(now, Base(), Base() + part) && FreeBytes(now) == freeBytes - n && n <= freeBytes
      ensures Lives(now) == Put(old(Lives(Cells())), Cell(b, old(blocks[k].start), n, false))
    {
      ghost var cs := Cells();
      Accounting();
      b := CutLiveFront(k, n);
      now := Cells();
      FrontShown(cs, k, n, b);
      FrontLives(cs, now, k, n, b);
      assert now[k].id == b;
    }

    static lemma FrontLives(cs: seq<Cell<MemoryBlock>>, now: seq<Cell<MemoryBlock>>, k: nat, n: nat, b: MemoryBlock)
      requires k < |cs| && cs[k].free && n <= cs[k].size && NewId(cs, b)
      requires var c := cs[k];
               now == Split(cs, k, Cell(b, c.start, n, false), c.(start := c.start + n, size := c.size - n))
      ensures Lives(now) == Put(Lives(cs), Cell(b, cs[k].start, n, false))
    {
      LivesFrontCut(cs, k, Cell(b, cs[k].start, n, false), cs[k].(start := cs[k].start + n, size := cs[k].size - n));
    }

    lemma FrontShown(cs: seq<Cell<MemoryBlock>>, k: nat, n: nat, b: MemoryBlock)
      requires k < |cs| && WellFormed(cs, Base(), Base() + part) && cs[k].free && n <= cs[k].size && NewId(cs, b)
      requires Base() + part <= mem.Length
      requires var c := cs[k];
               Cells() == Split(cs, k, Cell(b, c.start, n, false), c.(start := c.start + n, size := c.size - n))
      ensures WellFormed(Cells(), Base(), Base() + part) && FreeBytes(Cells()) == FreeBytes(cs) - n
      ensures b !in View(cs, mem[..]) && b in Contents() && |Contents()[b]| == n
      ensures Contents() == View(cs, mem[..])[b := Contents()[b]]
    {
      var now, m := Cells(), mem[..];
      HandOutFront(cs, k, n, b, Base(), Base() + part, m);
      var c := Cell(b, cs[k].start, n, false);
      assert now == Split(cs, k, c, cs[k].(start := cs[k].start + n, size := cs[k].size - n));
      assert View(now, m) == View(cs, m)[b := Span(c, m)];
    }

    /** Hands out the free block `k`, or its first `n` bytes. */
    method Take(k: nat, n: nat) returns (b: MemoryBlock)
      requires Valid() && k < |blocks| && blocks[k].free && blocks[k].size >= n
      modifies this, blocks
      ensures Valid() && Owns(b) && b !in old(Contents())
      ensures b in Contents() && |Contents()[b]| == n && Contents() == old(Contents())[b := Contents()[b]]
      ensures forall i :: 0 <= i < |blocks| ==> blocks[i] in old(blocks) || fresh(blocks[i])
      ensures pingPong == old(pingPong) && freeBytes == old(freeBytes) - n
      ensures Lives(Cells()) == Put(old(Lives(Cells())), Cell(b, old(blocks[k].start), n, false))
    {
      if blocks[k].size == n {
        b := TakeWhole(k, n);
      } else {
        b := TakeFront(k, n);
      }
    }

    /** First fit, after a compaction if nothing fits: enough free memory always suffices. */
    method FindRoom(n: nat) returns (k: nat)
      requires Valid() && n <= freeBytes
      modifies this, blocks, mem
      ensures Valid() && Contents() == old(Contents()) && freeBytes == old(freeBytes)
      ensures k < |blocks| && blocks[k].free && blocks[k].size >= n
      ensures forall i :: 0 <= i < |blocks| ==> blocks[i] in old(blocks) || fresh(blocks[i])
      ensures pingPong == old(pingPong) <==> exists b :: b in old(blocks) && old(b.free && b.size >= n)
      ensures pingPong == old(pingPong) <==> old(HasRoom(Cells(), n))
      ensures pingPong == old(pingPong) ==> FirstRoom(old(Cells()), k, n) && Cells() == old(Cells())
      ensures pingPong != old(pingPong) ==>
                Lives(Cells()) == Packed(Movers(old(Cells()), {}), Base()) && blocks[k].start == Base() + LiveBytes(old(Cells()))
    {
      k := FindBlock(n);
      FoundRoom(n, k);
      if k == |blocks| {
        k := MakeRoom(n);
      }
    }

    /** A compaction leaves all free memory in one block at the end, which is then found. */
    method MakeRoom(n: nat) returns (k: nat)
      requires Valid() && n <= freeBytes
      modifies this, blocks, mem
      ensures Valid() && Contents() == old(Contents()) && freeBytes == old(freeBytes) && pingPong != old(pingPong)
      ensures k < |blocks| && blocks[k].free && blocks[k].size >= n
      ensures forall i :: 0 <= i < |blocks| ==> blocks[i] in old(blocks) || fresh(blocks[i])
      ensures Lives(Cells()) == Packed(Movers(old(Cells()), {}), Base()) && blocks[k].start == Base() + LiveBytes(old(Cells()))
    {
      ghost var cs := Cells();
      Defrag();
      AfterCompaction(cs, Movers(cs, {}), Base(), blocks[|blocks| - 1], freeBytes);
      assert CellOf(blocks[|blocks| - 1]) == Cells()[|blocks| - 1];
      assert forall i :: 0 <= i < |blocks| - 1 ==> !Cells()[i].free && !blocks[i].free;
      k := FindBlock(n);
    }

    lemma FoundRoom(n: nat, k: nat)
      requires k <= |blocks| && (k < |blocks| ==> blocks[k].free && blocks[k].size >= n)
      requires forall i :: 0 <= i < k ==> !(blocks[i].free && blocks[i].size >= n)
      ensures HasRoom(Cells(), n) <==> k < |blocks|
      ensures k < |blocks| ==> FirstRoom(Cells(), k, n)
    {
      if k < |blocks| { assert Roomy(Cells()[k], n); }
    }

    method AllocRoom(n: nat) returns (b: MemoryBlock)
      requires Valid() && n <= freeBytes
      modifies this, blocks, mem
      ensures Valid() && forall i :: 0 <= i < |blocks| ==> blocks[i] in old(blocks) || fresh(blocks[i])
      ensures Owns(b) && b !in old(Contents()) && b in Contents() && |Contents()[b]| == n
      ensures Contents() == old(Contents())[b := Contents()[b]] && freeBytes == old(freeBytes) - n
      ensures pingPong == old(pingPong) <==> exists c :: c in old(blocks) && old(c.free && c.size >= n)
      ensures Placed(old(Cells()), b, n, pingPong != old(pingPong), Base(), Lives(Cells()))
    {
      ghost var cs := Cells();
      var k := FindRoom(n);
      ghost var found := blocks[k].start;
      b := Take(k, n);
      PlacedThere(cs, b, n, k, found, pingPong != old(pingPong), Base(), Lives(Cells()));
    }

    /** Fails exactly when the live bytes and `n` together exceed half of the buffer; fragmentation
        never makes it fail.  The live blocks move only when no free block is large enough. */
    method Alloc(n: nat) returns (st: Status, p: Pointer)
      requires Valid()
      modifies this, blocks, mem
      ensures Valid() && fresh(p) && forall i :: 0 <= i < |blocks| ==> blocks[i] in old(blocks) || fresh(blocks[i])
      ensures st == if n > old(freeBytes) then NoMemory else Done
      ensures st == NoMemory ==> p.block == null && unchanged(this) && unchanged(blocks) && unchanged(mem)
      ensures st == NoMemory ==> Step(old(Contents()), AllocFails(n), Contents(), part)
      ensures st == Done ==>
                p.block != null && Owns(p.block) && Step<MemoryBlock>(old(Contents()), Op.Alloc(n, p.block), Contents(), part)
      ensures st == Done ==> freeBytes == old(freeBytes) - n
      ensures pingPong == old(pingPong) <==>
                st == NoMemory || exists b :: b in old(blocks) && old(b.free && b.size >= n)
      ensures st == Done ==> Placed(old(Cells()), p.block, n, pingPong != old(pingPong), Base(), Lives(Cells()))
    {
      Accounting();
      if n > freeBytes {
        p := new Pointer(null);
        return NoMemory, p;
      }
      var b := AllocRoom(n);
      p := new Pointer(b);
      st := Done;
    }

    static lemma PlacedThere(cs: seq<Cell<MemoryBlock>>, b: MemoryBlock, n: nat, k: nat, found: nat, moved: bool, base: nat,
                             lives: set<Cell<MemoryBlock>>)
      requires moved <==> !HasRoom(cs, n)
      requires !moved ==> FirstRoom(cs, k, n) && found == cs[k].start && lives == Put(Lives(cs), Cell(b, found, n, false))
      requires moved ==> found == base + LiveBytes(cs) && lives == Put(Packed(Movers(cs, {}), base), Cell(b, found, n, false))
      ensures Placed(cs, b, n, moved, base, lives)
    {
      if moved { NoFirstRoom(cs, n); } else { PlacedInRoom(cs, b, n, k, base, lives); }
    }

    /** Gives the block behind `p` back and clears `p`; other copies of the handle dangle. */
    method Free(p: Pointer) returns (st: Status)
      requires Valid() && (p.block != null ==> Owns(p.block))
      modifies this, blocks, p
      ensures Valid() && forall i :: 0 <= i < |blocks| ==> blocks[i] in old(blocks) || fresh(blocks[i])
      ensures p.block == null && pingPong == old(pingPong)
      ensures st == if old(p.block) == null then InvalidFree else Done
      ensures st == InvalidFree ==> unchanged(this) && unchanged(blocks)
      ensures st == Done ==> Step<MemoryBlock>(old(Contents()), Op.Free(old(p.block)), Contents(), part)
      ensures st == Done ==> freeBytes == old(freeBytes) + old(p.block.size)
      ensures Lives(Cells()) == if st == Done then Drop(old(Lives(Cells())), old(p.block)) else old(Lives(Cells()))
    {
      if p.block == null {
        return InvalidFree;
      }
      ReleaseBlock(p.block);
      p.block := null;
      st := Done;
    }

    /** joinfree around block `k`, and the counter brought up to date. */
    method JoinAndCount(k: nat, delta: int)
      requires k < |blocks| && blocks[k].free && part == mem.Length / 2
      requires Tiles(Cells(), Base(), Base() + part) && Distinct(Cells()) && CoalescedBut(Cells(), k)
      requires freeBytes + delta == FreeBytes(Cells())
      modifies this, blocks
      ensures Valid() && Contents() == old(Contents()) && freeBytes == old(freeBytes) + delta
      ensures forall i :: 0 <= i < |blocks| ==> blocks[i] in old(blocks)
      ensures forall b :: b in old(blocks) && !old(b.free) ==> CellOf(b) == old(CellOf(b))
      ensures pingPong == old(pingPong)
      ensures Lives(Cells()) == old(Lives(Cells()))
    {
      JoinFree(k, Base(), Base() + part);
      SetFreeBytes(freeBytes + delta);
    }

    method SetFreeBytes(n: nat)
      requires part == mem.Length / 2 && WellFormed(Cells(), Base(), Base() + part)
      requires n == FreeBytes(Cells())
      modifies `freeBytes
      ensures Valid() && Cells() == old(Cells()) && freeBytes == n
    {
      freeBytes := n;
    }

    method MarkFree(k: nat)
      requires Valid() && k < |blocks| && !blocks[k].free
      modifies blocks[k]
      ensures Tiles(Cells(), Base(), Base() + part) && Distinct(Cells()) && CoalescedBut(Cells(), k)
      ensures FreeBytes(Cells()) == freeBytes + blocks[k].size && blocks[k].free
      ensures blocks[k].size == old(blocks[k].size)
      ensures Contents() == old(Contents()) - {blocks[k]}
      ensures Lives(Cells()) == Drop(old(Lives(Cells())), blocks[k])
    {
      ghost var cs := Cells();
      Release(cs, k, cs[k].(free := true), Base(), Base() + part, mem[..]);
      LivesUpdated(cs, k, cs[k].(free := true));
      blocks[k].free := true;
      assert Cells() == cs[k := cs[k].(free := true)];
    }

    method ReleaseBlock(b: MemoryBlock)
      requires Valid() && Owns(b)
      modifies this, blocks
      ensures Valid() && forall i :: 0 <= i < |blocks| ==> blocks[i] in old(blocks)
      ensures b in old(Contents()) && Contents() == old(Contents()) - {b}
      ensures freeBytes == old(freeBytes) + old(b.size) && pingPong == old(pingPong)
      ensures Lives(Cells()) == Drop(old(Lives(Cells())), b)
    {
      ViewKeys(Cells(), mem[..]);
      var k := IndexOf(b);
      MarkFree(k);
      JoinAndCount(k, b.size);
    }

    /** A new free block takes everything past the first `n` bytes of block `k` and goes behind it. */
    method CutBack(k: nat, n: nat) returns (rest: MemoryBlock)
      requires k < |blocks| && Distinct(Cells()) && n <= blocks[k].size
      modifies `blocks, blocks[k]
      ensures fresh(rest) && blocks == old(blocks[..k + 1] + [rest] + blocks[k + 1..])
      ensures var c := old(Cells()[k]);
              Cells() == Split(old(Cells()), k, c.(size := n), Cell(rest, c.start + n, c.size - n, true))
    {
      var b := blocks[k];
      ghost var cs := Cells();
      assert forall i :: 0 <= i < |cs| ==> cs[i].id == blocks[i];
      rest := new MemoryBlock(b.start + n, b.size - n, true);
      b.size := n;
      blocks := blocks[..k + 1] + [rest] + blocks[k + 1..];
      assert forall i :: 0 <= i < |cs| && i != k ==> CellOf(old(blocks)[i]) == cs[i];
      SplitShown(old(blocks), cs, k, cs[k].(size := n), rest);
    }

    lemma SplitShown(bs: seq<MemoryBlock>, cs: seq<Cell<MemoryBlock>>, k: nat, front: Cell<MemoryBlock>, rest: MemoryBlock)
      requires k < |cs| == |bs| && blocks == bs[..k + 1] + [rest] + bs[k + 1..] && CellOf(bs[k]) == front
      requires forall i :: 0 <= i < |cs| && i != k ==> CellOf(bs[i]) == cs[i]
      ensures Cells() == Split(cs, k, front, CellOf(rest))
    {
    }

    method CutLive(k: nat, n: nat)
      requires Valid() && k < |blocks| && !blocks[k].free && n <= blocks[k].size
      modifies `blocks, blocks
      ensures |blocks| == |old(blocks)| + 1 && blocks[k] == old(blocks[k]) && fresh(blocks[k + 1])
      ensures forall i :: 0 <= i < |blocks| ==> blocks[i] in old(blocks) || fresh(blocks[i])
      ensures CellOf(blocks[k]) == old(CellOf(blocks[k])).(size := n) && blocks[k + 1].free
      ensures Tiles(Cells(), Base(), Base() + part) && Distinct(Cells()) && CoalescedBut(Cells(), k + 1)
      ensures FreeBytes(Cells()) == freeBytes + old(blocks[k].size) - n
      ensures Resized(old(Contents()), Contents(), blocks[k], n) && |old(Contents())[blocks[k]]| == old(blocks[k].size)
      ensures Lives(Cells()) == Put(old(Lives(Cells())), old(CellOf(blocks[k])).(size := n))
    {
      ghost var cs, b := Cells(), blocks[k];
      Accounting();
      ghost var rest := CutBack(k, n);
      TailShown(cs, k, n, rest);
      assert CellOf(blocks[k]) == Cells()[k] && CellOf(blocks[k + 1]) == Cells()[k + 1];
    }

    lemma TailShown(cs: seq<Cell<MemoryBlock>>, k: nat, n: nat, rest: MemoryBlock)
      requires k < |cs| && WellFormed(cs, Base(), Base() + part) && !cs[k].free && n <= cs[k].size && NewId(cs, rest)
      requires Base() + part <= mem.Length
      requires Cells() == Split(cs, k, cs[k].(size := n), Cell(rest, cs[k].start + n, cs[k].size - n, true))
      ensures Tiles(Cells(), Base(), Base() + part) && Distinct(Cells()) && CoalescedBut(Cells(), k + 1)
      ensures FreeBytes(Cells()) == FreeBytes(cs) + cs[k].size - n
      ensures Resized(View(cs, mem[..]), Contents(), cs[k].id, n) && |View(cs, mem[..])[cs[k].id]| == cs[k].size
      ensures Lives(Cells()) == Put(Lives(cs), cs[k].(size := n))
    {
      LivesTailCut(cs, k, cs[k].(size := n), Cell(rest, cs[k].start + n, cs[k].size - n, true));
      CutTail(cs, k, n, rest, Base(), Base() + part, mem[..]);
    }

    /** Shrinking never moves the block; the bytes cut off become free memory at once. */
    method Shrink(k: nat, n: nat)
      requires Valid() && k < |blocks| && !blocks[k].free && n <= blocks[k].size
      modifies this, blocks
      ensures Valid() && forall i :: 0 <= i < |blocks| ==> blocks[i] in old(blocks) || fresh(blocks[i])
      ensures var b := old(blocks[k]);
              Resized(old(Contents()), Contents(), b, n) && |old(Contents())[b]| == old(b.size) &&
              b.size == n && b.start == old(b.start)
      ensures freeBytes == old(freeBytes) + old(blocks[k].size) - n && pingPong == old(pingPong)
      ensures Lives(Cells()) == Put(old(Lives(Cells())), old(CellOf(blocks[k])).(size := n))
    {
      var cut := blocks[k].size - n;
      CutLive(k, n);
      JoinAndCount(k + 1, cut);
    }

    method CutFreeFront(k: nat, n: nat)
      requires Valid() && k < |blocks| && blocks[k].free && n <= blocks[k].size
      modifies `blocks, blocks
      ensures k < |blocks| && blocks[k].free && blocks[k].size == n && blocks[k].start == old(blocks[k].start)
      ensures Tiles(Cells(), Base(), Base() + part) && Distinct(Cells()) && CoalescedBut(Cells(), k)
      ensures FreeBytes(Cells()) == freeBytes && Contents() == old(Contents())
      ensures forall i :: 0 <= i < k ==> blocks[i] == old(blocks[i])
      ensures forall i :: 0 <= i < |blocks| ==> blocks[i] in old(blocks) || fresh(blocks[i])
      ensures forall b :: b in old(blocks) ==> b in blocks
      ensures forall b :: b in old(blocks) && !old(b.free) ==> CellOf(b) == old(CellOf(b))
      ensures Lives(Cells()) == old(Lives(Cells()))
    {
      ghost var cs := Cells();
      ghost var front := CutFront(k, n, true);
      LivesFrontCut(cs, k, Cell(front, cs[k].start, n, true), cs[k].(start := cs[k].start + n, size := cs[k].size - n));
      CutFree(cs, k, n, front, Base(), Base() + part, mem[..]);
    }

    static lemma Inserted(bs: seq<MemoryBlock>, k: nat, b: MemoryBlock)
      requires k < |bs|
      ensures forall c :: c in bs ==> c in bs[..k] + [b] + bs[k..]
    {
    }

    /** shortSizeBlock on a free block: afterwards block `k` has exactly `n` bytes. */
    method TrimFree(k: nat, n: nat)
      requires Valid() && k < |blocks| && blocks[k].free && n <= blocks[k].size
      modifies `blocks, blocks
      ensures k < |blocks| && blocks[k].free && blocks[k].size == n && blocks[k].start == old(blocks[k].start)
      ensures Tiles(Cells(), Base(), Base() + part) && Distinct(Cells()) && CoalescedBut(Cells(), k)
      ensures FreeBytes(Cells()) == freeBytes && Contents() == old(Contents())
      ensures forall i :: 0 <= i < k ==> blocks[i] == old(blocks[i])
      ensures forall i :: 0 <= i < |blocks| ==> blocks[i] in old(blocks) || fresh(blocks[i])
      ensures forall b :: b in old(blocks) ==> b in blocks
      ensures forall b :: b in old(blocks) && !old(b.free) ==> CellOf(b) == old(CellOf(b))
      ensures Lives(Cells()) == old(Lives(Cells()))
    {
      if blocks[k].size != n {
        CutFreeFront(k, n);
      }
    }

    /** The live block `k` takes over the whole free block behind it. */
    method Absorb(k: nat)
      requires k + 1 < |blocks| && !blocks[k].free && blocks[k + 1].free && Base() + part <= mem.Length
      requires Tiles(Cells(), Base(), Base() + part) && Distinct(Cells()) && CoalescedBut(Cells(), k + 1)
      modifies `blocks, blocks
      ensures WellFormed(Cells(), Base(), Base() + part)
      ensures FreeBytes(Cells()) == old(FreeBytes(Cells())) - old(blocks[k + 1].size)
      ensures forall i :: 0 <= i < |blocks| ==> blocks[i] in old(blocks)
      ensures var b := old(blocks[k]);
              Resized(old(Contents()), Contents(), b, b.size) && |old(Contents())[b]| == old(b.size) &&
              b.size == old(b.size + blocks[k + 1].size) && b.start == old(b.start)
      ensures Lives(Cells()) == Put(old(Lives(Cells())), old(CellOf(blocks[k])).(size := old(blocks[k].size + blocks[k + 1].size)))
    {
      ghost var cs := Cells();
      AppendFollowAt(k);
      AbsorbShown(cs, k);
      assert CellOf(blocks[k]) == Cells()[k];
    }

    lemma AbsorbShown(cs: seq<Cell<MemoryBlock>>, k: nat)
      requires k + 1 < |cs| && Tiles(cs, Base(), Base() + part) && Distinct(cs) && Base() + part <= mem.Length
      requires !cs[k].free && cs[k + 1].free && CoalescedBut(cs, k + 1) && Cells() == AppendFollow(cs, k)
      ensures WellFormed(Cells(), Base(), Base() + part) && FreeBytes(Cells()) == FreeBytes(cs) - cs[k + 1].size
      ensures var c := cs[k].(size := cs[k].size + cs[k + 1].size);
              Cells()[k] == c && Lives(Cells()) == Put(Lives(cs), c) &&
              Resized(View(cs, mem[..]), Contents(), c.id, c.size) && |View(cs, mem[..])[c.id]| == cs[k].size
    {
      GrowExact(cs, k, Base(), Base() + part, mem[..]);
      LivesJoined(cs, k);
    }

    /** Growing into the free block behind: the address stays. */
    method GrowInPlace(k: nat, n: nat)
      requires Valid() && k + 1 < |blocks| && !blocks[k].free && blocks[k].size < n
      requires blocks[k + 1].free && blocks[k + 1].size >= n - blocks[k].size
      modifies this, blocks
      ensures Valid() && forall i :: 0 <= i < |blocks| ==> blocks[i] in old(blocks) || fresh(blocks[i])
      ensures var b := old(blocks[k]);
              Resized(old(Contents()), Contents(), b, n) && |old(Contents())[b]| == old(b.size) &&
              b.size == n && b.start == old(b.start)
      ensures freeBytes == old(freeBytes) + old(blocks[k].size) - n && pingPong == old(pingPong)
      ensures Lives(Cells()) == Put(old(Lives(Cells())), old(CellOf(blocks[k])).(size := n))
    {
      var b, delta := blocks[k], n - blocks[k].size;
      TrimBehind(b, k, delta);
      Absorb(k);
      SetFreeBytes(freeBytes - delta);
    }

    /** The free block behind `b` is cut to `delta` bytes. */
    method TrimBehind(b: MemoryBlock, k: nat, delta: nat)
      requires Valid() && k + 1 < |blocks| && blocks[k] == b && !b.free && blocks[k + 1].free && delta <= blocks[k + 1].size
      modifies `blocks, blocks
      ensures k + 1 < |blocks| && blocks[k] == b && CellOf(b) == old(CellOf(b))
      ensures blocks[k + 1].free && blocks[k + 1].size == delta <= freeBytes && Base() + part <= mem.Length
      ensures Tiles(Cells(), Base(), Base() + part) && Distinct(Cells()) && CoalescedBut(Cells(), k + 1)
      ensures FreeBytes(Cells()) == freeBytes && Contents() == old(Contents()) && Lives(Cells()) == old(Lives(Cells()))
      ensures forall i :: 0 <= i < |blocks| ==> blocks[i] in old(blocks) || fresh(blocks[i])
    {
      Accounting();
      TrimFree(k + 1, delta);
      CellFits(Cells(), k + 1);
    }

    static lemma {:induction false} CellFits(cs: seq<Cell<MemoryBlock>>, k: nat)
      requires k < |cs| && cs[k].free
      ensures cs[k].size <= FreeBytes(cs)
    {
      if k > 0 { CellFits(cs[1..], k - 1); }
    }

    /** Block `i` takes the place and the room of block `k`; a new free block takes the place of block `i`. */
    method Relink(i: nat, k: nat) returns (hole: MemoryBlock)
      requires i < |blocks| && k < |blocks| && !blocks[i].free && blocks[k].free && Distinct(Cells())
      modifies `blocks, blocks[i]
      ensures fresh(hole) && blocks == old(blocks)[k := old(blocks[i])][i := hole]
      ensures Cells() == MoveTo(old(Cells()), i, k, hole)
      ensures CellOf(old(blocks[i])) == Cell(old(blocks[i]), old(blocks[k].start), old(blocks[k].size), false) && hole.free
    {
      var b, room := blocks[i], blocks[k];
      ghost var cs := Cells();
      assert forall j :: 0 <= j < |cs| ==> cs[j].id == blocks[j];
      hole := new MemoryBlock(b.start, b.size, true);
      b.start, b.size := room.start, room.size;
      blocks := blocks[k := b][i := hole];
      assert forall j :: 0 <= j < |cs| && j != i ==> CellOf(old(blocks)[j]) == cs[j];
    }

    /** The bytes of block `i` are copied to the front of block `k`. */
    method CopyBlock(i: nat, k: nat)
      requires i < |blocks| && k < |blocks| && i != k && blocks[i].size <= blocks[k].size
      requires Tiles(Cells(), Base(), Base() + part) && Base() + part <= mem.Length
      modifies mem
      ensures var from, to, n := blocks[i].start, blocks[k].start, blocks[i].size;
              from + n <= mem.Length && to + n <= mem.Length && mem[to..to + n] == old(mem[from..from + n]) &&
              forall a :: 0 <= a < mem.Length && !(to <= a < to + n) ==> mem[a] == old(mem[a])
    {
      CopyRanges(Cells(), i, k, Base(), Base() + part);
      Memcpy(blocks[k].start, blocks[i].start, blocks[i].size);
    }

    /** The live block `i` is copied into the free block `k`, which it replaces in the list. */
    lemma MovedShown(cs: seq<Cell<MemoryBlock>>, i: nat, k: nat, hole: MemoryBlock, m: seq<Byte>)
      requires i < |cs| && k < |cs| && !cs[i].free && cs[k].free && NewId(cs, hole) && cs[i].size <= cs[k].size
      requires Tiles(cs, Base(), Base() + part) && Distinct(cs) && CoalescedBut(cs, k)
      requires Base() + part <= |m| == mem.Length && Cells() == MoveTo(cs, i, k, hole)
      requires forall a :: 0 <= a < |m| && !(cs[k].start <= a < cs[k].start + cs[i].size) ==> mem[a] == m[a]
      requires cs[k].start + cs[i].size <= |m| && cs[i].start + cs[i].size <= |m| &&
               mem[cs[k].start..cs[k].start + cs[i].size] == m[cs[i].start..cs[i].start + cs[i].size]
      ensures Tiles(Cells(), Base(), Base() + part) && Distinct(Cells()) && CoalescedBut(Cells(), i)
      ensures FreeBytes(Cells()) == FreeBytes(cs) + cs[i].size - cs[k].size
      ensures Resized(View(cs, m), Contents(), cs[i].id, cs[k].size) && |View(cs, m)[cs[i].id]| == cs[i].size
      ensures Lives(Cells()) == Put(Lives(cs), Cell(cs[i].id, cs[k].start, cs[k].size, false))
    {
      LivesMoved(cs, i, k, hole);
      MoveToResizes(cs, i, k, hole, Base(), Base() + part, m, mem[..]);
    }

    method MoveBlock(i: nat, k: nat)
      requires i < |blocks| && k < |blocks| && !blocks[i].free && blocks[k].free && blocks[i].size <= blocks[k].size
      requires Tiles(Cells(), Base(), Base() + part) && Distinct(Cells()) && CoalescedBut(Cells(), k)
      requires Base() + part <= mem.Length
      modifies `blocks, blocks[i], mem
      ensures |blocks| == |old(blocks)| && blocks[i].free
      ensures forall j :: 0 <= j < |blocks| ==> blocks[j] in old(blocks) || fresh(blocks[j])
      ensures Tiles(Cells(), Base(), Base() + part) && Distinct(Cells()) && CoalescedBut(Cells(), i)
      ensures FreeBytes(Cells()) == old(FreeBytes(Cells()) + blocks[i].size - blocks[k].size)
      ensures var b := old(blocks[i]);
              Resized(old(Contents()), Contents(), b, b.size) && |old(Contents())[b]| == old(b.size) &&
              b.size == old(blocks[k].size) && !b.free && b in blocks
      ensures Lives(Cells()) == Put(old(Lives(Cells())), old(Cell(blocks[i], blocks[k].start, blocks[k].size, false)))
    {
      ghost var cs, m := Cells(), mem[..];
      CopyBlock(i, k);
      assert Cells() == cs;
      ghost var b := blocks[i];
      ghost var hole := Relink(i, k);
      MovedShown(cs, i, k, hole, m);
      assert blocks[k] == b && blocks[i] == hole;
    }

    lemma LiveBlock(b: MemoryBlock)
      requires Valid() && Owns(b)
      ensures b in blocks && !b.free && b in Contents() && |Contents()[b]| == b.size
    {
      var cs := Cells();
      var i :| 0 <= i < |cs| && cs[i].id == b && !cs[i].free;
      Accounting();
      TilesExtent(cs, Base(), Base() + part);
      ViewAt(cs, mem[..], i);
    }

    lemma OwnsIsView(b: MemoryBlock)
      requires Valid()
      ensures Owns(b) <==> b in Contents()
    {
      ViewKeys(Cells(), mem[..]);
    }

    /** `b` moves into the free block `k`; block `i` is its old room. */
    method MoveExact(b: MemoryBlock, k: nat) returns (i: nat)
      requires b in blocks && !b.free && k < |blocks| && blocks[k].free && b.size <= blocks[k].size
      requires Tiles(Cells(), Base(), Base() + part) && Distinct(Cells()) && CoalescedBut(Cells(), k)
      requires Base() + part <= mem.Length
      modifies `blocks, blocks, mem
      ensures i < |blocks| && blocks[i].free
      ensures forall i :: 0 <= i < |blocks| ==> blocks[i] in old(blocks) || fresh(blocks[i])
      ensures Tiles(Cells(), Base(), Base() + part) && Distinct(Cells()) && CoalescedBut(Cells(), i)
      ensures FreeBytes(Cells()) == old(FreeBytes(Cells()) + b.size - blocks[k].size)
      ensures Resized(old(Contents()), Contents(), b, b.size) && |old(Contents())[b]| == old(b.size)
      ensures b.size == old(blocks[k].size) && !b.free && b in blocks
      ensures Lives(Cells()) == Put(old(Lives(Cells())), old(Cell(b, blocks[k].start, blocks[k].size, false)))
    {
      i := IndexOf(b);
      MoveBlock(i, k);
    }

    /** The first `n` bytes of the free block `k` become the new room of `b`; block `i` is the old room. */
    method MoveOut(b: MemoryBlock, k: nat, n: nat) returns (i: nat)
      requires Valid() && Owns(b) && k < |blocks| && blocks[k].free && b.size < n <= blocks[k].size
      modifies `blocks, blocks, mem
      ensures i < |blocks| && blocks[i].free
      ensures forall i :: 0 <= i < |blocks| ==> blocks[i] in old(blocks) || fresh(blocks[i])
      ensures Tiles(Cells(), Base(), Base() + part) && Distinct(Cells()) && CoalescedBut(Cells(), i)
      ensures FreeBytes(Cells()) == freeBytes + old(b.size) - n
      ensures Resized(old(Contents()), Contents(), b, n) && |old(Contents())[b]| == old(b.size)
      ensures b.size == n && !b.free && b in blocks
      ensures Lives(Cells()) == Put(old(Lives(Cells())), Cell(b, old(blocks[k].start), n, false))
    {
      LiveBlock(b);
      Accounting();
      TrimFree(k, n);
      i := MoveExact(b, k);
    }

    method MoveInto(b: MemoryBlock, k: nat, n: nat)
      requires Valid() && Owns(b) && k < |blocks| && blocks[k].free && b.size < n <= blocks[k].size
      modifies this, blocks, mem
      ensures Valid() && forall i :: 0 <= i < |blocks| ==> blocks[i] in old(blocks) || fresh(blocks[i])
      ensures Resized(old(Contents()), Contents(), b, n) && |old(Contents())[b]| == old(b.size) && b.size == n
      ensures freeBytes == old(freeBytes) + old(b.size) - n
      ensures Lives(Cells()) == Put(old(Lives(Cells())), Cell(b, old(blocks[k].start), n, false))
      ensures pingPong == old(pingPong)
    {
      var size := b.size;
      var i := MoveOut(b, k, n);
      JoinAndCount(i, size - n);
    }

    /** Growing by moving into a free block of `n` bytes, which a compaction provides if need be. */
    method GrowByMoving(b: MemoryBlock, n: nat)
      requires Valid() && Owns(b) && b.size < n <= freeBytes
      modifies this, blocks, mem
      ensures Valid() && forall i :: 0 <= i < |blocks| ==> blocks[i] in old(blocks) || fresh(blocks[i])
      ensures Resized(old(Contents()), Contents(), b, n) && |old(Contents())[b]| == old(b.size) && b.size == n
      ensures freeBytes == old(freeBytes) + old(b.size) - n
      ensures Placed(old(Cells()), b, n, pingPong != old(pingPong), Base(), Lives(Cells()))
    {
      ghost var cs := Cells();
      LiveBlock(b);
      var k := FindRoom(n);
      ghost var found := blocks[k].start;
      OwnsIsView(b);
      LiveBlock(b);
      MoveInto(b, k, n);
      PlacedThere(cs, b, n, k, found, pingPong != old(pingPong), Base(), Lives(Cells()));
    }

    /** If `n` bytes cannot be free anywhere, the block goes last and all free memory follows it. */
    method Approach(b: MemoryBlock, n: nat) returns (k: nat)
      requires Valid() && Owns(b)
      modifies this, blocks, mem
      ensures Valid() && forall i :: 0 <= i < |blocks| ==> blocks[i] in old(blocks) || fresh(blocks[i])
      ensures Contents() == old(Contents()) && freeBytes == old(freeBytes)
      ensures Owns(b) && b.size == old(b.size) && k < |blocks| && blocks[k] == b && !b.free
      ensures freeBytes < n ==> k + 1 < |blocks| && blocks[k + 1].free && blocks[k + 1].size == freeBytes
      ensures n <= freeBytes ==> Cells() == old(Cells()) && pingPong == old(pingPong)
      ensures freeBytes < n ==> pingPong != old(pingPong) && Last(old(Cells()), b, Base(), Cells()[k], Lives(Cells()))
    {
      LiveBlock(b);
      k := IndexOf(b);
      if freeBytes < n {
        k := GoLast(b, k);
      }
    }

    method GoLast(b: MemoryBlock, i: nat) returns (k: nat)
      requires Valid() && i < |blocks| && blocks[i] == b && !b.free && Owns(b)
      modifies this, blocks, mem
      ensures Valid() && forall i :: 0 <= i < |blocks| ==> blocks[i] in old(blocks) || fresh(blocks[i])
      ensures Contents() == old(Contents()) && freeBytes == old(freeBytes) && pingPong != old(pingPong)
      ensures Owns(b) && b.size == old(b.size) && k < |blocks| && blocks[k] == b && !b.free
      ensures k + 1 < |blocks| && blocks[k + 1].free && blocks[k + 1].size == freeBytes
      ensures Last(old(Cells()), b, Base(), Cells()[k], Lives(Cells()))
    {
      LiveBlock(b);
      DefragWithLast(i);
      OwnsIsView(b);
      LiveBlock(b);
      k := IndexOf(b);
      assert Cells()[k].id == b && Cells()[|blocks| - 2].id == b;
    }

    /** Block `b` is the last of the compacted ones. */
    static ghost predicate Last(cs: seq<Cell<MemoryBlock>>, b: MemoryBlock, base: nat, c: Cell<MemoryBlock>,
                                lives: set<Cell<MemoryBlock>>) {
      forall i :: 0 <= i < |cs| && cs[i].id == b ==>
        && lives == Packed(Movers(cs, {b}) + [cs[i]], base) && cs[i].size <= LiveBytes(cs)
        && c == cs[i].(start := base + LiveBytes(cs) - cs[i].size)
    }

    static lemma LastThere(cs: seq<Cell<MemoryBlock>>, k: nat, base: nat, tail: MemoryBlock, free: nat, now: seq<Cell<MemoryBlock>>)
      requires k < |cs| && Distinct(cs) && !cs[k].free
      requires now == Compacted(Movers(cs, {cs[k].id}) + [cs[k]], base, tail, free)
      ensures |now| > 1 && Last(cs, cs[k].id, base, now[|now| - 2], Lives(now))
    {
      AfterCompactionWithLast(cs, k, base, tail, free);
    }

    /** In place if the block behind allows it, and by moving if not. */
    method GrowFrom(b: MemoryBlock, k: nat, n: nat)
      requires Valid() && Owns(b) && b.size < n && n - b.size <= freeBytes && k < |blocks| && blocks[k] == b && !b.free
      requires freeBytes < n ==> RoomBehind(Cells(), k, n)
      modifies this, blocks, mem
      ensures Valid() && forall i :: 0 <= i < |blocks| ==> blocks[i] in old(blocks) || fresh(blocks[i])
      ensures Resized(old(Contents()), Contents(), b, n) && |old(Contents())[b]| == old(b.size) && b.size == n
      ensures freeBytes == old(freeBytes) + old(b.size) - n
      ensures if old(RoomBehind(Cells(), k, n))
              then pingPong == old(pingPong) && Lives(Cells()) == Put(old(Lives(Cells())), old(CellOf(b)).(size := n))
              else Placed(old(Cells()), b, n, pingPong != old(pingPong), Base(), Lives(Cells()))
    {
      if k + 1 < |blocks| && blocks[k + 1].free && blocks[k + 1].size >= n - b.size {
        GrowInPlace(k, n);
      } else {
        GrowByMoving(b, n);
      }
    }

    /** Growing succeeds exactly when the extra bytes are free, however they are scattered. */
    method Grow(b: MemoryBlock, n: nat)
      requires Valid() && Owns(b) && b.size < n && n - b.size <= freeBytes
      modifies this, blocks, mem
      ensures Valid() && forall i :: 0 <= i < |blocks| ==> blocks[i] in old(blocks) || fresh(blocks[i])
      ensures Resized(old(Contents()), Contents(), b, n) && |old(Contents())[b]| == old(b.size) && b.size == n
      ensures freeBytes == old(freeBytes) + old(b.size) - n
      ensures AllGrown(old(Cells()), b, n, old(freeBytes), pingPong != old(pingPong), Base(), Lives(Cells()))
      ensures StaysExactly(old(Cells()), b, n, old(freeBytes), pingPong != old(pingPong), b.start)
    {
      ghost var cs := Cells();
      var k := Approach(b, n);
      ghost var now := Cells();
      GrowFrom(b, k, n);
      GrownThere(cs, now, b, k, n, old(freeBytes), pingPong != old(pingPong), Base(), Lives(Cells()));
      StaysThere(cs, b, n, old(freeBytes), pingPong != old(pingPong));
    }

    /** The half changes exactly when fewer than `n` bytes are free, or neither the block behind nor any
        other free block has room; and with room behind it the block stays where it is. */
    static ghost predicate StaysExactly(cs: seq<Cell<MemoryBlock>>, b: MemoryBlock, n: nat, free: nat, moved: bool, start: nat) {
      forall k :: 0 <= k < |cs| && cs[k].id == b ==>
        && (moved <==> free < n || (!RoomBehind(cs, k, n) && !HasRoom(cs, n)))
        && (n <= free && RoomBehind(cs, k, n) ==> start == cs[k].start)
    }

    lemma StaysThere(cs: seq<Cell<MemoryBlock>>, b: MemoryBlock, n: nat, free: nat, moved: bool)
      requires AllGrown(cs, b, n, free, moved, Base(), Lives(Cells()))
      ensures StaysExactly(cs, b, n, free, moved, b.start)
    {
      forall k: nat | k < |cs| && cs[k].id == b
        ensures moved <==> free < n || (!RoomBehind(cs, k, n) && !HasRoom(cs, n))
        ensures n <= free && RoomBehind(cs, k, n) ==> b.start == cs[k].start
      {
        GrownMeans(cs, k, n, free, moved, Base(), Lives(Cells()));
      }
    }

    /** `Grown` of the block `b`, wherever it stood in the list. */
    static ghost predicate AllGrown(cs: seq<Cell<MemoryBlock>>, b: MemoryBlock, n: nat, free: nat, moved: bool, base: nat,
                                    lives: set<Cell<MemoryBlock>>) {
      forall k :: 0 <= k < |cs| && cs[k].id == b ==> Grown(cs, k, n, free, moved, base, lives)
    }

    static lemma GrownThere(cs: seq<Cell<MemoryBlock>>, now: seq<Cell<MemoryBlock>>, b: MemoryBlock, k: nat, n: nat, free: nat,
                            moved: bool, base: nat, lives: set<Cell<MemoryBlock>>)
      requires k < |now| && now[k].id == b && !now[k].free && Distinct(cs)
      requires n <= free ==> now == cs
      requires free < n ==> moved && RoomBehind(now, k, n) && Last(cs, b, base, now[k], Lives(now))
      requires RoomBehind(now, k, n) ==> (n <= free ==> !moved) && lives == Put(Lives(now), now[k].(size := n))
      requires !RoomBehind(now, k, n) ==> Placed(now, b, n, moved, base, lives)
      ensures AllGrown(cs, b, n, free, moved, base, lives)
    {
      forall i: nat | i < |cs| && cs[i].id == b
        ensures Grown(cs, i, n, free, moved, base, lives)
      {
        if n <= free {
          assert i == k;
        } else {
          assert now[k].(size := n) == Cell(b, base + LiveBytes(cs) - cs[i].size, n, false);
        }
      }
    }

    /** The three ways a live block changes its size, and the one way it fails to. */
    method Resize(b: MemoryBlock, n: nat) returns (st: Status)
      requires Valid() && Owns(b)
      modifies this, blocks, mem
      ensures Valid() && forall i :: 0 <= i < |blocks| ==> blocks[i] in old(blocks) || fresh(blocks[i])
      ensures b in old(Contents()) && |old(Contents())[b]| == old(b.size)
      ensures st == if n > old(freeBytes + b.size) then NoMemory else Done
      ensures st == NoMemory ==> unchanged(this) && unchanged(blocks) && unchanged(mem)
      ensures st == Done ==> Resized(old(Contents()), Contents(), b, n) && b.size == n
      ensures st == Done ==> freeBytes == old(freeBytes + b.size) - n
      ensures n <= old(b.size) ==> b.start == old(b.start) && pingPong == old(pingPong)
      ensures n > old(b.size) && st == Done ==>
                AllGrown(old(Cells()), b, n, old(freeBytes), pingPong != old(pingPong), Base(), Lives(Cells()))
      ensures n > old(b.size) && st == Done ==> StaysExactly(old(Cells()), b, n, old(freeBytes), pingPong != old(pingPong), b.start)
      ensures n <= old(b.size) ==> Lives(Cells()) == Put(old(Lives(Cells())), old(CellOf(b)).(size := n))
    {
      LiveBlock(b);
      st := Done;
      if b.size == n {
      } else if b.size > n {
        var k := IndexOf(b);
        Shrink(k, n);
      } else if n - b.size > freeBytes {
        st := NoMemory;
      } else {
        Grow(b, n);
      }
    }

    /** Changes the size of the block behind `p`, or allocates one if there is none. */
    method Realloc(p: Pointer, n: nat) returns (st: Status)
      requires Valid() && (p.block != null ==> Owns(p.block))
      modifies this, blocks, mem, p
      ensures Valid() && forall i :: 0 <= i < |blocks| ==> blocks[i] in old(blocks) || fresh(blocks[i])
      ensures st == if n > old(freeBytes + if p.block == null then 0 else p.block.size) then NoMemory else Done
      ensures st == NoMemory ==> unchanged(this) && unchanged(blocks) && unchanged(mem) && p.block == old(p.block)
      ensures st == Done ==> p.block != null && Owns(p.block)
      ensures old(p.block) != null ==> p.block == old(p.block)
      ensures old(p.block) == null && st == Done ==>
                Step<MemoryBlock>(old(Contents()), Op.Alloc(n, p.block), Contents(), part)
      ensures old(p.block) == null && st == NoMemory ==>
                Step<MemoryBlock>(old(Contents()), AllocFails(n), Contents(), part)
      ensures old(p.block) != null && st == Done ==>
                Step<MemoryBlock>(old(Contents()), Op.Realloc(p.block, n), Contents(), part)
      ensures old(p.block) != null && st == NoMemory ==>
                Step<MemoryBlock>(old(Contents()), ReallocFails(p.block, n), Contents(), part)
      ensures old(p.block) != null && n <= old(p.block.size) ==>
                p.block.start == old(p.block.start) && pingPong == old(pingPong)
      ensures old(p.block) == null && st == Done ==>
                Placed(old(Cells()), p.block, n, pingPong != old(pingPong), Base(), Lives(Cells()))
      ensures old(p.block) != null && n <= old(p.block.size) ==>
                Lives(Cells()) == Put(old(Lives(Cells())), old(CellOf(p.block)).(size := n))
      ensures old(p.block) != null && n > old(p.block.size) && st == Done ==>
                AllGrown(old(Cells()), p.block, n, old(freeBytes), pingPong != old(pingPong), Base(), Lives(Cells())) &&
                StaysExactly(old(Cells()), p.block, n, old(freeBytes), pingPong != old(pingPong), p.block.start)
    {
      if p.block == null {
        var got;
        st, got := Alloc(n);
        p.block := got.block;
      } else {
        Accounting();
        st := Resize(p.block, n);
        OwnsIsView(p.block);
      }
    }

    /** A client writes one byte of its block through the address in its handle. */
    method Store(p: Pointer, i: nat, value: Byte)
      requires Valid() && p.block != null && Owns(p.block) && i < p.block.size
      modifies mem
      ensures Valid() && Step<MemoryBlock>(old(Contents()), Op.Store(p.block, i, value), Contents(), part)
    {
      ghost var cs := Cells();
      ghost var k :| 0 <= k < |cs| && cs[k].id == p.block && !cs[k].free;
      Accounting();
      StoreView(cs, k, i, value, Base(), Base() + part, mem[..]);
      mem[p.block.start + i] := value;
      assert Cells() == cs && mem[..] == old(mem[..])[p.block.start + i := value];
    }
  }
}
