/**
  Where the live blocks lie.  Since the blocks tile the half in use and no free neighbours remain apart,
  the live cells determine the whole list.
 */
module HeapLayout {
  import opened BlockLayout

  ghost function Lives<H>(cs: seq<Cell<H>>): set<Cell<H>> {
    set c | c in cs && !c.free
  }

  /** One block lies elsewhere, or is new; all others stay where they are. */
  ghost function Put<H>(s: set<Cell<H>>, c: Cell<H>): set<Cell<H>> {
    Drop(s, c.id) + {c}
  }

  ghost function Drop<H>(s: set<Cell<H>>, h: H): set<Cell<H>> {
    set x | x in s && x.id != h
  }

  ghost predicate Roomy<H>(c: Cell<H>, n: nat) {
    c.free && c.size >= n
  }

  ghost predicate HasRoom<H>(cs: seq<Cell<H>>, n: nat) {
    exists i :: 0 <= i < |cs| && Roomy(cs[i], n)
  }

  /** The first free block that is large enough. */
  ghost predicate FirstRoom<H>(cs: seq<Cell<H>>, j: nat, n: nat) {
    j < |cs| && Roomy(cs[j], n) && forall i :: 0 <= i < j ==> !Roomy(cs[i], n)
  }

  /** The block behind block `k` is free and makes up the difference. */
  ghost predicate RoomBehind<H>(cs: seq<Cell<H>>, k: nat, n: nat) {
    k + 1 < |cs| && cs[k + 1].free && cs[k].size + cs[k + 1].size >= n
  }

  // ---------------------------------------------------------------- edits of the list

  lemma LivesOfParts<H>(a: seq<Cell<H>>, x: seq<Cell<H>>, b: seq<Cell<H>>)
    ensures Lives(a + x + b) == Lives(a) + Lives(x) + Lives(b)
  {
  }

  lemma LivesOfOne<H>(c: Cell<H>)
    ensures Lives([c]) == if c.free then {} else {c}
  {
  }

  lemma LivesOfTwo<H>(c: Cell<H>, d: Cell<H>)
    ensures Lives([c, d]) == Lives([c]) + Lives([d])
  {
  }

  /** What stands beside block `k` has other identities. */
  lemma DropBeside<H>(cs: seq<Cell<H>>, k: nat)
    requires k < |cs| && Distinct(cs)
    ensures Drop(Lives(cs), cs[k].id) == Lives(cs[..k]) + Lives(cs[k + 1..])
  {
    var a, b := cs[..k], cs[k + 1..];
    assert cs == a + [cs[k]] + b;
    LivesOfParts(a, [cs[k]], b);
    LivesOfOne(cs[k]);
    OthersElse(cs, k);
  }

  lemma OthersElse<H>(cs: seq<Cell<H>>, k: nat)
    requires k < |cs| && Distinct(cs)
    ensures forall c :: c in cs[..k] || c in cs[k + 1..] ==> c.id != cs[k].id
  {
    forall c | c in cs[..k] || c in cs[k + 1..]
      ensures c.id != cs[k].id
    {
      if c in cs[..k] {
        var i :| 0 <= i < k && cs[i] == c;
      } else {
        var i :| k < i < |cs| && cs[i] == c;
      }
    }
  }

  lemma Parts<H>(cs: seq<Cell<H>>, k: nat)
    requires k < |cs|
    ensures Lives(cs) == Lives(cs[..k]) + Lives([cs[k]]) + Lives(cs[k + 1..])
  {
    assert cs == cs[..k] + [cs[k]] + cs[k + 1..];
    LivesOfParts(cs[..k], [cs[k]], cs[k + 1..]);
  }

  /** Block `k` is replaced by another cell. */
  lemma LivesUpdated<H>(cs: seq<Cell<H>>, k: nat, c: Cell<H>)
    requires k < |cs| && Distinct(cs) && c.id == cs[k].id
    ensures Lives(cs[k := c]) == if c.free then Drop(Lives(cs), c.id) else Put(Lives(cs), c)
  {
    DropBeside(cs, k);
    assert cs[k := c] == cs[..k] + [c] + cs[k + 1..];
    LivesOfParts(cs[..k], [c], cs[k + 1..]);
    LivesOfOne(c);
  }

  /** A free block is split, into free ones or with its front handed out. */
  lemma LivesFrontCut<H>(cs: seq<Cell<H>>, k: nat, c: Cell<H>, rest: Cell<H>)
    requires k < |cs| && cs[k].free && rest.free && NewId(cs, c.id)
    ensures Lives(Split(cs, k, c, rest)) == if c.free then Lives(cs) else Put(Lives(cs), c)
  {
    LivesOfParts(cs[..k], [c, rest], cs[k + 1..]);
    LivesOfTwo(c, rest);
    LivesOfOne(c);
    LivesOfOne(rest);
    Parts(cs, k);
    LivesOfOne(cs[k]);
    if !c.free { NewDropsNothing(cs, c.id); }
  }

  lemma NewDropsNothing<H>(cs: seq<Cell<H>>, h: H)
    requires NewId(cs, h)
    ensures Drop(Lives(cs), h) == Lives(cs)
  {
  }

  /** A live block is cut. */
  lemma LivesTailCut<H>(cs: seq<Cell<H>>, k: nat, c: Cell<H>, rest: Cell<H>)
    requires k < |cs| && Distinct(cs) && rest.free && !c.free && c.id == cs[k].id
    ensures Lives(Split(cs, k, c, rest)) == Put(Lives(cs), c)
  {
    LivesOfParts(cs[..k], [c, rest], cs[k + 1..]);
    LivesOfTwo(c, rest);
    LivesOfOne(c);
    LivesOfOne(rest);
    DropBeside(cs, k);
  }

  /** Block `k` takes over the free block behind it. */
  lemma LivesJoined<H>(cs: seq<Cell<H>>, k: nat)
    requires k + 1 < |cs| && Distinct(cs) && cs[k + 1].free
    ensures var c := cs[k].(size := cs[k].size + cs[k + 1].size);
            Lives(AppendFollow(cs, k)) == if c.free then Lives(cs) else Put(Lives(cs), c)
  {
    var c, a, b := cs[k].(size := cs[k].size + cs[k + 1].size), cs[..k], cs[k + 2..];
    LivesOfParts(a, [c], b);
    LivesOfOne(c);
    LivesOfOne(cs[k]);
    Parts(cs, k);
    DropBeside(cs, k);
    assert cs[k + 1..] == [] + [cs[k + 1]] + b;
    LivesOfParts([], [cs[k + 1]], b);
    LivesOfOne(cs[k + 1]);
    assert Lives<H>([]) == {};
  }

  /** A live block takes the room of a free one. */
  lemma LivesMoved<H>(cs: seq<Cell<H>>, i: nat, k: nat, hole: H)
    requires i < |cs| && k < |cs| && !cs[i].free && cs[k].free && Distinct(cs) && NewId(cs, hole)
    ensures Lives(MoveTo(cs, i, k, hole)) == Put(Lives(cs), Cell(cs[i].id, cs[k].start, cs[k].size, false))
  {
    var c, free := Cell(cs[i].id, cs[k].start, cs[k].size, false), Cell(hole, cs[i].start, cs[i].size, true);
    var t := MoveTo(cs, i, k, hole);
    assert t[k] == c && t[i] == free;
    forall x
      ensures x in Lives(t) <==> x in Put(Lives(cs), c)
    {
      MovedCell(cs, i, k, hole, x);
    }
  }

  lemma MovedCell<H>(cs: seq<Cell<H>>, i: nat, k: nat, hole: H, x: Cell<H>)
    requires i < |cs| && k < |cs| && !cs[i].free && cs[k].free && Distinct(cs)
    ensures x in Lives(MoveTo(cs, i, k, hole)) <==> x in Put(Lives(cs), Cell(cs[i].id, cs[k].start, cs[k].size, false))
  {
    var t := MoveTo(cs, i, k, hole);
    if j :| 0 <= j < |t| && j != i && j != k && t[j] == x {
      assert cs[j] == x;
    }
    if j :| 0 <= j < |cs| && j != i && j != k && cs[j] == x {
      assert t[j] == x;
    }
    assert t[k] in t;
  }

  // ---------------------------------------------------------------- compactions

  /** The given live blocks, in order, without gaps from `at` on. */
  ghost function Packed<H>(was: seq<Cell<H>>, at: nat): set<Cell<H>> {
    set c | c in Relocate(was, at)
  }

  lemma LivesCompacted<H>(was: seq<Cell<H>>, at: nat, tail: H, free: nat)
    requires forall c :: c in was ==> !c.free
    ensures Lives(Compacted(was, at, tail, free)) == Packed(was, at)
  {
    var r, last := Relocate(was, at), Cell(tail, at + LiveBytes(was), free, true);
    RelocateCells(was, at);
    assert forall c :: c in r ==> !c.free by {
      forall c | c in r
        ensures !c.free
      {
        var i :| 0 <= i < |r| && r[i] == c;
        assert was[i] in was;
      }
    }
    assert Compacted(was, at, tail, free) == r + [last] + [];
    LivesOfParts(r, [last], []);
    LivesOfOne(last);
  }

  /** Each live block of a list comes to lie behind the live blocks that were before it in the list. */
  lemma {:induction false} PackedInOrder<H>(cs: seq<Cell<H>>, at: nat, i: nat)
    requires i < |cs| && !cs[i].free
    ensures cs[i].(start := at + LiveBytes(cs[..i])) in Packed(Movers(cs, {}), at)
  {
    var c, rest := cs[0], cs[1..];
    if i == 0 {
      assert Relocate(Movers(cs, {}), at)[0] == c.(start := at);
      assert cs[..0] == [];
    } else {
      var after := if c.free then at else at + c.size;
      PackedInOrder(rest, after, i - 1);
      assert cs[..i][1..] == rest[..i - 1] && cs[..i][0] == c;
      if !c.free {
        PackedCons(c, Movers(rest, {}), at);
      }
    }
  }

  lemma PackedCons<H>(c: Cell<H>, was: seq<Cell<H>>, at: nat)
    ensures Packed(was, at + c.size) <= Packed([c] + was, at)
  {
    assert ([c] + was)[1..] == was && ([c] + was)[0] == c;
    assert Relocate([c] + was, at) == [c.(start := at)] + Relocate(was, at + c.size);
  }

  /** The only room after a compaction is at its end. */
  lemma RoomAtTheEnd<H>(was: seq<Cell<H>>, at: nat, tail: H, free: nat)
    requires forall c :: c in was ==> !c.free
    ensures var cs := Compacted(was, at, tail, free);
            |cs| == |was| + 1 && cs[|was|] == Cell(tail, at + LiveBytes(was), free, true) &&
            forall i :: 0 <= i < |was| ==> !cs[i].free
  {
    RelocateCells(was, at);
    assert forall i :: 0 <= i < |was| ==> was[i] in was;
  }

  // ---------------------------------------------------------------- where a block ends up

  /** Where `n` bytes for block `h` are found in the list `cs`: at the start of the first free block that is
      large enough; if there is none, behind all live blocks after a compaction into the half at `base`. */
  ghost predicate Placed<H>(cs: seq<Cell<H>>, h: H, n: nat, moved: bool, base: nat, lives: set<Cell<H>>) {
    && (moved <==> !HasRoom(cs, n))
    && (forall j: nat :: FirstRoom(cs, j, n) ==> lives == Put(Lives(cs), Cell(h, cs[j].start, n, false)))
    && (moved ==> lives == Put(Packed(Movers(cs, {}), base), Cell(h, base + LiveBytes(cs), n, false)))
  }

  /** Where block `k` lies when it has grown to `n` bytes, with `free` bytes free before.  With fewer than
      `n` all blocks are compacted, this one last, and it grows there; otherwise it grows where it is, if
      the block behind it allows that, and moves like a new one if not. */
  ghost predicate Grown<H>(cs: seq<Cell<H>>, k: nat, n: nat, free: nat, moved: bool, base: nat, lives: set<Cell<H>>)
    requires k < |cs|
  {
    var c := cs[k];
    if free < n then
      moved && c.size <= LiveBytes(cs) &&
      lives == Put(Packed(Movers(cs, {c.id}) + [c], base), Cell(c.id, base + LiveBytes(cs) - c.size, n, false))
    else if RoomBehind(cs, k, n) then !moved && lives == Put(Lives(cs), c.(size := n))
    else Placed(cs, c.id, n, moved, base, lives)
  }

  /** In plain words: the half changes exactly when fewer than `n` bytes are free, or neither the block
      behind nor any other has room; and with room behind the block stays where it is. */
  lemma GrownMeans<H>(cs: seq<Cell<H>>, k: nat, n: nat, free: nat, moved: bool, base: nat, lives: set<Cell<H>>)
    requires k < |cs| && Grown(cs, k, n, free, moved, base, lives)
    ensures moved <==> free < n || (!RoomBehind(cs, k, n) && !HasRoom(cs, n))
    ensures n <= free && RoomBehind(cs, k, n) ==> cs[k].(size := n) in lives
  {
  }

  lemma FirstRoomIsOne<H>(cs: seq<Cell<H>>, i: nat, j: nat, n: nat)
    requires FirstRoom(cs, i, n) && FirstRoom(cs, j, n)
    ensures i == j
  {
  }

  lemma PlacedInRoom<H>(cs: seq<Cell<H>>, h: H, n: nat, j: nat, base: nat, lives: set<Cell<H>>)
    requires FirstRoom(cs, j, n) && lives == Put(Lives(cs), Cell(h, cs[j].start, n, false))
    ensures Placed(cs, h, n, false, base, lives)
  {
    forall i: nat | FirstRoom(cs, i, n)
      ensures i == j
    {
      FirstRoomIsOne(cs, i, j, n);
    }
  }

  lemma NoFirstRoom<H>(cs: seq<Cell<H>>, n: nat)
    requires !HasRoom(cs, n)
    ensures forall j: nat :: !FirstRoom(cs, j, n)
  {
  }

  /** After a compaction the live blocks are packed and the last one has all the room. */
  lemma AfterCompaction<H>(cs: seq<Cell<H>>, was: seq<Cell<H>>, at: nat, tail: H, free: nat)
    requires was == Movers(cs, {})
    ensures var now := Compacted(was, at, tail, free);
            && Lives(now) == Packed(was, at) && |now| > 0
            && now[|now| - 1] == Cell(tail, at + LiveBytes(cs), free, true)
            && forall i :: 0 <= i < |now| - 1 ==> !now[i].free
  {
    MoversFrom(cs, {});
    MoversSums(cs, {});
    LivesCompacted(was, at, tail, free);
    RoomAtTheEnd(was, at, tail, free);
  }

  /** The same when block `k` goes last. */
  lemma AfterCompactionWithLast<H>(cs: seq<Cell<H>>, k: nat, at: nat, tail: H, free: nat)
    requires k < |cs| && Distinct(cs) && !cs[k].free
    ensures var was := Movers(cs, {cs[k].id}) + [cs[k]];
            var now := Compacted(was, at, tail, free);
            && Lives(now) == Packed(was, at) && |now| > 1 && cs[k].size <= LiveBytes(cs)
            && now[|now| - 2] == cs[k].(start := at + LiveBytes(cs) - cs[k].size)
            && now[|now| - 1] == Cell(tail, at + LiveBytes(cs), free, true)
  {
    var most := Movers(cs, {cs[k].id});
    var was := most + [cs[k]];
    MoversFrom(cs, {cs[k].id});
    MoversSums(cs, {cs[k].id});
    MoversWithout(cs, k);
    SumsConcat(most, [cs[k]]);
    OneCell(cs[k]);
    LivesCompacted(was, at, tail, free);
    RoomAtTheEnd(was, at, tail, free);
    RelocateSnoc(most, cs[k], at);
  }
}
