/**
  The block list of the allocator, as a value: which bytes of the buffer each block covers and
  whether it is free.  Every edit the allocator makes to its list is local, so all definitions
  distribute over concatenation and every edit is judged on the piece it replaces.
 */
module BlockLayout {
  import opened Common
  import opened Bytes
  import opened HeapSpec

  /** One entry of the list; `id` is the identity of the block object. */
  datatype Cell<H> = Cell(id: H, start: nat, size: nat, free: bool)

  /** The cells cover the addresses from `lo` up to `hi`, in order and without gaps. */
  ghost predicate Tiles<H>(cs: seq<Cell<H>>, lo: nat, hi: nat) {
    if cs == [] then lo == hi
    else cs[0].start == lo && Tiles(cs[1..], lo + cs[0].size, hi)
  }

  ghost function FreeBytes<H>(cs: seq<Cell<H>>): nat {
    if cs == [] then 0 else (if cs[0].free then cs[0].size else 0) + FreeBytes(cs[1..])
  }

  ghost function LiveBytes<H>(cs: seq<Cell<H>>): nat {
    if cs == [] then 0 else (if cs[0].free then 0 else cs[0].size) + LiveBytes(cs[1..])
  }

  ghost function Extent<H>(cs: seq<Cell<H>>): nat {
    FreeBytes(cs) + LiveBytes(cs)
  }

  ghost predicate Distinct<H>(cs: seq<Cell<H>>) {
    forall i, j :: 0 <= i < j < |cs| ==> cs[i].id != cs[j].id
  }

  /** No two free blocks stand side by side. */
  ghost predicate Coalesced<H>(cs: seq<Cell<H>>) {
    forall i :: 0 < i < |cs| ==> !(cs[i - 1].free && cs[i].free)
  }

  ghost predicate WellFormed<H>(cs: seq<Cell<H>>, lo: nat, hi: nat) {
    Tiles(cs, lo, hi) && Distinct(cs) && Coalesced(cs)
  }

  ghost predicate IsLive<H>(cs: seq<Cell<H>>, h: H) {
    exists i :: 0 <= i < |cs| && cs[i].id == h && !cs[i].free
  }

  /** The bytes a cell covers in memory `m`. */
  ghost function Span<H>(c: Cell<H>, m: seq<Byte>): (s: seq<Byte>) {
    if c.start + c.size <= |m| then m[c.start..c.start + c.size] else []
  }

  /** What the clients see: the bytes behind every live block. */
  ghost function View<H>(cs: seq<Cell<H>>, m: seq<Byte>): map<H, seq<Byte>> {
    if cs == [] then map[]
    else if cs[0].free then View(cs[1..], m)
    else map[cs[0].id := Span(cs[0], m)] + View(cs[1..], m)
  }

  // ---------------------------------------------------------------- concatenation

  lemma {:induction false} SumsConcat<H>(a: seq<Cell<H>>, b: seq<Cell<H>>)
    ensures FreeBytes(a + b) == FreeBytes(a) + FreeBytes(b)
    ensures LiveBytes(a + b) == LiveBytes(a) + LiveBytes(b)
  {
    if a == [] {
      assert a + b == b;
    } else {
      SumsConcat(a[1..], b);
      assert (a + b)[1..] == a[1..] + b;
    }
  }

  lemma {:induction false} TilesConcat<H>(a: seq<Cell<H>>, b: seq<Cell<H>>, lo: nat, hi: nat)
    ensures Tiles(a + b, lo, hi) <==>
            Tiles(a, lo, lo + Extent(a)) && Tiles(b, lo + Extent(a), hi)
  {
    if a == [] {
      assert a + b == b;
    } else {
      TilesConcat(a[1..], b, lo + a[0].size, hi);
      assert (a + b)[1..] == a[1..] + b;
    }
  }

  lemma {:induction false} ViewConcat<H>(a: seq<Cell<H>>, b: seq<Cell<H>>, m: seq<Byte>)
    ensures View(a + b, m) == View(a, m) + View(b, m)
  {
    if a == [] {
      assert a + b == b;
    } else {
      ViewConcat(a[1..], b, m);
      assert (a + b)[1..] == a[1..] + b;
    }
  }

  /** A list that tiles an interval accounts for every byte of it, and no cell leaves it. */
  lemma {:induction false} TilesExtent<H>(cs: seq<Cell<H>>, lo: nat, hi: nat)
    requires Tiles(cs, lo, hi)
    ensures hi == lo + Extent(cs)
    ensures forall i :: 0 <= i < |cs| ==> lo <= cs[i].start && cs[i].start + cs[i].size <= hi
  {
    if cs != [] {
      TilesExtent(cs[1..], lo + cs[0].size, hi);
      forall i | 0 <= i < |cs|
        ensures lo <= cs[i].start && cs[i].start + cs[i].size <= hi
      {
        if i > 0 { assert cs[i] == cs[1..][i - 1]; }
      }
    }
  }

  /** Distinct cells of a tiling never share a byte. */
  lemma {:induction false} TilesOrdered<H>(cs: seq<Cell<H>>, lo: nat, hi: nat, i: nat, j: nat)
    requires Tiles(cs, lo, hi) && i < j < |cs|
    ensures cs[i].start + cs[i].size <= cs[j].start
  {
    if i == 0 {
      TilesExtent(cs[1..], lo + cs[0].size, hi);
      assert cs[j] == cs[1..][j - 1];
    } else {
      TilesOrdered(cs[1..], lo + cs[0].size, hi, i - 1, j - 1);
    }
  }

  lemma {:induction false} ViewKeys<H>(cs: seq<Cell<H>>, m: seq<Byte>)
    ensures forall h :: h in View(cs, m) <==> IsLive(cs, h)
  {
    if cs != [] {
      ViewKeys(cs[1..], m);
      forall h
        ensures h in View(cs, m) <==> IsLive(cs, h)
      {
        if IsLive(cs, h) && !(cs[0].id == h && !cs[0].free) {
          var i :| 0 <= i < |cs| && cs[i].id == h && !cs[i].free;
          assert cs[1..][i - 1] == cs[i];
        }
        if IsLive(cs[1..], h) {
          var i :| 0 <= i < |cs[1..]| && cs[1..][i].id == h && !cs[1..][i].free;
          assert cs[i + 1] == cs[1..][i];
        }
      }
    }
  }

  lemma {:induction false} ViewAt<H>(cs: seq<Cell<H>>, m: seq<Byte>, i: nat)
    requires Distinct(cs) && i < |cs| && !cs[i].free
    ensures cs[i].id in View(cs, m) && View(cs, m)[cs[i].id] == Span(cs[i], m)
  {
    if i == 0 {
      ViewKeys(cs[1..], m);
      assert forall k :: 0 <= k < |cs[1..]| ==> cs[1..][k] == cs[k + 1];
    } else {
      ViewAt(cs[1..], m, i - 1);
    }
  }

  /** Only the bytes under live cells matter to the clients. */
  lemma {:induction false} ViewFrame<H>(cs: seq<Cell<H>>, m: seq<Byte>, m': seq<Byte>)
    requires |m| == |m'|
    requires forall i :: 0 <= i < |cs| && !cs[i].free ==> Span(cs[i], m) == Span(cs[i], m')
    ensures View(cs, m) == View(cs, m')
  {
    if cs != [] {
      forall i | 0 <= i < |cs[1..]| && !cs[1..][i].free
        ensures Span(cs[1..][i], m) == Span(cs[1..][i], m')
      {
        assert cs[1..][i] == cs[i + 1];
      }
      ViewFrame(cs[1..], m, m');
    }
  }

  // ---------------------------------------------------------------- replacing a piece

  lemma OneCell<H>(c: Cell<H>)
    ensures FreeBytes([c]) == (if c.free then c.size else 0)
    ensures LiveBytes([c]) == (if c.free then 0 else c.size)
    ensures forall lo: nat, hi: nat {:trigger Tiles([c], lo, hi)} ::
              Tiles([c], lo, hi) <==> c.start == lo && lo + c.size == hi
    ensures forall m :: View([c], m) == if c.free then map[] else map[c.id := Span(c, m)]
  {
  }

  lemma TwoCells<H>(c: Cell<H>, d: Cell<H>)
    ensures FreeBytes([c, d]) == FreeBytes([c]) + FreeBytes([d])
    ensures LiveBytes([c, d]) == LiveBytes([c]) + LiveBytes([d])
    ensures forall lo: nat, hi: nat {:trigger Tiles([c, d], lo, hi)} ::
              Tiles([c, d], lo, hi) <==> c.start == lo && d.start == lo + c.size && d.start + d.size == hi
    ensures forall m :: View([c, d], m) == View([c], m) + View([d], m)
  {
    assert [c, d][1..] == [d];
    OneCell(c);
    OneCell(d);
  }

  /** Replacing the middle of a list by cells over the same bytes. */
  lemma Splice<H>(a: seq<Cell<H>>, x: seq<Cell<H>>, y: seq<Cell<H>>, b: seq<Cell<H>>, lo: nat, hi: nat)
    requires Tiles(a + x + b, lo, hi)
    requires Extent(x) == Extent(y)
    requires Tiles(x, lo + Extent(a), lo + Extent(a) + Extent(x)) ==>
               Tiles(y, lo + Extent(a), lo + Extent(a) + Extent(x))
    ensures Tiles(a + y + b, lo, hi)
    ensures FreeBytes(a + y + b) + FreeBytes(x) == FreeBytes(a + x + b) + FreeBytes(y)
  {
    var mid := lo + Extent(a);
    assert Extent(a + x) == Extent(a) + Extent(x) && Extent(a + y) == Extent(a) + Extent(y) by {
      SumsConcat(a, x);
      SumsConcat(a, y);
    }
    assert Tiles(a, lo, mid) && Tiles(x, mid, mid + Extent(x)) && Tiles(b, mid + Extent(x), hi) by {
      TilesConcat(a + x, b, lo, hi);
      TilesConcat(a, x, lo, mid + Extent(x));
    }
    assert Tiles(a + y, lo, mid + Extent(y)) by { TilesConcat(a, y, lo, mid + Extent(y)); }
    assert Tiles(a + y + b, lo, hi) by { TilesConcat(a + y, b, lo, hi); }
    SumsSplice(a, x, b);
    SumsSplice(a, y, b);
  }

  lemma SumsSplice<H>(a: seq<Cell<H>>, x: seq<Cell<H>>, b: seq<Cell<H>>)
    ensures FreeBytes(a + x + b) == FreeBytes(a) + FreeBytes(x) + FreeBytes(b)
  {
    SumsConcat(a + x, b);
    SumsConcat(a, x);
  }

  lemma ViewSplice<H>(a: seq<Cell<H>>, x: seq<Cell<H>>, b: seq<Cell<H>>, m: seq<Byte>)
    ensures View(a + x + b, m) == View(a, m) + View(x, m) + View(b, m)
  {
    ViewConcat(a + x, b, m);
    ViewConcat(a, x, m);
  }

  lemma DisjointKeys<H>(a: seq<Cell<H>>, b: seq<Cell<H>>, m: seq<Byte>)
    requires forall i, j :: 0 <= i < |a| && 0 <= j < |b| ==> a[i].id != b[j].id
    ensures View(a, m).Keys !! View(b, m).Keys
  {
  }

  lemma DistinctMiddle<H>(a: seq<Cell<H>>, y: seq<Cell<H>>, b: seq<Cell<H>>, m: seq<Byte>)
    requires Distinct(a + y + b)
    ensures View(y, m).Keys !! View(a, m).Keys && View(y, m).Keys !! View(b, m).Keys
  {
    var cs := a + y + b;
    forall i, j | 0 <= i < |a| && 0 <= j < |y|
      ensures a[i].id != y[j].id
    {
      assert cs[i] == a[i] && cs[|a| + j] == y[j];
    }
    forall i, j | 0 <= i < |y| && 0 <= j < |b|
      ensures y[i].id != b[j].id
    {
      assert cs[|a| + i] == y[i] && cs[|a| + |y| + j] == b[j];
    }
    DisjointKeys(a, y, m);
    DisjointKeys(y, b, m);
  }

  /** Replacing the middle of a list changes the view only at the identities that go or come. */
  lemma ViewReplace<H>(a: seq<Cell<H>>, x: seq<Cell<H>>, y: seq<Cell<H>>, b: seq<Cell<H>>, m: seq<Byte>)
    requires Distinct(a + x + b) && Distinct(a + y + b)
    ensures View(a + y + b, m) == (View(a + x + b, m) - View(x, m).Keys) + View(y, m)
  {
    ViewSplice(a, x, b, m);
    ViewSplice(a, y, b, m);
    DistinctMiddle(a, x, b, m);
    DistinctMiddle(a, y, b, m);
    MapReplace(View(a, m), View(x, m), View(y, m), View(b, m));
  }

  lemma MapReplace<K, V>(a: map<K, V>, x: map<K, V>, y: map<K, V>, b: map<K, V>)
    requires x.Keys !! a.Keys && x.Keys !! b.Keys && y.Keys !! a.Keys && y.Keys !! b.Keys
    ensures a + y + b == ((a + x + b) - x.Keys) + y
  {
  }

  // ---------------------------------------------------------------- edits of the list

  /** A cell is cut in two: the first `n` bytes under `id1`, the rest under `id2`. */
  ghost function Split<H>(cs: seq<Cell<H>>, k: nat, first: Cell<H>, second: Cell<H>): seq<Cell<H>>
    requires k < |cs|
  {
    cs[..k] + [first, second] + cs[k + 1..]
  }

  lemma SplitKeeps<H>(cs: seq<Cell<H>>, k: nat, first: Cell<H>, second: Cell<H>, lo: nat, hi: nat)
    requires k < |cs| && Tiles(cs, lo, hi) && Distinct(cs)
    requires first.start == cs[k].start && second.start == first.start + first.size
    requires first.size + second.size == cs[k].size
    requires first.id != second.id
    requires forall i :: 0 <= i < |cs| && i != k ==> cs[i].id != first.id && cs[i].id != second.id
    ensures Tiles(Split(cs, k, first, second), lo, hi)
    ensures Distinct(Split(cs, k, first, second))
    ensures FreeBytes(Split(cs, k, first, second)) ==
            FreeBytes(cs) - FreeBytes([cs[k]]) + FreeBytes([first, second])
  {
    var a, b := cs[..k], cs[k + 1..];
    assert cs == a + [cs[k]] + b;
    OneCell(cs[k]);
    OneCell(first);
    OneCell(second);
    TwoCells(first, second);
    Splice(a, [cs[k]], [first, second], b, lo, hi);
  }

  /** Block `k` takes over the bytes of the block after it. */
  ghost function AppendFollow<H>(cs: seq<Cell<H>>, k: nat): seq<Cell<H>>
    requires k + 1 < |cs|
  {
    cs[..k] + [cs[k].(size := cs[k].size + cs[k + 1].size)] + cs[k + 2..]
  }

  lemma AppendFollowKeeps<H>(cs: seq<Cell<H>>, k: nat, lo: nat, hi: nat)
    requires k + 1 < |cs| && Tiles(cs, lo, hi) && Distinct(cs) && cs[k + 1].free
    ensures Tiles(AppendFollow(cs, k), lo, hi)
    ensures Distinct(AppendFollow(cs, k))
    ensures FreeBytes(AppendFollow(cs, k)) == FreeBytes(cs) - (if cs[k].free then 0 else cs[k + 1].size)
  {
    var a, x, b := cs[..k], [cs[k], cs[k + 1]], cs[k + 2..];
    var y := [cs[k].(size := cs[k].size + cs[k + 1].size)];
    assert cs == a + x + b;
    OneCell(cs[k]);
    OneCell(cs[k + 1]);
    TwoCells(cs[k], cs[k + 1]);
    OneCell(y[0]);
    Splice(a, x, y, b, lo, hi);
    AppendFollowIds(cs, k);
  }

  lemma AppendFollowIds<H>(cs: seq<Cell<H>>, k: nat)
    requires k + 1 < |cs| && Distinct(cs)
    ensures Distinct(AppendFollow(cs, k))
  {
    var t := AppendFollow(cs, k);
    assert forall i :: 0 <= i < |t| ==> t[i].id == cs[if i <= k then i else i + 1].id;
  }

  /** The only free neighbours have become one. */
  lemma AppendFollowCoalesced<H>(cs: seq<Cell<H>>, k: nat)
    requires k + 1 < |cs| && CoalescedTo(cs, k) && cs[k].free && cs[k + 1].free
    ensures Coalesced(AppendFollow(cs, k))
  {
    var t := AppendFollow(cs, k);
    assert forall i :: 0 <= i < |t| ==> t[i].free == cs[if i <= k then i else i + 1].free;
  }

  lemma AppendFollowTo<H>(cs: seq<Cell<H>>, k: nat)
    requires k + 1 < |cs| && CoalescedBut(cs, k + 1) && cs[k].free && cs[k + 1].free
    ensures CoalescedTo(AppendFollow(cs, k), k)
  {
    var t := AppendFollow(cs, k);
    assert forall i :: 0 <= i < |t| ==> t[i].free == cs[if i <= k then i else i + 1].free;
  }

  lemma NoneBefore<H>(cs: seq<Cell<H>>, k: nat)
    requires k < |cs| && CoalescedBut(cs, k) && (k > 0 ==> !cs[k - 1].free)
    ensures CoalescedTo(cs, k)
  {
  }

  lemma NoNeighbours<H>(cs: seq<Cell<H>>, k: nat)
    requires k < |cs| && CoalescedTo(cs, k) && (k + 1 < |cs| ==> !cs[k + 1].free)
    ensures Coalesced(cs)
  {
  }

  /** Merging free blocks is invisible to the clients. */
  lemma AppendFreeView<H>(cs: seq<Cell<H>>, k: nat, m: seq<Byte>)
    requires k + 1 < |cs| && cs[k].free && cs[k + 1].free
    ensures View(AppendFollow(cs, k), m) == View(cs, m)
  {
    var a, x, b := cs[..k], [cs[k], cs[k + 1]], cs[k + 2..];
    var y := [cs[k].(size := cs[k].size + cs[k + 1].size)];
    assert cs == a + x + b;
    OneCell(cs[k]);
    OneCell(cs[k + 1]);
    TwoCells(cs[k], cs[k + 1]);
    OneCell(y[0]);
    ViewSplice(a, x, b, m);
    ViewSplice(a, y, b, m);
  }

  /** The only free neighbours in the list involve block `k`. */
  ghost predicate CoalescedBut<H>(cs: seq<Cell<H>>, k: nat) {
    forall i :: 0 < i < |cs| && cs[i - 1].free && cs[i].free ==> i == k || i == k + 1
  }

  /** The only free neighbours in the list are block `k` and the one after it. */
  ghost predicate CoalescedTo<H>(cs: seq<Cell<H>>, k: nat) {
    forall i :: 0 < i < |cs| && cs[i - 1].free && cs[i].free ==> i == k + 1
  }

  /** Cell `k` is replaced by another one over the same bytes: a block is handed out, freed or renamed. */
  lemma ReplaceCellKeeps<H>(cs: seq<Cell<H>>, k: nat, c: Cell<H>, lo: nat, hi: nat, m: seq<Byte>)
    requires k < |cs| && Tiles(cs, lo, hi) && Distinct(cs)
    requires c.start == cs[k].start && c.size == cs[k].size
    requires forall i :: 0 <= i < |cs| && i != k ==> cs[i].id != c.id
    ensures Tiles(cs[k := c], lo, hi) && Distinct(cs[k := c])
    ensures FreeBytes(cs[k := c]) == FreeBytes(cs) - FreeBytes([cs[k]]) + FreeBytes([c])
    ensures View(cs[k := c], m) == (View(cs, m) - View([cs[k]], m).Keys) + View([c], m)
  {
    var a, b := cs[..k], cs[k + 1..];
    assert cs == a + [cs[k]] + b && cs[k := c] == a + [c] + b;
    OneCell(cs[k]);
    OneCell(c);
    Splice(a, [cs[k]], [c], b, lo, hi);
    ViewReplace(a, [cs[k]], [c], b, m);
  }

  lemma SplitView<H>(cs: seq<Cell<H>>, k: nat, first: Cell<H>, second: Cell<H>, m: seq<Byte>)
    requires k < |cs| && Distinct(cs) && Distinct(Split(cs, k, first, second))
    ensures View(Split(cs, k, first, second), m) ==
            (View(cs, m) - View([cs[k]], m).Keys) + View([first, second], m)
  {
    var a, b := cs[..k], cs[k + 1..];
    assert cs == a + [cs[k]] + b;
    ViewReplace(a, [cs[k]], [first, second], b, m);
  }

  lemma AppendBounds<H>(cs: seq<Cell<H>>, k: nat, lo: nat, hi: nat)
    requires k + 1 < |cs| && Tiles(cs, lo, hi)
    ensures cs[k].start + cs[k].size + cs[k + 1].size <= hi
  {
    TilesExtent(cs, lo, hi);
    TilesOrdered(cs, lo, hi, k, k + 1);
  }

  /** A live block that absorbs its free successor keeps its old bytes as a prefix. */
  lemma AppendLiveView<H>(cs: seq<Cell<H>>, k: nat, lo: nat, hi: nat, m: seq<Byte>)
    requires k + 1 < |cs| && !cs[k].free && cs[k + 1].free
    requires Tiles(cs, lo, hi) && Distinct(cs) && hi <= |m|
    ensures var c := cs[k].(size := cs[k].size + cs[k + 1].size);
            View(AppendFollow(cs, k), m) == View(cs, m)[c.id := Span(c, m)] &&
            |Span(c, m)| == c.size && SamePrefix(Span(cs[k], m), Span(c, m))
  {
    var c := cs[k].(size := cs[k].size + cs[k + 1].size);
    AppendBounds(cs, k, lo, hi);
    SpanPrefix(cs, k, c, lo, hi, m);
    AppendFollowKeeps(cs, k, lo, hi);
    AppendLiveMap(cs, k, c, m);
  }

  lemma AppendLiveMap<H>(cs: seq<Cell<H>>, k: nat, c: Cell<H>, m: seq<Byte>)
    requires k + 1 < |cs| && !cs[k].free && cs[k + 1].free
    requires c == cs[k].(size := cs[k].size + cs[k + 1].size)
    requires Distinct(cs) && Distinct(AppendFollow(cs, k))
    ensures View(AppendFollow(cs, k), m) == View(cs, m)[c.id := Span(c, m)]
  {
    var a, x, b := cs[..k], [cs[k], cs[k + 1]], cs[k + 2..];
    assert cs == a + x + b && AppendFollow(cs, k) == a + [c] + b;
    ViewReplace(a, x, [c], b, m);
    OneCell(cs[k]);
    OneCell(cs[k + 1]);
    TwoCells(cs[k], cs[k + 1]);
    OneCell(c);
  }

  // ---------------------------------------------------------------- compaction

  /** The live cells outside `skip`, in list order. */
  ghost function Movers<H>(cs: seq<Cell<H>>, skip: set<H>): seq<Cell<H>> {
    if cs == [] then []
    else if cs[0].free || cs[0].id in skip then Movers(cs[1..], skip)
    else [cs[0]] + Movers(cs[1..], skip)
  }

  lemma {:induction false} MoversFrom<H>(cs: seq<Cell<H>>, skip: set<H>)
    ensures forall c :: c in Movers(cs, skip) ==> c in cs && !c.free && c.id !in skip
  {
    if cs != [] {
      MoversFrom(cs[1..], skip);
    }
  }

  /** The same cells laid out one behind the other from address `at`. */
  ghost function Relocate<H>(cs: seq<Cell<H>>, at: nat): (r: seq<Cell<H>>)
    ensures |r| == |cs|
  {
    if cs == [] then [] else [cs[0].(start := at)] + Relocate(cs[1..], at + cs[0].size)
  }

  lemma {:induction false} RelocateCells<H>(cs: seq<Cell<H>>, at: nat)
    ensures forall i :: 0 <= i < |cs| ==> Relocate(cs, at)[i] == cs[i].(start := Relocate(cs, at)[i].start)
  {
    if cs != [] {
      RelocateCells(cs[1..], at + cs[0].size);
      forall i | 0 < i < |cs|
        ensures Relocate(cs, at)[i] == cs[i].(start := Relocate(cs, at)[i].start)
      {
        assert cs[i] == cs[1..][i - 1];
      }
    }
  }

  lemma {:induction false} MoversConcat<H>(a: seq<Cell<H>>, b: seq<Cell<H>>, skip: set<H>)
    ensures Movers(a + b, skip) == Movers(a, skip) + Movers(b, skip)
  {
    if a == [] {
      assert a + b == b;
    } else {
      assert (a + b)[0] == a[0] && (a + b)[1..] == a[1..] + b;
      MoversConcat(a[1..], b, skip);
      Reassociate([a[0]], Movers(a[1..], skip), Movers(b, skip));
    }
  }

  lemma {:induction false} RelocateSnoc<H>(a: seq<Cell<H>>, c: Cell<H>, at: nat)
    ensures Relocate(a + [c], at) == Relocate(a, at) + [c.(start := at + Extent(a))]
  {
    if a == [] {
      assert a + [c] == [c] && [c][1..] == [];
    } else {
      RelocateSnoc(a[1..], c, at + a[0].size);
      assert (a + [c])[1..] == a[1..] + [c];
    }
  }

  lemma {:induction false} RelocateTiles<H>(cs: seq<Cell<H>>, at: nat)
    ensures Tiles(Relocate(cs, at), at, at + Extent(cs))
    ensures LiveBytes(Relocate(cs, at)) == LiveBytes(cs)
    ensures FreeBytes(Relocate(cs, at)) == FreeBytes(cs)
  {
    if cs != [] {
      RelocateTiles(cs[1..], at + cs[0].size);
    }
  }

  lemma {:induction false} MoversSums<H>(cs: seq<Cell<H>>, skip: set<H>)
    ensures FreeBytes(Movers(cs, skip)) == 0
    ensures LiveBytes(Movers(cs, skip)) <= LiveBytes(cs)
    ensures skip == {} ==> LiveBytes(Movers(cs, skip)) == LiveBytes(cs)
  {
    if cs != [] {
      MoversSums(cs[1..], skip);
      if !cs[0].free && cs[0].id !in skip {
        SumsConcat([cs[0]], Movers(cs[1..], skip));
        OneCell(cs[0]);
      }
    }
  }

  lemma MapConsMinus<K, V>(k: K, v: V, rest: map<K, V>, skip: set<K>)
    requires k !in rest
    ensures k in skip ==> (map[k := v] + rest) - skip == rest - skip
    ensures k !in skip ==> (map[k := v] + rest) - skip == map[k := v] + (rest - skip)
  {
  }

  lemma {:induction false} MoversView<H>(cs: seq<Cell<H>>, skip: set<H>, m: seq<Byte>)
    requires Distinct(cs)
    ensures View(Movers(cs, skip), m) == View(cs, m) - skip
  {
    if cs != [] {
      assert Distinct(cs[1..]);
      MoversView(cs[1..], skip, m);
      var c, rest := cs[0], Movers(cs[1..], skip);
      if c.free {
        assert Movers(cs, skip) == rest;
      } else {
        assert c.id !in View(cs[1..], m) by { ViewKeys(cs[1..], m); }
        MapConsMinus(c.id, Span(c, m), View(cs[1..], m), skip);
        if c.id in skip {
          assert Movers(cs, skip) == rest;
        } else {
          assert Movers(cs, skip)[1..] == rest && Movers(cs, skip)[0] == c;
        }
      }
    }
  }

  lemma {:induction false} MoversDistinct<H>(cs: seq<Cell<H>>, skip: set<H>)
    requires Distinct(cs)
    ensures Distinct(Movers(cs, skip))
  {
    if cs != [] {
      assert Distinct(cs[1..]);
      MoversDistinct(cs[1..], skip);
      MoversFrom(cs[1..], skip);
      var rest := Movers(cs[1..], skip);
      forall i | 0 <= i < |rest|
        ensures rest[i].id != cs[0].id
      {
        assert rest[i] in cs[1..];
      }
    }
  }

  /** Leaving out one live cell leaves out exactly its bytes. */
  lemma {:induction false} MoversWithout<H>(cs: seq<Cell<H>>, k: nat)
    requires Distinct(cs) && k < |cs| && !cs[k].free
    ensures LiveBytes(Movers(cs, {cs[k].id})) + cs[k].size == LiveBytes(cs)
  {
    var c, rest, skip := cs[0], cs[1..], {cs[k].id};
    if k == 0 {
      AllMove(rest, skip);
    } else {
      MoversWithout(rest, k - 1);
      if !c.free {
        SumsConcat([c], Movers(rest, skip));
        OneCell(c);
      }
    }
  }

  lemma {:induction false} AllMove<H>(cs: seq<Cell<H>>, skip: set<H>)
    requires forall i :: 0 <= i < |cs| ==> cs[i].id !in skip
    ensures LiveBytes(Movers(cs, skip)) == LiveBytes(cs)
  {
    if cs != [] {
      AllMove(cs[1..], skip);
      if !cs[0].free {
        SumsConcat([cs[0]], Movers(cs[1..], skip));
        OneCell(cs[0]);
      }
    }
  }

  lemma MoversNext<H>(cs: seq<Cell<H>>, k: nat, next: nat, skip: set<H>)
    requires k < |cs| && next == k + 1
    ensures Movers(cs[..next], skip) == Movers(cs[..k], skip) + if cs[k].free || cs[k].id in skip then [] else [cs[k]]
  {
    assert cs[..next] == cs[..k] + [cs[k]];
    MoversConcat(cs[..k], [cs[k]], skip);
  }

  lemma FrontLives<H>(cs: seq<Cell<H>>, k: nat)
    requires k <= |cs|
    ensures LiveBytes(cs[..k]) <= LiveBytes(cs)
  {
    assert cs == cs[..k] + cs[k..];
    SumsConcat(cs[..k], cs[k..]);
  }

  /** The next cell of the list joins the movers, and the movers never outgrow a half. */
  lemma MoversStep<H>(cs: seq<Cell<H>>, k: nat, skip: set<H>, lo: nat, hi: nat)
    requires k < |cs| && Tiles(cs, lo, hi)
    ensures var more := if cs[k].free || cs[k].id in skip then [] else [cs[k]];
            Movers(cs[..k + 1], skip) == (if more == [] then Movers(cs[..k], skip) else Movers(cs[..k], skip) + more) &&
            LiveBytes(Movers(cs[..k], skip)) + LiveBytes(more) <= hi - lo
    ensures lo <= cs[k].start && cs[k].start + cs[k].size <= hi
  {
    var more := if cs[k].free || cs[k].id in skip then [] else [cs[k]];
    MoversNext(cs, k, k + 1, skip);
    SumsConcat(Movers(cs[..k], skip), more);
    MoversSums(cs[..k + 1], skip);
    FrontLives(cs, k + 1);
    TilesExtent(cs, lo, hi);
  }

  /** The list after a compaction: the given live cells from `at` on, then everything free in one block. */
  ghost function Compacted<H>(cs: seq<Cell<H>>, at: nat, tail: H, free: nat): seq<Cell<H>> {
    Relocate(cs, at) + [Cell(tail, at + LiveBytes(cs), free, true)]
  }

  lemma CompactedWellFormed<H>(cs: seq<Cell<H>>, at: nat, tail: H, free: nat)
    requires forall c :: c in cs ==> !c.free && c.id != tail
    requires Distinct(cs) && FreeBytes(cs) == 0
    ensures WellFormed(Compacted(cs, at, tail, free), at, at + LiveBytes(cs) + free)
    ensures FreeBytes(Compacted(cs, at, tail, free)) == free
  {
    var r, t := Relocate(cs, at), Cell(tail, at + LiveBytes(cs), free, true);
    RelocateTiles(cs, at);
    RelocateCells(cs, at);
    OneCell(t);
    TilesConcat(r, [t], at, at + LiveBytes(cs) + free);
    SumsConcat(r, [t]);
    forall i | 0 <= i < |cs|
      ensures !r[i].free && r[i].id != tail
    {
      assert cs[i] in cs;
    }
  }

  lemma SliceOfFront(m: seq<Byte>, cur: nat, lo: nat, hi: nat)
    requires lo <= hi <= cur <= |m|
    ensures m[lo..hi] == m[..cur][lo..hi]
  {
  }

  /** One step of a compaction: `c` is copied behind the cells that have already moved. */
  lemma EvacuateView<H>(moved: seq<Cell<H>>, was: seq<Cell<H>>, c: Cell<H>, lo: nat, cur: nat,
                        m0: seq<Byte>, m: seq<Byte>, m': seq<Byte>)
    requires Tiles(moved, lo, cur) && View(moved, m) == View(was, m0)
    requires |m| == |m'| && cur <= |m| && m'[..cur] == m[..cur]
    requires Span(c.(start := cur), m') == Span(c, m0)
    ensures View(moved + [c.(start := cur)], m') == View(was + [c], m0)
  {
    var c' := c.(start := cur);
    TilesExtent(moved, lo, cur);
    forall i | 0 <= i < |moved|
      ensures Span(moved[i], m) == Span(moved[i], m')
    {
      var lo', hi' := moved[i].start, moved[i].start + moved[i].size;
      SliceOfFront(m, cur, lo', hi');
      SliceOfFront(m', cur, lo', hi');
    }
    ViewFrame(moved, m, m');
    ViewConcat(moved, [c'], m');
    ViewConcat(was, [c], m0);
    OneCell(c);
    OneCell(c');
  }

  /** The cells `was`, all live, now lie one behind the other from `target` up to `cur`, and memory `m`
      holds there the bytes they had in memory `m0`. */
  ghost predicate Landed<H>(cs: seq<Cell<H>>, m: seq<Byte>, target: nat, cur: nat, was: seq<Cell<H>>, m0: seq<Byte>) {
    cs == Relocate(was, target) && FreeBytes(was) == 0 && cur == target + LiveBytes(was) &&
    View(cs, m) == View(was, m0)
  }

  lemma LandNext<H>(cs: seq<Cell<H>>, m: seq<Byte>, target: nat, cur: nat, was: seq<Cell<H>>, m0: seq<Byte>,
                    c: Cell<H>, m': seq<Byte>)
    requires Landed(cs, m, target, cur, was, m0) && !c.free
    requires |m| == |m'| && cur <= |m| && forall i :: 0 <= i < cur ==> m'[i] == m[i]
    requires Span(c.(start := cur), m') == Span(c, m0)
    ensures Landed(cs + [c.(start := cur)], m', target, cur + c.size, was + [c], m0)
  {
    RelocateTiles(was, target);
    RelocateSnoc(was, c, target);
    SumsConcat(was, [c]);
    OneCell(c);
    assert m'[..cur] == m[..cur];
    EvacuateView(cs, was, c, target, cur, m0, m, m');
  }

  lemma CompactedView<H>(cs: seq<Cell<H>>, m: seq<Byte>, target: nat, cur: nat, was: seq<Cell<H>>, m0: seq<Byte>,
                         tail: H, free: nat)
    requires Landed(cs, m, target, cur, was, m0)
    ensures Compacted(was, target, tail, free) == cs + [Cell(tail, cur, free, true)]
    ensures View(Compacted(was, target, tail, free), m) == View(was, m0)
  {
    ViewConcat(cs, [Cell(tail, cur, free, true)], m);
    OneCell(Cell(tail, cur, free, true));
  }

  /** Everything that lives moves: what a full compaction carries over. */
  lemma AllMovers<H>(cs: seq<Cell<H>>, lo: nat, hi: nat, m: seq<Byte>)
    requires Tiles(cs, lo, hi) && Distinct(cs)
    ensures var was := Movers(cs, {});
            Distinct(was) && FreeBytes(was) == 0 && LiveBytes(was) + FreeBytes(cs) == hi - lo &&
            View(was, m) == View(cs, m) && forall c :: c in was ==> c in cs && !c.free
  {
    MoversDistinct(cs, {});
    MoversFrom(cs, {});
    MoversSums(cs, {});
    MoversView(cs, {}, m);
    TilesExtent(cs, lo, hi);
    assert View(cs, m) - {} == View(cs, m);
  }

  /** The same when the live cell `k` goes last. */
  lemma AllMoversWithLast<H>(cs: seq<Cell<H>>, k: nat, lo: nat, hi: nat, m: seq<Byte>)
    requires Tiles(cs, lo, hi) && Distinct(cs) && k < |cs| && !cs[k].free
    ensures var was := Movers(cs, {cs[k].id}) + [cs[k]];
            Distinct(was) && FreeBytes(was) == 0 && LiveBytes(was) + FreeBytes(cs) == hi - lo &&
            View(was, m) == View(cs, m) && forall c :: c in was ==> c in cs && !c.free
  {
    var most := Movers(cs, {cs[k].id});
    MoversDistinct(cs, {cs[k].id});
    MoversFrom(cs, {cs[k].id});
    MoversSums(cs, {cs[k].id});
    MoversWithout(cs, k);
    MoversView(cs, {cs[k].id}, m);
    TilesExtent(cs, lo, hi);
    SumsConcat(most, [cs[k]]);
    OneCell(cs[k]);
    ViewConcat(most, [cs[k]], m);
    ViewAt(cs, m, k);
    assert (View(cs, m) - {cs[k].id}) + map[cs[k].id := Span(cs[k], m)] == View(cs, m);
  }

  // ---------------------------------------------------------------- what the operations do to the list

  ghost predicate NewId<H>(cs: seq<Cell<H>>, id: H) {
    forall i :: 0 <= i < |cs| ==> cs[i].id != id
  }

  lemma DeadOrNew<H>(cs: seq<Cell<H>>, m: seq<Byte>, h: H)
    requires Distinct(cs)
    requires NewId(cs, h) || exists k :: 0 <= k < |cs| && cs[k].id == h && cs[k].free
    ensures h !in View(cs, m)
  {
  }

  /** A free block is handed out whole. */
  lemma HandOutWhole<H>(cs: seq<Cell<H>>, k: nat, lo: nat, hi: nat, m: seq<Byte>)
    requires k < |cs| && WellFormed(cs, lo, hi) && cs[k].free && hi <= |m|
    ensures var c := cs[k].(free := false);
            WellFormed(cs[k := c], lo, hi) && FreeBytes(cs[k := c]) == FreeBytes(cs) - c.size &&
            c.id !in View(cs, m) && View(cs[k := c], m) == View(cs, m)[c.id := Span(c, m)] && |Span(c, m)| == c.size
  {
    var c := cs[k].(free := false);
    ReplaceCellKeeps(cs, k, c, lo, hi, m);
    OneCell(cs[k]);
    OneCell(c);
    DeadOrNew(cs, m, c.id);
    TilesExtent(cs, lo, hi);
    assert View(cs, m) - {} == View(cs, m);
  }

  /** The front of a free block is handed out under a new identity. */
  lemma HandOutFront<H>(cs: seq<Cell<H>>, k: nat, n: nat, id: H, lo: nat, hi: nat, m: seq<Byte>)
    requires k < |cs| && WellFormed(cs, lo, hi) && cs[k].free && n <= cs[k].size && hi <= |m| && NewId(cs, id)
    ensures var c, rest := Cell(id, cs[k].start, n, false), cs[k].(start := cs[k].start + n, size := cs[k].size - n);
            var cs' := Split(cs, k, c, rest);
            WellFormed(cs', lo, hi) && FreeBytes(cs') == FreeBytes(cs) - n &&
            id !in View(cs, m) && View(cs', m) == View(cs, m)[id := Span(c, m)] && |Span(c, m)| == n
  {
    var c, rest := Cell(id, cs[k].start, n, false), cs[k].(start := cs[k].start + n, size := cs[k].size - n);
    SplitKeeps(cs, k, c, rest, lo, hi);
    SplitView(cs, k, c, rest, m);
    OneCell(cs[k]);
    OneCell(c);
    OneCell(rest);
    TwoCells(c, rest);
    DeadOrNew(cs, m, id);
    TilesExtent(cs, lo, hi);
    assert View(cs, m) - {} == View(cs, m);
  }

  /** A live block is given back, before its neighbours are joined. */
  lemma Release<H>(cs: seq<Cell<H>>, k: nat, c: Cell<H>, lo: nat, hi: nat, m: seq<Byte>)
    requires k < |cs| && WellFormed(cs, lo, hi) && !cs[k].free
    requires c.free && c.start == cs[k].start && c.size == cs[k].size && (c.id == cs[k].id || NewId(cs, c.id))
    ensures var cs' := cs[k := c];
            Tiles(cs', lo, hi) && Distinct(cs') && CoalescedBut(cs', k) &&
            FreeBytes(cs') == FreeBytes(cs) + c.size && View(cs', m) == View(cs, m) - {cs[k].id}
  {
    ReplaceCellKeeps(cs, k, c, lo, hi, m);
    OneCell(cs[k]);
    OneCell(c);
  }

  /** The tail of a live block is cut off as a free block, before that is joined. */
  lemma CutTail<H>(cs: seq<Cell<H>>, k: nat, n: nat, id: H, lo: nat, hi: nat, m: seq<Byte>)
    requires k < |cs| && WellFormed(cs, lo, hi) && !cs[k].free && n <= cs[k].size && hi <= |m| && NewId(cs, id)
    ensures var c, rest := cs[k].(size := n), Cell(id, cs[k].start + n, cs[k].size - n, true);
            var cs' := Split(cs, k, c, rest);
            Tiles(cs', lo, hi) && Distinct(cs') && CoalescedBut(cs', k + 1) &&
            FreeBytes(cs') == FreeBytes(cs) + rest.size &&
            Resized(View(cs, m), View(cs', m), c.id, n) && |View(cs, m)[c.id]| == cs[k].size
  {
    var c, rest := cs[k].(size := n), Cell(id, cs[k].start + n, cs[k].size - n, true);
    SplitKeeps(cs, k, c, rest, lo, hi);
    OneCell(cs[k]);
    OneCell(c);
    OneCell(rest);
    TwoCells(c, rest);
    CutTailView(cs, k, c, rest, m);
    CutTailBytes(cs, k, n, lo, hi, m);
    ResizedTo(View(cs, m), View(Split(cs, k, c, rest), m), c.id, Span(cs[k], m), Span(c, m));
  }

  lemma ResizedTo<H>(s: Heap<H>, s': Heap<H>, h: H, was: seq<Byte>, now: seq<Byte>)
    requires h in s && s[h] == was && s' == s[h := now] && SamePrefix(was, now)
    ensures Resized(s, s', h, |now|)
  {
  }

  lemma CutTailView<H>(cs: seq<Cell<H>>, k: nat, c: Cell<H>, rest: Cell<H>, m: seq<Byte>)
    requires k < |cs| && !cs[k].free && !c.free && rest.free && c.id == cs[k].id
    requires Distinct(cs) && Distinct(Split(cs, k, c, rest))
    ensures View(Split(cs, k, c, rest), m) == View(cs, m)[c.id := Span(c, m)]
  {
    SplitView(cs, k, c, rest, m);
    OneCell(cs[k]);
    OneCell(c);
    OneCell(rest);
    TwoCells(c, rest);
  }

  /** A shrunk block shows the front of its old bytes. */
  lemma CutTailBytes<H>(cs: seq<Cell<H>>, k: nat, n: nat, lo: nat, hi: nat, m: seq<Byte>)
    requires k < |cs| && Tiles(cs, lo, hi) && n <= cs[k].size && hi <= |m| && Distinct(cs) && !cs[k].free
    ensures cs[k].id in View(cs, m) && View(cs, m)[cs[k].id] == Span(cs[k], m)
    ensures var c := cs[k].(size := n);
            SamePrefix(Span(cs[k], m), Span(c, m)) && |Span(c, m)| == n && |Span(cs[k], m)| == cs[k].size
  {
    TilesExtent(cs, lo, hi);
    ViewAt(cs, m, k);
  }

  /** Two spans from the same address agree as far as both go. */
  lemma SpanPrefix<H>(cs: seq<Cell<H>>, k: nat, c: Cell<H>, lo: nat, hi: nat, m: seq<Byte>)
    requires k < |cs| && Tiles(cs, lo, hi) && c.start == cs[k].start && c.start + c.size <= hi <= |m|
    ensures SamePrefix(Span(cs[k], m), Span(c, m)) && |Span(c, m)| == c.size && |Span(cs[k], m)| == cs[k].size
  {
    TilesExtent(cs, lo, hi);
  }

  /** Cutting a free block leaves only the cut itself uncoalesced. */
  lemma CutFreeCoalesced<H>(cs: seq<Cell<H>>, k: nat, n: nat, id: H)
    requires k < |cs| && Coalesced(cs) && cs[k].free && n <= cs[k].size
    ensures CoalescedBut(Split(cs, k, Cell(id, cs[k].start, n, true),
                               cs[k].(start := cs[k].start + n, size := cs[k].size - n)), k)
  {
  }

  /** A free block is cut in two free blocks; the front one gets a new identity. */
  lemma CutFree<H>(cs: seq<Cell<H>>, k: nat, n: nat, id: H, lo: nat, hi: nat, m: seq<Byte>)
    requires k < |cs| && WellFormed(cs, lo, hi) && cs[k].free && n <= cs[k].size && NewId(cs, id)
    ensures var c, rest := Cell(id, cs[k].start, n, true), cs[k].(start := cs[k].start + n, size := cs[k].size - n);
            var cs' := Split(cs, k, c, rest);
            Tiles(cs', lo, hi) && Distinct(cs') && FreeBytes(cs') == FreeBytes(cs) && View(cs', m) == View(cs, m) &&
            CoalescedBut(cs', k)
  {
    var c, rest := Cell(id, cs[k].start, n, true), cs[k].(start := cs[k].start + n, size := cs[k].size - n);
    SplitKeeps(cs, k, c, rest, lo, hi);
    SplitView(cs, k, c, rest, m);
    OneCell(cs[k]);
    OneCell(c);
    OneCell(rest);
    TwoCells(c, rest);
    assert View(cs, m) - {} == View(cs, m);
    CutFreeCoalesced(cs, k, n, id);
  }

  /** A live block absorbs the whole free block behind it. */
  lemma GrowExact<H>(cs: seq<Cell<H>>, k: nat, lo: nat, hi: nat, m: seq<Byte>)
    requires k + 1 < |cs| && Tiles(cs, lo, hi) && Distinct(cs) && hi <= |m|
    requires !cs[k].free && cs[k + 1].free && CoalescedBut(cs, k + 1)
    ensures var c, cs' := cs[k].(size := cs[k].size + cs[k + 1].size), AppendFollow(cs, k);
            WellFormed(cs', lo, hi) && FreeBytes(cs') == FreeBytes(cs) - cs[k + 1].size && cs'[k] == c &&
            Resized(View(cs, m), View(cs', m), c.id, c.size) && |View(cs, m)[c.id]| == cs[k].size
  {
    ViewAt(cs, m, k);
    TilesExtent(cs, lo, hi);
    AppendFollowKeeps(cs, k, lo, hi);
    AppendLiveView(cs, k, lo, hi, m);
    var cs' := AppendFollow(cs, k);
    forall i | 0 < i < |cs'|
      ensures !(cs'[i - 1].free && cs'[i].free)
    {
      if i < k {
        assert cs'[i] == cs[i] && cs'[i - 1] == cs[i - 1];
      } else if i > k + 1 {
        assert cs'[i] == cs[i + 1] && cs'[i - 1] == cs[i];
      }
    }
  }

  /** The copy of block `i` into the free block `k` touches no other client. */
  lemma CopyIsPrivate<H>(cs: seq<Cell<H>>, k: nat, lo: nat, hi: nat, m: seq<Byte>, m': seq<Byte>)
    requires k < |cs| && Tiles(cs, lo, hi) && cs[k].free && hi <= |m| == |m'|
    requires forall a :: 0 <= a < |m| && !(cs[k].start <= a < cs[k].start + cs[k].size) ==> m'[a] == m[a]
    ensures View(cs, m) == View(cs, m')
  {
    TilesExtent(cs, lo, hi);
    forall j | 0 <= j < |cs| && !cs[j].free
      ensures Span(cs[j], m) == Span(cs[j], m')
    {
      if j < k { TilesOrdered(cs, lo, hi, j, k); } else { TilesOrdered(cs, lo, hi, k, j); }
    }
    ViewFrame(cs, m, m');
  }

  /** The live block `i` moves into the free block `k` and leaves a hole with a new identity. */
  ghost function MoveTo<H>(cs: seq<Cell<H>>, i: nat, k: nat, hole: H): seq<Cell<H>>
    requires i < |cs| && k < |cs|
  {
    cs[i := Cell(hole, cs[i].start, cs[i].size, true)][k := Cell(cs[i].id, cs[k].start, cs[k].size, false)]
  }

  lemma MoveToKeeps<H>(cs: seq<Cell<H>>, i: nat, k: nat, hole: H, lo: nat, hi: nat, m: seq<Byte>, m': seq<Byte>)
    requires i < |cs| && k < |cs| && !cs[i].free && cs[k].free && NewId(cs, hole)
    requires Tiles(cs, lo, hi) && Distinct(cs) && CoalescedBut(cs, k) && hi <= |m| == |m'|
    requires forall a :: 0 <= a < |m| && !(cs[k].start <= a < cs[k].start + cs[k].size) ==> m'[a] == m[a]
    ensures var c, cs' := Cell(cs[i].id, cs[k].start, cs[k].size, false), MoveTo(cs, i, k, hole);
            Tiles(cs', lo, hi) && Distinct(cs') && CoalescedBut(cs', i) &&
            FreeBytes(cs') == FreeBytes(cs) + cs[i].size - c.size &&
            View(cs', m') == View(cs, m)[c.id := Span(c, m')]
  {
    var h, c := Cell(hole, cs[i].start, cs[i].size, true), Cell(cs[i].id, cs[k].start, cs[k].size, false);
    OneCell(cs[i]);
    OneCell(cs[k]);
    OneCell(h);
    OneCell(c);
    var cs1 := cs[i := h];
    ReplaceCellKeeps(cs, i, h, lo, hi, m);
    CopyIsPrivate(cs1, k, lo, hi, m, m');
    ReplaceCellKeeps(cs1, k, c, lo, hi, m');
  }

  /** The source and the destination of the copy lie in the tiled half and do not overlap. */
  lemma CopyRanges<H>(cs: seq<Cell<H>>, i: nat, k: nat, lo: nat, hi: nat)
    requires i < |cs| && k < |cs| && i != k && Tiles(cs, lo, hi)
    ensures cs[i].start + cs[i].size <= hi && cs[k].start + cs[k].size <= hi
    ensures cs[i].start + cs[i].size <= cs[k].start || cs[k].start + cs[k].size <= cs[i].start
  {
    TilesExtent(cs, lo, hi);
    if i < k { TilesOrdered(cs, lo, hi, i, k); } else { TilesOrdered(cs, lo, hi, k, i); }
  }

  /** The client of the moved block sees its old bytes in front of the larger room. */
  lemma MoveToResizes<H>(cs: seq<Cell<H>>, i: nat, k: nat, hole: H, lo: nat, hi: nat, m: seq<Byte>, m': seq<Byte>)
    requires i < |cs| && k < |cs| && !cs[i].free && cs[k].free && NewId(cs, hole) && cs[i].size <= cs[k].size
    requires Tiles(cs, lo, hi) && Distinct(cs) && CoalescedBut(cs, k) && hi <= |m| == |m'|
    requires forall a :: 0 <= a < |m| && !(cs[k].start <= a < cs[k].start + cs[i].size) ==> m'[a] == m[a]
    requires cs[k].start + cs[i].size <= |m| && cs[i].start + cs[i].size <= |m| &&
             m'[cs[k].start..cs[k].start + cs[i].size] == m[cs[i].start..cs[i].start + cs[i].size]
    ensures var cs' := MoveTo(cs, i, k, hole);
            Tiles(cs', lo, hi) && Distinct(cs') && CoalescedBut(cs', i) &&
            FreeBytes(cs') == FreeBytes(cs) + cs[i].size - cs[k].size &&
            Resized(View(cs, m), View(cs', m'), cs[i].id, cs[k].size) && |View(cs, m)[cs[i].id]| == cs[i].size
  {
    var c := Cell(cs[i].id, cs[k].start, cs[k].size, false);
    CopyRanges(cs, i, k, lo, hi);
    MoveToKeeps(cs, i, k, hole, lo, hi, m, m');
    ViewAt(cs, m, i);
    var was, now := Span(cs[i], m), Span(c, m');
    assert forall a :: 0 <= a < |was| ==> was[a] == m[cs[i].start..cs[i].start + cs[i].size][a];
    assert forall a :: 0 <= a < |was| ==> now[a] == m'[cs[k].start..cs[k].start + cs[i].size][a];
  }

  lemma OneSpanChanges<H>(cs: seq<Cell<H>>, k: nat, m: seq<Byte>, m': seq<Byte>)
    requires k < |cs| && Distinct(cs) && !cs[k].free
    requires View(cs[..k], m') == View(cs[..k], m) && View(cs[k + 1..], m') == View(cs[k + 1..], m)
    ensures View(cs, m') == View(cs, m)[cs[k].id := Span(cs[k], m')]
  {
    var a, c, b := cs[..k], cs[k], cs[k + 1..];
    assert cs == a + [c] + b;
    ViewSplice(a, [c], b, m);
    ViewSplice(a, [c], b, m');
    OneCell(c);
    DistinctMiddle(a, [c], b, m);
    MapMiddle(View(a, m), c.id, Span(c, m), Span(c, m'), View(b, m));
  }

  lemma MapMiddle<K, V>(a: map<K, V>, k: K, v: V, v': V, b: map<K, V>)
    requires k !in b
    ensures a + map[k := v'] + b == (a + map[k := v] + b)[k := v']
  {
  }

  /** A byte written inside live block `k` shows up there and nowhere else. */
  lemma StoreView<H>(cs: seq<Cell<H>>, k: nat, at: nat, v: Byte, lo: nat, hi: nat, m: seq<Byte>)
    requires k < |cs| && Tiles(cs, lo, hi) && Distinct(cs) && hi <= |m| && !cs[k].free && at < cs[k].size
    ensures cs[k].start + at < |m| && cs[k].id in View(cs, m) && at < |View(cs, m)[cs[k].id]|
    ensures View(cs, m[cs[k].start + at := v]) == View(cs, m)[cs[k].id := View(cs, m)[cs[k].id][at := v]]
  {
    TilesExtent(cs, lo, hi);
    ViewAt(cs, m, k);
    SpanStore(cs[k], at, v, m);
    StoreElsewhere(cs, k, at, v, lo, hi, m);
    OneSpanChanges(cs, k, m, m[cs[k].start + at := v]);
  }

  lemma SpanStore<H>(c: Cell<H>, at: nat, v: Byte, m: seq<Byte>)
    requires c.start + c.size <= |m| && at < c.size
    ensures Span(c, m[c.start + at := v]) == Span(c, m)[at := v]
  {
  }

  lemma StoreElsewhere<H>(cs: seq<Cell<H>>, k: nat, at: nat, v: Byte, lo: nat, hi: nat, m: seq<Byte>)
    requires k < |cs| && Tiles(cs, lo, hi) && hi <= |m| && at < cs[k].size && cs[k].start + at < |m|
    ensures View(cs[..k], m[cs[k].start + at := v]) == View(cs[..k], m)
    ensures View(cs[k + 1..], m[cs[k].start + at := v]) == View(cs[k + 1..], m)
  {
    var m' := m[cs[k].start + at := v];
    TilesExtent(cs, lo, hi);
    forall i | 0 <= i < |cs| && i != k
      ensures Span(cs[i], m) == Span(cs[i], m')
    {
      if i < k { TilesOrdered(cs, lo, hi, i, k); } else { TilesOrdered(cs, lo, hi, k, i); }
    }
    ViewFrame(cs[..k], m, m');
    ViewFrame(cs[k + 1..], m, m');
  }
}
