/**
  What the inverted index is: every word that occurs, in ascending order, with the ascending list of
  the documents that contain it.  `Merged` is what merging the runs of separate blocks yields instead;
  the two agree exactly when no document id is listed for the same word in two blocks.
 */
module IndexSpec {
  import opened Common
  import opened RecordFile

  ghost predicate Ascending(q: seq<nat>) {
    forall i, j :: 0 <= i < j < |q| ==> q[i] < q[j]
  }

  ghost function Least(s: set<nat>): (m: nat)
    requires s != {}
    ensures m in s && forall x :: x in s ==> m <= x
  {
    var x :| x in s;
    if s == {x} then x
    else
      var m := Least(s - {x});
      assert forall y :: y in s ==> y == x || y in s - {x};
      if x < m then x else m
  }

  /** The elements of a set in ascending order: the order in which std::set and std::map are walked. */
  ghost function InOrder(s: set<nat>): (q: seq<nat>)
    ensures |q| == |s|
  {
    if s == {} then [] else [Least(s)] + InOrder(s - {Least(s)})
  }

  lemma {:induction false} InOrderIsAscending(s: set<nat>)
    ensures Ascending(InOrder(s)) && forall x :: x in InOrder(s) <==> x in s
  {
    if s != {} {
      InOrderIsAscending(s - {Least(s)});
      ConsAscending(Least(s), InOrder(s - {Least(s)}), s);
    }
  }

  lemma ConsAscending(m: nat, rest: seq<nat>, s: set<nat>)
    requires m in s && (forall x :: x in s ==> m <= x)
    requires Ascending(rest) && forall x :: x in rest <==> x in s - {m}
    ensures Ascending([m] + rest) && forall x :: x in [m] + rest <==> x in s
  {
    assert forall i :: 0 <= i < |rest| ==> rest[i] in rest;
  }

  /** There is only one ascending list of given elements. */
  lemma {:induction false} AscendingIsUnique(q: seq<nat>, s: set<nat>)
    requires Ascending(q) && forall x :: x in q <==> x in s
    ensures q == InOrder(s)
    decreases |q|
  {
    if q == [] {
      assert s == {};
    } else {
      HeadIsLeast(q, s);
      TailMembers(q, s);
      AscendingIsUnique(q[1..], s - {q[0]});
    }
  }

  lemma HeadIsLeast(q: seq<nat>, s: set<nat>)
    requires q != [] && Ascending(q) && forall x :: x in q <==> x in s
    ensures s != {} && Least(s) == q[0]
  {
    assert q[0] in s;
    var i :| 0 <= i < |q| && q[i] == Least(s);
  }

  lemma TailMembers(q: seq<nat>, s: set<nat>)
    requires q != [] && Ascending(q) && forall x :: x in q <==> x in s
    ensures Ascending(q[1..]) && forall x :: x in q[1..] <==> x in s - {q[0]}
  {
  }

  // ---------------------------------------------------------------- sorting with repetitions

  function Insert(x: nat, q: seq<nat>): seq<nat> {
    if q == [] || x <= q[0] then [x] + q else [q[0]] + Insert(x, q[1..])
  }

  /** std::sort. */
  function Sort(q: seq<nat>): seq<nat> {
    if q == [] then [] else Insert(q[0], Sort(q[1..]))
  }

  lemma {:induction false} InsertAdds(x: nat, q: seq<nat>)
    ensures multiset(Insert(x, q)) == multiset{x} + multiset(q)
    ensures forall y :: y in Insert(x, q) ==> y == x || y in q
  {
    if q != [] && x > q[0] {
      InsertAdds(x, q[1..]);
      assert q == [q[0]] + q[1..];
    }
  }

  lemma {:induction false} InsertSorts(x: nat, q: seq<nat>)
    requires Sorted(q)
    ensures Sorted(Insert(x, q))
  {
    if q != [] && x > q[0] {
      InsertSorts(x, q[1..]);
      InsertAdds(x, q[1..]);
      var r := Insert(x, q[1..]);
      assert forall i :: 0 <= i < |r| ==> r[i] in r;
      assert forall y :: y in q[1..] ==> q[0] <= y;
    }
  }

  lemma {:induction false} SortSorts(q: seq<nat>)
    ensures Sorted(Sort(q)) && multiset(Sort(q)) == multiset(q) && |Sort(q)| == |q|
  {
    if q != [] {
      SortSorts(q[1..]);
      InsertSorts(q[0], Sort(q[1..]));
      InsertAdds(q[0], Sort(q[1..]));
      assert q == [q[0]] + q[1..];
      assert |Sort(q)| == |multiset(Sort(q))| == |multiset(q)|;
    }
  }

  // ---------------------------------------------------------------- direct grouping

  ghost function WordsOf(docs: seq<Record>): set<nat> {
    set d, w | d in docs && w in d.items :: w
  }

  ghost function IdsOf(docs: seq<Record>, w: nat): set<nat> {
    set d | d in docs && w in d.items :: d.key
  }

  ghost function Group(docs: seq<Record>): map<nat, set<nat>> {
    map w | w in WordsOf(docs) :: IdsOf(docs, w)
  }

  /** A dictionary written out in order. */
  ghost function Listing(dict: map<nat, set<nat>>): (rs: seq<Record>)
    ensures |rs| == |dict|
  {
    var ws := InOrder(dict.Keys);
    seq(|ws|, i requires 0 <= i < |ws| => Record(ws[i], if ws[i] in dict then InOrder(dict[ws[i]]) else []))
  }

  /** The index itself. */
  ghost function Direct(docs: seq<Record>): seq<Record> {
    Listing(Group(docs))
  }

  // ---------------------------------------------------------------- blocks, runs and their merge

  /** The documents in blocks of `limit`.  What is left at the end forms a block only if it has a word. */
  ghost function Blocks(docs: seq<Record>, limit: nat): (bs: seq<seq<Record>>)
    requires limit > 0
    decreases |docs|
  {
    if |docs| < limit then (if WordsOf(docs) == {} then [] else [docs])
    else [docs[..limit]] + Blocks(docs[limit..], limit)
  }

  ghost function Runs(blocks: seq<seq<Record>>): (rs: seq<seq<Record>>)
    ensures |rs| == |blocks|
  {
    seq(|blocks|, i requires 0 <= i < |blocks| => Direct(blocks[i]))
  }

  /** The list of `w` in a run; empty if it has none. */
  ghost function IdsIn(run: seq<Record>, w: nat): seq<nat> {
    if run == [] then [] else if run[0].key == w then run[0].items else IdsIn(run[1..], w)
  }

  /** The lists of `w` in all runs, one after the other. */
  ghost function Gather(runs: seq<seq<Record>>, w: nat): seq<nat> {
    if runs == [] then [] else Gather(runs[..|runs| - 1], w) + IdsIn(runs[|runs| - 1], w)
  }

  ghost function Merged(runs: seq<seq<Record>>, words: set<nat>): (rs: seq<Record>)
    ensures |rs| == |words|
  {
    var ws := InOrder(words);
    seq(|ws|, i requires 0 <= i < |ws| => Record(ws[i], Sort(Gather(runs, ws[i]))))
  }

  // ---------------------------------------------------------------- when merging gives the index

  /** Lists of a family of sets, one after the other, and their union. */
  ghost function Chain(family: seq<set<nat>>): seq<nat> {
    if family == [] then [] else Chain(family[..|family| - 1]) + InOrder(family[|family| - 1])
  }

  ghost function Union(family: seq<set<nat>>): set<nat> {
    if family == [] then {} else Union(family[..|family| - 1]) + family[|family| - 1]
  }

  ghost predicate Disjoint(family: seq<set<nat>>) {
    forall i, j :: 0 <= i < j < |family| ==> family[i] !! family[j]
  }

  lemma {:induction false} UnionHas(family: seq<set<nat>>)
    ensures forall x :: x in Union(family) <==> exists i :: 0 <= i < |family| && x in family[i]
  {
    if family != [] {
      var n := |family| - 1;
      UnionHas(family[..n]);
      forall x
        ensures x in Union(family) <==> exists i :: 0 <= i < |family| && x in family[i]
      {
        if i :| 0 <= i < n && x in family[i] { assert family[..n][i] == family[i]; }
        if x in Union(family[..n]) {
          var i :| 0 <= i < n && x in family[..n][i];
          assert family[i] == family[..n][i];
        }
      }
    }
  }

  lemma DisjointSnoc(family: seq<set<nat>>)
    requires family != []
    ensures var n := |family| - 1;
            Disjoint(family) <==> Disjoint(family[..n]) && Union(family[..n]) !! family[n]
  {
    var n := |family| - 1;
    UnionHas(family[..n]);
    if Disjoint(family) {
      forall x | x in Union(family[..n])
        ensures x !in family[n]
      {
        var i :| 0 <= i < n && x in family[..n][i];
        assert family[i] !! family[n];
      }
    }
    if Disjoint(family[..n]) && Union(family[..n]) !! family[n] {
      forall i, j | 0 <= i < j < |family|
        ensures family[i] !! family[j]
      {
        if j < n {
          assert family[..n][i] !! family[..n][j];
        } else {
          assert forall x :: x in family[i] ==> x in family[..n][i];
        }
      }
    }
  }

  /** The chain is longer than the union unless the sets are disjoint. */
  lemma {:induction false} ChainSize(family: seq<set<nat>>)
    ensures |Chain(family)| >= |Union(family)|
    ensures |Chain(family)| == |Union(family)| <==> Disjoint(family)
  {
    if family != [] {
      var n := |family| - 1;
      ChainSize(family[..n]);
      DisjointSnoc(family);
      UnionSize(Union(family[..n]), family[n]);
    }
  }

  lemma UnionSize(a: set<nat>, b: set<nat>)
    ensures |a + b| <= |a| + |b|
    ensures |a + b| == |a| + |b| <==> a !! b
  {
    assert a + b == a + (b - a) && b == (b - a) + (b * a);
    assert |a + b| == |a| + |b - a| && |b| == |b - a| + |b * a|;
    assert b * a == {} <==> a !! b;
  }

  lemma {:induction false} ChainCounts(family: seq<set<nat>>)
    requires Disjoint(family)
    ensures multiset(Chain(family)) == multiset(Union(family))
  {
    if family != [] {
      var n := |family| - 1;
      ChainCounts(family[..n]);
      DisjointSnoc(family);
      OrderCounts(family[n]);
      assert multiset(Union(family[..n]) + family[n]) == multiset(Union(family[..n])) + multiset(family[n]);
    }
  }

  lemma {:induction false} OrderCounts(s: set<nat>)
    ensures multiset(InOrder(s)) == multiset(s)
  {
    if s != {} {
      OrderCounts(s - {Least(s)});
      assert s == {Least(s)} + (s - {Least(s)});
    }
  }

  lemma CountedTwice(q: seq<nat>, i: nat, j: nat)
    requires i < j < |q|
    ensures q[i] == q[j] ==> multiset(q)[q[i]] >= 2
  {
    assert q == q[..i] + [q[i]] + q[i + 1..];
    assert q[j] in q[i + 1..];
  }

  /** A sorted list without repetitions is the set in order. */
  lemma SortedSetIsInOrder(q: seq<nat>, s: set<nat>)
    requires Sorted(q) && multiset(q) == multiset(s)
    ensures q == InOrder(s)
  {
    forall i, j | 0 <= i < j < |q|
      ensures q[i] < q[j]
    {
      CountedTwice(q, i, j);
    }
    assert forall x :: x in q <==> x in multiset(q);
    AscendingIsUnique(q, s);
  }

  /** Sorting the chain gives the union in order exactly when no element is listed twice. */
  lemma SortedChain(family: seq<set<nat>>)
    ensures Sort(Chain(family)) == InOrder(Union(family)) <==> Disjoint(family)
  {
    ChainSize(family);
    SortSorts(Chain(family));
    if Disjoint(family) {
      ChainCounts(family);
      SortedSetIsInOrder(Sort(Chain(family)), Union(family));
    }
  }

  lemma {:induction false} IdsInAt(run: seq<Record>, k: nat)
    requires k < |run| && forall i, j :: 0 <= i < j < |run| ==> run[i].key != run[j].key
    ensures IdsIn(run, run[k].key) == run[k].items
  {
    if k > 0 {
      assert run[0].key != run[k].key;
      IdsInAt(run[1..], k - 1);
    }
  }

  lemma {:induction false} IdsInNone(run: seq<Record>, w: nat)
    requires forall i :: 0 <= i < |run| ==> run[i].key != w
    ensures IdsIn(run, w) == []
  {
    if run != [] {
      IdsInNone(run[1..], w);
    }
  }

  ghost predicate KeysAscend(run: seq<Record>) {
    forall i, j :: 0 <= i < j < |run| ==> run[i].key < run[j].key
  }

  lemma NoWordNoIds(docs: seq<Record>, w: nat)
    requires w !in WordsOf(docs)
    ensures IdsOf(docs, w) == {}
  {
  }

  lemma RunKeys(docs: seq<Record>)
    ensures var run, ws := Direct(docs), InOrder(WordsOf(docs));
            |run| == |ws| && forall k :: 0 <= k < |run| ==> run[k] == Record(ws[k], InOrder(IdsOf(docs, ws[k])))
  {
    assert Group(docs).Keys == WordsOf(docs);
    InOrderIsAscending(WordsOf(docs));
    var ws := InOrder(WordsOf(docs));
    assert forall k :: 0 <= k < |ws| ==> ws[k] in ws;
  }

  /** A run is in order and has exactly the words of its documents. */
  lemma RunOfBlock(docs: seq<Record>)
    ensures KeysAscend(Direct(docs))
    ensures forall k :: 0 <= k < |Direct(docs)| ==> Direct(docs)[k].key in WordsOf(docs)
    ensures forall w :: w in WordsOf(docs) ==> exists k :: 0 <= k < |Direct(docs)| && Direct(docs)[k].key == w
  {
    InOrderIsAscending(WordsOf(docs));
    RunKeys(docs);
    KeysInOrder(Direct(docs), InOrder(WordsOf(docs)));
  }

  lemma KeysInOrder(run: seq<Record>, ws: seq<nat>)
    requires |run| == |ws| && (forall k :: 0 <= k < |run| ==> run[k].key == ws[k]) && Ascending(ws)
    ensures KeysAscend(run)
    ensures forall k :: 0 <= k < |run| ==> run[k].key in ws
    ensures forall w :: w in ws ==> exists k :: 0 <= k < |run| && run[k].key == w
  {
  }

  /** A run lists for every word exactly the ids of the documents that contain it. */
  lemma RunLists(docs: seq<Record>, w: nat)
    ensures IdsIn(Direct(docs), w) == InOrder(IdsOf(docs, w))
  {
    var run, ws := Direct(docs), InOrder(WordsOf(docs));
    InOrderIsAscending(WordsOf(docs));
    RunKeys(docs);
    if w in ws {
      var k :| 0 <= k < |ws| && ws[k] == w;
      IdsInAt(run, k);
    } else {
      IdsInNone(run, w);
      NoWordNoIds(docs, w);
    }
  }

  ghost function IdFamily(blocks: seq<seq<Record>>, w: nat): (f: seq<set<nat>>)
    ensures |f| == |blocks|
  {
    seq(|blocks|, i requires 0 <= i < |blocks| => IdsOf(blocks[i], w))
  }

  lemma {:induction false} GatherIsChain(blocks: seq<seq<Record>>, w: nat)
    ensures Gather(Runs(blocks), w) == Chain(IdFamily(blocks, w))
  {
    if blocks != [] {
      var n := |blocks| - 1;
      GatherIsChain(blocks[..n], w);
      RunLists(blocks[n], w);
      assert Runs(blocks)[..n] == Runs(blocks[..n]);
      assert IdFamily(blocks, w)[..n] == IdFamily(blocks[..n], w);
    }
  }

  lemma IdsOfConcat(a: seq<Record>, b: seq<Record>, w: nat)
    ensures IdsOf(a + b, w) == IdsOf(a, w) + IdsOf(b, w)
    ensures WordsOf(a + b) == WordsOf(a) + WordsOf(b)
  {
  }

  lemma {:induction false} ChainHead(family: seq<set<nat>>, s: set<nat>)
    ensures Union([s] + family) == s + Union(family)
  {
    if family == [] {
      assert [s] + family == [s] && [s][..0] == [];
    } else {
      var n := |family| - 1;
      ChainHead(family[..n], s);
      assert ([s] + family)[..n + 1] == [s] + family[..n];
    }
  }

  lemma FamilyHead(block: seq<Record>, blocks: seq<seq<Record>>, w: nat)
    ensures IdFamily([block] + blocks, w) == [IdsOf(block, w)] + IdFamily(blocks, w)
  {
    var all := [block] + blocks;
    assert forall i :: 0 <= i < |all| ==> all[i] == if i == 0 then block else blocks[i - 1];
  }

  /** Cutting the documents into blocks loses no listing. */
  lemma {:induction false} BlocksCover(docs: seq<Record>, limit: nat, w: nat)
    requires limit > 0
    ensures Union(IdFamily(Blocks(docs, limit), w)) == IdsOf(docs, w)
    decreases |docs|
  {
    if |docs| >= limit {
      var first, more := docs[..limit], docs[limit..];
      BlocksCover(more, limit, w);
      assert docs == first + more;
      IdsOfConcat(first, more, w);
      FamilyHead(first, Blocks(more, limit), w);
      ChainHead(IdFamily(Blocks(more, limit), w), IdsOf(first, w));
    } else if WordsOf(docs) == {} {
      NoWordNoIds(docs, w);
    } else {
      assert IdFamily([docs], w) == [IdsOf(docs, w)];
      assert [IdsOf(docs, w)][..0] == [];
    }
  }

  /** No document id is listed for one word in two blocks. */
  ghost predicate NoRepeats(blocks: seq<seq<Record>>) {
    forall w, i, j {:trigger IdsOf(blocks[i], w), IdsOf(blocks[j], w)} ::
      0 <= i < j < |blocks| ==> IdsOf(blocks[i], w) !! IdsOf(blocks[j], w)
  }

  lemma OneWord(docs: seq<Record>, limit: nat, w: nat)
    requires limit > 0
    ensures Sort(Gather(Runs(Blocks(docs, limit)), w)) == InOrder(IdsOf(docs, w)) <==>
            Disjoint(IdFamily(Blocks(docs, limit), w))
  {
    GatherIsChain(Blocks(docs, limit), w);
    BlocksCover(docs, limit, w);
    SortedChain(IdFamily(Blocks(docs, limit), w));
  }

  /** Word by word, the two indexes agree exactly where the lists of the blocks are disjoint. */
  lemma WordByWord(docs: seq<Record>, limit: nat, k: nat)
    requires limit > 0 && k < |WordsOf(docs)|
    ensures |Direct(docs)| == |Merged(Runs(Blocks(docs, limit)), WordsOf(docs))| == |WordsOf(docs)|
    ensures Merged(Runs(Blocks(docs, limit)), WordsOf(docs))[k] == Direct(docs)[k] <==>
            Disjoint(IdFamily(Blocks(docs, limit), InOrder(WordsOf(docs))[k]))
  {
    RunKeys(docs);
    OneWord(docs, limit, InOrder(WordsOf(docs))[k]);
  }

  /** Merging the runs of all blocks is direct grouping exactly when no id repeats across blocks. */
  lemma MergedIsDirect(docs: seq<Record>, limit: nat)
    requires limit > 0
    ensures Merged(Runs(Blocks(docs, limit)), WordsOf(docs)) == Direct(docs) <==> NoRepeats(Blocks(docs, limit))
  {
    var merged, direct := Merged(Runs(Blocks(docs, limit)), WordsOf(docs)), Direct(docs);
    RunKeys(docs);
    forall k | 0 <= k < |merged|
      ensures merged[k] == direct[k] <==> Disjoint(IdFamily(Blocks(docs, limit), InOrder(WordsOf(docs))[k]))
    {
      WordByWord(docs, limit, k);
    }
    if merged == direct {
      AgreeMeansNoRepeats(docs, limit);
    } else {
      var k :| 0 <= k < |merged| && merged[k] != direct[k];
      RepeatsWhereNotDisjoint(Blocks(docs, limit), InOrder(WordsOf(docs))[k]);
    }
  }

  lemma RepeatsWhereNotDisjoint(blocks: seq<seq<Record>>, w: nat)
    requires !Disjoint(IdFamily(blocks, w))
    ensures !NoRepeats(blocks)
  {
  }

  lemma AgreeMeansNoRepeats(docs: seq<Record>, limit: nat)
    requires limit > 0 && Merged(Runs(Blocks(docs, limit)), WordsOf(docs)) == Direct(docs)
    ensures NoRepeats(Blocks(docs, limit))
  {
    var blocks, ws := Blocks(docs, limit), InOrder(WordsOf(docs));
    InOrderIsAscending(WordsOf(docs));
    forall w, i, j {:trigger IdsOf(blocks[i], w), IdsOf(blocks[j], w)} | 0 <= i < j < |blocks|
      ensures IdsOf(blocks[i], w) !! IdsOf(blocks[j], w)
    {
      if w in ws {
        var k :| 0 <= k < |ws| && ws[k] == w;
        WordByWord(docs, limit, k);
        assert IdFamily(blocks, w)[i] !! IdFamily(blocks, w)[j];
      } else {
        NotListed(docs, limit, w, i);
      }
    }
  }

  lemma NotListed(docs: seq<Record>, limit: nat, w: nat, i: nat)
    requires limit > 0 && w !in WordsOf(docs) && i < |Blocks(docs, limit)|
    ensures IdsOf(Blocks(docs, limit)[i], w) == {}
  {
    var family := IdFamily(Blocks(docs, limit), w);
    BlocksCover(docs, limit, w);
    NoWordNoIds(docs, w);
    UnionHas(family);
    assert forall x :: x in family[i] ==> x in Union(family);
  }

  /** Distinct document ids are enough. */
  lemma {:induction false} DistinctIdsSuffice(docs: seq<Record>, limit: nat)
    requires limit > 0 && forall a, b :: 0 <= a < b < |docs| ==> docs[a].key != docs[b].key
    ensures NoRepeats(Blocks(docs, limit))
    decreases |docs|
  {
    if |docs| >= limit {
      var first, more := docs[..limit], docs[limit..];
      var blocks, later := Blocks(docs, limit), Blocks(more, limit);
      DistinctIdsSuffice(more, limit);
      forall w, i, j {:trigger IdsOf(blocks[i], w), IdsOf(blocks[j], w)} | 0 <= i < j < |blocks|
        ensures IdsOf(blocks[i], w) !! IdsOf(blocks[j], w)
      {
        if i > 0 {
          assert blocks[i] == later[i - 1] && blocks[j] == later[j - 1];
        } else {
          BlocksCover(more, limit, w);
          UnionHas(IdFamily(later, w));
          assert IdFamily(later, w)[j - 1] <= IdsOf(more, w);
          assert IdsOf(first, w) !! IdsOf(more, w);
        }
      }
    }
  }
}
