/**
  Runs without records.  The merge reads the first record of every run without a look at the result, so
  that a run without any shows the word and the count of the run before it, over a buffer that no read
  has filled.
 */
module IndexStale {
  import opened RecordFile
  import opened IndexSpec

  /** What no read has filled: the two variables at first, and the buffer of each run. */
  datatype Junk = Junk(word: nat, n: nat, buffers: nat -> (nat -> nat))

  datatype Held = Held(word: nat, n: nat)

  function JunkIds(junk: Junk, i: nat, n: nat): (ids: seq<nat>)
    ensures |ids| == n
  {
    var buffer := junk.buffers(i);
    seq(n, j requires 0 <= j < n => buffer(j))
  }

  /** What the two variables hold when the first `k` runs have been read. */
  ghost function HeldAfter(runs: seq<seq<Record>>, k: nat, junk: Junk): Held
    requires k <= |runs|
  {
    if k == 0 then Held(junk.word, junk.n)
    else if runs[k - 1] == [] then HeldAfter(runs, k - 1, junk)
    else Held(runs[k - 1][0].key, |runs[k - 1][0].items|)
  }

  /** Run `i` as the merge takes it. */
  ghost function SeenAt(runs: seq<seq<Record>>, i: nat, junk: Junk): (run: seq<Record>)
    requires i < |runs|
    ensures run != []
  {
    if runs[i] != [] then runs[i]
    else var h := HeldAfter(runs, i, junk); [Record(h.word, JunkIds(junk, i, h.n))]
  }

  ghost function Seen(runs: seq<seq<Record>>, junk: Junk): (seen: seq<seq<Record>>)
    ensures |seen| == |runs| && forall i :: 0 <= i < |runs| ==> seen[i] == SeenAt(runs, i, junk)
  {
    seq(|runs|, i requires 0 <= i < |runs| => SeenAt(runs, i, junk))
  }

  lemma SeenIsRuns(runs: seq<seq<Record>>, junk: Junk)
    requires forall i :: 0 <= i < |runs| ==> runs[i] != []
    ensures Seen(runs, junk) == runs
  {
  }

  /** The variables hold what some run before had in its first record. */
  lemma {:induction false} HeldIsFirst(runs: seq<seq<Record>>, k: nat, junk: Junk) returns (b: nat)
    requires 0 < k <= |runs| && runs[0] != []
    ensures b < k && runs[b] != [] && HeldAfter(runs, k, junk) == Held(runs[b][0].key, |runs[b][0].items|)
  {
    b := k - 1;
    if runs[b] == [] { b := HeldIsFirst(runs, k - 1, junk); }
  }

  lemma ListSeen(runs: seq<seq<Record>>, i: nat, junk: Junk, w: nat)
    requires i < |runs|
    ensures runs[i] != [] ==> IdsIn(SeenAt(runs, i, junk), w) == IdsIn(runs[i], w)
    ensures runs[i] == [] ==> IdsIn(runs[i], w) == []
    ensures runs[i] == [] ==> var h := HeldAfter(runs, i, junk);
              IdsIn(SeenAt(runs, i, junk), w) == if w == h.word then JunkIds(junk, i, h.n) else []
  {
  }

  /** A run without records adds as many ids to the list of a word as the run before it has there. */
  lemma {:induction false} GatherSeen(runs: seq<seq<Record>>, junk: Junk, w: nat, m: nat, i: nat)
    requires m <= |runs|
    ensures |Gather(Seen(runs, junk)[..m], w)| >= |Gather(runs[..m], w)|
    ensures i < m && runs[i] == [] && w == HeldAfter(runs, i, junk).word ==>
              |Gather(Seen(runs, junk)[..m], w)| >= |Gather(runs[..m], w)| + HeldAfter(runs, i, junk).n
  {
    if m > 0 {
      var seen, n := Seen(runs, junk), m - 1;
      GatherSeen(runs, junk, w, n, i);
      ListSeen(runs, n, junk, w);
      GatherNext(seen, w, n, m);
      GatherNext(runs, w, n, m);
    }
  }

  lemma GatherNext(runs: seq<seq<Record>>, w: nat, n: nat, m: nat)
    requires n < |runs| && m == n + 1
    ensures Gather(runs[..m], w) == Gather(runs[..n], w) + IdsIn(runs[n], w)
  {
    assert runs[..m][..n] == runs[..n] && runs[..m][n] == runs[n];
  }

  /** All ids come from the records. */
  lemma {:induction false} GatherFits(runs: seq<seq<Record>>, w: nat)
    requires forall i :: 0 <= i < |runs| ==> forall r :: r in runs[i] ==> Fits(r)
    ensures forall x :: x in Gather(runs, w) ==> x < ID_LIMIT
  {
    if runs != [] {
      var n := |runs| - 1;
      GatherFits(runs[..n], w);
      ListFits(runs[n], w);
    }
  }

  lemma {:induction false} ListFits(run: seq<Record>, w: nat)
    requires forall r :: r in run ==> Fits(r)
    ensures forall x :: x in IdsIn(run, w) ==> x < ID_LIMIT
  {
    if run != [] {
      assert run[0] in run;
      if run[0].key != w { ListFits(run[1..], w); }
    }
  }

  ghost predicate JunkFits(junk: Junk) {
    forall i, j :: junk.buffers(i)(j) < ID_LIMIT
  }

  // ---------------------------------------------------------------- the runs of blocks

  /** Every block has a word. */
  ghost predicate AllHaveWords(blocks: seq<seq<Record>>) {
    forall i :: 0 <= i < |blocks| ==> WordsOf(blocks[i]) != {}
  }

  lemma RunOfNone(block: seq<Record>)
    ensures Direct(block) == [] <==> WordsOf(block) == {}
    ensures Direct(block) != [] ==> Direct(block)[0].key in WordsOf(block)
    ensures Direct(block) != [] ==> Direct(block)[0].items == InOrder(IdsOf(block, Direct(block)[0].key))
  {
    RunKeys(block);
    InOrderIsAscending(WordsOf(block));
    var ws := InOrder(WordsOf(block));
    if ws != [] { assert ws[0] in ws; }
    if w :| w in WordsOf(block) { assert w in ws; }
  }

  lemma SomeId(block: seq<Record>, w: nat)
    requires w in WordsOf(block)
    ensures |InOrder(IdsOf(block, w))| > 0
  {
    var d :| d in block && w in d.items;
    assert d.key in IdsOf(block, w);
    InOrderIsAscending(IdsOf(block, w));
    assert d.key in InOrder(IdsOf(block, w));
  }
}
