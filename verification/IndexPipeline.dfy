/**
  The whole index builder: documents in, index file out.  The file is that of the direct grouping
  exactly when no document id is listed for one word in two blocks.
 */
module IndexPipeline {
  import opened Bytes
  import opened RecordFile
  import opened IndexInput
  import opened IndexSpec
  import opened IndexBuild
  import opened IndexFile
  import opened IndexStale
  import opened IndexMerge
  import opened IndexRead
  import opened IndexBytes

  lemma {:induction false} IdsAtMost(docs: seq<Record>, w: nat)
    ensures |IdsOf(docs, w)| <= |docs|
  {
    if docs == [] {
      assert IdsOf(docs, w) == {};
    } else {
      var n := |docs| - 1;
      IdsAtMost(docs[..n], w);
      assert docs == docs[..n] + [docs[n]];
      IdsOfConcat(docs[..n], [docs[n]], w);
      OneDocument(docs[n].key, docs[n].items);
      UnionSize(IdsOf(docs[..n], w), IdsOf([docs[n]], w));
    }
  }

  lemma {:induction false} BlocksWithin(docs: seq<Record>, limit: nat)
    requires limit > 0
    ensures forall i :: 0 <= i < |Blocks(docs, limit)| ==> |Blocks(docs, limit)[i]| <= |docs|
    ensures forall i, d :: 0 <= i < |Blocks(docs, limit)| && d in Blocks(docs, limit)[i] ==> d in docs
    decreases |docs|
  {
    if |docs| >= limit {
      var more := docs[limit..];
      BlocksWithin(more, limit);
      assert forall d :: d in docs[..limit] || d in more ==> d in docs;
      assert forall i :: 0 < i < |Blocks(docs, limit)| ==> Blocks(docs, limit)[i] == Blocks(more, limit)[i - 1];
    }
  }

  /** Documents whose numbers fit the file format. */
  ghost predicate GoodDocs(docs: seq<Record>) {
    (forall d :: d in docs ==> Fits(d)) && 8 * |docs| < N_LIMIT
  }

  lemma RunFits(block: seq<Record>, docs: seq<Record>)
    requires GoodDocs(docs) && |block| <= |docs| && forall d :: d in block ==> d in docs
    ensures GoodRun(Direct(block), WordsOf(docs))
  {
    RunKeys(block);
    RunOfBlock(block);
    forall r | r in Direct(block)
      ensures Fits(r) && r.key in WordsOf(docs)
    {
      assert r.key in WordsOf(block) && r.items == InOrder(IdsOf(block, r.key));
      WordFits(docs, r.key);
      IdsAtMost(block, r.key);
      InOrderIsAscending(IdsOf(block, r.key));
    }
  }

  lemma WordFits(docs: seq<Record>, w: nat)
    requires (forall d :: d in docs ==> Fits(d)) && w in WordsOf(docs)
    ensures w < ID_LIMIT
  {
  }

  lemma WordInSomeBlock(docs: seq<Record>, limit: nat, w: nat)
    requires limit > 0 && w in WordsOf(docs)
    ensures exists i, j :: 0 <= i < |Blocks(docs, limit)| && 0 <= j < |Direct(Blocks(docs, limit)[i])| &&
              Direct(Blocks(docs, limit)[i])[j].key == w
  {
    var blocks := Blocks(docs, limit);
    BlocksCover(docs, limit, w);
    UnionHas(IdFamily(blocks, w));
    var d :| d in docs && w in d.items;
    assert d.key in IdsOf(docs, w);
    var i :| 0 <= i < |blocks| && d.key in IdFamily(blocks, w)[i];
    if w !in WordsOf(blocks[i]) { NoWordNoIds(blocks[i], w); }
    RunOfBlock(blocks[i]);
    var j :| 0 <= j < |Direct(blocks[i])| && Direct(blocks[i])[j].key == w;
  }

  /** Blocks are full, but for a last one that has a word. */
  lemma {:induction false} BlockSizes(docs: seq<Record>, limit: nat, i: nat)
    requires limit > 0 && i < |Blocks(docs, limit)|
    ensures |Blocks(docs, limit)[i]| <= limit
    ensures WordsOf(Blocks(docs, limit)[i]) == {} ==> |Blocks(docs, limit)[i]| == limit
    decreases |docs|
  {
    if |docs| >= limit && i > 0 {
      BlockSizes(docs[limit..], limit, i - 1);
    }
  }

  ghost function Total(blocks: seq<seq<Record>>): nat {
    if blocks == [] then 0 else Total(blocks[..|blocks| - 1]) + |blocks[|blocks| - 1]|
  }

  lemma {:induction false} TotalCons(block: seq<Record>, blocks: seq<seq<Record>>)
    ensures Total([block] + blocks) == |block| + Total(blocks)
  {
    var all := [block] + blocks;
    if blocks == [] {
      assert all[..0] == [];
    } else {
      TotalCons(block, blocks[..|blocks| - 1]);
      assert all[..|blocks|] == [block] + blocks[..|blocks| - 1];
    }
  }

  lemma {:induction false} BlocksTotal(docs: seq<Record>, limit: nat)
    requires limit > 0
    ensures Total(Blocks(docs, limit)) <= |docs|
    decreases |docs|
  {
    if |docs| >= limit {
      BlocksTotal(docs[limit..], limit);
      TotalCons(docs[..limit], Blocks(docs[limit..], limit));
    } else if WordsOf(docs) != {} {
      TotalCons(docs, []);
      assert [docs] + [] == [docs];
    }
  }

  /** What the variables hold comes from a block before: one of its words, with a list no longer than the block. */
  lemma HeldOfBlocks(blocks: seq<seq<Record>>, k: nat, junk: Junk) returns (b: nat)
    requires 0 < k <= |blocks| && WordsOf(blocks[0]) != {}
    ensures var h := HeldAfter(Runs(blocks), k, junk);
            b < k && h.word in WordsOf(blocks[b]) && 0 < h.n <= |blocks[b]|
  {
    RunOfNone(blocks[0]);
    b := HeldIsFirst(Runs(blocks), k, junk);
    RunOfNone(blocks[b]);
    var w := Direct(blocks[b])[0].key;
    SomeId(blocks[b], w);
    IdsAtMost(blocks[b], w);
  }

  /** No run is taken for more ids of a word than its block has documents. */
  lemma ListAtMost(docs: seq<Record>, limit: nat, junk: Junk, w: nat, i: nat)
    requires limit > 0 && i < |Blocks(docs, limit)| && WordsOf(Blocks(docs, limit)[0]) != {}
    ensures |IdsIn(SeenAt(Runs(Blocks(docs, limit)), i, junk), w)| <= |Blocks(docs, limit)[i]|
  {
    var blocks := Blocks(docs, limit);
    RunOfNone(blocks[i]);
    ListSeen(Runs(blocks), i, junk, w);
    if WordsOf(blocks[i]) == {} {
      var b := HeldOfBlocks(blocks, i, junk);
      BlockSizes(docs, limit, i);
      BlockSizes(docs, limit, b);
    } else {
      RunLists(blocks[i], w);
      IdsAtMost(blocks[i], w);
    }
  }

  lemma {:induction false} GatherAtMost(docs: seq<Record>, limit: nat, junk: Junk, w: nat, m: nat)
    requires limit > 0 && m <= |Blocks(docs, limit)|
    requires Blocks(docs, limit) != [] ==> WordsOf(Blocks(docs, limit)[0]) != {}
    ensures |Gather(Seen(Runs(Blocks(docs, limit)), junk)[..m], w)| <= Total(Blocks(docs, limit)[..m])
  {
    if m > 0 {
      var blocks, n := Blocks(docs, limit), m - 1;
      var seen := Seen(Runs(blocks), junk);
      GatherAtMost(docs, limit, junk, w, n);
      ListAtMost(docs, limit, junk, w, n);
      GatherNext(seen, w, n, m);
      assert blocks[..m][..n] == blocks[..n] && blocks[..m][n] == blocks[n];
    }
  }

  /** The first block has a word, so that the merge starts from something that was read. */
  ghost predicate StartsWithWords(docs: seq<Record>, limit: nat)
    requires limit > 0
  {
    Blocks(docs, limit) != [] && WordsOf(Blocks(docs, limit)[0]) != {}
  }

  ghost function SeenRuns(docs: seq<Record>, limit: nat, junk: Junk): (runs: seq<seq<Record>>)
    requires limit > 0
  {
    Seen(Runs(Blocks(docs, limit)), junk)
  }

  lemma SeenFitsIn(docs: seq<Record>, limit: nat, junk: Junk, i: nat)
    requires limit > 0 && GoodDocs(docs) && StartsWithWords(docs, limit) && JunkFits(junk) && i < |Blocks(docs, limit)|
    ensures GoodRun(SeenAt(Runs(Blocks(docs, limit)), i, junk), WordsOf(docs))
  {
    var blocks := Blocks(docs, limit);
    BlocksWithin(docs, limit);
    RunOfNone(blocks[i]);
    if WordsOf(blocks[i]) == {} {
      var b := HeldOfBlocks(blocks, i, junk);
      var h := HeldAfter(Runs(blocks), i, junk);
      WordFits(docs, h.word);
      JunkRunFits(h, i, junk, docs);
    } else {
      RunFits(blocks[i], docs);
    }
  }

  lemma JunkRunFits(h: Held, i: nat, junk: Junk, docs: seq<Record>)
    requires JunkFits(junk) && GoodDocs(docs) && h.word in WordsOf(docs) && h.word < ID_LIMIT && h.n <= |docs|
    ensures GoodRun([Record(h.word, JunkIds(junk, i, h.n))], WordsOf(docs))
  {
  }

  /** The runs of the first pass, as the merge takes them, are what it relies on. */
  lemma RunsAreGood(docs: seq<Record>, limit: nat, junk: Junk)
    requires limit > 0 && GoodDocs(docs) && StartsWithWords(docs, limit) && JunkFits(junk)
    ensures GoodRuns(SeenRuns(docs, limit, junk), WordsOf(docs))
  {
    var blocks := Blocks(docs, limit);
    var seen: seq<seq<Record>> := SeenRuns(docs, limit, junk);
    forall i | 0 <= i < |blocks|
      ensures seen[i] != [] && GoodRun(seen[i], WordsOf(docs))
    {
      SeenFitsIn(docs, limit, junk, i);
    }
    forall w | w in WordsOf(docs)
      ensures exists i, j :: 0 <= i < |seen| && 0 <= j < |seen[i]| && seen[i][j].key == w
    {
      WordInSomeBlock(docs, limit, w);
      var i, j :| 0 <= i < |blocks| && 0 <= j < |Direct(blocks[i])| && Direct(blocks[i])[j].key == w;
      assert Runs(blocks)[i] == Direct(blocks[i]) == seen[i];
    }
  }

  /** No merged list is longer than there are documents. */
  lemma ListsFit(docs: seq<Record>, limit: nat, junk: Junk, w: nat)
    requires limit > 0 && GoodDocs(docs) && StartsWithWords(docs, limit) && JunkFits(junk)
    ensures 8 * |Gather(SeenRuns(docs, limit, junk), w)| < N_LIMIT
    ensures forall x :: x in Sort(Gather(SeenRuns(docs, limit, junk), w)) ==> x < ID_LIMIT
  {
    var seen, blocks := SeenRuns(docs, limit, junk), Blocks(docs, limit);
    GatherAtMost(docs, limit, junk, w, |blocks|);
    assert seen[..|blocks|] == seen && blocks[..|blocks|] == blocks;
    BlocksTotal(docs, limit);
    RunsAreGood(docs, limit, junk);
    GatherFits(seen, w);
    SortKeeps(Gather(seen, w));
  }

  lemma SortKeeps(q: seq<nat>)
    ensures forall x :: x in Sort(q) <==> x in q
  {
    SortSorts(q);
    assert forall x :: x in Sort(q) <==> x in multiset(Sort(q));
    assert forall x :: x in q <==> x in multiset(q);
  }

  // ---------------------------------------------------------------- different indexes have different files

  lemma {:induction false} SameIds(a: seq<nat>, b: seq<nat>)
    requires |a| == |b| && EncodeIds(a) == EncodeIds(b)
    requires (forall i :: 0 <= i < |a| ==> a[i] < ID_LIMIT) && forall i :: 0 <= i < |b| ==> b[i] < ID_LIMIT
    ensures a == b
  {
    if a != [] {
      var n := |a| - 1;
      SameParts(EncodeIds(a[..n]), EncodeIds(b[..n]), EncodeLE(a[n], SIZE_ID), EncodeLE(b[n], SIZE_ID));
      SameIds(a[..n], b[..n]);
      SameNumber(a[n], b[n]);
      assert a == a[..n] + [a[n]] && b == b[..n] + [b[n]];
    }
  }

  lemma SameNumber(x: nat, y: nat)
    requires x < ID_LIMIT && y < ID_LIMIT && EncodeLE(x, SIZE_ID) == EncodeLE(y, SIZE_ID)
    ensures x == y
  {
    FieldRoundTrip(x, SIZE_ID);
    FieldRoundTrip(y, SIZE_ID);
  }

  lemma SameField(data: seq<Byte>, at: nat, x: nat, y: nat, width: nat)
    requires LiesAt(data, at, EncodeLE(x, width)) && LiesAt(data, at, EncodeLE(y, width))
    requires x < Pow256(width) && y < Pow256(width)
    ensures x == y
  {
    FieldRoundTrip(x, width);
    FieldRoundTrip(y, width);
  }

  lemma SameList(data: seq<Byte>, at: nat, a: seq<nat>, b: seq<nat>)
    requires LiesAt(data, at, EncodeList(a)) && LiesAt(data, at, EncodeList(b)) && |a| < N_LIMIT && |b| < N_LIMIT
    requires (forall x :: x in a ==> x < ID_LIMIT) && forall x :: x in b ==> x < ID_LIMIT
    ensures a == b
  {
    LiesSplit(data, at, EncodeLE(|a|, SIZE_N), EncodeIds(a));
    LiesSplit(data, at, EncodeLE(|b|, SIZE_N), EncodeIds(b));
    SameField(data, at, |a|, |b|, SIZE_N);
    EachFits(a);
    EachFits(b);
    SameIds(a, b);
  }

  lemma EachFits(ids: seq<nat>)
    requires forall x :: x in ids ==> x < ID_LIMIT
    ensures forall i :: 0 <= i < |ids| ==> ids[i] < ID_LIMIT
  {
    assert forall i :: 0 <= i < |ids| ==> ids[i] in ids;
  }

  ghost predicate AllFit(index: seq<Record>) {
    forall r :: r in index ==> Fits(r)
  }

  lemma NextList(index: seq<Record>, k: nat)
    requires k < |index|
    ensures LiesAt(BodyOf(index), |BodyOf(index[..k])|, EncodeList(index[k].items))
    ensures BodyOf(index[..k + 1]) == BodyOf(index[..k]) + EncodeList(index[k].items)
  {
    BodySnoc(index, k);
    BodyPrefix(index, k + 1);
  }

  /** The lists follow one another and each says how long it is, so that they can be told apart. */
  lemma {:induction false} SameBody(a: seq<Record>, b: seq<Record>, k: nat)
    requires AllFit(a) && AllFit(b) && BodyOf(a) == BodyOf(b) && k <= |a| == |b|
    ensures BodyOf(a[..k]) == BodyOf(b[..k]) && forall i :: 0 <= i < k ==> a[i].items == b[i].items
  {
    if k > 0 {
      SameBody(a, b, k - 1);
      SameNext(a, b, k - 1);
    }
  }

  lemma SameNext(a: seq<Record>, b: seq<Record>, k: nat)
    requires AllFit(a) && AllFit(b) && BodyOf(a) == BodyOf(b) && k < |a| == |b| && BodyOf(a[..k]) == BodyOf(b[..k])
    ensures a[k].items == b[k].items && BodyOf(a[..k + 1]) == BodyOf(b[..k + 1])
  {
    NextList(a, k);
    NextList(b, k);
    assert a[k] in a && b[k] in b;
    SameList(BodyOf(a), |BodyOf(a[..k])|, a[k].items, b[k].items);
  }

  lemma SameKey(a: seq<Record>, b: seq<Record>, k: nat)
    requires AllFit(a) && AllFit(b) && |a| == |b| && FileOf(a) == FileOf(b) && k < |a|
    ensures a[k].key == b[k].key
  {
    FileParts(a, k);
    FileParts(b, k);
    assert a[k] in a && b[k] in b;
    SameField(FileOf(a), 16 * k, a[k].key, b[k].key, SIZE_ID);
  }

  lemma SameParts(h: seq<Byte>, h': seq<Byte>, body: seq<Byte>, body': seq<Byte>)
    requires |h| == |h'| && h + body == h' + body'
    ensures h == h' && body == body'
  {
    assert body == (h + body)[|h|..] && body' == (h' + body')[|h|..];
    assert h == (h + body)[..|h|] && h' == (h' + body')[..|h|];
  }

  /** Two indexes over equally many words with the same file are the same. */
  lemma SameFileSameIndex(a: seq<Record>, b: seq<Record>)
    requires AllFit(a) && AllFit(b) && |a| == |b| && FileOf(a) == FileOf(b)
    ensures a == b
  {
    SameParts(HeaderOf(SlotsOf(a)), HeaderOf(SlotsOf(b)), BodyOf(a), BodyOf(b));
    SameBody(a, b, |a|);
    forall k | 0 <= k < |a|
      ensures a[k] == b[k]
    {
      SameKey(a, b, k);
    }
  }

  // ---------------------------------------------------------------- the result

  ghost function MergedIndex(docs: seq<Record>, limit: nat, junk: Junk): (index: seq<Record>)
    requires limit > 0
  {
    Merged(SeenRuns(docs, limit, junk), WordsOf(docs))
  }

  lemma MergedFits(docs: seq<Record>, limit: nat, junk: Junk)
    requires limit > 0 && GoodDocs(docs) && StartsWithWords(docs, limit) && JunkFits(junk)
    ensures AllFit(MergedIndex(docs, limit, junk))
  {
    var index, ws := MergedIndex(docs, limit, junk), InOrder(WordsOf(docs));
    InOrderIsAscending(WordsOf(docs));
    forall r | r in index
      ensures Fits(r)
    {
      var k :| 0 <= k < |index| && index[k] == r;
      assert ws[k] in ws;
      WordFits(docs, ws[k]);
      ListsFit(docs, limit, junk, ws[k]);
      SortSorts(Gather(SeenRuns(docs, limit, junk), ws[k]));
    }
  }

  /** A block without words shows: some list comes out longer than it should be. */
  lemma EmptyBlockShows(docs: seq<Record>, limit: nat, junk: Junk, i: nat)
    requires limit > 0 && StartsWithWords(docs, limit) && i < |Blocks(docs, limit)| && WordsOf(Blocks(docs, limit)[i]) == {}
    ensures MergedIndex(docs, limit, junk) != Direct(docs)
  {
    var blocks, ws := Blocks(docs, limit), InOrder(WordsOf(docs));
    RunOfNone(blocks[i]);
    var b := HeldOfBlocks(blocks, i, junk);
    var w := HeldAfter(Runs(blocks), i, junk).word;
    BlocksWithin(docs, limit);
    assert w in WordsOf(docs);
    InOrderIsAscending(WordsOf(docs));
    var k :| 0 <= k < |ws| && ws[k] == w;
    LongerList(docs, limit, junk, i, w);
    DiffersAt(docs, limit, junk, k);
  }

  lemma DiffersAt(docs: seq<Record>, limit: nat, junk: Junk, k: nat)
    requires limit > 0 && k < |WordsOf(docs)|
    requires var w := InOrder(WordsOf(docs))[k]; |Gather(SeenRuns(docs, limit, junk), w)| > |InOrder(IdsOf(docs, w))|
    ensures MergedIndex(docs, limit, junk) != Direct(docs)
  {
    RunKeys(docs);
    SortSorts(Gather(SeenRuns(docs, limit, junk), InOrder(WordsOf(docs))[k]));
    MergedAt(SeenRuns(docs, limit, junk), WordsOf(docs), k);
  }

  lemma LongerList(docs: seq<Record>, limit: nat, junk: Junk, i: nat, w: nat)
    requires limit > 0 && i < |Blocks(docs, limit)| && Runs(Blocks(docs, limit))[i] == []
    requires var h := HeldAfter(Runs(Blocks(docs, limit)), i, junk); h.word == w && h.n > 0
    ensures |Gather(SeenRuns(docs, limit, junk), w)| > |InOrder(IdsOf(docs, w))|
  {
    var blocks := Blocks(docs, limit);
    var runs, seen := Runs(blocks), SeenRuns(docs, limit, junk);
    GatherSeen(runs, junk, w, |blocks|, i);
    assert seen[..|blocks|] == seen && runs[..|blocks|] == runs;
    GatherIsChain(blocks, w);
    ChainSize(IdFamily(blocks, w));
    BlocksCover(docs, limit, w);
  }

  /** The merge of the runs, as it takes them, is direct grouping exactly when every block has a word and
      no id repeats across blocks. */
  lemma MergedExactly(docs: seq<Record>, limit: nat, junk: Junk)
    requires limit > 0 && StartsWithWords(docs, limit)
    ensures MergedIndex(docs, limit, junk) == Direct(docs) <==>
            AllHaveWords(Blocks(docs, limit)) && NoRepeats(Blocks(docs, limit))
  {
    var blocks := Blocks(docs, limit);
    if AllHaveWords(blocks) {
      forall i | 0 <= i < |blocks|
        ensures Runs(blocks)[i] != []
      {
        RunOfNone(blocks[i]);
      }
      SeenIsRuns(Runs(blocks), junk);
      MergedIsDirect(docs, limit);
    } else {
      var i :| 0 <= i < |blocks| && WordsOf(blocks[i]) == {};
      EmptyBlockShows(docs, limit, junk, i);
    }
  }

  lemma DirectFits(docs: seq<Record>)
    requires GoodDocs(docs)
    ensures AllFit(Direct(docs))
  {
    RunFits(docs, docs);
  }

  /** The file is the one of the index exactly when every block has a word and no id repeats across blocks. */
  lemma FileIsIndex(docs: seq<Record>, limit: nat, junk: Junk)
    requires limit > 0 && GoodDocs(docs) && StartsWithWords(docs, limit) && JunkFits(junk)
    ensures FileOf(MergedIndex(docs, limit, junk)) == FileOf(Direct(docs)) <==>
            AllHaveWords(Blocks(docs, limit)) && NoRepeats(Blocks(docs, limit))
  {
    MergedExactly(docs, limit, junk);
    if FileOf(MergedIndex(docs, limit, junk)) == FileOf(Direct(docs)) {
      MergedFits(docs, limit, junk);
      DirectFits(docs);
      RunKeys(docs);
      SameFileSameIndex(MergedIndex(docs, limit, junk), Direct(docs));
    }
  }

  /** A header without lists is not the file of an index with words. */
  lemma HeaderIsNoIndex(docs: seq<Record>)
    requires WordsOf(docs) != {}
    ensures HeaderOf(Unpatched(InOrder(WordsOf(docs)))) != FileOf(Direct(docs))
  {
    var ws := InOrder(WordsOf(docs));
    InOrderIsAscending(WordsOf(docs));
    RunKeys(docs);
    HeaderLength(ws);
    FileLength(Direct(docs));
  }

  lemma HeaderLength(ws: seq<nat>)
    ensures |HeaderOf(Unpatched(ws))| == 16 * (|ws| + 1)
  {
  }

  lemma FileLength(index: seq<Record>)
    ensures index != [] ==> |FileOf(index)| > 16 * (|index| + 1)
  {
    if index != [] {
      BodySnoc(index, |index| - 1);
      assert index[..|index|] == index;
    }
  }

  /** What both passes leave for the documents `ds`. */
  ghost predicate Built(ds: seq<Record>, limit: nat, junk: Junk, file: seq<Byte>)
    requires limit > 0
  {
    file == if ID_LIMIT - 1 in WordsOf(ds) then HeaderOf(Unpatched(InOrder(WordsOf(ds))))
            else FileOf(MergedIndex(ds, limit, junk))
  }

  /** Byte by byte, unless the largest word id occurs. */
  ghost predicate ShowsIndex(ds: seq<Record>, limit: nat, junk: Junk, file: seq<Byte>)
    requires limit > 0
  {
    var index := MergedIndex(ds, limit, junk);
    ID_LIMIT - 1 in WordsOf(ds) || IsIndexFile(file, index, Offsets(index))
  }

  /** When the index comes out right: the largest word id does not occur, every block has a word, and no
      document id is listed for one word in two blocks. */
  ghost predicate ComesOutRight(ds: seq<Record>, limit: nat)
    requires limit > 0
  {
    ID_LIMIT - 1 !in WordsOf(ds) && AllHaveWords(Blocks(ds, limit)) && NoRepeats(Blocks(ds, limit))
  }

  lemma BuiltExactly(ds: seq<Record>, limit: nat, junk: Junk, file: seq<Byte>)
    requires limit > 0 && GoodDocs(ds) && StartsWithWords(ds, limit) && JunkFits(junk) && Built(ds, limit, junk, file)
    ensures file == FileOf(Direct(ds)) <==> ComesOutRight(ds, limit)
  {
    if ID_LIMIT - 1 in WordsOf(ds) {
      HeaderIsNoIndex(ds);
    } else {
      FileIsIndex(ds, limit, junk);
    }
  }

  /** The second pass over what the first one left. */
  method MergeRuns(files: seq<seq<Byte>>, words: set<nat>, junk: Junk, ghost ds: seq<Record>, ghost limit: nat)
    returns (file: seq<Byte>)
    requires limit > 0 && GoodDocs(ds) && StartsWithWords(ds, limit) && JunkFits(junk)
    requires files == RunFiles(Blocks(ds, limit)) && words == WordsOf(ds)
    ensures Built(ds, limit, junk, file) && ShowsIndex(ds, limit, junk, file)
    ensures file == FileOf(Direct(ds)) <==> ComesOutRight(ds, limit)
  {
    ghost var runs := ReadyToMerge(ds, limit, junk, files, words);
    file := MergeIndex(files, words, junk, runs);
    BuiltExactly(ds, limit, junk, file);
    FileBytes(MergedIndex(ds, limit, junk));
  }

  /** What the merge asks for. */
  lemma ReadyToMerge(ds: seq<Record>, limit: nat, junk: Junk, files: seq<seq<Byte>>, words: set<nat>)
    returns (runs: seq<seq<Record>>)
    requires limit > 0 && GoodDocs(ds) && StartsWithWords(ds, limit) && JunkFits(junk)
    requires files == RunFiles(Blocks(ds, limit)) && words == WordsOf(ds)
    ensures words != {} && (forall w :: w in words ==> w < ID_LIMIT) && GoodRuns(Seen(runs, junk), words)
    ensures |files| == |runs| && forall i :: 0 <= i < |files| ==> files[i] == EncodeAll(runs[i])
    ensures forall w :: w in words ==> 8 * |Gather(Seen(runs, junk), w)| < N_LIMIT
    ensures Merged(Seen(runs, junk), words) == MergedIndex(ds, limit, junk)
  {
    runs := Runs(Blocks(ds, limit));
    FilesOfRuns(Blocks(ds, limit), files, runs);
    RunsAreGood(ds, limit, junk);
    WordsAndLists(ds, limit, junk);
  }

  lemma FilesOfRuns(blocks: seq<seq<Record>>, files: seq<seq<Byte>>, runs: seq<seq<Record>>)
    requires files == RunFiles(blocks) && runs == Runs(blocks)
    ensures |files| == |runs| && forall i :: 0 <= i < |files| ==> files[i] == EncodeAll(runs[i])
  {
  }

  /** Both passes, over any input: `docs` are its complete records and `tail` the beginning of one more. */
  method BuildIndex(input: InFile, limit: nat, mem: Memory, junk: Junk, ghost docs: seq<Record>, ghost tail: seq<Byte>)
    returns (file: seq<Byte>)
    requires limit > 0 && input.pos == 0 && Input(input.data, docs, tail, mem) && JunkFits(junk)
    requires GoodDocs(Documents(docs, tail, mem)) && StartsWithWords(Documents(docs, tail, mem), limit)
    modifies input
    ensures Built(Documents(docs, tail, mem), limit, junk, file) && ShowsIndex(Documents(docs, tail, mem), limit, junk, file)
    ensures file == FileOf(Direct(Documents(docs, tail, mem))) <==> ComesOutRight(Documents(docs, tail, mem), limit)
  {
    ghost var ds := Documents(docs, tail, mem);
    var files, words := CreateIndexFiles(input, limit, mem, docs, tail);
    file := MergeRuns(files, words, junk, ds, limit);
  }

  lemma WordsAndLists(ds: seq<Record>, limit: nat, junk: Junk)
    requires limit > 0 && GoodDocs(ds) && StartsWithWords(ds, limit) && JunkFits(junk)
    ensures WordsOf(ds) != {} && forall w :: w in WordsOf(ds) ==> w < ID_LIMIT
    ensures forall w :: w in WordsOf(ds) ==> 8 * |Gather(SeenRuns(ds, limit, junk), w)| < N_LIMIT
  {
    BlocksWithin(ds, limit);
    var w :| w in WordsOf(Blocks(ds, limit)[0]);
    assert w in WordsOf(ds);
    forall w | w in WordsOf(ds)
      ensures w < ID_LIMIT && 8 * |Gather(SeenRuns(ds, limit, junk), w)| < N_LIMIT
    {
      WordFits(ds, w);
      ListsFit(ds, limit, junk, w);
    }
  }
}
