/**
  The second pass of the index builder: a k-way merge of the runs.  Each run keeps its current word;
  an exhausted run shows a sentinel above every word.  Word by word, in ascending order, the lists of
  all runs that show the least word are joined, sorted and appended to the output.
 */
module IndexMerge {
  import opened Common
  import opened Bytes
  import opened RecordFile
  import opened IndexSpec
  import opened IndexBuild
  import opened IndexFile
  import opened IndexStale

  /** Record `at` of the run has just been read from its file, or the file had none to read. */
  ghost predicate Reads(file: InFile, run: seq<Record>, at: nat)
    requires at <= |run|
    reads file
  {
    || (file.data == EncodeAll(run) && (at < |run| ==> file.pos == |EncodeAll(run[..at + 1])|))
    || (file.data == [] && |run| == 1 && (at == 0 ==> file.pos == 0))
  }

  /** Run `run` has been read up to record `at`, which is the current one. */
  ghost predicate Cursor(file: InFile, run: seq<Record>, at: nat, word: nat, count: nat, ids: seq<nat>, sentinel: nat)
    reads file
  {
    at <= |run| && Reads(file, run, at) &&
    if at < |run| then word == run[at].key && ids == run[at].items && count == |ids|
    else word == sentinel
  }

  /** A run as the merge expects it. */
  ghost predicate GoodRun(run: seq<Record>, words: set<nat>) {
    KeysAscend(run) && forall r :: r in run ==> Fits(r) && r.key in words
  }

  /** The records before `at` are those with a word below `bound`. */
  ghost predicate ReadTo(run: seq<Record>, at: nat, bound: nat) {
    at <= |run| && forall j :: 0 <= j < |run| ==> (j < at <==> run[j].key < bound)
  }

  /** The word that is due after `k` words, or the sentinel. */
  ghost function Due(ws: seq<nat>, k: nat, sentinel: nat): nat {
    if k < |ws| then ws[k] else sentinel
  }

  /** What a run at its cursor contributes to the word that is due. */
  lemma CurrentList(run: seq<Record>, at: nat, bound: nat)
    requires KeysAscend(run) && ReadTo(run, at, bound)
    ensures at < |run| ==> bound <= run[at].key
    ensures IdsIn(run, bound) == if at < |run| && run[at].key == bound then run[at].items else []
  {
    if at < |run| && run[at].key == bound {
      IdsInAt(run, at);
    } else {
      forall j | 0 <= j < |run|
        ensures run[j].key != bound
      {
        if j > at { assert run[at].key < run[j].key; }
      }
      IdsInNone(run, bound);
    }
  }

  /** Reading past the current record when its word is the one due. */
  lemma ReadPast(run: seq<Record>, at: nat, ws: seq<nat>, k: nat, sentinel: nat, words: set<nat>)
    requires ws == InOrder(words) && k < |ws| && (forall w :: w in words ==> w < sentinel)
    requires GoodRun(run, words) && ReadTo(run, at, ws[k])
    ensures var next := Due(ws, k + 1, sentinel);
            ReadTo(run, if at < |run| && run[at].key == ws[k] then at + 1 else at, next)
  {
    forall j | 0 <= j < |run|
      ensures run[j].key < Due(ws, k + 1, sentinel) <==> run[j].key <= ws[k]
    {
      assert run[j] in run;
      NothingBetween(ws, k, sentinel, words, run[j].key);
    }
  }

  /** No word lies between the one due and the next one. */
  lemma NothingBetween(ws: seq<nat>, k: nat, sentinel: nat, words: set<nat>, w: nat)
    requires ws == InOrder(words) && k < |ws| && (forall x :: x in words ==> x < sentinel) && w in words
    ensures w < Due(ws, k + 1, sentinel) <==> w <= ws[k]
  {
    InOrderIsAscending(words);
    var i :| 0 <= i < |ws| && ws[i] == w;
    if i <= k {
      assert ws[i] <= ws[k];
      assert k + 1 < |ws| ==> ws[k] < ws[k + 1];
    } else {
      assert ws[k] < ws[i] && ws[k + 1] <= ws[i];
    }
  }

  // ---------------------------------------------------------------- finding the least word

  /** The positions at which `v` stands. */
  ghost function Where(vs: seq<nat>, v: nat): (ps: seq<nat>)
    ensures forall p :: p in ps ==> p < |vs| && vs[p] == v
  {
    if vs == [] then []
    else
      var n := |vs| - 1;
      Where(vs[..n], v) + if vs[n] == v then [n] else []
  }

  lemma {:induction false} WhereNone(vs: seq<nat>, v: nat)
    requires forall i :: 0 <= i < |vs| ==> vs[i] != v
    ensures Where(vs, v) == []
  {
    if vs != [] {
      WhereNone(vs[..|vs| - 1], v);
    }
  }

  lemma WhereNext(vs: seq<nat>, i: nat, next: nat, v: nat)
    requires i < |vs| && next == i + 1
    ensures Where(vs[..next], v) == Where(vs[..i], v) + if vs[i] == v then [i] else []
  {
    assert vs[..next][..i] == vs[..i];
  }

  /** The least of the current words and where it stands; the sentinel if no run shows a word. */
  method FindLeast(wordids: seq<nat>, sentinel: nat) returns (least: nat, at: seq<nat>)
    ensures least <= sentinel && forall i :: 0 <= i < |wordids| ==> least <= wordids[i]
    ensures least == sentinel || least in wordids
    ensures at == Where(wordids, least)
  {
    least, at := sentinel, [];
    for i := 0 to |wordids|
      invariant least <= sentinel && forall j :: 0 <= j < i ==> least <= wordids[j]
      invariant least == sentinel || least in wordids[..i]
      invariant at == Where(wordids[..i], least)
    {
      if wordids[i] < least {
        WhereNone(wordids[..i], wordids[i]);
        at := [i];
        least := wordids[i];
      } else if wordids[i] == least {
        at := at + [i];
      }
      WhereNext(wordids, i, i + 1, least);
    }
    assert wordids[..|wordids|] == wordids;
  }

  /** Joining the lists at the given positions. */
  ghost function Join(lists: seq<seq<nat>>, at: seq<nat>): seq<nat>
    requires forall p :: p in at ==> p < |lists|
  {
    if at == [] then []
    else
      var n := |at| - 1;
      assert at[n] in at && forall p :: p in at[..n] ==> p in at;
      Join(lists, at[..n]) + lists[at[n]]
  }

  /** Where a run shows the word `v`, its current list is its list of `v`; elsewhere it has none. */
  lemma {:induction false} JoinIsGather(runs: seq<seq<Record>>, wordids: seq<nat>, docids: seq<seq<nat>>, v: nat, n: nat)
    requires |runs| == |wordids| == |docids| && n <= |runs|
    requires forall i :: 0 <= i < |runs| ==> IdsIn(runs[i], v) == if wordids[i] == v then docids[i] else []
    ensures Join(docids, Where(wordids[..n], v)) == Gather(runs[..n], v)
  {
    if n > 0 {
      JoinIsGather(runs, wordids, docids, v, n - 1);
      assert wordids[..n][..n - 1] == wordids[..n - 1] && runs[..n][..n - 1] == runs[..n - 1];
      var before := Where(wordids[..n - 1], v);
      if wordids[n - 1] == v {
        JoinSnoc(docids, before, n - 1);
      } else {
        assert before + [] == before && Gather(runs[..n - 1], v) + [] == Gather(runs[..n - 1], v);
      }
    }
  }

  lemma JoinSnoc(lists: seq<seq<nat>>, at: seq<nat>, p: nat)
    requires p < |lists| && forall q :: q in at ==> q < |lists|
    ensures Join(lists, at + [p]) == Join(lists, at) + lists[p]
  {
  }

  // ---------------------------------------------------------------- the cursors of all runs

  ghost predicate Cursors(files: seq<InFile>, runs: seq<seq<Record>>, at: seq<nat>, wordids: seq<nat>,
                          counts: seq<nat>, docids: seq<seq<nat>>, sentinel: nat)
    reads files
  {
    |files| == |runs| == |at| == |wordids| == |counts| == |docids| &&
    (forall i, j :: 0 <= i < j < |files| ==> files[i] != files[j]) &&
    forall i :: 0 <= i < |files| ==>
      Cursor(files[i], runs[i], at[i], wordids[i], counts[i], docids[i], sentinel)
  }

  /** Reads the next record of run `i`, or marks the run as exhausted. */
  method Advance(files: seq<InFile>, wordids: seq<nat>, counts: seq<nat>, docids: seq<seq<nat>>, sentinel: nat, i: nat,
                 ghost runs: seq<seq<Record>>, ghost at: seq<nat>)
    returns (wordids': seq<nat>, counts': seq<nat>, docids': seq<seq<nat>>)
    requires Cursors(files, runs, at, wordids, counts, docids, sentinel)
    requires i < |files| && at[i] < |runs[i]| && forall r :: r in runs[i] ==> Fits(r)
    modifies files[i]
    ensures |wordids'| == |counts'| == |docids'| == |files|
    ensures Cursors(files, runs, at[i := at[i] + 1], wordids', counts', docids', sentinel)
    ensures forall j :: 0 <= j < |files| && j != i ==> wordids'[j] == wordids[j] && docids'[j] == docids[j]
  {
    ghost var rs, k := StillThere(files[i], runs[i], at[i]);
    var ok, w, ids := files[i].ReadRecord(rs, k, []);
    if ok {
      wordids', counts', docids' := wordids[i := w], counts[i := |ids|], docids[i := ids];
    } else {
      wordids', counts', docids' := wordids[i := sentinel], counts, docids;
    }
  }

  /** The records in the file and the number of those that have been read. */
  lemma StillThere(file: InFile, run: seq<Record>, at: nat) returns (rs: seq<Record>, k: nat)
    requires at < |run| && Reads(file, run, at)
    ensures file.data == EncodeAll(rs) + [] && k <= |rs| && file.pos == |EncodeAll(rs[..k])|
    ensures forall r :: r in rs ==> r in run
    ensures (rs == run && k == at + 1) || (rs == [] && k == 0 && |run| == 1)
  {
    if file.data == EncodeAll(run) && file.pos == |EncodeAll(run[..at + 1])| {
      rs, k := run, at + 1;
    } else {
      rs, k := [], 0;
    }
  }

  lemma {:induction false} WhereHas(vs: seq<nat>, v: nat, p: nat)
    requires p < |vs| && vs[p] == v
    ensures p in Where(vs, v)
  {
    var n := |vs| - 1;
    if p < n { WhereHas(vs[..n], v, p); }
  }

  lemma {:induction false} WhereAscends(vs: seq<nat>, v: nat)
    ensures Ascending(Where(vs, v))
  {
    if vs != [] {
      var n := |vs| - 1;
      var before := Where(vs[..n], v);
      WhereAscends(vs[..n], v);
      assert forall i :: 0 <= i < |before| ==> before[i] in before;
    }
  }

  /** Which records have been read after the first `n` of the positions `ps` have moved on. */
  ghost function Moved(at: seq<nat>, ps: seq<nat>): (at': seq<nat>)
    ensures |at'| == |at|
    ensures forall i :: 0 <= i < |at| ==> at'[i] == if i in ps then at[i] + 1 else at[i]
  {
    seq(|at|, i requires 0 <= i < |at| => if i in ps then at[i] + 1 else at[i])
  }

  /** Joins the lists at positions `ps` in a buffer of `room` bytes and moves those runs on. */
  method TakeAll(files: seq<InFile>, wordids: seq<nat>, counts: seq<nat>, docids: seq<seq<nat>>, sentinel: nat,
                 ps: seq<nat>, room: nat, ghost runs: seq<seq<Record>>, ghost at: seq<nat>)
    returns (all: seq<nat>, wordids': seq<nat>, counts': seq<nat>, docids': seq<seq<nat>>)
    requires Cursors(files, runs, at, wordids, counts, docids, sentinel)
    requires forall i :: 0 <= i < |runs| ==> forall r :: r in runs[i] ==> Fits(r)
    requires Ascending(ps) && forall p :: p in ps ==> p < |files| && at[p] < |runs[p]|
    requires 8 * |Join(docids, ps)| <= room
    modifies files
    ensures all == Join(docids, ps)
    ensures Cursors(files, runs, Moved(at, ps), wordids', counts', docids', sentinel)
  {
    all := [];
    wordids', counts', docids' := wordids, counts, docids;
    assert Moved(at, ps[..0]) == at && forall m :: 0 <= m < |ps| ==> ps[m] in ps;
    for n := 0 to |ps|
      invariant Cursors(files, runs, Moved(at, ps[..n]), wordids', counts', docids', sentinel)
      invariant Taken(ps, docids, docids', n, all)
    {
      all, wordids', counts', docids' := TakeOne(files, wordids', counts', docids', sentinel, ps, n, room, all,
                                                   runs, at, docids, n + 1);
    }
    assert ps[..|ps|] == ps;
  }

  /** The first `n` lists have been joined, the others are as they were. */
  ghost predicate Taken(ps: seq<nat>, docids: seq<seq<nat>>, docids': seq<seq<nat>>, n: nat, all: seq<nat>) {
    && n <= |ps| && |docids'| == |docids|
    && (forall m :: 0 <= m < |ps| ==> ps[m] < |docids|) && (forall p :: p in ps[..n] ==> p < |docids|)
    && (forall m :: n <= m < |ps| ==> docids'[ps[m]] == docids[ps[m]])
    && all == Join(docids, ps[..n])
  }

  /** Joins one more list and moves its run on. */
  method TakeOne(files: seq<InFile>, wordids: seq<nat>, counts: seq<nat>, docids: seq<seq<nat>>, sentinel: nat,
                 ps: seq<nat>, n: nat, room: nat, all: seq<nat>,
                 ghost runs: seq<seq<Record>>, ghost at: seq<nat>, ghost lists: seq<seq<nat>>, ghost next: nat)
    returns (all': seq<nat>, wordids': seq<nat>, counts': seq<nat>, docids': seq<seq<nat>>)
    requires n < |ps| && next == n + 1 && Cursors(files, runs, Moved(at, ps[..n]), wordids, counts, docids, sentinel)
    requires forall i :: 0 <= i < |runs| ==> forall r :: r in runs[i] ==> Fits(r)
    requires Ascending(ps) && forall p :: p in ps ==> p < |files| && at[p] < |runs[p]|
    requires Taken(ps, lists, docids, n, all) && 8 * |Join(lists, ps)| <= room
    modifies files
    ensures Cursors(files, runs, Moved(at, ps[..next]), wordids', counts', docids', sentinel)
    ensures Taken(ps, lists, docids', next, all')
  {
    var i := ps[n];
    assert i in ps;
    MovedNext(at, ps, n, next);
    RoomLeft(ps, lists, docids, n, next, all);
    all' := all + docids[i];
    assert 8 * |all'| <= room;
    wordids', counts', docids' := Advance(files, wordids, counts, docids, sentinel, i, runs, Moved(at, ps[..n]));
    TakenNext(ps, lists, docids, docids', n, next, all);
  }

  lemma TakenNext(ps: seq<nat>, lists: seq<seq<nat>>, docids: seq<seq<nat>>, docids': seq<seq<nat>>, n: nat, next: nat, all: seq<nat>)
    requires Taken(ps, lists, docids, n, all) && n < |ps| && next == n + 1 && Ascending(ps) && |docids'| == |docids|
    requires forall j :: 0 <= j < |docids| && j != ps[n] ==> docids'[j] == docids[j]
    ensures Taken(ps, lists, docids', next, all + docids[ps[n]])
  {
    assert ps[..next][..n] == ps[..n] && ps[..next][n] == ps[n];
  }

  lemma RoomLeft(ps: seq<nat>, lists: seq<seq<nat>>, docids: seq<seq<nat>>, n: nat, next: nat, all: seq<nat>)
    requires Taken(ps, lists, docids, n, all) && n < |ps| && next == n + 1
    ensures |all + docids[ps[n]]| <= |Join(lists, ps)|
  {
    assert forall p :: p in ps ==> p < |lists|;
    assert ps[..next][..n] == ps[..n] && ps[..next][n] == ps[n];
    JoinGrows(lists, ps, next);
  }

  lemma MovedNext(at: seq<nat>, ps: seq<nat>, n: nat, next: nat)
    requires n < |ps| && next == n + 1 && Ascending(ps) && ps[n] < |at|
    ensures Moved(at, ps[..next]) == Moved(at, ps[..n])[ps[n] := Moved(at, ps[..n])[ps[n]] + 1]
    ensures Moved(at, ps[..n])[ps[n]] == at[ps[n]]
  {
  }

  /** The number of document ids to be joined, computed modulo 2^32. */
  method SumCounts(counts: seq<nat>, ps: seq<nat>, ghost docids: seq<seq<nat>>) returns (n: nat)
    requires |counts| == |docids| && forall p :: p in ps ==> p < |counts| && counts[p] == |docids[p]|
    requires 8 * |Join(docids, ps)| < N_LIMIT
    ensures n == |Join(docids, ps)|
  {
    n := 0;
    for k := 0 to |ps|
      invariant (forall p :: p in ps[..k] ==> p < |docids|) && n == |Join(docids, ps[..k])|
    {
      assert ps[k] in ps && ps[..k + 1][..k] == ps[..k];
      JoinGrows(docids, ps, k + 1);
      n := (n + counts[ps[k]]) % Pow256(SIZE_N);
    }
    assert ps[..|ps|] == ps;
  }

  lemma {:induction false} JoinGrows(docids: seq<seq<nat>>, ps: seq<nat>, k: nat)
    requires k <= |ps| && forall p :: p in ps ==> p < |docids|
    ensures forall p :: p in ps[..k] ==> p < |docids|
    ensures |Join(docids, ps[..k])| <= |Join(docids, ps)|
    decreases |ps| - k
  {
    if k == |ps| {
      assert ps[..k] == ps;
    } else {
      JoinGrows(docids, ps, k + 1);
      assert ps[..k + 1][..k] == ps[..k] && forall p :: p in ps[..k] ==> p in ps;
    }
  }

  // ---------------------------------------------------------------- the merge

  /** Every run has been read up to the word that is due. */
  ghost predicate AllReadTo(runs: seq<seq<Record>>, at: seq<nat>, bound: nat) {
    |at| == |runs| && forall i :: 0 <= i < |runs| ==> ReadTo(runs[i], at[i], bound)
  }

  /** What the merge needs to know about its input: each run is in order, none is empty, and together
      they have exactly the given words. */
  ghost predicate GoodRuns(runs: seq<seq<Record>>, words: set<nat>) {
    (forall i :: 0 <= i < |runs| ==> runs[i] != [] && GoodRun(runs[i], words)) &&
    forall w :: w in words ==> exists i, j :: 0 <= i < |runs| && 0 <= j < |runs[i]| && runs[i][j].key == w
  }

  /** While a word is due some run shows it, and all other runs show larger words. */
  lemma DueIsLeast(files: seq<InFile>, runs: seq<seq<Record>>, at: seq<nat>, wordids: seq<nat>, counts: seq<nat>,
                   docids: seq<seq<nat>>, sentinel: nat, words: set<nat>, ws: seq<nat>, k: nat)
    requires Cursors(files, runs, at, wordids, counts, docids, sentinel) && GoodRuns(runs, words)
    requires ws == InOrder(words) && k <= |ws| && AllReadTo(runs, at, Due(ws, k, sentinel))
    requires forall w :: w in words ==> w < sentinel
    ensures forall i :: 0 <= i < |wordids| ==> Due(ws, k, sentinel) <= wordids[i]
    ensures k < |ws| ==> Due(ws, k, sentinel) < sentinel && Due(ws, k, sentinel) in wordids
    ensures k == |ws| ==> forall i :: 0 <= i < |wordids| ==> wordids[i] == sentinel
  {
    var due := Due(ws, k, sentinel);
    InOrderIsAscending(words);
    if k < |ws| { assert ws[k] in ws; }
    forall i | 0 <= i < |wordids|
      ensures due <= wordids[i]
      ensures k == |ws| ==> wordids[i] == sentinel
    {
      assert Cursor(files[i], runs[i], at[i], wordids[i], counts[i], docids[i], sentinel);
      CurrentList(runs[i], at[i], due);
      if at[i] < |runs[i]| { assert runs[i][at[i]] in runs[i]; }
    }
    if k < |ws| {
      DueIsShown(files, runs, at, wordids, counts, docids, sentinel, due);
    }
  }

  lemma DueIsShown(files: seq<InFile>, runs: seq<seq<Record>>, at: seq<nat>, wordids: seq<nat>, counts: seq<nat>,
                   docids: seq<seq<nat>>, sentinel: nat, due: nat)
    requires Cursors(files, runs, at, wordids, counts, docids, sentinel) && AllReadTo(runs, at, due)
    requires exists i, j :: 0 <= i < |runs| && 0 <= j < |runs[i]| && runs[i][j].key == due
    requires (forall i :: 0 <= i < |wordids| ==> due <= wordids[i]) && forall i :: 0 <= i < |runs| ==> KeysAscend(runs[i])
    ensures due in wordids
  {
  }

  /** The lists joined for the word that is due are its lists in all runs. */
  lemma DueLists(files: seq<InFile>, runs: seq<seq<Record>>, at: seq<nat>, wordids: seq<nat>, counts: seq<nat>,
                 docids: seq<seq<nat>>, sentinel: nat, due: nat)
    requires Cursors(files, runs, at, wordids, counts, docids, sentinel) && AllReadTo(runs, at, due) && due < sentinel
    requires forall i :: 0 <= i < |runs| ==> KeysAscend(runs[i])
    ensures Join(docids, Where(wordids, due)) == Gather(runs, due)
    ensures forall p :: p in Where(wordids, due) ==> at[p] < |runs[p]| && counts[p] == |docids[p]|
  {
    forall i | 0 <= i < |runs|
      ensures IdsIn(runs[i], due) == if wordids[i] == due then docids[i] else []
      ensures wordids[i] == due ==> at[i] < |runs[i]| && counts[i] == |docids[i]|
    {
      assert Cursor(files[i], runs[i], at[i], wordids[i], counts[i], docids[i], sentinel);
      CurrentList(runs[i], at[i], due);
    }
    JoinIsGather(runs, wordids, docids, due, |runs|);
    assert wordids[..|runs|] == wordids && runs[..|runs|] == runs;
  }

  /** After the runs that show the due word have moved on, all have been read to the next one. */
  lemma AllReadPast(files: seq<InFile>, runs: seq<seq<Record>>, at: seq<nat>, wordids: seq<nat>, counts: seq<nat>,
                    docids: seq<seq<nat>>, sentinel: nat, words: set<nat>, ws: seq<nat>, k: nat)
    requires Cursors(files, runs, at, wordids, counts, docids, sentinel) && GoodRuns(runs, words)
    requires ws == InOrder(words) && k < |ws| && AllReadTo(runs, at, ws[k])
    requires (forall w :: w in words ==> w < sentinel) && ws[k] < sentinel
    ensures AllReadTo(runs, Moved(at, Where(wordids, ws[k])), Due(ws, k + 1, sentinel))
  {
    var ps := Where(wordids, ws[k]);
    forall i | 0 <= i < |runs|
      ensures ReadTo(runs[i], Moved(at, ps)[i], Due(ws, k + 1, sentinel))
    {
      assert Cursor(files[i], runs[i], at[i], wordids[i], counts[i], docids[i], sentinel);
      ReadPast(runs[i], at[i], ws, k, sentinel, words);
      if wordids[i] == ws[k] { WhereHas(wordids, ws[k], i); }
    }
  }

  method TakeGreatest(words: set<nat>) returns (g: nat)
    requires words != {}
    ensures g in words && forall w :: w in words ==> w <= g
  {
    var rest := words;
    g := TakeLeast(words);
    while rest != {}
      invariant rest <= words && g in words && forall w :: w in words ==> w in rest || w <= g
      decreases |rest|
    {
      var w := TakeLeast(rest);
      g := if g < w then w else g;
      rest := rest - {w};
    }
  }

  method OpenAll(files: seq<seq<Byte>>) returns (ins: seq<InFile>)
    ensures |ins| == |files| && forall i, j :: 0 <= i < j < |ins| ==> ins[i] != ins[j]
    ensures forall i :: 0 <= i < |ins| ==> fresh(ins[i]) && ins[i].data == files[i] && ins[i].pos == 0
  {
    ins := [];
    for n := 0 to |files|
      invariant |ins| == n && forall i, j :: 0 <= i < j < n ==> ins[i] != ins[j]
      invariant forall i :: 0 <= i < n ==> fresh(ins[i]) && ins[i].data == files[i] && ins[i].pos == 0
    {
      var file := new InFile(files[n]);
      ins := ins + [file];
    }
  }

  /** The first `n` runs have their first record loaded, the others have not been read. */
  ghost predicate Loaded(ins: seq<InFile>, runs: seq<seq<Record>>, junk: Junk, n: nat, held: Held, wordids: seq<nat>,
                         counts: seq<nat>, docids: seq<seq<nat>>, sentinel: nat)
    reads ins
  {
    && n <= |ins| == |runs| && |wordids| == |counts| == |docids| == n && HeldAfter(runs, n, junk) == held
    && (forall i :: 0 <= i < n ==> Cursor(ins[i], SeenAt(runs, i, junk), 0, wordids[i], counts[i], docids[i], sentinel))
    && forall i :: n <= i < |ins| ==> ins[i].data == EncodeAll(runs[i]) && ins[i].pos == 0
  }

  /** Reads one record over what the variables hold; at the end of the file all three reads leave everything as it is. */
  method ReadFirst(file: InFile, word: nat, count: nat, junk: Junk, n: nat, ghost runs: seq<seq<Record>>)
    returns (word': nat, count': nat, ids: seq<nat>)
    requires n < |runs| && HeldAfter(runs, n, junk) == Held(word, count)
    requires file.data == EncodeAll(runs[n]) && file.pos == 0 && forall r :: r in runs[n] ==> Fits(r)
    modifies file
    ensures HeldAfter(runs, n + 1, junk) == Held(word', count')
    ensures Reads(file, SeenAt(runs, n, junk), 0) && SeenAt(runs, n, junk)[0] == Record(word', ids) && count' == |ids|
  {
    assert runs[n][..0] == [] && file.data == EncodeAll(runs[n]) + [];
    var ok;
    ok, word', ids := file.ReadRecord(runs[n], 0, []);
    if ok {
      count' := |ids|;
    } else {
      assert runs[n] == [];
      word', count', ids := word, count, JunkIds(junk, n, count);
    }
  }

  method LoadOne(ins: seq<InFile>, n: nat, word: nat, count: nat, wordids: seq<nat>, counts: seq<nat>, docids: seq<seq<nat>>,
                 sentinel: nat, junk: Junk, ghost runs: seq<seq<Record>>)
    returns (word': nat, count': nat, wordids': seq<nat>, counts': seq<nat>, docids': seq<seq<nat>>)
    requires n < |ins| && Loaded(ins, runs, junk, n, Held(word, count), wordids, counts, docids, sentinel)
    requires forall i, j :: 0 <= i < j < |ins| ==> ins[i] != ins[j]
    requires forall r :: r in runs[n] ==> Fits(r)
    modifies ins[n]
    ensures Loaded(ins, runs, junk, n + 1, Held(word', count'), wordids', counts', docids', sentinel)
  {
    var ids;
    word', count', ids := ReadFirst(ins[n], word, count, junk, n, runs);
    assert Cursor(ins[n], SeenAt(runs, n, junk), 0, word', count', ids, sentinel);
    wordids', counts', docids' := wordids + [word'], counts + [count'], docids + [ids];
  }

  /** Reads the first record of every run, without checking that there is one. */
  method LoadFirst(ins: seq<InFile>, sentinel: nat, junk: Junk, ghost runs: seq<seq<Record>>)
    returns (wordids: seq<nat>, counts: seq<nat>, docids: seq<seq<nat>>)
    requires |ins| == |runs| && forall i, j :: 0 <= i < j < |ins| ==> ins[i] != ins[j]
    requires forall i :: 0 <= i < |ins| ==> ins[i].data == EncodeAll(runs[i]) && ins[i].pos == 0
    requires forall i :: 0 <= i < |runs| ==> forall r :: r in runs[i] ==> Fits(r)
    modifies ins
    ensures Cursors(ins, Seen(runs, junk), seq(|runs|, _ => 0), wordids, counts, docids, sentinel)
  {
    var word, count := junk.word, junk.n;
    wordids, counts, docids := [], [], [];
    for n := 0 to |ins|
      invariant Loaded(ins, runs, junk, n, Held(word, count), wordids, counts, docids, sentinel)
    {
      word, count, wordids, counts, docids := LoadOne(ins, n, word, count, wordids, counts, docids, sentinel, junk, runs);
    }
    AllLoaded(ins, runs, junk, Held(word, count), wordids, counts, docids, sentinel);
  }

  lemma AllLoaded(ins: seq<InFile>, runs: seq<seq<Record>>, junk: Junk, held: Held, wordids: seq<nat>, counts: seq<nat>,
                  docids: seq<seq<nat>>, sentinel: nat)
    requires Loaded(ins, runs, junk, |ins|, held, wordids, counts, docids, sentinel)
    requires forall i, j :: 0 <= i < j < |ins| ==> ins[i] != ins[j]
    ensures Cursors(ins, Seen(runs, junk), seq(|runs|, _ => 0), wordids, counts, docids, sentinel)
  {
  }

  /** Writes a count and the ids. */
  method WriteList(out: OutFile, n: nat, ids: seq<nat>)
    requires out.pos == |out.data| && n == |ids|
    modifies out
    ensures out.data == old(out.data) + EncodeList(ids) && out.pos == |out.data|
  {
    ghost var was := out.data;
    out.Append(n, SIZE_N);
    ghost var start := out.data;
    for k := 0 to n
      invariant out.data == start + EncodeIds(ids[..k]) && out.pos == |out.data|
    {
      ghost var before := out.data;
      out.Append(ids[k], SIZE_ID);
      WroteId(start, ids, k, before, out.data);
    }
    assert ids[..n] == ids;
    Reassociate(was, EncodeLE(n, SIZE_N), EncodeIds(ids));
  }

  /** What has been written after `k` words. */
  ghost predicate Written(data: seq<Byte>, offsets: map<nat, nat>, index: seq<Record>, ws: seq<nat>, k: nat) {
    k <= |ws| == |index| && data == HeaderOf(Unpatched(ws)) + BodyOf(index[..k]) &&
    offsets.Keys == (set w | w in ws[..k]) && forall j :: 0 <= j < k ==> offsets[ws[j]] == OffsetOf(index, j)
  }

  /** Appends the list of the word that is due and notes where it begins. */
  method WriteDue(out: OutFile, offsets: map<nat, nat>, word: nat, n: nat, ids: seq<nat>,
                  ghost index: seq<Record>, ghost ws: seq<nat>, ghost k: nat)
    returns (offsets': map<nat, nat>)
    requires out.pos == |out.data| && Written(out.data, offsets, index, ws, k) && k < |ws| && Ascending(ws)
    requires word == ws[k] && index[k].items == ids && n == |ids|
    modifies out
    ensures out.pos == |out.data| && Written(out.data, offsets', index, ws, k + 1)
  {
    ghost var was := out.data;
    offsets' := offsets[word := out.pos];
    WriteList(out, n, ids);
    WrittenNext(was, offsets, index, ws, k, k + 1);
  }

  lemma WrittenNext(data: seq<Byte>, offsets: map<nat, nat>, index: seq<Record>, ws: seq<nat>, k: nat, next: nat)
    requires Written(data, offsets, index, ws, k) && k < |ws| && Ascending(ws) && next == k + 1
    ensures Written(data + EncodeList(index[k].items), offsets[ws[k] := |data|], index, ws, next)
  {
    BodySnoc(index, k);
    Reassociate(HeaderOf(Unpatched(ws)), BodyOf(index[..k]), EncodeList(index[k].items));
    KeysNext(offsets, ws, k, next, |data|);
  }

  lemma KeysNext(offsets: map<nat, nat>, ws: seq<nat>, k: nat, next: nat, at: nat)
    requires k < |ws| && next == k + 1 && offsets.Keys == set w | w in ws[..k]
    ensures offsets[ws[k] := at].Keys == set w | w in ws[..next]
  {
    assert ws[..next] == ws[..k] + [ws[k]];
  }

  lemma StartsDue(runs: seq<seq<Record>>, words: set<nat>, sentinel: nat)
    requires words != {} && GoodRuns(runs, words)
    ensures AllReadTo(runs, seq(|runs|, _ => 0), Due(InOrder(words), 0, sentinel))
  {
  }

  /** Patches the header: complete if every word was written, untouched if none was. */
  method Finish(out: OutFile, offsets: map<nat, nat>, ghost index: seq<Record>, ghost ws: seq<nat>, ghost k: nat)
    returns (file: seq<Byte>)
    requires Written(out.data, offsets, index, ws, k) && Ascending(ws)
    requires forall i :: 0 <= i < |ws| ==> index[i].key == ws[i]
    modifies out
    ensures k == |ws| ==> file == FileOf(index)
    ensures k == 0 ==> file == HeaderOf(Unpatched(ws))
  {
    ghost var rest := EncodeSlot(Slot(0, 0)) + BodyOf(index[..k]);
    Reassociate(EncodeSlots(Unpatched(ws)), EncodeSlot(Slot(0, 0)), BodyOf(index[..k]));
    AscendingIsUnique(ws[..k], offsets.Keys);
    SaveOffsets(out, offsets, ws, rest);
    file := out.data;
    Completed(file, offsets, index, ws, k);
  }

  lemma Completed(file: seq<Byte>, offsets: map<nat, nat>, index: seq<Record>, ws: seq<nat>, k: nat)
    requires k <= |ws| == |index| && (forall i :: 0 <= i < |ws| ==> index[i].key == ws[i]) && Ascending(ws)
    requires offsets.Keys == (set w | w in ws[..k]) && forall j :: 0 <= j < k ==> offsets[ws[j]] == OffsetOf(index, j)
    requires file == EncodeSlots(PatchedTo(ws, offsets, |offsets|)) + (EncodeSlot(Slot(0, 0)) + BodyOf(index[..k]))
    ensures k == |ws| ==> file == FileOf(index)
    ensures k == 0 ==> file == HeaderOf(Unpatched(ws))
  {
    AllPatched(offsets, index, ws, k);
    Reassociate(EncodeSlots(PatchedTo(ws, offsets, k)), EncodeSlot(Slot(0, 0)), BodyOf(index[..k]));
    if k == |ws| {
      assert index[..k] == index;
    } else if k == 0 {
      assert BodyOf(index[..0]) == [];
      assert file == HeaderOf(Unpatched(ws)) + [];
    }
  }

  lemma AllPatched(offsets: map<nat, nat>, index: seq<Record>, ws: seq<nat>, k: nat)
    requires k <= |ws| == |index| && (forall i :: 0 <= i < |ws| ==> index[i].key == ws[i]) && Ascending(ws)
    requires offsets.Keys == (set w | w in ws[..k]) && forall j :: 0 <= j < k ==> offsets[ws[j]] == OffsetOf(index, j)
    ensures |offsets| == k
    ensures k == 0 ==> PatchedTo(ws, offsets, 0) == Unpatched(ws)
    ensures k == |ws| ==> PatchedTo(ws, offsets, k) == SlotsOf(index)
  {
    AsManyOffsets(offsets, ws, k);
    if k == 0 {
      NonePatched(offsets, ws);
    }
    if k == |ws| {
      EveryPatched(offsets, index, ws);
    }
  }

  lemma AsManyOffsets(offsets: map<nat, nat>, ws: seq<nat>, k: nat)
    requires k <= |ws| && Ascending(ws) && offsets.Keys == (set w | w in ws[..k])
    ensures |offsets| == k
  {
    AscendingIsUnique(ws[..k], offsets.Keys);
    assert |offsets| == |offsets.Keys| == |ws[..k]|;
  }

  lemma NonePatched(offsets: map<nat, nat>, ws: seq<nat>)
    ensures PatchedTo(ws, offsets, 0) == Unpatched(ws)
  {
  }

  lemma EveryPatched(offsets: map<nat, nat>, index: seq<Record>, ws: seq<nat>)
    requires |ws| == |index| && forall i :: 0 <= i < |ws| ==> index[i].key == ws[i]
    requires (forall w :: w in ws ==> w in offsets) && forall j :: 0 <= j < |ws| ==> ws[j] in offsets && offsets[ws[j]] == OffsetOf(index, j)
    ensures PatchedTo(ws, offsets, |ws|) == SlotsOf(index)
  {
  }

  lemma RoundFacts(ins: seq<InFile>, runs: seq<seq<Record>>, at: seq<nat>, wordids: seq<nat>, counts: seq<nat>,
                   docids: seq<seq<nat>>, sentinel: nat, words: set<nat>, k: nat, least: nat, ps: seq<nat>)
    requires Cursors(ins, runs, at, wordids, counts, docids, sentinel) && GoodRuns(runs, words)
    requires k < |words| && least == InOrder(words)[k] < sentinel && ps == Where(wordids, least)
    requires AllReadTo(runs, at, least) && forall w :: w in words ==> w < sentinel
    ensures Ascending(ps) && forall p :: p in ps ==> p < |ins| && at[p] < |runs[p]| && counts[p] == |docids[p]|
    ensures Join(docids, ps) == Gather(runs, least)
    ensures AllReadTo(runs, Moved(at, ps), Due(InOrder(words), k + 1, sentinel))
  {
    DueLists(ins, runs, at, wordids, counts, docids, sentinel, least);
    AllReadPast(ins, runs, at, wordids, counts, docids, sentinel, words, InOrder(words), k);
    WhereAscends(wordids, least);
  }

  /** The sorted lists of the runs that show the least word; these runs move on. */
  method Collect(ins: seq<InFile>, wordids: seq<nat>, counts: seq<nat>, docids: seq<seq<nat>>, sentinel: nat,
                 ps: seq<nat>, ghost runs: seq<seq<Record>>, ghost at: seq<nat>)
    returns (n: nat, sorted: seq<nat>, wordids': seq<nat>, counts': seq<nat>, docids': seq<seq<nat>>)
    requires Cursors(ins, runs, at, wordids, counts, docids, sentinel)
    requires forall i :: 0 <= i < |runs| ==> forall r :: r in runs[i] ==> Fits(r)
    requires Ascending(ps) && forall p :: p in ps ==> p < |ins| && at[p] < |runs[p]| && counts[p] == |docids[p]|
    requires 8 * |Join(docids, ps)| < N_LIMIT
    modifies ins
    ensures sorted == Sort(Join(docids, ps)) && n == |sorted|
    ensures Cursors(ins, runs, Moved(at, ps), wordids', counts', docids', sentinel)
  {
    n := SumCounts(counts, ps, docids);
    var all;
    RoomSuffices(n);
    all, wordids', counts', docids' := TakeAll(ins, wordids, counts, docids, sentinel, ps, Room(n), runs, at);
    SortSorts(all);
    sorted := Sort(all);
  }

  /** The runs have been read up to the word that is due after `k` words. */
  ghost predicate ReadOn(ins: seq<InFile>, wordids: seq<nat>, counts: seq<nat>, docids: seq<seq<nat>>, sentinel: nat,
                         runs: seq<seq<Record>>, at: seq<nat>, words: set<nat>, k: nat)
    reads ins
  {
    Cursors(ins, runs, at, wordids, counts, docids, sentinel) && k <= |words| &&
    AllReadTo(runs, at, Due(InOrder(words), k, sentinel))
  }

  /** The word that is due is `least`, its list fits the buffer, and the runs at `ps` show it. */
  ghost predicate WordIsDue(wordids: seq<nat>, sentinel: nat, least: nat, ps: seq<nat>,
                            runs: seq<seq<Record>>, words: set<nat>, k: nat)
  {
    && GoodRuns(runs, words) && k < |words| && least == InOrder(words)[k] < sentinel && ps == Where(wordids, least)
    && (forall w :: w in words ==> w < sentinel) && 8 * |Gather(runs, least)| < N_LIMIT
  }

  method CollectDue(ins: seq<InFile>, wordids: seq<nat>, counts: seq<nat>, docids: seq<seq<nat>>, sentinel: nat,
                    least: nat, ps: seq<nat>, ghost runs: seq<seq<Record>>, ghost at: seq<nat>, ghost words: set<nat>, ghost k: nat)
    returns (n: nat, sorted: seq<nat>, wordids': seq<nat>, counts': seq<nat>, docids': seq<seq<nat>>)
    requires ReadOn(ins, wordids, counts, docids, sentinel, runs, at, words, k)
    requires WordIsDue(wordids, sentinel, least, ps, runs, words, k)
    modifies ins
    ensures sorted == Sort(Gather(runs, least)) && n == |sorted|
    ensures ReadOn(ins, wordids', counts', docids', sentinel, runs, Moved(at, ps), words, k + 1)
  {
    RoundFacts(ins, runs, at, wordids, counts, docids, sentinel, words, k, least, ps);
    n, sorted, wordids', counts', docids' := Collect(ins, wordids, counts, docids, sentinel, ps, runs, at);
  }

  /** Where the merge stands after `k` words. */
  ghost predicate Standing(out: OutFile, offsets: map<nat, nat>, runs: seq<seq<Record>>, words: set<nat>, k: nat)
    reads out
  {
    out.pos == |out.data| && Written(out.data, offsets, Merged(runs, words), InOrder(words), k)
  }

  lemma MergedAt(runs: seq<seq<Record>>, words: set<nat>, k: nat)
    requires k < |words|
    ensures Merged(runs, words)[k] == Record(InOrder(words)[k], Sort(Gather(runs, InOrder(words)[k])))
  {
  }

  method WriteNext(out: OutFile, offsets: map<nat, nat>, least: nat, n: nat, sorted: seq<nat>,
                   ghost runs: seq<seq<Record>>, ghost words: set<nat>, ghost k: nat)
    returns (offsets': map<nat, nat>)
    requires Standing(out, offsets, runs, words, k) && k < |words| && least == InOrder(words)[k]
    requires sorted == Sort(Gather(runs, least)) && n == |sorted|
    modifies out
    ensures Standing(out, offsets', runs, words, k + 1)
  {
    InOrderIsAscending(words);
    MergedAt(runs, words, k);
    offsets' := WriteDue(out, offsets, least, n, sorted, Merged(runs, words), InOrder(words), k);
  }

  /** One round of the merge: joins, sorts and writes the lists of the least word and moves its runs on. */
  method MergeNext(ins: seq<InFile>, wordids: seq<nat>, counts: seq<nat>, docids: seq<seq<nat>>, sentinel: nat,
                   least: nat, ps: seq<nat>, out: OutFile, offsets: map<nat, nat>,
                   ghost runs: seq<seq<Record>>, ghost at: seq<nat>, ghost words: set<nat>, ghost k: nat)
    returns (wordids': seq<nat>, counts': seq<nat>, docids': seq<seq<nat>>, offsets': map<nat, nat>)
    requires ReadOn(ins, wordids, counts, docids, sentinel, runs, at, words, k)
    requires WordIsDue(wordids, sentinel, least, ps, runs, words, k)
    requires Standing(out, offsets, runs, words, k)
    modifies ins, out
    ensures ReadOn(ins, wordids', counts', docids', sentinel, runs, Moved(at, ps), words, k + 1)
    ensures Standing(out, offsets', runs, words, k + 1)
  {
    var n, sorted;
    n, sorted, wordids', counts', docids' :=
      CollectDue(ins, wordids, counts, docids, sentinel, least, ps, runs, at, words, k);
    offsets' := WriteNext(out, offsets, least, n, sorted, runs, words, k);
  }

  /** The sentinel is one above the greatest word, in 64 bits. */
  method Sentinel(words: set<nat>) returns (sentinel: nat)
    requires words != {} && forall w :: w in words ==> w < ID_LIMIT
    ensures if ID_LIMIT - 1 in words then sentinel == 0 else forall w :: w in words ==> w < sentinel
  {
    var greatest := TakeGreatest(words);
    sentinel := (greatest + 1) % Pow256(SIZE_ID);
  }

  /** Finds the next word, or that there is none: at the end, or at once with a wrapped sentinel. */
  method NextWord(wordids: seq<nat>, sentinel: nat, ghost ins: seq<InFile>, ghost runs: seq<seq<Record>>,
                  ghost at: seq<nat>, ghost counts: seq<nat>, ghost docids: seq<seq<nat>>, ghost words: set<nat>, ghost k: nat)
    returns (least: nat, ps: seq<nat>)
    requires Cursors(ins, runs, at, wordids, counts, docids, sentinel) && GoodRuns(runs, words)
    requires k <= |words| && AllReadTo(runs, at, Due(InOrder(words), k, sentinel))
    requires sentinel == 0 || forall w :: w in words ==> w < sentinel
    ensures sentinel == 0 ==> least == sentinel
    ensures sentinel != 0 ==> (least == sentinel <==> k == |words|)
    ensures least != sentinel ==> least == InOrder(words)[k] < sentinel && ps == Where(wordids, least)
  {
    least, ps := FindLeast(wordids, sentinel);
    if sentinel != 0 {
      DueIsLeast(ins, runs, at, wordids, counts, docids, sentinel, words, InOrder(words), k);
    }
  }

  method Begin(words: set<nat>, ghost runs: seq<seq<Record>>) returns (out: OutFile)
    ensures fresh(out) && Standing(out, map[], runs, words, 0)
  {
    out := new OutFile();
    SaveWordids(out, words);
    ghost var index := Merged(runs, words);
    assert BodyOf(index[..0]) == [] && out.data + [] == out.data;
  }

  /** The sentinel is above all words, unless it wrapped to zero. */
  ghost predicate Covers(sentinel: nat, words: set<nat>) {
    sentinel == 0 || forall w :: w in words ==> w < sentinel
  }

  /** The state of the merge after `k` words. */
  ghost predicate Round(ins: seq<InFile>, wordids: seq<nat>, counts: seq<nat>, docids: seq<seq<nat>>, sentinel: nat,
                        out: OutFile, offsets: map<nat, nat>, runs: seq<seq<Record>>, at: seq<nat>, words: set<nat>, k: nat)
    reads ins, out
  {
    ReadOn(ins, wordids, counts, docids, sentinel, runs, at, words, k) && Standing(out, offsets, runs, words, k)
  }

  method MergeStep(ins: seq<InFile>, wordids: seq<nat>, counts: seq<nat>, docids: seq<seq<nat>>, sentinel: nat,
                   out: OutFile, offsets: map<nat, nat>,
                   ghost runs: seq<seq<Record>>, ghost at: seq<nat>, ghost words: set<nat>, ghost k: nat)
    returns (more: bool, wordids': seq<nat>, counts': seq<nat>, docids': seq<seq<nat>>, offsets': map<nat, nat>, ghost at': seq<nat>)
    requires GoodRuns(runs, words) && Covers(sentinel, words) && forall w :: w in words ==> 8 * |Gather(runs, w)| < N_LIMIT
    requires Round(ins, wordids, counts, docids, sentinel, out, offsets, runs, at, words, k)
    modifies ins, out
    ensures more == (sentinel != 0 && k < |words|)
    ensures Round(ins, wordids', counts', docids', sentinel, out, offsets', runs, at', words, if more then k + 1 else k)
  {
    var least, ps := NextWord(wordids, sentinel, ins, runs, at, counts, docids, words, k);
    if least == sentinel {
      more, wordids', counts', docids', offsets', at' := false, wordids, counts, docids, offsets, at;
    } else {
      InOrderIsAscending(words);
      assert InOrder(words)[k] in InOrder(words);
      more, at' := true, Moved(at, ps);
      wordids', counts', docids', offsets' :=
        MergeNext(ins, wordids, counts, docids, sentinel, least, ps, out, offsets, runs, at, words, k);
    }
  }

  method Load(files: seq<seq<Byte>>, sentinel: nat, out: OutFile, junk: Junk, ghost runs: seq<seq<Record>>, ghost words: set<nat>)
    returns (ins: seq<InFile>, wordids: seq<nat>, counts: seq<nat>, docids: seq<seq<nat>>, ghost at: seq<nat>)
    requires words != {} && GoodRuns(Seen(runs, junk), words) && Standing(out, map[], Seen(runs, junk), words, 0)
    requires |files| == |runs| && forall i :: 0 <= i < |files| ==> files[i] == EncodeAll(runs[i])
    ensures fresh(ins) && Round(ins, wordids, counts, docids, sentinel, out, map[], Seen(runs, junk), at, words, 0)
  {
    ins := OpenAll(files);
    SeenFits(runs, junk, words);
    wordids, counts, docids := LoadFirst(ins, sentinel, junk, runs);
    at := seq(|runs|, _ => 0);
    StartsDue(Seen(runs, junk), words, sentinel);
  }

  lemma SeenFits(runs: seq<seq<Record>>, junk: Junk, words: set<nat>)
    requires GoodRuns(Seen(runs, junk), words)
    ensures forall i :: 0 <= i < |runs| ==> forall r :: r in runs[i] ==> Fits(r)
  {
    forall i | 0 <= i < |runs|
      ensures forall r :: r in runs[i] ==> Fits(r)
    {
      assert GoodRun(Seen(runs, junk)[i], words);
    }
  }

  /** The rounds of the merge: as many as there are words, or none with a wrapped sentinel. */
  method MergeRounds(ins: seq<InFile>, wordids: seq<nat>, counts: seq<nat>, docids: seq<seq<nat>>, sentinel: nat, out: OutFile,
                     ghost runs: seq<seq<Record>>, ghost at: seq<nat>, ghost words: set<nat>)
    returns (offsets: map<nat, nat>, ghost k: nat)
    requires GoodRuns(runs, words) && Covers(sentinel, words) && forall w :: w in words ==> 8 * |Gather(runs, w)| < N_LIMIT
    requires Round(ins, wordids, counts, docids, sentinel, out, map[], runs, at, words, 0)
    modifies ins, out
    ensures Standing(out, offsets, runs, words, k) && k == if sentinel == 0 then 0 else |words|
  {
    var ws, cs, ds := wordids, counts, docids;
    ghost var at' := at;
    k, offsets := 0, map[];
    var more := true;
    while more
      invariant Round(ins, ws, cs, ds, sentinel, out, offsets, runs, at', words, k)
      invariant (sentinel == 0 ==> k == 0) && (!more ==> sentinel == 0 || k == |words|)
      decreases |words| - k, more
    {
      more, ws, cs, ds, offsets, at' := MergeStep(ins, ws, cs, ds, sentinel, out, offsets, runs, at', words, k);
      k := if more then k + 1 else k;
    }
  }

  method MergeFiles(files: seq<seq<Byte>>, sentinel: nat, out: OutFile, junk: Junk, ghost runs: seq<seq<Record>>, ghost words: set<nat>)
    returns (offsets: map<nat, nat>, ghost k: nat)
    requires words != {} && Covers(sentinel, words)
    requires GoodRuns(Seen(runs, junk), words) && Standing(out, map[], Seen(runs, junk), words, 0)
    requires |files| == |runs| && forall i :: 0 <= i < |files| ==> files[i] == EncodeAll(runs[i])
    requires forall w :: w in words ==> 8 * |Gather(Seen(runs, junk), w)| < N_LIMIT
    modifies out
    ensures Standing(out, offsets, Seen(runs, junk), words, k) && k == if sentinel == 0 then 0 else |words|
  {
    var ins, wordids, counts, docids, at := Load(files, sentinel, out, junk, runs, words);
    offsets, k := MergeRounds(ins, wordids, counts, docids, sentinel, out, Seen(runs, junk), at, words);
  }

  method PatchOffsets(out: OutFile, offsets: map<nat, nat>, ghost runs: seq<seq<Record>>, ghost words: set<nat>, ghost k: nat)
    returns (file: seq<Byte>)
    requires Standing(out, offsets, runs, words, k)
    modifies out
    ensures k == |words| ==> file == FileOf(Merged(runs, words))
    ensures k == 0 ==> file == HeaderOf(Unpatched(InOrder(words)))
  {
    InOrderIsAscending(words);
    file := Finish(out, offsets, Merged(runs, words), InOrder(words), k);
  }

  /** The index file that `mergeIndex` leaves behind, for runs as it takes them.  With the largest possible
      word id the sentinel wraps to zero and the merge ends before its first word. */
  method MergeIndex(files: seq<seq<Byte>>, words: set<nat>, junk: Junk, ghost runs: seq<seq<Record>>) returns (file: seq<Byte>)
    requires words != {} && (forall w :: w in words ==> w < ID_LIMIT) && GoodRuns(Seen(runs, junk), words)
    requires |files| == |runs| && forall i :: 0 <= i < |files| ==> files[i] == EncodeAll(runs[i])
    requires forall w :: w in words ==> 8 * |Gather(Seen(runs, junk), w)| < N_LIMIT
    ensures ID_LIMIT - 1 !in words ==> file == FileOf(Merged(Seen(runs, junk), words))
    ensures ID_LIMIT - 1 in words ==> file == HeaderOf(Unpatched(InOrder(words)))
  {
    ghost var seen := Seen(runs, junk);
    var out := Begin(words, seen);
    var sentinel := Sentinel(words);
    var offsets, k := MergeFiles(files, sentinel, out, junk, runs, words);
    file := PatchOffsets(out, offsets, seen, words, k);
  }
}
