/**
  The first pass of the index builder: reads the documents, groups a fixed number of them at a time in
  memory and writes each group as a run.
 */
module IndexBuild {
  import opened Common
  import opened Bytes
  import opened RecordFile
  import opened IndexInput
  import opened IndexSpec

  /** A file that is open for writing. */
  class OutFile {
    var data: seq<Byte>
    var pos: nat

    constructor ()
      ensures data == [] && pos == 0
    {
      data, pos := [], 0;
    }

    /** Overwrites the bytes at the position, or appends. */
    method WriteField(value: nat, width: nat)
      requires pos <= |data|
      modifies this
      ensures data == old(data[..pos]) + EncodeLE(value, width) +
                      (if old(pos) + width <= |old(data)| then old(data)[old(pos) + width..] else [])
      ensures pos == old(pos) + width && pos <= |data|
    {
      data := data[..pos] + EncodeLE(value, width) + (if pos + width <= |data| then data[pos + width..] else []);
      pos := pos + width;
    }

    method Append(value: nat, width: nat)
      requires pos == |data|
      modifies this
      ensures data == old(data) + EncodeLE(value, width) && pos == |data|
    {
      ghost var was := data;
      WriteField(value, width);
      if width == 0 { assert was[|was|..] == []; }
      assert data == was + EncodeLE(value, width);
    }
  }

  method TakeLeast(s: set<nat>) returns (m: nat)
    requires s != {}
    ensures m == Least(s) && m in s
  {
    ghost var least := Least(s);
    m :| m in s && forall x :: x in s ==> m <= x;
  }

  /** Walking a set in order: the least element is the next one, and the others follow. */
  lemma OrderStep(todo: set<nat>, q: seq<nat>, k: nat)
    requires k <= |q| && todo != {} && InOrder(todo) == q[k..]
    ensures k < |q| && Least(todo) == q[k] && InOrder(todo - {q[k]}) == q[k + 1..]
  {
  }

  method WriteIds(out: OutFile, ids: set<nat>)
    requires out.pos == |out.data|
    modifies out
    ensures out.data == old(out.data) + EncodeIds(InOrder(ids)) && out.pos == |out.data|
  {
    ghost var q, k := InOrder(ids), 0;
    var todo := ids;
    assert q[k..] == q;
    while todo != {}
      invariant k <= |q| && InOrder(todo) == q[k..]
      invariant out.data == old(out.data) + EncodeIds(q[..k]) && out.pos == |out.data|
      decreases |q| - k
    {
      OrderStep(todo, q, k);
      var id := TakeLeast(todo);
      ghost var was := out.data;
      out.Append(id, SIZE_ID);
      WroteId(old(out.data), q, k, was, out.data);
      todo := todo - {id};
      k := k + 1;
    }
    assert q[..k] == q;
  }

  lemma WroteId(start: seq<Byte>, q: seq<nat>, k: nat, was: seq<Byte>, now: seq<Byte>)
    requires k < |q| && was == start + EncodeIds(q[..k]) && now == was + EncodeLE(q[k], SIZE_ID)
    ensures now == start + EncodeIds(q[..k + 1])
  {
    IdsSnoc(q, k);
    Reassociate(start, EncodeIds(q[..k]), EncodeLE(q[k], SIZE_ID));
  }

  /** Writes one word with its documents. */
  method WriteRecord(out: OutFile, word: nat, ids: set<nat>)
    requires out.pos == |out.data|
    modifies out
    ensures out.data == old(out.data) + Encode(Record(word, InOrder(ids))) && out.pos == |out.data|
  {
    ghost var was, ordered := out.data, InOrder(ids);
    out.Append(word, SIZE_ID);
    out.Append(|ids|, SIZE_N);
    WriteIds(out, ids);
    Regroup(was, EncodeLE(word, SIZE_ID), EncodeLE(|ids|, SIZE_N), EncodeIds(ordered));
  }

  /** The run of a dictionary after the words outside `todo`, in order, have been written. */
  ghost predicate Saving(dict: map<nat, set<nat>>, todo: set<nat>, k: nat, data: seq<Byte>, words: set<nat>, words': set<nat>) {
    && k <= |InOrder(dict.Keys)| && InOrder(todo) == InOrder(dict.Keys)[k..] && todo <= dict.Keys
    && k <= |Listing(dict)| && data == EncodeAll(Listing(dict)[..k]) && words' == words + (dict.Keys - todo)
  }

  /** Writes the least word that is left. */
  method SaveWord(out: OutFile, dict: map<nat, set<nat>>, todo: set<nat>, words': set<nat>, ghost words: set<nat>, ghost k: nat)
    returns (todo': set<nat>, more: set<nat>)
    requires todo != {} && Saving(dict, todo, k, out.data, words, words') && out.pos == |out.data|
    modifies out
    ensures Saving(dict, todo', k + 1, out.data, words, more) && out.pos == |out.data|
  {
    OrderStep(todo, InOrder(dict.Keys), k);
    var w := TakeLeast(todo);
    ListingAt(dict, k);
    WriteRecord(out, w, dict[w]);
    EncodeSnoc(Listing(dict), k);
    more, todo' := words' + {w}, todo - {w};
    assert words + (dict.Keys - (todo - {w})) == words + (dict.Keys - todo) + {w};
  }

  /** Writes a dictionary as a run and adds its words to the words seen so far. */
  method SaveIndexFile(dict: map<nat, set<nat>>, words: set<nat>) returns (file: seq<Byte>, words': set<nat>)
    ensures file == EncodeAll(Listing(dict)) && words' == words + dict.Keys
  {
    var out := new OutFile();
    ghost var k := 0;
    var todo := dict.Keys;
    words' := words;
    assert Saving(dict, todo, 0, out.data, words, words');
    while todo != {}
      invariant Saving(dict, todo, k, out.data, words, words') && out.pos == |out.data|
      decreases |InOrder(dict.Keys)| - k
    {
      OrderStep(todo, InOrder(dict.Keys), k);
      todo, words' := SaveWord(out, dict, todo, words', words, k);
      k := k + 1;
    }
    AllSaved(dict, k, out.data, words, words');
    file := out.data;
  }

  lemma AllSaved(dict: map<nat, set<nat>>, k: nat, data: seq<Byte>, words: set<nat>, words': set<nat>)
    requires Saving(dict, {}, k, data, words, words')
    ensures data == EncodeAll(Listing(dict)) && words' == words + dict.Keys
  {
    assert |InOrder({})| == 0;
    assert Listing(dict)[..k] == Listing(dict);
  }

  lemma ListingAt(dict: map<nat, set<nat>>, k: nat)
    requires k < |InOrder(dict.Keys)|
    ensures var w := InOrder(dict.Keys)[k];
            w in dict && k < |Listing(dict)| && Listing(dict)[k] == Record(w, InOrder(dict[w]))
  {
    InOrderIsAscending(dict.Keys);
    assert InOrder(dict.Keys)[k] in InOrder(dict.Keys);
  }

  lemma OneDocument(id: nat, ws: seq<nat>)
    ensures WordsOf([Record(id, ws)]) == set w | w in ws
    ensures forall w :: IdsOf([Record(id, ws)], w) == if w in ws then {id} else {}
  {
  }

  /** How the groups change when a document is appended. */
  lemma GroupSnoc(ds: seq<Record>, id: nat, ws: seq<nat>)
    ensures WordsOf(ds + [Record(id, ws)]) == WordsOf(ds) + set w | w in ws
    ensures forall w :: IdsOf(ds + [Record(id, ws)], w) == IdsOf(ds, w) + if w in ws then {id} else {}
  {
  }

  lemma GroupIs(docs: seq<Record>, g: map<nat, set<nat>>)
    requires g.Keys == WordsOf(docs) && forall w :: w in g ==> g[w] == IdsOf(docs, w)
    ensures Group(docs) == g
  {
  }

  lemma GroupOfNone(ds: seq<Record>, id: nat)
    ensures Group(ds + [Record(id, [])]) == Group(ds)
  {
    GroupSnoc(ds, id, []);
    GroupIs(ds + [Record(id, [])], Group(ds));
  }

  lemma WordsGrow(ds: seq<Record>, id: nat, ws: seq<nat>, w: nat)
    ensures WordsOf(ds + [Record(id, ws + [w])]) == WordsOf(ds + [Record(id, ws)]) + {w}
    ensures forall v :: IdsOf(ds + [Record(id, ws + [w])], v) == IdsOf(ds + [Record(id, ws)], v) + if v == w then {id} else {}
  {
    GroupSnoc(ds, id, ws);
    GroupSnoc(ds, id, ws + [w]);
  }

  /** One more word of the current document. */
  lemma GroupWithWord(ds: seq<Record>, id: nat, ws: seq<nat>, w: nat)
    ensures var g := Group(ds + [Record(id, ws)]);
            Group(ds + [Record(id, ws + [w])]) == g[w := (if w in g then g[w] else {}) + {id}]
  {
    var was := ds + [Record(id, ws)];
    WordsGrow(ds, id, ws, w);
    NoWordMeansEmpty(was, w);
    GroupIs(ds + [Record(id, ws + [w])], Group(was)[w := (if w in Group(was) then Group(was)[w] else {}) + {id}]);
  }

  lemma NoWordMeansEmpty(ds: seq<Record>, w: nat)
    ensures w !in Group(ds) ==> IdsOf(ds, w) == {}
  {
  }

  /** The files that hold the runs of the blocks. */
  ghost function RunFiles(blocks: seq<seq<Record>>): (fs: seq<seq<Byte>>)
    ensures |fs| == |blocks| && forall i :: 0 <= i < |blocks| ==> fs[i] == RunFile(blocks[i])
  {
    seq(|blocks|, i requires 0 <= i < |blocks| => RunFile(blocks[i]))
  }

  ghost function RunFile(block: seq<Record>): seq<Byte> {
    EncodeAll(Direct(block))
  }

  /** Adds the words of one document to the dictionary. */
  method AddDocument(dict: map<nat, set<nat>>, id: nat, ws: seq<nat>, ghost ds: seq<Record>)
    returns (dict': map<nat, set<nat>>)
    requires dict == Group(ds)
    ensures dict' == Group(ds + [Record(id, ws)])
  {
    dict' := dict;
    GroupOfNone(ds, id);
    for i := 0 to |ws|
      invariant dict' == Group(ds + [Record(id, ws[..i])])
    {
      GroupWithWord(ds, id, ws[..i], ws[i]);
      assert ws[..i] + [ws[i]] == ws[..i + 1];
      dict' := dict'[ws[i] := (if ws[i] in dict' then dict'[ws[i]] else {}) + {id}];
    }
    assert ws[..|ws|] == ws;
  }

  /** Together with the files of the blocks from document `k` on these are the files of all blocks. */
  ghost predicate LeadsOn(ds: seq<Record>, limit: nat, k: nat, files: seq<seq<Byte>>)
    requires limit > 0 && k <= |ds|
  {
    files + RunFiles(Blocks(ds[k..], limit)) == RunFiles(Blocks(ds, limit))
  }

  /** After `k` documents, of which those from `base` on are in the dictionary. */
  ghost predicate Blocked(ds: seq<Record>, limit: nat, base: nat, k: nat, files: seq<seq<Byte>>, words: set<nat>,
                          dict: map<nat, set<nat>>)
    requires limit > 0
  {
    && base <= k <= |ds| && k - base < limit
    && dict == Group(ds[base..k]) && words == WordsOf(ds[..base])
    && LeadsOn(ds, limit, base, files)
  }

  /** Reads all documents and writes a run for every block of `limit` of them.  The last one may be cut
      off, and a rest too short for a document id is ignored. */
  method CreateIndexFiles(input: InFile, limit: nat, mem: Memory, ghost docs: seq<Record>, ghost tail: seq<Byte>)
    returns (files: seq<seq<Byte>>, words: set<nat>)
    requires limit > 0 && input.pos == 0 && Input(input.data, docs, tail, mem)
    modifies input
    ensures files == RunFiles(Blocks(Documents(docs, tail, mem), limit)) && words == WordsOf(Documents(docs, tail, mem))
  {
    ghost var ds := Documents(docs, tail, mem);
    var dict: map<nat, set<nat>> := map[];
    files, words := [], {};
    var curCount := 0;
    var last := Leftover(mem);
    ghost var base: nat, k: nat := 0, 0;
    StartBlocks(ds, limit);
    assert docs[..0] == [] == ds[..0];
    while true
      invariant Blocked(ds, limit, base, k, files, words, dict) && curCount == k - base
      invariant input.pos == DocumentAt(docs, tail, k) && last == LastWords(ds[..k], mem)
      decreases |ds| - k
    {
      var ok, id, ws := NextDocument(input, last, mem, docs, tail, k);
      if !ok {
        break;
      }
      files, words, dict, curCount, base := TakeDocument(id, ws, limit, files, words, dict, curCount, ds, base, k, k + 1);
      LastUp(ds, k, mem);
      last := ws;
      k := k + 1;
    }
    LastBlock(ds, limit, base);
    files, words := FlushLast(ds[base..], limit, files, words, dict);
  }

  /** Adds a document to the dictionary, which is written when the block is full. */
  method TakeDocument(id: nat, ws: seq<nat>, limit: nat, files: seq<seq<Byte>>, words: set<nat>, dict: map<nat, set<nat>>,
                      curCount: nat, ghost ds: seq<Record>, ghost base: nat, ghost k: nat, ghost next: nat)
    returns (files': seq<seq<Byte>>, words': set<nat>, dict': map<nat, set<nat>>, curCount': nat, ghost base': nat)
    requires limit > 0 && k < |ds| && ds[k] == Record(id, ws) && next == k + 1
    requires Blocked(ds, limit, base, k, files, words, dict) && curCount == k - base
    ensures Blocked(ds, limit, base', next, files', words', dict') && curCount' == next - base'
  {
    files', words', base' := files, words, base;
    assert ds[base..next] == ds[base..k] + [ds[k]];
    dict' := AddDocument(dict, id, ws, ds[base..k]);
    curCount' := curCount + 1;
    if curCount' == limit {
      files', words' := FlushBlock(ds, base, next, limit, files, words, dict');
      dict', curCount', base' := map[], 0, next;
    }
  }

  lemma LastUp(ds: seq<Record>, k: nat, mem: Memory)
    requires k < |ds|
    ensures LastWords(ds[..k + 1], mem) == ds[k].items
  {
  }

  lemma EmptyGroup()
    ensures Group([]) == map[] && WordsOf([]) == {}
  {
  }

  lemma StartBlocks(ds: seq<Record>, limit: nat)
    requires limit > 0
    ensures Blocked(ds, limit, 0, 0, [], {}, map[])
  {
    assert ds[0..] == ds && ds[..0] == [];
    EmptyGroup();
    NewBlock(ds, limit, 0, [], {});
  }

  lemma LastBlock(ds: seq<Record>, limit: nat, base: nat)
    requires base <= |ds|
    ensures ds[base..|ds|] == ds[base..] && WordsOf(ds) == WordsOf(ds[..base]) + Group(ds[base..]).Keys
  {
    assert ds[base..|ds|] == ds[base..] && ds[..|ds|] == ds;
    WordsNext(ds, base, |ds|, WordsOf(ds[..base]), Group(ds[base..]));
  }

  /** Writes a full block. */
  method FlushBlock(ghost ds: seq<Record>, ghost base: nat, ghost k: nat, limit: nat, files: seq<seq<Byte>>,
                    words: set<nat>, dict: map<nat, set<nat>>)
    returns (files': seq<seq<Byte>>, words': set<nat>)
    requires k == base + limit && limit > 0 && k <= |ds| && dict == Group(ds[base..k]) && words == WordsOf(ds[..base])
    requires LeadsOn(ds, limit, base, files)
    ensures Blocked(ds, limit, k, k, files', words', map[])
  {
    var file;
    file, words' := SaveIndexFile(dict, words);
    files' := files + [file];
    WordsNext(ds, base, k, words, dict);
    CloseBlock(ds, base, k, limit, files, file);
    NewBlock(ds, limit, k, files', words');
  }

  lemma NewBlock(ds: seq<Record>, limit: nat, k: nat, files: seq<seq<Byte>>, words: set<nat>)
    requires limit > 0 && k <= |ds| && words == WordsOf(ds[..k])
    requires LeadsOn(ds, limit, k, files)
    ensures Blocked(ds, limit, k, k, files, words, map[])
  {
    assert ds[k..k] == [];
    EmptyGroup();
  }

  /** Writes what is left over, unless it has no word. */
  method FlushLast(ghost rest: seq<Record>, limit: nat, files: seq<seq<Byte>>, words: set<nat>, dict: map<nat, set<nat>>)
    returns (files': seq<seq<Byte>>, words': set<nat>)
    requires limit > 0 && |rest| < limit && dict == Group(rest)
    ensures files' == files + RunFiles(Blocks(rest, limit)) && words' == words + dict.Keys
  {
    files', words' := files, words;
    if |dict| > 0 {
      var file;
      file, words' := SaveIndexFile(dict, words);
      files' := files + [file];
      assert dict.Keys != {};
      assert RunFiles(Blocks(rest, limit)) == [file];
    } else {
      assert dict.Keys == {} == WordsOf(rest);
      assert RunFiles(Blocks(rest, limit)) == [];
    }
  }

  lemma RunFilesHead(block: seq<Record>, blocks: seq<seq<Record>>)
    ensures RunFiles([block] + blocks) == [RunFile(block)] + RunFiles(blocks)
  {
    var all := [block] + blocks;
    var fs, gs := RunFiles(all), [RunFile(block)] + RunFiles(blocks);
    assert forall i :: 0 <= i < |all| ==> all[i] == if i == 0 then block else blocks[i - 1];
    assert forall i :: 0 <= i < |all| ==> fs[i] == gs[i];
  }

  lemma WordsNext(docs: seq<Record>, base: nat, k: nat, words: set<nat>, dict: map<nat, set<nat>>)
    requires base <= k <= |docs| && words == WordsOf(docs[..base]) && dict == Group(docs[base..k])
    ensures words + dict.Keys == WordsOf(docs[..k])
  {
    assert docs[..k] == docs[..base] + docs[base..k];
  }

  lemma BlocksNext(docs: seq<Record>, base: nat, k: nat, limit: nat)
    requires limit > 0 && k == base + limit && k <= |docs|
    ensures Blocks(docs[base..], limit) == [docs[base..k]] + Blocks(docs[k..], limit)
  {
    assert docs[base..][..limit] == docs[base..k] && docs[base..][limit..] == docs[k..];
  }

  lemma CloseBlock(docs: seq<Record>, base: nat, k: nat, limit: nat, files: seq<seq<Byte>>, file: seq<Byte>)
    requires limit > 0 && k == base + limit && k <= |docs| && file == EncodeAll(Direct(docs[base..k]))
    requires LeadsOn(docs, limit, base, files)
    ensures LeadsOn(docs, limit, k, files + [file])
  {
    var block, later := docs[base..k], Blocks(docs[k..], limit);
    BlocksNext(docs, base, k, limit);
    RunFilesHead(block, later);
    Reassociate(files, [file], RunFiles(later));
  }

  // ---------------------------------------------------------------- an input that is cut off

  /** A file that ends right behind an id lists that id under the words of the document before it. */
  lemma IdAloneIsListed(docs: seq<Record>, tail: seq<Byte>, mem: Memory)
    requires docs != [] && |tail| == 8
    ensures var id, before, all := DecodeLE(tail), docs[|docs| - 1].items, Documents(docs, tail, mem);
            && all == docs + [Record(id, before)] && WordsOf(all) == WordsOf(docs)
            && forall w :: IdsOf(all, w) == if w in before then IdsOf(docs, w) + {id} else IdsOf(docs, w)
  {
    var id, before, all := DecodeLE(tail), docs[|docs| - 1].items, Documents(docs, tail, mem);
    assert tail[..8] == tail;
    assert docs[|docs| - 1] in docs;
    forall w
      ensures IdsOf(all, w) == if w in before then IdsOf(docs, w) + {id} else IdsOf(docs, w)
    {
      IdsOfConcat(docs, [Record(id, before)], w);
      OneDocument(id, before);
    }
    assert WordsOf(all) == WordsOf(docs) + WordsOf([Record(id, before)]) by { IdsOfConcat(docs, [Record(id, before)], 0); }
  }

  /** A file that ends among the words of a document: those that are complete are listed, and for the
      others, as many as the count says, what the buffer holds. */
  lemma CutWordsAreListed(docs: seq<Record>, tail: seq<Byte>, mem: Memory)
    requires |tail| >= 12
    ensures var all, n := Documents(docs, tail, mem), DecodeLE(tail[8..12]);
            |all| == |docs| + 1 && all[|docs|].key == DecodeLE(tail[..8]) && |all[|docs|].items| == n
    ensures var ws := Documents(docs, tail, mem)[|docs|].items;
            forall j :: 0 <= j < |ws| ==>
              ws[j] == if 20 + 8 * j <= |tail| then DecodeLE(tail[12 + 8 * j..20 + 8 * j]) else mem.words(j)
  {
    var ws := Documents(docs, tail, mem)[|docs|].items;
    forall j | 0 <= j < |ws|
      ensures ws[j] == if 20 + 8 * j <= |tail| then DecodeLE(tail[12 + 8 * j..20 + 8 * j]) else mem.words(j)
    {
      assert ws[j] == WordAt(tail, 12, j, mem);
    }
  }
}
