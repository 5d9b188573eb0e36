/**
  Reading the input of the index builder.  A file may end inside of a record: the program does not look
  at the result of its later reads and goes on with what its variables and its buffer happen to hold.
 */
module IndexInput {
  import opened Common
  import opened Bytes
  import opened RecordFile

  /** What the memory holds that no read has filled: a count, and the words of the buffer. */
  datatype Memory = Memory(n: nat, words: nat -> nat)

  function Leftover(mem: Memory): seq<nat> {
    seq(mem.n, j requires 0 <= j < mem.n => mem.words(j))
  }

  /** The j-th word behind position `at`, or what the buffer holds there. */
  function WordAt(data: seq<Byte>, at: nat, j: nat, mem: Memory): nat {
    if at + 8 * j + SIZE_ID <= |data| then DecodeLE(data[at + 8 * j..at + 8 * j + SIZE_ID]) else mem.words(j)
  }

  /** The words that the program takes for those of the document whose id ends at `at`.  At the end of the
      file the count and the buffer are still those of the document before. */
  function WordsAfter(data: seq<Byte>, at: nat, last: seq<nat>, mem: Memory): seq<nat>
    requires at <= |data|
  {
    if at == |data| then last
    else if at + SIZE_N > |data| then Leftover(mem)
    else
      var n := DecodeLE(data[at..at + SIZE_N]);
      seq(n, j requires 0 <= j < n => WordAt(data, at + SIZE_N, j, mem))
  }

  /** The bytes end before a record does. */
  ghost predicate Cut(tail: seq<Byte>) {
    SIZE_ID + SIZE_N <= |tail| ==> |tail| < SIZE_ID + SIZE_N + 8 * DecodeLE(tail[SIZE_ID..SIZE_ID + SIZE_N])
  }

  function LastWords(docs: seq<Record>, mem: Memory): seq<nat> {
    if docs == [] then Leftover(mem) else docs[|docs| - 1].items
  }

  /** All documents that the program finds in a file: the complete ones, and a last one if its id is there. */
  function Documents(docs: seq<Record>, tail: seq<Byte>, mem: Memory): (all: seq<Record>)
    ensures docs <= all && |all| <= |docs| + 1
  {
    if |tail| < SIZE_ID then docs
    else docs + [Record(DecodeLE(tail[..SIZE_ID]), WordsAfter(tail, SIZE_ID, LastWords(docs, mem), mem))]
  }

  // ---------------------------------------------------------------- every file is such an input

  lemma {:induction false} EncodeCons(r: Record, rs: seq<Record>)
    ensures EncodeAll([r] + rs) == Encode(r) + EncodeAll(rs)
  {
    var all := [r] + rs;
    if rs == [] {
      assert all[..0] == [];
      assert EncodeAll(all) == [] + Encode(r) == Encode(r) + [];
    } else {
      var n := |rs| - 1;
      EncodeCons(r, rs[..n]);
      assert all[..n + 1] == [r] + rs[..n] && all[n + 1] == rs[n];
      Reassociate(Encode(r), EncodeAll(rs[..n]), Encode(rs[n]));
    }
  }

  lemma {:induction false} IdsSplits(data: seq<Byte>, n: nat) returns (ids: seq<nat>)
    requires |data| == 8 * n
    ensures |ids| == n && EncodeIds(ids) == data && forall x :: x in ids ==> x < ID_LIMIT
  {
    if n == 0 {
      ids := [];
    } else {
      var init, field := data[..8 * (n - 1)], data[8 * (n - 1)..];
      var before := IdsSplits(init, n - 1);
      BytesRoundTrip(field);
      ids := before + [DecodeLE(field)];
      assert ids[..n - 1] == before && data == init + field;
    }
  }

  lemma RecordSplits(data: seq<Byte>) returns (r: Record, rest: seq<Byte>)
    requires !Cut(data)
    ensures data == Encode(r) + rest && r.key < ID_LIMIT && |r.items| < N_LIMIT && forall x :: x in r.items ==> x < ID_LIMIT
  {
    var key, count, more := data[..SIZE_ID], data[SIZE_ID..SIZE_ID + SIZE_N], data[SIZE_ID + SIZE_N..];
    BytesRoundTrip(key);
    BytesRoundTrip(count);
    var n := DecodeLE(count);
    var ids := IdsSplits(more[..8 * n], n);
    r, rest := Record(DecodeLE(key), ids), more[8 * n..];
    assert more == EncodeIds(ids) + rest;
    assert data == key + (count + (EncodeIds(ids) + rest));
    assert Encode(r) == key + (count + EncodeIds(ids));
  }

  /** Any bytes whatsoever are records followed by the beginning of one. */
  lemma {:induction false} EveryInput(data: seq<Byte>) returns (docs: seq<Record>, tail: seq<Byte>)
    ensures data == EncodeAll(docs) + tail && Cut(tail)
    ensures forall d :: d in docs ==> d.key < ID_LIMIT && |d.items| < N_LIMIT && forall x :: x in d.items ==> x < ID_LIMIT
    decreases |data|
  {
    if Cut(data) {
      docs, tail := [], data;
      assert [] + tail == tail;
    } else {
      var r, rest := RecordSplits(data);
      var more;
      more, tail := EveryInput(rest);
      docs := [r] + more;
      EncodeCons(r, more);
      Reassociate(Encode(r), EncodeAll(more), tail);
    }
  }

  // ---------------------------------------------------------------- reading one document

  /** Reads `n` words into a buffer of `room` bytes that is not cleared before. */
  method ReadWords(file: InFile, n: nat, room: nat, mem: Memory) returns (ws: seq<nat>)
    requires 8 * n <= room && file.pos <= |file.data|
    modifies file
    ensures |ws| == n && forall j :: 0 <= j < n ==> ws[j] == WordAt(file.data, old(file.pos), j, mem)
    ensures file.pos == if old(file.pos) + 8 * n <= |file.data| then old(file.pos) + 8 * n else |file.data|
  {
    ws := [];
    ghost var start := file.pos;
    for k := 0 to n
      invariant |ws| == k && forall j :: 0 <= j < k ==> ws[j] == WordAt(file.data, start, j, mem)
      invariant file.pos == if start + 8 * k <= |file.data| then start + 8 * k else |file.data|
    {
      var ok, w := file.ReadField(SIZE_ID);
      ws := ws + [if ok then w else mem.words(k)];
    }
  }

  /** Reads a document: only the read of its id is checked.  `last` are the words of the one before. */
  method ReadDocument(file: InFile, last: seq<nat>, mem: Memory) returns (ok: bool, id: nat, ws: seq<nat>)
    requires file.pos <= |file.data|
    requires file.pos + SIZE_ID <= |file.data| ==> 8 * |WordsAfter(file.data, file.pos + SIZE_ID, last, mem)| < N_LIMIT
    modifies file
    ensures ok == (old(file.pos) + SIZE_ID <= |file.data|) && file.pos <= |file.data|
    ensures ok ==> id == DecodeLE(file.data[old(file.pos)..old(file.pos) + SIZE_ID])
    ensures ok ==> ws == WordsAfter(file.data, old(file.pos) + SIZE_ID, last, mem)
    ensures ok ==> file.pos == EndOfWords(file.data, old(file.pos) + SIZE_ID)
  {
    ok, id := file.ReadField(SIZE_ID);
    ws := last;
    if ok && file.pos < |file.data| {
      var okN, n := file.ReadField(SIZE_N);
      if okN {
        RoomSuffices(n);
        ws := ReadWords(file, n, Room(n), mem);
      } else {
        ws := Leftover(mem);
      }
    }
  }

  /** Where the file stands after that. */
  function EndOfWords(data: seq<Byte>, at: nat): (p: nat)
    requires at <= |data|
    ensures at <= p <= |data|
  {
    if at + SIZE_N > |data| then |data|
    else
      var p := at + SIZE_N + 8 * DecodeLE(data[at..at + SIZE_N]);
      if p <= |data| then p else |data|
  }

  lemma FieldThenRest(data: seq<Byte>, at: nat, value: nat, width: nat, rest: seq<Byte>)
    requires value < Pow256(width)
    ensures LiesAt(data, at, EncodeLE(value, width) + rest) ==>
              at + width <= |data| && DecodeLE(data[at..at + width]) == value && LiesAt(data, at + width, rest)
  {
    LiesSplit(data, at, EncodeLE(value, width), rest);
    FieldAt(data, at, value, width);
  }

  lemma CountLies(data: seq<Byte>, at: nat, ids: seq<nat>)
    requires |ids| < Pow256(SIZE_N)
    ensures LiesAt(data, at, EncodeList(ids)) ==>
              at + SIZE_N <= |data| && DecodeLE(data[at..at + SIZE_N]) == |ids| && LiesAt(data, at + SIZE_N, EncodeIds(ids))
  {
    FieldThenRest(data, at, |ids|, SIZE_N, EncodeIds(ids));
  }

  lemma WordLies(data: seq<Byte>, at: nat, ids: seq<nat>, j: nat, mem: Memory)
    requires j < |ids| && ids[j] < Pow256(SIZE_ID)
    ensures LiesAt(data, at, EncodeIds(ids)) ==> WordAt(data, at, j, mem) == ids[j]
  {
    NextId(data, at, ids, j, at + 8 * j);
    FieldAt(data, at + 8 * j, ids[j], SIZE_ID);
  }

  /** A complete record gives its own words. */
  lemma CompleteWords(data: seq<Byte>, at: nat, ids: seq<nat>, last: seq<nat>, mem: Memory)
    requires LiesAt(data, at, EncodeList(ids)) && 8 * |ids| < N_LIMIT && forall x :: x in ids ==> x < ID_LIMIT
    ensures WordsAfter(data, at, last, mem) == ids && EndOfWords(data, at) == at + |EncodeList(ids)|
  {
    CountLies(data, at, ids);
    forall j | 0 <= j < |ids|
      ensures WordAt(data, at + SIZE_N, j, mem) == ids[j]
    {
      assert ids[j] in ids;
      WordLies(data, at + SIZE_N, ids, j, mem);
    }
  }

  lemma SliceBehind(before: seq<Byte>, tail: seq<Byte>, i: nat, j: nat)
    requires i <= j <= |tail|
    ensures (before + tail)[|before| + i..|before| + j] == tail[i..j]
  {
  }

  lemma WordBehind(before: seq<Byte>, tail: seq<Byte>, at: nat, j: nat, mem: Memory)
    ensures WordAt(before + tail, |before| + at, j, mem) == WordAt(tail, at, j, mem)
  {
    if at + 8 * j + SIZE_ID <= |tail| {
      SliceBehind(before, tail, at + 8 * j, at + 8 * j + SIZE_ID);
    }
  }

  /** The words of a record that is cut off do not depend on what stands before it. */
  lemma CutWords(before: seq<Byte>, tail: seq<Byte>, last: seq<nat>, mem: Memory)
    requires |tail| >= SIZE_ID && Cut(tail)
    ensures WordsAfter(before + tail, |before| + SIZE_ID, last, mem) == WordsAfter(tail, SIZE_ID, last, mem)
    ensures EndOfWords(before + tail, |before| + SIZE_ID) == |before| + |tail|
  {
    if SIZE_ID + SIZE_N <= |tail| {
      SliceBehind(before, tail, SIZE_ID, SIZE_ID + SIZE_N);
      var n, all, at := DecodeLE(tail[SIZE_ID..SIZE_ID + SIZE_N]), before + tail, |before| + SIZE_ID + SIZE_N;
      forall j | 0 <= j < n
        ensures WordAt(all, at, j, mem) == WordAt(tail, SIZE_ID + SIZE_N, j, mem)
      {
        WordBehind(before, tail, SIZE_ID + SIZE_N, j, mem);
      }
    }
  }

  // ---------------------------------------------------------------- reading all documents

  /** Where the k-th document begins. */
  ghost function DocumentAt(docs: seq<Record>, tail: seq<Byte>, k: nat): nat {
    if k <= |docs| then |EncodeAll(docs[..k])| else |EncodeAll(docs)| + |tail|
  }

  ghost predicate Input(data: seq<Byte>, docs: seq<Record>, tail: seq<Byte>, mem: Memory) {
    data == EncodeAll(docs) + tail && Cut(tail) && forall d :: d in Documents(docs, tail, mem) ==> Fits(d)
  }

  lemma CompleteNext(data: seq<Byte>, docs: seq<Record>, tail: seq<Byte>, mem: Memory, k: nat, last: seq<nat>)
    requires Input(data, docs, tail, mem) && k < |docs|
    ensures var at, d := DocumentAt(docs, tail, k), docs[k];
            && at + SIZE_ID <= |data| && DecodeLE(data[at..at + SIZE_ID]) == d.key
            && WordsAfter(data, at + SIZE_ID, last, mem) == d.items && Fits(d)
            && EndOfWords(data, at + SIZE_ID) == DocumentAt(docs, tail, k + 1)
  {
    assert forall d :: d in docs ==> d in Documents(docs, tail, mem);
    NextRecord(data, docs, k, tail);
    CompleteWords(data, DocumentAt(docs, tail, k) + SIZE_ID, docs[k].items, last, mem);
  }

  lemma CutNext(data: seq<Byte>, docs: seq<Record>, tail: seq<Byte>, mem: Memory)
    requires Input(data, docs, tail, mem) && |tail| >= SIZE_ID
    ensures var at, d, last := DocumentAt(docs, tail, |docs|), Documents(docs, tail, mem)[|docs|], LastWords(docs, mem);
            && at + SIZE_ID <= |data| && DecodeLE(data[at..at + SIZE_ID]) == d.key
            && WordsAfter(data, at + SIZE_ID, last, mem) == d.items && Fits(d)
            && EndOfWords(data, at + SIZE_ID) == |data|
  {
    assert docs[..|docs|] == docs;
    assert Documents(docs, tail, mem)[|docs|] in Documents(docs, tail, mem);
    SliceBehind(EncodeAll(docs), tail, 0, SIZE_ID);
    CutWords(EncodeAll(docs), tail, LastWords(docs, mem), mem);
  }

  /** Reads the next document, or finds that there is none. */
  method NextDocument(file: InFile, last: seq<nat>, mem: Memory, ghost docs: seq<Record>, ghost tail: seq<Byte>, ghost k: nat)
    returns (ok: bool, id: nat, ws: seq<nat>)
    requires Input(file.data, docs, tail, mem) && k <= |Documents(docs, tail, mem)|
    requires file.pos == DocumentAt(docs, tail, k) && last == LastWords(Documents(docs, tail, mem)[..k], mem)
    modifies file
    ensures ok == (k < |Documents(docs, tail, mem)|)
    ensures ok ==> Documents(docs, tail, mem)[k] == Record(id, ws) && file.pos == DocumentAt(docs, tail, k + 1)
  {
    ghost var all := Documents(docs, tail, mem);
    if k < |docs| {
      CompleteNext(file.data, docs, tail, mem, k, last);
      assert all[k] == docs[k];
    } else if k < |all| {
      CutNext(file.data, docs, tail, mem);
      assert all[..k] == docs;
    } else {
      assert docs[..|docs|] == docs;
    }
    ok, id, ws := ReadDocument(file, last, mem);
  }
}
