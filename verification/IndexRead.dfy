/**
  Reading an index file back: the header up to the zero slot, then the lists of the first words.
  It recovers the index, unless the first word has id zero, which looks like the end of the header.
 */
module IndexRead {
  import opened Bytes
  import opened RecordFile
  import opened IndexSpec
  import opened IndexBuild
  import opened IndexFile

  /** An index whose words, lists and offsets fit their fields. */
  ghost predicate Storable(index: seq<Record>) {
    KeysAscend(index) && (forall r :: r in index ==> Fits(r)) && |FileOf(index)| <= ID_LIMIT
  }

  lemma FileParts(index: seq<Record>, k: nat)
    requires k < |index|
    ensures var file, slot := FileOf(index), SlotsOf(index)[k];
            LiesAt(file, 16 * k, EncodeLE(slot.word, SIZE_ID)) &&
            LiesAt(file, 16 * k + SIZE_ID, EncodeLE(slot.offset, SIZE_OFFSET)) &&
            LiesAt(file, slot.offset, EncodeList(index[k].items)) && slot.offset < |file|
  {
    var file, ss, body := FileOf(index), SlotsOf(index), BodyOf(index);
    SlotInHeader(ss, k);
    HeaderSlot(EncodeSlots(ss[..k]), ss[k], EncodeSlots(ss[k + 1..]), EncodeSlot(Slot(0, 0)), body);
    BodySnoc(index, k);
    BodyPrefix(index, k + 1);
    BodyPart(HeaderOf(ss), BodyOf(index[..k]), EncodeList(index[k].items), body);
  }

  lemma HeaderSlot(a: seq<Byte>, slot: Slot, b: seq<Byte>, zero: seq<Byte>, body: seq<Byte>)
    ensures var file := a + EncodeSlot(slot) + b + zero + body;
            LiesAt(file, |a|, EncodeLE(slot.word, SIZE_ID)) &&
            LiesAt(file, |a| + SIZE_ID, EncodeLE(slot.offset, SIZE_OFFSET))
  {
  }

  lemma BodyPart(header: seq<Byte>, before: seq<Byte>, list: seq<Byte>, body: seq<Byte>)
    requires before + list <= body
    ensures LiesAt(header + body, |header| + |before|, list)
  {
  }

  lemma EndOfHeader(index: seq<Record>)
    ensures LiesAt(FileOf(index), 16 * |index|, EncodeLE(0, SIZE_ID))
    ensures LiesAt(FileOf(index), 16 * |index| + SIZE_ID, EncodeLE(0, SIZE_OFFSET))
  {
  }

  /** Reads one field that is known to lie at the position. */
  method ReadKnown(file: InFile, width: nat, ghost value: nat) returns (v: nat)
    requires LiesAt(file.data, file.pos, EncodeLE(value, width)) && value < Pow256(width)
    modifies file
    ensures v == value && file.pos == old(file.pos) + width
  {
    FieldRoundTrip(value, width);
    var ok;
    ok, v := file.ReadField(width);
  }

  ghost function KeysOf(index: seq<Record>): (ks: seq<nat>)
    ensures |ks| == |index| && forall i :: 0 <= i < |index| ==> ks[i] == index[i].key
  {
    seq(|index|, i requires 0 <= i < |index| => index[i].key)
  }

  ghost function OffsetsOf(index: seq<Record>): (os: seq<nat>)
    ensures |os| == |index| && forall i :: 0 <= i < |index| ==> os[i] == OffsetOf(index, i)
  {
    seq(|index|, i requires 0 <= i < |index| => OffsetOf(index, i))
  }

  /** The first `k` words with their offsets. */
  ghost predicate HeaderRead(offsets: map<nat, nat>, ks: seq<nat>, os: seq<nat>, k: nat) {
    k <= |ks| == |os| && offsets.Keys == (set w | w in ks[..k]) && forall i :: 0 <= i < k ==> offsets[ks[i]] == os[i]
  }

  lemma HeaderNext(offsets: map<nat, nat>, ks: seq<nat>, os: seq<nat>, k: nat)
    requires HeaderRead(offsets, ks, os, k) && k < |ks| && Ascending(ks)
    ensures HeaderRead(offsets[ks[k] := os[k]], ks, os, k + 1)
  {
  }

  ghost function SlotAt(index: seq<Record>, k: nat): Slot
    requires k <= |index|
  {
    if k < |index| then Slot(index[k].key, OffsetOf(index, k)) else Slot(0, 0)
  }

  lemma SlotLies(index: seq<Record>, k: nat)
    requires Storable(index) && k <= |index|
    ensures var slot := SlotAt(index, k);
            LiesAt(FileOf(index), 16 * k, EncodeLE(slot.word, SIZE_ID)) && slot.word < ID_LIMIT &&
            LiesAt(FileOf(index), 16 * k + SIZE_ID, EncodeLE(slot.offset, SIZE_OFFSET)) && slot.offset < ID_LIMIT
  {
    if k < |index| {
      FileParts(index, k);
      assert index[k] in index;
    } else {
      EndOfHeader(index);
    }
  }

  method ReadSlot(file: InFile, ghost index: seq<Record>, ghost k: nat) returns (word: nat, offset: nat)
    requires Storable(index) && file.data == FileOf(index) && k <= |index| && file.pos == 16 * k
    modifies file
    ensures file.pos == 16 * (k + 1)
    ensures Slot(word, offset) == SlotAt(index, k)
  {
    SlotLies(index, k);
    word := ReadKnown(file, SIZE_ID, SlotAt(index, k).word);
    offset := ReadKnown(file, SIZE_OFFSET, SlotAt(index, k).offset);
  }

  /** Reads the header up to the first slot with word zero. */
  method ReadHeader(file: InFile, ghost index: seq<Record>) returns (offsets: map<nat, nat>)
    requires Storable(index) && file.data == FileOf(index) && file.pos == 0
    modifies file
    ensures HeaderRead(offsets, KeysOf(index), OffsetsOf(index), if index != [] && index[0].key == 0 then 0 else |index|)
  {
    offsets := map[];
    ghost var k := 0;
    while true
      invariant k <= |index| && file.pos == 16 * k && HeaderRead(offsets, KeysOf(index), OffsetsOf(index), k)
      invariant k > 0 ==> index[0].key != 0
      decreases |index| - k
    {
      var word, offset := ReadSlot(file, index, k);
      if word == 0 {
        break;
      }
      HeaderNext(offsets, KeysOf(index), OffsetsOf(index), k);
      offsets := offsets[word := offset];
      k := k + 1;
    }
  }

  /** Reads one list at its offset. */
  method ReadList(file: InFile, offset: nat, ghost ids: seq<nat>) returns (got: seq<nat>)
    requires LiesAt(file.data, offset, EncodeList(ids)) && 8 * |ids| < N_LIMIT && forall x :: x in ids ==> x < ID_LIMIT
    modifies file
    ensures got == ids
  {
    file.pos := offset;
    got := file.ReadList(ids);
  }

  /** Walks the words in order and reads their lists, at most `cap` of them. */
  method ShowWords(file: InFile, offsets: map<nat, nat>, cap: nat, ghost index: seq<Record>, ghost n: nat)
    returns (shown: seq<Record>)
    requires Storable(index) && file.data == FileOf(index) && n <= |index|
    requires HeaderRead(offsets, KeysOf(index), OffsetsOf(index), n) && InOrder(offsets.Keys) == KeysOf(index)[..n]
    modifies file
    ensures shown == index[..if cap < n then cap else n]
  {
    shown := [];
    var todo := offsets.Keys;
    assert KeysOf(index)[..n][0..] == KeysOf(index)[..n];
    while todo != {} && |shown| < cap
      invariant Walk(todo, shown, offsets, index, n) && |shown| <= cap
      decreases n - |shown|
    {
      todo, shown := ShowNext(file, todo, shown, offsets, index, n);
    }
    if todo == {} { assert KeysOf(index)[..n][|shown|..] == []; }
  }

  /** Shown are the first words of the index; still to do are the other words of the header. */
  ghost predicate Walk(todo: set<nat>, shown: seq<Record>, offsets: map<nat, nat>, index: seq<Record>, n: nat) {
    |shown| <= n <= |index| && todo <= offsets.Keys && shown == index[..|shown|] &&
    InOrder(todo) == KeysOf(index)[..n][|shown|..]
  }

  method ShowNext(file: InFile, todo: set<nat>, shown: seq<Record>, offsets: map<nat, nat>, ghost index: seq<Record>, ghost n: nat)
    returns (todo': set<nat>, shown': seq<Record>)
    requires Storable(index) && file.data == FileOf(index) && n <= |index|
    requires HeaderRead(offsets, KeysOf(index), OffsetsOf(index), n) && Walk(todo, shown, offsets, index, n) && todo != {}
    modifies file
    ensures Walk(todo', shown', offsets, index, n) && |shown'| == |shown| + 1
  {
    ghost var k := |shown|;
    OrderStep(todo, KeysOf(index)[..n], k);
    var w := TakeLeast(todo);
    var ids := ReadWord(file, offsets[w], index, k);
    shown' := Grow(shown, w, ids, index);
    todo' := todo - {w};
  }

  method Grow(shown: seq<Record>, w: nat, ids: seq<nat>, ghost index: seq<Record>) returns (shown': seq<Record>)
    requires |shown| < |index| && shown == index[..|shown|] && index[|shown|] == Record(w, ids)
    ensures |shown'| == |shown| + 1 && shown' == index[..|shown'|]
  {
    shown' := shown + [Record(w, ids)];
  }

  /** Shows the first `cap` words in order, each with its documents. */
  method ReadIndex(data: seq<Byte>, cap: nat, ghost index: seq<Record>) returns (shown: seq<Record>)
    requires Storable(index) && data == FileOf(index)
    ensures index == [] || index[0].key != 0 ==> shown == index[..if cap < |index| then cap else |index|]
    ensures index != [] && index[0].key == 0 ==> shown == []
  {
    var file := new InFile(data);
    var offsets := ReadHeader(file, index);
    ghost var n := if index != [] && index[0].key == 0 then 0 else |index|;
    AscendingIsUnique(KeysOf(index)[..n], offsets.Keys);
    shown := ShowWords(file, offsets, cap, index, n);
  }

  method ReadWord(file: InFile, offset: nat, ghost index: seq<Record>, ghost k: nat) returns (ids: seq<nat>)
    requires Storable(index) && file.data == FileOf(index) && k < |index| && offset == OffsetOf(index, k)
    modifies file
    ensures ids == index[k].items
  {
    FileParts(index, k);
    assert index[k] in index;
    ids := ReadList(file, offset, index[k].items);
  }
}
