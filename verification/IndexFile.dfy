/**
  The layout of the final index file: a header with one 16-byte slot (word, offset) per word and an
  all-zero slot at its end, then for every word its list of documents at the offset in its slot.
 */
module IndexFile {
  import opened Common
  import opened Bytes
  import opened RecordFile
  import opened IndexSpec
  import opened IndexBuild

  const SIZE_OFFSET: nat := 8
  const SIZE_SLOT: nat := SIZE_ID + SIZE_OFFSET

  datatype Slot = Slot(word: nat, offset: nat)

  function EncodeSlot(s: Slot): (b: seq<Byte>)
    ensures |b| == SIZE_SLOT
  {
    EncodeLE(s.word, SIZE_ID) + EncodeLE(s.offset, SIZE_OFFSET)
  }

  function EncodeSlots(ss: seq<Slot>): (b: seq<Byte>)
    ensures |b| == 16 * |ss|
  {
    if ss == [] then [] else EncodeSlots(ss[..|ss| - 1]) + EncodeSlot(ss[|ss| - 1])
  }

  ghost function BodyOf(index: seq<Record>): seq<Byte> {
    if index == [] then [] else BodyOf(index[..|index| - 1]) + EncodeList(index[|index| - 1].items)
  }

  /** Where the list of record `k` begins. */
  ghost function OffsetOf(index: seq<Record>, k: nat): nat
    requires k <= |index|
  {
    16 * (|index| + 1) + |BodyOf(index[..k])|
  }

  ghost function SlotsOf(index: seq<Record>): (ss: seq<Slot>)
    ensures |ss| == |index|
  {
    seq(|index|, i requires 0 <= i < |index| => Slot(index[i].key, OffsetOf(index, i)))
  }

  ghost function Unpatched(words: seq<nat>): (ss: seq<Slot>)
    ensures |ss| == |words|
  {
    seq(|words|, i requires 0 <= i < |words| => Slot(words[i], 0))
  }

  ghost function HeaderOf(ss: seq<Slot>): (b: seq<Byte>)
    ensures |b| == 16 * (|ss| + 1)
  {
    EncodeSlots(ss) + EncodeSlot(Slot(0, 0))
  }

  ghost function FileOf(index: seq<Record>): seq<Byte> {
    HeaderOf(SlotsOf(index)) + BodyOf(index)
  }

  lemma SlotsSnoc(ss: seq<Slot>, k: nat)
    requires k < |ss|
    ensures EncodeSlots(ss[..k + 1]) == EncodeSlots(ss[..k]) + EncodeSlot(ss[k])
  {
    assert ss[..k + 1][..k] == ss[..k];
  }

  lemma {:induction false} SlotsConcat(a: seq<Slot>, b: seq<Slot>)
    ensures EncodeSlots(a + b) == EncodeSlots(a) + EncodeSlots(b)
  {
    if b == [] {
      assert a + b == a;
    } else {
      var n := |b| - 1;
      SlotsConcat(a, b[..n]);
      assert (a + b)[..|a| + n] == a + b[..n];
      assert (a + b)[|a + b| - 1] == b[n];
    }
  }

  lemma BodySnoc(index: seq<Record>, k: nat)
    requires k < |index|
    ensures BodyOf(index[..k + 1]) == BodyOf(index[..k]) + EncodeList(index[k].items)
  {
    assert index[..k + 1][..k] == index[..k];
  }

  lemma {:induction false} BodyPrefix(index: seq<Record>, k: nat)
    requires k <= |index|
    ensures BodyOf(index[..k]) <= BodyOf(index)
    decreases |index| - k
  {
    if k == |index| {
      assert index[..k] == index;
    } else {
      BodySnoc(index, k);
      BodyPrefix(index, k + 1);
    }
  }

  /** Slot `k` in the middle of the header. */
  lemma SlotInHeader(ss: seq<Slot>, k: nat)
    requires k < |ss|
    ensures EncodeSlots(ss) == EncodeSlots(ss[..k]) + EncodeSlot(ss[k]) + EncodeSlots(ss[k + 1..])
  {
    SlotsSnoc(ss, k);
    SlotsConcat(ss[..k + 1], ss[k + 1..]);
    assert ss == ss[..k + 1] + ss[k + 1..];
  }

  /** Writes all words with offset zero, and the zero slot. */
  method SaveWordids(out: OutFile, words: set<nat>)
    requires out.data == [] && out.pos == 0
    modifies out
    ensures out.data == HeaderOf(Unpatched(InOrder(words))) && out.pos == |out.data|
  {
    ghost var q, k := InOrder(words), 0;
    ghost var ss := Unpatched(q);
    var todo := words;
    assert q[k..] == q;
    while todo != {}
      invariant k <= |q| && InOrder(todo) == q[k..]
      invariant out.data == EncodeSlots(ss[..k]) && out.pos == |out.data|
      decreases |q| - k
    {
      OrderStep(todo, q, k);
      var w := TakeLeast(todo);
      WriteSlot(out, w, 0);
      SlotsSnoc(ss, k);
      todo := todo - {w};
      k := k + 1;
    }
    assert ss[..k] == ss;
    WriteSlot(out, 0, 0);
  }

  method WriteSlot(out: OutFile, word: nat, offset: nat)
    requires out.pos == |out.data|
    modifies out
    ensures out.data == old(out.data) + EncodeSlot(Slot(word, offset)) && out.pos == |out.data|
  {
    ghost var was := out.data;
    out.Append(word, SIZE_ID);
    out.Append(offset, SIZE_OFFSET);
    Reassociate(was, EncodeLE(word, SIZE_ID), EncodeLE(offset, SIZE_OFFSET));
  }

  /** Overwriting the offset field of slot `k` changes that slot alone. */
  lemma Patch(ss: seq<Slot>, k: nat, offset: nat, rest: seq<Byte>, data: seq<Byte>, data': seq<Byte>)
    requires k < |ss| && data == EncodeSlots(ss) + rest
    requires |data'| == |data| && data'[..16 * k + SIZE_ID] == data[..16 * k + SIZE_ID]
    requires data'[16 * k + SIZE_ID..16 * (k + 1)] == EncodeLE(offset, SIZE_OFFSET)
    requires data'[16 * (k + 1)..] == data[16 * (k + 1)..]
    ensures data' == EncodeSlots(ss[k := ss[k].(offset := offset)]) + rest
  {
    var ss' := ss[k := ss[k].(offset := offset)];
    SlotInHeader(ss, k);
    SlotInHeader(ss', k);
    assert ss'[..k] == ss[..k] && ss'[k + 1..] == ss[k + 1..];
    var a, b, word := EncodeSlots(ss[..k]), EncodeSlots(ss[k + 1..]) + rest, EncodeLE(ss[k].word, SIZE_ID);
    var x, y := EncodeLE(ss[k].offset, SIZE_OFFSET), EncodeLE(offset, SIZE_OFFSET);
    ShiftBrackets(a, word, x, EncodeSlots(ss[k + 1..]), rest);
    ShiftBrackets(a, word, y, EncodeSlots(ss[k + 1..]), rest);
    ReplaceMiddle(data, data', a + word, x, y, b);
  }

  lemma ShiftBrackets(a: seq<Byte>, b: seq<Byte>, c: seq<Byte>, d: seq<Byte>, e: seq<Byte>)
    ensures a + (b + c) + d + e == (a + b) + c + (d + e)
  {
  }

  lemma ReplaceMiddle(data: seq<Byte>, data': seq<Byte>, a: seq<Byte>, x: seq<Byte>, y: seq<Byte>, b: seq<Byte>)
    requires data == a + x + b && |x| == |y| && |data'| == |data|
    requires data'[..|a|] == data[..|a|] && data'[|a|..|a| + |y|] == y && data'[|a| + |y|..] == data[|a| + |y|..]
    ensures data' == a + y + b
  {
  }

  method SaveOffset(out: OutFile, offset: nat, ghost ss: seq<Slot>, ghost k: nat, ghost rest: seq<Byte>)
    requires k < |ss| && out.data == EncodeSlots(ss) + rest && out.pos == 16 * k
    modifies out
    ensures out.data == EncodeSlots(ss[k := ss[k].(offset := offset)]) + rest
    ensures out.pos == 16 * (k + 1)
  {
    ghost var was := out.data;
    out.pos := out.pos + SIZE_ID;
    out.WriteField(offset, SIZE_OFFSET);
    Patch(ss, k, offset, rest, was, out.data);
  }

  /** Slots of which the first `k` have been patched. */
  ghost function PatchedTo(words: seq<nat>, offsets: map<nat, nat>, k: nat): (ss: seq<Slot>)
    ensures |ss| == |words|
  {
    seq(|words|, i requires 0 <= i < |words| =>
      Slot(words[i], if i < k && words[i] in offsets then offsets[words[i]] else 0))
  }

  /** Walks the header and the offsets side by side.  Where the words with an offset are the first words
      of the header, each slot receives the offset of its own word. */
  method SaveOffsets(out: OutFile, offsets: map<nat, nat>, ghost words: seq<nat>, ghost rest: seq<Byte>)
    requires InOrder(offsets.Keys) <= words && out.data == EncodeSlots(Unpatched(words)) + rest
    modifies out
    ensures out.data == EncodeSlots(PatchedTo(words, offsets, |offsets|)) + rest
  {
    out.pos := 0;
    ghost var q, k := InOrder(offsets.Keys), 0;
    var todo := offsets.Keys;
    assert q[k..] == q && PatchedTo(words, offsets, 0) == Unpatched(words);
    while todo != {}
      invariant k <= |q| && InOrder(todo) == q[k..] && todo <= offsets.Keys
      invariant out.data == EncodeSlots(PatchedTo(words, offsets, k)) + rest && out.pos == 16 * k
      decreases |q| - k
    {
      OrderStep(todo, q, k);
      var w := TakeLeast(todo);
      SaveOffset(out, offsets[w], PatchedTo(words, offsets, k), k, rest);
      PatchedNext(words, offsets, k);
      todo := todo - {w};
      k := k + 1;
    }
    assert |offsets| == |offsets.Keys|;
  }

  lemma PatchedNext(words: seq<nat>, offsets: map<nat, nat>, k: nat)
    requires k < |words| && words[k] in offsets
    ensures var ss := PatchedTo(words, offsets, k);
            ss[k := ss[k].(offset := offsets[words[k]])] == PatchedTo(words, offsets, k + 1)
  {
  }
}
