/**
  The bytes of the index file and of the files it is made from, one by one: every number is written
  with its lowest byte first.
 */
module IndexBytes {
  import opened Bytes
  import opened RecordFile
  import opened IndexFile
  import opened IndexRead

  /** From position `at` on stand the `width` lowest digits of `n`, the lowest first. */
  ghost predicate Digits(data: seq<Byte>, at: nat, n: nat, width: nat) {
    at + width <= |data| && forall i :: 0 <= i < width ==> data[at + i] as nat == n / Pow256(i) % 256
  }

  /** A count in four bytes, and that many ids in eight bytes each. */
  ghost predicate IsList(data: seq<Byte>, at: nat, ids: seq<nat>) {
    Digits(data, at, |ids|, 4) && forall j :: 0 <= j < |ids| ==> Digits(data, at + 4 + 8 * j, ids[j], 8)
  }

  /** The whole file: slots of word and offset, a slot of zeros, and the lists one after the other. */
  ghost predicate IsIndexFile(file: seq<Byte>, index: seq<Record>, offsets: seq<nat>) {
    && |offsets| == |index| + 1 && offsets[0] == 16 * (|index| + 1) && offsets[|index|] == |file|
    && (forall k :: 0 <= k < |index| ==> offsets[k + 1] == offsets[k] + 4 + 8 * |index[k].items|)
    && (forall k :: 0 <= k < |index| ==> Digits(file, 16 * k, index[k].key, 8))
    && (forall k :: 0 <= k < |index| ==> Digits(file, 16 * k + 8, offsets[k], 8))
    && Digits(file, 16 * |index|, 0, 8) && Digits(file, 16 * |index| + 8, 0, 8)
    && forall k :: 0 <= k < |index| ==> IsList(file, offsets[k], index[k].items)
  }

  /** A file of records: each a key in eight bytes and a list. */
  ghost predicate IsRecordFile(data: seq<Byte>, rs: seq<Record>, starts: seq<nat>) {
    && |starts| == |rs| + 1 && starts[0] == 0 && starts[|rs|] == |data|
    && (forall k :: 0 <= k < |rs| ==> starts[k + 1] == starts[k] + 12 + 8 * |rs[k].items|)
    && (forall k :: 0 <= k < |rs| ==> Digits(data, starts[k], rs[k].key, 8))
    && forall k :: 0 <= k < |rs| ==> IsList(data, starts[k] + 8, rs[k].items)
  }

  lemma FieldDigits(data: seq<Byte>, at: nat, n: nat, width: nat)
    requires LiesAt(data, at, EncodeLE(n, width))
    ensures Digits(data, at, n, width)
  {
    forall i | 0 <= i < width
      ensures data[at + i] as nat == n / Pow256(i) % 256
    {
      Digit(n, width, i);
      assert data[at..at + width][i] == EncodeLE(n, width)[i];
    }
  }

  lemma ListDigits(data: seq<Byte>, at: nat, ids: seq<nat>)
    requires LiesAt(data, at, EncodeList(ids))
    ensures IsList(data, at, ids)
  {
    LiesSplit(data, at, EncodeLE(|ids|, SIZE_N), EncodeIds(ids));
    FieldDigits(data, at, |ids|, 4);
    forall j | 0 <= j < |ids|
      ensures Digits(data, at + 4 + 8 * j, ids[j], 8)
    {
      NextId(data, at + 4, ids, j, at + 4 + 8 * j);
      FieldDigits(data, at + 4 + 8 * j, ids[j], 8);
    }
  }

  /** Where the lists begin, and where the last one ends. */
  ghost function Offsets(index: seq<Record>): (os: seq<nat>)
    ensures |os| == |index| + 1
  {
    seq(|index| + 1, k requires 0 <= k <= |index| => OffsetOf(index, k))
  }

  lemma OffsetsFollow(index: seq<Record>, k: nat, next: nat)
    requires k < |index| && next == k + 1
    ensures OffsetOf(index, next) == OffsetOf(index, k) + 4 + 8 * |index[k].items|
  {
    BodySnoc(index, k);
  }

  lemma SlotDigits(index: seq<Record>, k: nat)
    requires k < |index|
    ensures Digits(FileOf(index), 16 * k, index[k].key, 8)
    ensures Digits(FileOf(index), 16 * k + 8, OffsetOf(index, k), 8)
    ensures IsList(FileOf(index), OffsetOf(index, k), index[k].items)
  {
    FileParts(index, k);
    FieldDigits(FileOf(index), 16 * k, index[k].key, 8);
    FieldDigits(FileOf(index), 16 * k + 8, OffsetOf(index, k), 8);
    ListDigits(FileOf(index), OffsetOf(index, k), index[k].items);
  }

  lemma ZeroSlot(index: seq<Record>)
    ensures Digits(FileOf(index), 16 * |index|, 0, 8) && Digits(FileOf(index), 16 * |index| + 8, 0, 8)
  {
    EndOfHeader(index);
    FieldDigits(FileOf(index), 16 * |index|, 0, 8);
    FieldDigits(FileOf(index), 16 * |index| + 8, 0, 8);
  }

  lemma FileBytes(index: seq<Record>)
    ensures IsIndexFile(FileOf(index), index, Offsets(index))
  {
    var file, os := FileOf(index), Offsets(index);
    assert index[..0] == [] && index[..|index|] == index;
    forall k | 0 <= k < |index|
      ensures os[k + 1] == os[k] + 4 + 8 * |index[k].items|
      ensures Digits(file, 16 * k, index[k].key, 8) && Digits(file, 16 * k + 8, os[k], 8)
      ensures IsList(file, os[k], index[k].items)
    {
      OffsetsFollow(index, k, k + 1);
      SlotDigits(index, k);
    }
    ZeroSlot(index);
  }

  ghost function Starts(rs: seq<Record>): (ps: seq<nat>)
    ensures |ps| == |rs| + 1
  {
    seq(|rs| + 1, k requires 0 <= k <= |rs| => |EncodeAll(rs[..k])|)
  }

  lemma RecordDigits(rs: seq<Record>, k: nat)
    requires k < |rs|
    ensures |EncodeAll(rs[..k + 1])| == |EncodeAll(rs[..k])| + 12 + 8 * |rs[k].items|
    ensures Digits(EncodeAll(rs), |EncodeAll(rs[..k])|, rs[k].key, 8)
    ensures IsList(EncodeAll(rs), |EncodeAll(rs[..k])| + 8, rs[k].items)
  {
    var data, before := EncodeAll(rs), EncodeAll(rs[..k]);
    var r, at := rs[k], |before|;
    EncodeSnoc(rs, k);
    EncodePrefix(rs, k + 1);
    assert LiesAt(data, at, Encode(r));
    LiesSplit(data, at, EncodeLE(r.key, SIZE_ID), EncodeList(r.items));
    FieldDigits(data, at, r.key, 8);
    ListDigits(data, at + 8, r.items);
  }

  lemma RecordBytes(rs: seq<Record>)
    ensures IsRecordFile(EncodeAll(rs), rs, Starts(rs))
  {
    assert rs[..0] == [] && rs[..|rs|] == rs;
    forall k | 0 <= k < |rs|
      ensures Starts(rs)[k + 1] == Starts(rs)[k] + 12 + 8 * |rs[k].items|
      ensures Digits(EncodeAll(rs), Starts(rs)[k], rs[k].key, 8)
      ensures IsList(EncodeAll(rs), Starts(rs)[k] + 8, rs[k].items)
    {
      RecordDigits(rs, k);
    }
  }
}
