/**
  Binary files of the index builder.  The input, the runs and (without the key) the final index
  consist of records: an 8-byte key, a 4-byte count and that many 8-byte items.
 */
module RecordFile {
  import opened Common
  import opened Bytes

  const SIZE_ID: nat := 8
  const SIZE_N: nat := 4

  ghost const ID_LIMIT: nat := Pow256(SIZE_ID)
  ghost const N_LIMIT: nat := Pow256(SIZE_N)

  /** A document with its words, or a word with its documents. */
  datatype Record = Record(key: nat, items: seq<nat>)

  /** The bytes that the program reserves for `n` ids: the product is computed in 32 bits. */
  function Room(n: nat): nat {
    8 * n % Pow256(SIZE_N)
  }

  /** That is enough exactly below 2^29 ids; beyond, ids are stored outside of the buffer. */
  lemma RoomSuffices(n: nat)
    ensures 8 * n <= Room(n) <==> 8 * n < N_LIMIT
  {
    if 8 * n >= N_LIMIT {
      assert Room(n) < N_LIMIT;
    }
  }

  /** The numbers of a record fit their fields, and its ids fit the buffer of the program. */
  ghost predicate Fits(r: Record) {
    r.key < ID_LIMIT && 8 * |r.items| < N_LIMIT && forall x :: x in r.items ==> x < ID_LIMIT
  }

  function EncodeIds(ids: seq<nat>): (s: seq<Byte>)
    ensures |s| == 8 * |ids|
  {
    if ids == [] then [] else EncodeIds(ids[..|ids| - 1]) + EncodeLE(ids[|ids| - 1], SIZE_ID)
  }

  /** A record without its key: what the final index stores for one word. */
  function EncodeList(ids: seq<nat>): (s: seq<Byte>)
    ensures |s| == SIZE_N + 8 * |ids|
  {
    EncodeLE(|ids|, SIZE_N) + EncodeIds(ids)
  }

  function Encode(r: Record): (s: seq<Byte>)
    ensures |s| == SIZE_ID + SIZE_N + 8 * |r.items|
  {
    EncodeLE(r.key, SIZE_ID) + EncodeList(r.items)
  }

  function EncodeAll(rs: seq<Record>): seq<Byte> {
    if rs == [] then [] else EncodeAll(rs[..|rs| - 1]) + Encode(rs[|rs| - 1])
  }

  lemma EncodeSnoc(rs: seq<Record>, k: nat)
    requires k < |rs|
    ensures EncodeAll(rs[..k + 1]) == EncodeAll(rs[..k]) + Encode(rs[k])
  {
    assert rs[..k + 1][..k] == rs[..k];
  }

  lemma IdsSnoc(ids: seq<nat>, k: nat)
    requires k < |ids|
    ensures EncodeIds(ids[..k + 1]) == EncodeIds(ids[..k]) + EncodeLE(ids[k], SIZE_ID)
  {
    assert ids[..k + 1][..k] == ids[..k];
  }

  /** Encodings of longer lists only add bytes. */
  lemma {:induction false} EncodePrefix(rs: seq<Record>, k: nat)
    requires k <= |rs|
    ensures EncodeAll(rs[..k]) <= EncodeAll(rs)
    decreases |rs| - k
  {
    if k == |rs| {
      assert rs[..k] == rs;
    } else {
      EncodeSnoc(rs, k);
      EncodePrefix(rs, k + 1);
    }
  }

  lemma {:induction false} IdsPrefix(ids: seq<nat>, k: nat)
    requires k <= |ids|
    ensures EncodeIds(ids[..k]) <= EncodeIds(ids)
    decreases |ids| - k
  {
    if k == |ids| {
      assert ids[..k] == ids;
    } else {
      IdsSnoc(ids, k);
      IdsPrefix(ids, k + 1);
    }
  }

  /** `part` lies in `data` at address `at`. */
  ghost predicate LiesAt(data: seq<Byte>, at: nat, part: seq<Byte>) {
    at + |part| <= |data| && data[at..at + |part|] == part
  }

  lemma LiesSplit(data: seq<Byte>, at: nat, a: seq<Byte>, b: seq<Byte>)
    ensures LiesAt(data, at, a + b) <==> LiesAt(data, at, a) && LiesAt(data, at + |a|, b)
  {
    if LiesAt(data, at, a + b) {
      var ab := data[at..at + |a| + |b|];
      assert a == ab[..|a|] == data[at..at + |a|];
      assert b == ab[|a|..] == data[at + |a|..at + |a| + |b|];
    }
    if LiesAt(data, at, a) && LiesAt(data, at + |a|, b) {
      assert data[at..at + |a| + |b|] == data[at..at + |a|] + data[at + |a|..at + |a| + |b|];
    }
  }

  lemma FieldAt(data: seq<Byte>, at: nat, value: nat, width: nat)
    requires value < Pow256(width)
    ensures LiesAt(data, at, EncodeLE(value, width)) ==>
              at + width <= |data| && DecodeLE(data[at..at + width]) == value
  {
    FieldRoundTrip(value, width);
  }

  /** A file that is open for reading: reads that run off the end fail. */
  class InFile {
    const data: seq<Byte>
    var pos: nat

    constructor (data: seq<Byte>)
      ensures this.data == data && pos == 0
    {
      this.data, pos := data, 0;
    }

    method ReadField(width: nat) returns (ok: bool, value: nat)
      modifies this
      ensures ok == (old(pos) + width <= |data|)
      ensures ok ==> value == DecodeLE(data[old(pos)..old(pos) + width]) && pos == old(pos) + width
      ensures !ok ==> pos == if old(pos) < |data| then |data| else old(pos)
    {
      if pos + width <= |data| {
        ok, value := true, DecodeLE(data[pos..pos + width]);
        pos := pos + width;
      } else {
        ok, value := false, 0;
        pos := if pos < |data| then |data| else pos;
      }
    }

    /** Reads one field that is known to lie at the position. */
    method ReadKnown(width: nat, ghost value: nat) returns (v: nat)
      requires LiesAt(data, pos, EncodeLE(value, width)) && value < Pow256(width)
      modifies this
      ensures v == value && pos == old(pos) + width
    {
      FieldAt(data, pos, value, width);
      var ok;
      ok, v := ReadField(width);
    }

    /** Reads a count and that many ids, which are known to be there and to fit the buffer. */
    method ReadList(ghost ids: seq<nat>) returns (got: seq<nat>)
      requires LiesAt(data, pos, EncodeList(ids)) && 8 * |ids| < N_LIMIT && forall x :: x in ids ==> x < ID_LIMIT
      modifies this
      ensures got == ids && pos == old(pos) + |EncodeList(ids)|
    {
      LiesSplit(data, pos, EncodeLE(|ids|, SIZE_N), EncodeIds(ids));
      var n := ReadKnown(SIZE_N, |ids|);
      RoomSuffices(n);
      got := ReadIds(n, Room(n), ids);
    }

    /** Reads `n` ids into a buffer of `room` bytes. */
    method ReadIds(n: nat, room: nat, ghost ids: seq<nat>) returns (got: seq<nat>)
      requires 8 * n <= room && n == |ids| && LiesAt(data, pos, EncodeIds(ids)) && forall x :: x in ids ==> x < ID_LIMIT
      modifies this
      ensures got == ids && pos == old(pos) + 8 * n
    {
      got := [];
      ghost var start := pos;
      for k := 0 to n
        invariant |got| == k && 8 * |got| <= room && pos == start + 8 * k
        invariant forall j :: 0 <= j < k ==> got[j] == ids[j]
      {
        NextId(data, start, ids, k, pos);
        assert ids[k] in ids;
        var id := ReadKnown(SIZE_ID, ids[k]);
        got := got + [id];
      }
      assert ids[..n] == ids;
    }

    /** Reads the next record, or finds that fewer bytes than a key are left. */
    method ReadRecord(ghost rs: seq<Record>, ghost k: nat, ghost tail: seq<Byte>)
      returns (ok: bool, key: nat, items: seq<nat>)
      requires data == EncodeAll(rs) + tail && |tail| < SIZE_ID && forall r :: r in rs ==> Fits(r)
      requires k <= |rs| && pos == |EncodeAll(rs[..k])|
      modifies this
      ensures ok == (k < |rs|)
      ensures ok ==> key == rs[k].key && items == rs[k].items && pos == |EncodeAll(rs[..k + 1])|
      ensures !ok ==> pos == |data|
    {
      if k < |rs| {
        NextRecord(data, rs, k, tail);
      } else {
        assert rs[..k] == rs;
      }
      ok, key := ReadField(SIZE_ID);
      items := [];
      if ok {
        items := ReadList(rs[k].items);
      }
    }
  }

  lemma PrefixSplits(p: seq<Byte>, all: seq<Byte>)
    requires p <= all
    ensures all == p + all[|p|..]
  {
  }

  lemma IdsSplit(ids: seq<nat>, k: nat) returns (more: seq<Byte>)
    requires k < |ids|
    ensures EncodeIds(ids) == (EncodeIds(ids[..k]) + EncodeLE(ids[k], SIZE_ID)) + more
  {
    IdsSnoc(ids, k);
    IdsPrefix(ids, k + 1);
    PrefixSplits(EncodeIds(ids[..k + 1]), EncodeIds(ids));
    more := EncodeIds(ids)[|EncodeIds(ids[..k + 1])|..];
  }

  lemma IdsLength(ids: seq<nat>, k: nat)
    requires k <= |ids|
    ensures |EncodeIds(ids[..k])| == 8 * k
  {
  }

  lemma IdLies(data: seq<Byte>, at: nat, ids: seq<nat>, k: nat)
    requires LiesAt(data, at, EncodeIds(ids)) && k < |ids|
    ensures LiesAt(data, at + |EncodeIds(ids[..k])|, EncodeLE(ids[k], SIZE_ID))
  {
    var more := IdsSplit(ids, k);
    FieldLies(data, at, EncodeIds(ids), EncodeIds(ids[..k]), EncodeLE(ids[k], SIZE_ID), more);
  }

  lemma IdLiesThere(data: seq<Byte>, at: nat, ids: seq<nat>, k: nat, p: nat)
    requires k < |ids| && p == at + |EncodeIds(ids[..k])|
    ensures LiesAt(data, at, EncodeIds(ids)) ==> LiesAt(data, p, EncodeLE(ids[k], SIZE_ID))
  {
    if LiesAt(data, at, EncodeIds(ids)) { IdLies(data, at, ids, k); }
  }

  /** Where the k-th of the ids lies. */
  lemma NextId(data: seq<Byte>, at: nat, ids: seq<nat>, k: nat, p: nat)
    requires k < |ids| && p == at + 8 * k
    ensures LiesAt(data, at, EncodeIds(ids)) ==> LiesAt(data, p, EncodeLE(ids[k], SIZE_ID))
  {
    IdsLength(ids, k);
    IdLiesThere(data, at, ids, k, p);
  }

  lemma FieldLies(data: seq<Byte>, at: nat, all: seq<Byte>, before: seq<Byte>, field: seq<Byte>, more: seq<Byte>)
    requires LiesAt(data, at, all) && all == (before + field) + more
    ensures LiesAt(data, at + |before|, field)
  {
    LiesSplit(data, at, before + field, more);
    LiesSplit(data, at, before, field);
  }

  lemma RecordsSplit(rs: seq<Record>, k: nat, tail: seq<Byte>) returns (more: seq<Byte>)
    requires k < |rs|
    ensures EncodeAll(rs) + tail == (EncodeAll(rs[..k]) + Encode(rs[k])) + more
  {
    EncodeSnoc(rs, k);
    EncodePrefix(rs, k + 1);
    PrefixSplits(EncodeAll(rs[..k + 1]), EncodeAll(rs));
    var rest := EncodeAll(rs)[|EncodeAll(rs[..k + 1])|..];
    more := rest + tail;
    Reassociate(EncodeAll(rs[..k + 1]), rest, tail);
  }

  /** Where the k-th record of a file lies. */
  lemma NextRecord(data: seq<Byte>, rs: seq<Record>, k: nat, tail: seq<Byte>)
    requires data == EncodeAll(rs) + tail && k < |rs| && forall r :: r in rs ==> Fits(r)
    ensures var at, r := |EncodeAll(rs[..k])|, rs[k];
            && at + SIZE_ID <= |data| && DecodeLE(data[at..at + SIZE_ID]) == r.key
            && LiesAt(data, at + SIZE_ID, EncodeList(r.items)) && Fits(r)
            && |EncodeAll(rs[..k + 1])| == at + SIZE_ID + |EncodeList(r.items)|
  {
    assert rs[k] in rs;
    EncodeSnoc(rs, k);
    var more := RecordsSplit(rs, k, tail);
    RecordLies(data, EncodeAll(rs[..k]), rs[k], more);
  }

  lemma RecordLies(data: seq<Byte>, before: seq<Byte>, r: Record, more: seq<Byte>)
    requires data == (before + Encode(r)) + more && r.key < ID_LIMIT
    ensures var at := |before|;
            && at + SIZE_ID <= |data| && DecodeLE(data[at..at + SIZE_ID]) == r.key
            && LiesAt(data, at + SIZE_ID, EncodeList(r.items))
  {
    LiesSplit(data, 0, before + Encode(r), more);
    LiesSplit(data, 0, before, Encode(r));
    LiesSplit(data, |before|, EncodeLE(r.key, SIZE_ID), EncodeList(r.items));
    FieldRoundTrip(r.key, SIZE_ID);
  }
}
