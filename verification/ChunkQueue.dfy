/**
  The send queue of one client, as a value: bytes in chunks of 1024, read from `begOffset` in the
  first chunk and written at `endOffset` in the last one.

  A frame that ends exactly where a new chunk ends leaves `endOffset` unchanged.  The next frame then
  lands on top of queued bytes unless the queue has been emptied before.  `Synced` is the exact
  condition under which adding keeps first-in-first-out order.
 */
module ChunkQueue {
  import opened Bytes
  import opened Framing

  const CHUNK: nat := 1024

  /** `store` is the concatenation of all chunks. */
  datatype Chunked = Chunked(store: seq<Byte>, count: nat, begOffset: nat, endOffset: nat)

  const EmptyQueue := Chunked([], 0, 0, 0)

  function RoundUp(n: nat): (r: nat)
    ensures r % CHUNK == 0 && n <= r < n + CHUNK
  {
    (n + CHUNK - 1) / CHUNK * CHUNK
  }

  /** The queued bytes lie in the chunks and reach into the last one; where that is not at
      `endOffset`, they reach to the end of the chunk. */
  ghost predicate Readable(q: Chunked) {
    |q.store| % CHUNK == 0 && q.begOffset < CHUNK && q.endOffset <= CHUNK &&
    if q.store == [] then q.count == 0 && q.begOffset == 0
    else |q.store| - CHUNK < q.begOffset + q.count <= |q.store| &&
         (|q.store| - CHUNK + q.endOffset == q.begOffset + q.count || |q.store| == q.begOffset + q.count)
  }

  ghost function Contents(q: Chunked): seq<Byte>
    requires Readable(q)
  {
    q.store[q.begOffset..q.begOffset + q.count]
  }

  /** Where the next frame is written. */
  ghost function WriteAt(q: Chunked): nat
    requires |q.store| % CHUNK == 0
  {
    if q.store == [] then 0 else |q.store| - CHUNK + q.endOffset
  }

  /** The next frame goes right behind the queued bytes. */
  ghost predicate Synced(q: Chunked)
    requires Readable(q)
  {
    WriteAt(q) == q.begOffset + q.count
  }

  /** Adding `n` bytes fills a new chunk to its end and forgets to say so. */
  ghost predicate Strands(q: Chunked, n: nat)
    requires |q.store| % CHUNK == 0
  {
    WriteAt(q) + n > |q.store| && (WriteAt(q) + n) % CHUNK == 0 && q.endOffset != CHUNK
  }

  /** What add_message does with frame `f`; the unused part of a new chunk is arbitrary. */
  ghost predicate Added(q: Chunked, f: seq<Byte>, q': Chunked) {
    |q.store| % CHUNK == 0 && q.endOffset <= CHUNK && |q'.store| % CHUNK == 0 &&
    var at := WriteAt(q);
    (if at + |f| <= |q.store| then |q'.store| == |q.store| else |q'.store| - CHUNK < at + |f| <= |q'.store|) &&
    q'.store[..at] == q.store[..at] &&
    q'.store[at..at + |f|] == f &&
    (forall i :: at + |f| <= i < |q.store| ==> q'.store[i] == q.store[i]) &&
    q'.count == q.count + |f| &&
    q'.begOffset == q.begOffset &&
    q'.endOffset == if at + |f| <= |q.store| then q.endOffset + |f|
                    else if at + |f| == |q'.store| then q.endOffset
                    else at + |f| - (|q'.store| - CHUNK)
  }

  /** What erase does. */
  function Erased(q: Chunked, n: nat): Chunked
    requires n <= q.count && n <= CHUNK && q.begOffset < CHUNK && (q.begOffset + n >= CHUNK ==> |q.store| >= CHUNK)
  {
    if q.begOffset + n < CHUNK then q.(begOffset := q.begOffset + n, count := q.count - n)
    else q.(store := q.store[CHUNK..], begOffset := q.begOffset + n - CHUNK, count := q.count - n)
  }

  /** In order, the frame is appended, and order is kept exactly when the frame does not strand the queue. */
  lemma AddInOrder(q: Chunked, f: seq<Byte>, q': Chunked)
    requires Readable(q) && Synced(q) && Added(q, f, q') && f != []
    ensures Readable(q') && Contents(q') == Contents(q) + f
    ensures Synced(q') <==> !Strands(q, |f|)
  {
    AddedBytes(q, f, q');
    AddedLayout(q, f, q');
  }

  lemma AddedBytes(q: Chunked, f: seq<Byte>, q': Chunked)
    requires Readable(q) && Synced(q) && Added(q, f, q')
    ensures q'.begOffset + q'.count <= |q'.store|
    ensures q'.store[q'.begOffset..q'.begOffset + q'.count] == Contents(q) + f
  {
  }

  lemma AddedLayout(q: Chunked, f: seq<Byte>, q': Chunked)
    requires Readable(q) && Synced(q) && Added(q, f, q') && f != []
    ensures Readable(q')
    ensures Synced(q') <==> !Strands(q, |f|)
  {
  }

  /** Taking bytes off the front: any number the socket accepted, never more than one chunk.  A stranded
      queue recovers exactly when it is emptied. */
  lemma EraseFront(q: Chunked, n: nat)
    requires Readable(q) && n <= q.count && n <= CHUNK
    ensures q.begOffset + n >= CHUNK ==> |q.store| >= CHUNK
    ensures Readable(Erased(q, n)) && Contents(Erased(q, n)) == Contents(q)[n..]
    ensures Synced(Erased(q, n)) <==> Synced(q) || n == q.count
  {
    var q', all := Erased(q, n), Contents(q);
    forall i | 0 <= i < q.count - n
      ensures Readable(q') && q'.begOffset + q'.count <= |q'.store| && Contents(q')[i] == all[n..][i]
    {
    }
  }

  /** The result of adding `f` when the fresh memory of new chunks holds `fill`. */
  ghost function AddFilled(q: Chunked, f: seq<Byte>, fill: Byte): (q': Chunked)
    requires Readable(q)
    ensures Added(q, f, q')
    ensures forall i :: WriteAt(q) + |f| <= i < |q'.store| ==> q'.store[i] == if i < |q.store| then q.store[i] else fill
  {
    var at, end := WriteAt(q), WriteAt(q) + |f|;
    var size := if end <= |q.store| then |q.store| else RoundUp(end);
    var store := seq(size, i requires 0 <= i < size =>
      if at <= i < end then f[i - at] else if i < |q.store| then q.store[i] else fill);
    assert store[at..end] == f;
    assert store[..at] == q.store[..at];
    Chunked(store, q.count + |f|, q.begOffset,
            if end <= |q.store| then q.endOffset + |f| else if end == size then q.endOffset else end - (size - CHUNK))
  }

  ghost predicate Appends(q: Chunked, f: seq<Byte>, q': Chunked)
    requires Readable(q)
  {
    Readable(q') && Contents(q') == Contents(q) + f
  }

  /** A byte that is not the last one of the frame. */
  ghost function Unlike(f: seq<Byte>): Byte
    requires f != []
  {
    if f[|f| - 1] == 0 then 1 else 0
  }

  /** Where the last byte of the frame ought to be there is fresh memory. */
  lemma UnsyncedDamages(q: Chunked, f: seq<Byte>)
    requires Readable(q) && !Synced(q) && f != []
    ensures !Appends(q, f, AddFilled(q, f, Unlike(f)))
  {
    var q' := AddFilled(q, f, Unlike(f));
    if Readable(q') {
      assert Contents(q')[q.count + |f| - 1] == q'.store[|q.store| + |f| - 1] == Unlike(f);
      assert (Contents(q) + f)[q.count + |f| - 1] == f[|f| - 1];
    }
  }

  /** Of every single frame: it is appended in order, whatever the fresh memory holds, exactly when the
      queue is synced. */
  lemma AppendsExactlyWhenSynced(q: Chunked, f: seq<Byte>)
    requires Readable(q) && f != []
    ensures Synced(q) <==> forall q' :: Added(q, f, q') ==> Appends(q, f, q')
  {
    if Synced(q) {
      forall q' | Added(q, f, q')
        ensures Appends(q, f, q')
      {
        AddInOrder(q, f, q');
      }
    } else {
      UnsyncedDamages(q, f);
    }
  }

  /** The first frame always comes out right; it strands the queue when it fills its chunks exactly. */
  lemma FirstFrame(f: seq<Byte>, q: Chunked)
    requires f != [] && Added(EmptyQueue, f, q)
    ensures Readable(q) && Contents(q) == f && q.count == |f| && q.begOffset == 0
    ensures Synced(q) <==> |f| % CHUNK != 0
    ensures |f| == CHUNK ==> |q.store| == CHUNK && q.endOffset == 0
  {
  }

  /** A first message of 1020 bytes strands an empty queue; any next message of up to 1020 bytes then
      makes the counter exceed the bytes that are stored. */
  lemma StrandedExample(first: Message, second: Message, q1: Chunked, q2: Chunked)
    requires |first| == 1020 && |second| <= 1020
    requires Added(EmptyQueue, Frame(first), q1) && Added(q1, Frame(second), q2)
    ensures Readable(q1) && Contents(q1) == Frame(first) && !Synced(q1)
    ensures !Readable(q2) && q2.begOffset + q2.count > |q2.store|
  {
  }
}
