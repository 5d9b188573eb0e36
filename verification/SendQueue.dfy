/**
  The send queues of the chat server: the chunked byte queue of one client, and the table of queues
  that a broadcast goes through.  Their meaning is given by the values of `ChunkQueue`.
 */
module SendQueue {
  import opened Common
  import opened Bytes
  import opened Framing
  import opened ChunkQueue

  /** The bytes of all chunks. */
  ghost function Flat(bs: seq<array<Byte>>): seq<Byte>
    reads bs
  {
    if bs == [] then [] else bs[0][..] + Flat(bs[1..])
  }

  lemma {:induction false} FlatSnoc(bs: seq<array<Byte>>, a: array<Byte>)
    ensures Flat(bs + [a]) == Flat(bs) + a[..]
  {
    if bs == [] {
      assert bs + [a] == [a] && [a][1..] == [];
    } else {
      FlatSnoc(bs[1..], a);
      assert (bs + [a])[1..] == bs[1..] + [a];
    }
  }

  lemma {:induction false} FlatLength(bs: seq<array<Byte>>)
    requires forall i :: 0 <= i < |bs| ==> bs[i].Length == CHUNK
    ensures |Flat(bs)| == CHUNK * |bs| && |Flat(bs)| % CHUNK == 0
  {
    if bs != [] {
      FlatLength(bs[1..]);
    }
  }

  lemma FlatLast(bs: seq<array<Byte>>)
    requires bs != []
    ensures Flat(bs) == Flat(bs[..|bs| - 1]) + bs[|bs| - 1][..]
  {
    assert bs == bs[..|bs| - 1] + [bs[|bs| - 1]];
    FlatSnoc(bs[..|bs| - 1], bs[|bs| - 1]);
  }

  lemma OverwrittenTail(init: seq<Byte>, tail: seq<Byte>, at: nat, f: seq<Byte>)
    requires at + |f| <= |tail|
    ensures Overwritten(init + tail, |init| + at, f) == init + (tail[..at] + f + tail[at + |f|..])
  {
  }

  lemma SliceOfFirst(a: seq<Byte>, rest: seq<Byte>, b: nat, n: nat)
    requires b + n <= |a|
    ensures (a + rest)[b..b + n] == a[b..b + n]
  {
  }

  lemma SliceOfTwo(a: seq<Byte>, c: seq<Byte>, rest: seq<Byte>, b: nat, n: nat)
    requires b <= |a| <= b + n <= |a| + |c|
    ensures (a + (c + rest))[b..b + n] == a[b..] + c[..n - (|a| - b)]
  {
  }

  lemma FrontOf(s: seq<Byte>, chunk: seq<Byte>, piece: seq<Byte>)
    requires |s| % CHUNK == 0 && |chunk| == CHUNK && |piece| <= CHUNK && forall i :: 0 <= i < |piece| ==> chunk[i] == piece[i]
    ensures (s + chunk)[..|s| + |piece|] == s + piece && |s + chunk| % CHUNK == 0
  {
  }

  lemma PrefixOfPrefix(s: seq<Byte>, m: nat, n: nat)
    requires n <= m <= |s|
    ensures s[..m][..n] == s[..n]
  {
  }

  lemma SlicePrefix(s: seq<Byte>, b: nat, m: nat, n: nat)
    requires n <= m && b + m <= |s|
    ensures s[b..b + m][..n] == s[b..b + n]
  {
  }

  class MessageForSend {
    var bitlist: seq<array<Byte>>
    var count: nat
    var begOffset: nat
    var endOffset: nat
    var needWrite: bool

    ghost predicate Shaped()
      reads this
    {
      endOffset <= CHUNK &&
      (forall i :: 0 <= i < |bitlist| ==> bitlist[i].Length == CHUNK) &&
      (forall i, j :: 0 <= i < j < |bitlist| ==> bitlist[i] != bitlist[j])
    }

    ghost function Value(): Chunked
      reads this, bitlist
    {
      Chunked(Flat(bitlist), count, begOffset, endOffset)
    }

    ghost predicate Valid()
      reads this, bitlist
    {
      Shaped() && Readable(Value())
    }

    constructor ()
      ensures Valid() && Value() == EmptyQueue && bitlist == [] && !needWrite
    {
      bitlist, count, begOffset, endOffset, needWrite := [], 0, 0, 0, false;
    }

    /** Copies `piece` into the last chunk, behind `endOffset`. */
    method FillLast(piece: seq<Byte>)
      requires Shaped() && bitlist != [] && endOffset + |piece| <= CHUNK
      modifies bitlist
      ensures |Flat(bitlist)| == |old(Flat(bitlist))| == CHUNK * |bitlist|
      ensures Flat(bitlist) == Overwritten(old(Flat(bitlist)), CHUNK * (|bitlist| - 1) + endOffset, piece)
    {
      var n := |bitlist|;
      ghost var init, s := Flat(bitlist[..n - 1]), Flat(bitlist);
      FlatLast(bitlist);
      FlatLength(bitlist);
      FlatLength(bitlist[..n - 1]);
      var last := bitlist[n - 1];
      ghost var was := last[..];
      forall i | 0 <= i < |piece| {
        last[endOffset + i] := piece[i];
      }
      assert last[..] == was[..endOffset] + piece + was[endOffset + |piece|..];
      OverwrittenTail(init, was, endOffset, piece);
      assert Flat(bitlist[..n - 1]) == init;
      FlatLast(bitlist);
      FlatLength(bitlist);
    }

    /** Appends a new chunk that begins with `piece`. */
    method PushChunk(piece: seq<Byte>)
      requires Shaped() && |piece| <= CHUNK
      modifies `bitlist
      ensures Shaped() && |bitlist| == |old(bitlist)| + 1 && bitlist[..|old(bitlist)|] == old(bitlist)
      ensures fresh(bitlist[|old(bitlist)|])
      ensures |Flat(bitlist)| == |old(Flat(bitlist))| + CHUNK && |Flat(bitlist)| % CHUNK == 0
      ensures Flat(bitlist)[..|old(Flat(bitlist))| + |piece|] == old(Flat(bitlist)) + piece
    {
      var tmp := new Byte[CHUNK];
      forall i | 0 <= i < |piece| {
        tmp[i] := piece[i];
      }
      FlatSnoc(bitlist, tmp);
      FlatLength(bitlist);
      FrontOf(Flat(bitlist), tmp[..], piece);
      bitlist := bitlist + [tmp];
      assert Flat(bitlist) == old(Flat(bitlist)) + tmp[..];
    }

    /** The part of the frame that goes into the last chunk; `offset` bytes of it are then stored. */
    method AddToLast(frame: seq<Byte>) returns (offset: nat)
      requires Shaped() && frame != []
      modifies `endOffset, bitlist
      ensures Shaped() && LastFilled(old(Value()), frame, offset, Flat(bitlist), endOffset)
    {
      ghost var q := Value();
      FlatLength(bitlist);
      offset := 0;
      if bitlist != [] {
        if endOffset + |frame| <= CHUNK {
          FillLast(frame);
          offset := |frame|;
          endOffset := endOffset + |frame|;
        } else {
          FillLast(frame[..CHUNK - endOffset]);
          offset := CHUNK - endOffset;
        }
        assert frame[..|frame|] == frame;
      }
      Filled(q, frame, offset, Flat(bitlist));
    }

    /** Whole new chunks, as long as `rest` has that many bytes left. */
    method AddFullChunks(rest: seq<Byte>) returns (used: nat)
      requires Shaped() && |Flat(bitlist)| % CHUNK == 0
      modifies `bitlist
      ensures Shaped() && |old(bitlist)| <= |bitlist| && bitlist[..|old(bitlist)|] == old(bitlist)
      ensures forall i :: |old(bitlist)| <= i < |bitlist| ==> fresh(bitlist[i])
      ensures used <= |rest| < used + CHUNK
      ensures Flat(bitlist) == old(Flat(bitlist)) + rest[..used] && |Flat(bitlist)| % CHUNK == 0
    {
      ghost var s := Flat(bitlist);
      used := 0;
      while used + CHUNK <= |rest|
        invariant used <= |rest|
        invariant Shaped() && |old(bitlist)| <= |bitlist| && bitlist[..|old(bitlist)|] == old(bitlist)
        invariant forall i :: |old(bitlist)| <= i < |bitlist| ==> fresh(bitlist[i])
        invariant Flat(bitlist) == s + rest[..used] && |Flat(bitlist)| % CHUNK == 0
      {
        ghost var t := Flat(bitlist);
        PushChunk(rest[used..used + CHUNK]);
        assert Flat(bitlist) == t + rest[used..used + CHUNK];
        assert rest[..used] + rest[used..used + CHUNK] == rest[..used + CHUNK];
        used := used + CHUNK;
      }
    }

    /** The part of the frame that needs new chunks. */
    method AddChunks(rest: seq<Byte>)
      requires Shaped() && |Flat(bitlist)| % CHUNK == 0 && rest != []
      modifies `bitlist, `endOffset
      ensures Shaped() && |old(bitlist)| <= |bitlist| && bitlist[..|old(bitlist)|] == old(bitlist)
      ensures forall i :: |old(bitlist)| <= i < |bitlist| ==> fresh(bitlist[i])
      ensures Extended(old(Flat(bitlist)), old(endOffset), rest, Flat(bitlist), endOffset)
    {
      ghost var s, end := Flat(bitlist), endOffset;
      var used := AddFullChunks(rest);
      assert rest[..used] + rest[used..] == rest;
      if used != |rest| {
        ghost var t, mid := Flat(bitlist), bitlist;
        PushChunk(rest[used..]);
        assert forall i :: 0 <= i < |mid| ==> bitlist[i] == bitlist[..|mid|][i] == mid[i];
        endOffset := |rest| - used;
        ExtendedMore(s, end, rest, used, t, Flat(bitlist));
      } else {
        ExtendedFull(s, end, rest, Flat(bitlist));
      }
    }

    /** Queues the frame of `message`. */
    method AddMessage(message: Message)
      requires Shaped()
      modifies this, bitlist
      ensures Shaped() && Added(old(Value()), Frame(message), Value())
      ensures |old(bitlist)| <= |bitlist| && bitlist[..|old(bitlist)|] == old(bitlist)
      ensures forall i :: |old(bitlist)| <= i < |bitlist| ==> fresh(bitlist[i])
      ensures needWrite == old(needWrite)
    {
      var frame := Frame(message);
      ghost var q := Value();
      FlatLength(bitlist);
      var offset := AddToLast(frame);
      ghost var t, end := Flat(bitlist), endOffset;
      if offset != |frame| {
        AddChunks(frame[offset..]);
      }
      count := count + |frame|;
      AddedInParts(q, frame, offset, t, end, Value());
    }

    /** The next bytes to send, at most `len`; the bytes stay queued. */
    method GetBitArray(len: nat) returns (buf: seq<Byte>)
      requires Valid() && len <= CHUNK
      ensures buf == Contents(Value())[..if len < count then len else count]
    {
      var n := if len > count then count else len;
      if n == 0 {
        return [];
      }
      FlatLength(bitlist);
      if begOffset + n <= CHUNK {
        buf := bitlist[0][begOffset..begOffset + n];
        SliceOfFirst(bitlist[0][..], Flat(bitlist[1..]), begOffset, n);
      } else {
        buf := bitlist[0][begOffset..] + bitlist[1][..n - (CHUNK - begOffset)];
        assert bitlist[1..][0] == bitlist[1];
        SliceOfTwo(bitlist[0][..], bitlist[1][..], Flat(bitlist[1..][1..]), begOffset, n);
      }
      SlicePrefix(Flat(bitlist), begOffset, count, n);
    }

    /** Drops `len` bytes from the front. */
    method Erase(len: nat)
      requires Valid() && len <= CHUNK && len <= count
      modifies `bitlist, `begOffset, `count
      ensures Valid() && Value() == Erased(old(Value()), len)
      ensures bitlist == old(bitlist) || (old(bitlist) != [] && bitlist == old(bitlist)[1..])
      ensures Contents(Value()) == old(Contents(Value()))[len..]
      ensures old(Synced(Value())) ==> Synced(Value())
    {
      EraseFront(Value(), len);
      FlatLength(bitlist);
      if begOffset + len < CHUNK {
        begOffset := begOffset + len;
      } else {
        var delta := CHUNK - begOffset;
        assert Flat(bitlist)[CHUNK..] == Flat(bitlist[1..]);
        bitlist := bitlist[1..];
        begOffset := len - delta;
      }
      count := count - len;
    }

    /** The socket took `n` of the bytes offered; the next ones are fetched. */
    method SendOnce(buf: seq<Byte>, n: nat) returns (taken: seq<Byte>, next: seq<Byte>)
      requires Valid() && n <= |buf| <= CHUNK && buf <= Contents(Value())
      modifies `bitlist, `begOffset, `count
      ensures Valid() && taken == buf[..n] && old(Contents(Value())) == taken + Contents(Value())
      ensures next <= Contents(Value()) && |next| == Min(CHUNK, |Contents(Value())|)
      ensures old(Synced(Value())) ==> Synced(Value())
      ensures count == old(count) - n
    {
      taken := buf[..n];
      Erase(n);
      next := GetBitArray(CHUNK);
    }

    /** The sending loop for one client.  `accepted` holds the answers of the socket, in order: how many
        bytes it took; when they run out it would block.  What was sent is always the front of what
        was queued; it is all that was queued or all that the socket would take, a chunk at most at a
        time; and `needWrite` remembers whether anything is left. */
    method WriteOut(accepted: seq<nat>) returns (sent: seq<Byte>)
      requires Valid() && forall i :: 0 <= i < |accepted| ==> 0 < accepted[i]
      modifies this
      ensures Valid() && old(Contents(Value())) == sent + Contents(Value())
      ensures |sent| == Min(|old(Contents(Value()))|, WouldTake(accepted))
      ensures old(Synced(Value())) ==> Synced(Value())
      ensures needWrite <==> Contents(Value()) != []
    {
      var all;
      sent, all := SendLoop(accepted);
      if !all {
        needWrite := true;
      } else if needWrite {
        needWrite := false;
      }
    }

    /** Sends until nothing is left or the socket would block. */
    method SendLoop(accepted: seq<nat>) returns (sent: seq<Byte>, all: bool)
      requires Valid() && forall i :: 0 <= i < |accepted| ==> 0 < accepted[i]
      modifies `bitlist, `begOffset, `count
      ensures Valid() && old(Contents(Value())) == sent + Contents(Value())
      ensures |sent| == Min(|old(Contents(Value()))|, WouldTake(accepted))
      ensures old(Synced(Value())) ==> Synced(Value())
      ensures all <==> Contents(Value()) == []
    {
      sent := [];
      assert accepted[..0] == [];
      var k := 0;
      var buf := GetBitArray(CHUNK);
      while buf != []
        invariant Valid() && old(Contents(Value())) == sent + Contents(Value())
        invariant old(Synced(Value())) ==> Synced(Value())
        invariant k <= |accepted| && |sent| == Min(|old(Contents(Value()))|, WouldTake(accepted[..k]))
        invariant buf <= Contents(Value()) && |buf| == Min(CHUNK, |Contents(Value())|)
        decreases count
      {
        if k == |accepted| {
          assert accepted[..k] == accepted;
          return sent, false;
        }
        var n := if accepted[k] < |buf| then accepted[k] else |buf|;
        k := k + 1;
        var taken;
        taken, buf := SendOnce(buf, n);
        SentMore(old(Contents(Value())), sent, taken, Contents(Value()), accepted, k - 1, k);
        sent := sent + taken;
      }
      WouldTakeMore(accepted, k);
      all := true;
    }
  }

  function Min(a: nat, b: nat): nat {
    if a <= b then a else b
  }

  /** What the socket would take in all, offered a full chunk each time. */
  function WouldTake(accepted: seq<nat>): nat {
    if accepted == [] then 0 else WouldTake(accepted[..|accepted| - 1]) + Min(accepted[|accepted| - 1], CHUNK)
  }

  lemma WouldTakeNext(accepted: seq<nat>, k: nat, next: nat)
    requires k < |accepted| && next == k + 1
    ensures WouldTake(accepted[..next]) == WouldTake(accepted[..k]) + Min(accepted[k], CHUNK)
  {
    assert accepted[..next][..k] == accepted[..k];
  }

  /** One more send, of what the socket takes out of a chunk at most. */
  lemma SentMore(all: seq<Byte>, sent: seq<Byte>, taken: seq<Byte>, left: seq<Byte>, accepted: seq<nat>, k: nat, next: nat)
    requires all == sent + (taken + left) && k < |accepted| && next == k + 1
    requires |sent| == Min(|all|, WouldTake(accepted[..k])) && taken + left != []
    requires |taken| == Min(accepted[k], Min(CHUNK, |taken + left|))
    ensures all == (sent + taken) + left && |sent + taken| == Min(|all|, WouldTake(accepted[..next]))
  {
    Reassociate(sent, taken, left);
    WouldTakeNext(accepted, k, next);
  }

  lemma {:induction false} WouldTakeMore(accepted: seq<nat>, k: nat)
    requires k <= |accepted|
    ensures WouldTake(accepted[..k]) <= WouldTake(accepted)
    decreases |accepted| - k
  {
    if k == |accepted| {
      assert accepted[..k] == accepted;
    } else {
      WouldTakeNext(accepted, k, k + 1);
      WouldTakeMore(accepted, k + 1);
    }
  }

  /** The last chunk has been filled up with the first `offset` bytes of `f`. */
  ghost predicate LastFilled(q: Chunked, f: seq<Byte>, offset: nat, t: seq<Byte>, end: nat) {
    && |q.store| % CHUNK == 0 && q.endOffset <= CHUNK && offset <= |f| && WriteAt(q) <= |q.store| == |t|
    && t == Overwritten(q.store, WriteAt(q), f[..offset])
    && if WriteAt(q) + |f| <= |t| then offset == |f| && end == q.endOffset + |f|
       else WriteAt(q) + offset == |t| && end == q.endOffset
  }

  lemma Filled(q: Chunked, f: seq<Byte>, offset: nat, t: seq<Byte>)
    requires |q.store| % CHUNK == 0 && q.endOffset <= CHUNK && |t| == |q.store| && f != []
    requires offset == if q.store == [] then 0 else if q.endOffset + |f| <= CHUNK then |f| else CHUNK - q.endOffset
    requires if q.store == [] then t == [] else t == Overwritten(q.store, |q.store| - CHUNK + q.endOffset, f[..offset])
    ensures LastFilled(q, f, offset, t, if q.store != [] && q.endOffset + |f| <= CHUNK then q.endOffset + |f| else q.endOffset)
  {
  }

  /** Filling up the last chunk and then adding new ones is what `Added` asks for. */
  lemma AddedInParts(q: Chunked, f: seq<Byte>, offset: nat, t: seq<Byte>, end: nat, q': Chunked)
    requires LastFilled(q, f, offset, t, end) && f != []
    requires if offset == |f| then q'.store == t && q'.endOffset == end else Extended(t, end, f[offset..], q'.store, q'.endOffset)
    requires q'.count == q.count + |f| && q'.begOffset == q.begOffset
    ensures Added(q, f, q')
  {
    var at := WriteAt(q);
    if offset < |f| {
      AddedPrefix(q.store, at, f, offset, t, q'.store);
    } else {
      assert f[..offset] == f;
    }
  }

  /** New chunks hold `f` behind `s`; `end` changes unless the last chunk is full. */
  ghost predicate Extended(s: seq<Byte>, end: nat, f: seq<Byte>, s': seq<Byte>, end': nat) {
    |s'| % CHUNK == 0 && |s'| - CHUNK < |s| + |f| <= |s'| && s'[..|s| + |f|] == s + f &&
    end' == if |s'| == |s| + |f| then end else |s| + |f| - (|s'| - CHUNK)
  }

  lemma ExtendedFull(s: seq<Byte>, end: nat, f: seq<Byte>, s': seq<Byte>)
    requires f != [] && s' == s + f[..|f|] && |s'| % CHUNK == 0
    ensures Extended(s, end, f, s', end)
  {
    assert f[..|f|] == f;
  }

  lemma ExtendedMore(s: seq<Byte>, end: nat, f: seq<Byte>, used: nat, t: seq<Byte>, s': seq<Byte>)
    requires used < |f| < used + CHUNK && t == s + f[..used] && |t| % CHUNK == 0
    requires |s'| == |t| + CHUNK && s'[..|t| + |f[used..]|] == t + f[used..]
    ensures Extended(s, end, f, s', |f| - used)
  {
    assert f[..used] + f[used..] == f;
    assert t + f[used..] == s + f;
  }

  lemma AddedPrefix(s: seq<Byte>, at: nat, f: seq<Byte>, offset: nat, t: seq<Byte>, s': seq<Byte>)
    requires at <= |s| == |t| && offset < |f| && at + offset == |t| && t == Overwritten(s, at, f[..offset])
    requires |t| + |f| - offset <= |s'| && s'[..|t| + |f| - offset] == t + f[offset..]
    ensures s'[..at] == s[..at] && s'[at..at + |f|] == f
  {
  }

  /** The queues of all clients. */
  class MessageSender {
    var messanger: map<int, MessageForSend>
    /** The queues and their chunks. */
    ghost var Repr: set<object>

    ghost predicate Valid()
      reads this, Repr
    {
      && this in Repr
      && (forall fd :: fd in messanger ==> messanger[fd] in Repr && messanger[fd].Shaped())
      && (forall fd, i :: fd in messanger && 0 <= i < |messanger[fd].bitlist| ==> messanger[fd].bitlist[i] in Repr)
      && (forall fd, gd :: fd in messanger && gd in messanger && fd != gd ==>
            messanger[fd] != messanger[gd] && Apart(messanger[fd].bitlist, messanger[gd].bitlist))
    }

    static ghost predicate Apart(bs: seq<array<Byte>>, cs: seq<array<Byte>>) {
      forall i, j :: 0 <= i < |bs| && 0 <= j < |cs| ==> bs[i] != cs[j]
    }

    static lemma ApartGrown(bs: seq<array<Byte>>, bs': seq<array<Byte>>, cs: seq<array<Byte>>, repr: set<object>)
      requires |bs| <= |bs'| && bs'[..|bs|] == bs && forall i :: |bs| <= i < |bs'| ==> bs'[i] !in repr
      requires forall j :: 0 <= j < |cs| ==> cs[j] in repr
      ensures Apart(bs, cs) ==> Apart(bs', cs)
      ensures Apart(cs, bs) ==> Apart(cs, bs')
    {
      assert forall i :: 0 <= i < |bs| ==> bs'[i] == bs'[..|bs|][i] == bs[i];
    }

    static lemma ApartFront(bs: seq<array<Byte>>, bs': seq<array<Byte>>, cs: seq<array<Byte>>)
      requires bs' == bs || (bs != [] && bs' == bs[1..])
      ensures Apart(bs, cs) ==> Apart(bs', cs)
      ensures Apart(cs, bs) ==> Apart(cs, bs')
    {
    }

    ghost function Queue(fd: int): Chunked
      requires Valid() && fd in messanger
      reads this, Repr
    {
      messanger[fd].Value()
    }

    /** All queues. */
    ghost function View(): map<int, Chunked>
      requires Valid()
      reads this, Repr
    {
      map fd | fd in messanger :: Queue(fd)
    }

    lemma Queued(fd: int)
      requires Valid()
      ensures View().Keys == messanger.Keys
      ensures fd in messanger ==> messanger[fd].Shaped() && messanger[fd].Value() == View()[fd] == Queue(fd)
    {
    }

    lemma ViewIs(was: map<int, Chunked>, fd: int)
      requires Valid() && fd in messanger && messanger.Keys == was.Keys + {fd}
      requires forall gd :: gd in was && gd != fd ==> Queue(gd) == was[gd]
      ensures View() == was[fd := Queue(fd)]
    {
    }

    constructor ()
      ensures Valid() && messanger == map[] && Repr == {this}
    {
      messanger, Repr := map[], {this};
    }

    /** A client with a queue keeps it; a new client gets an empty one. */
    method AddClient(fd: int)
      requires Valid()
      modifies this
      ensures Valid() && fd in messanger && messanger == old(messanger)[fd := messanger[fd]] && fresh(Repr - old(Repr))
      ensures if fd in old(messanger) then messanger == old(messanger)
              else fresh(messanger[fd]) && messanger[fd].Value() == EmptyQueue && messanger[fd].bitlist == []
    {
      if fd !in messanger {
        var q := new MessageForSend();
        messanger := messanger[fd := q];
        Repr := Repr + {q};
      }
    }

    /** The queue of one client grows; no other queue notices. */
    method Grow(fd: int, msg: Message)
      requires Valid() && fd in messanger
      modifies messanger[fd], messanger[fd].bitlist
      ensures messanger[fd].Shaped() && Added(old(messanger[fd].Value()), Frame(msg), messanger[fd].Value())
      ensures var was, now := old(messanger[fd].bitlist), messanger[fd].bitlist;
              && |was| <= |now| && now[..|was|] == was && forall i :: |was| <= i < |now| ==> fresh(now[i])
      ensures forall gd :: gd in messanger && gd != fd ==>
                messanger[gd].Shaped() && messanger[gd].Value() == old(messanger[gd].Value()) &&
                messanger[gd].bitlist == old(messanger[gd].bitlist)
    {
      messanger[fd].AddMessage(msg);
    }

    method AddTo(fd: int, msg: Message)
      requires Valid() && fd in messanger
      modifies `Repr, messanger[fd], messanger[fd].bitlist
      ensures Valid() && fresh(Repr - old(Repr)) && Added(old(Queue(fd)), Frame(msg), Queue(fd))
      ensures forall gd :: gd in messanger && gd != fd ==> Queue(gd) == old(Queue(gd))
    {
      ghost var was, repr := messanger[fd].bitlist, Repr;
      Grow(fd, msg);
      ghost var now := messanger[fd].bitlist;
      forall gd | gd in messanger && gd != fd
        ensures Apart(now, messanger[gd].bitlist) && Apart(messanger[gd].bitlist, now)
      {
        ApartGrown(was, now, messanger[gd].bitlist, repr);
      }
      Repr := Repr + set i | |was| <= i < |now| :: now[i];
      InRepr(was, now, repr);
    }

    static lemma InRepr(was: seq<array<Byte>>, now: seq<array<Byte>>, repr: set<object>)
      requires |was| <= |now| && now[..|was|] == was && forall i :: 0 <= i < |was| ==> was[i] in repr
      ensures forall i :: 0 <= i < |now| ==> now[i] in repr + set i | |was| <= i < |now| :: now[i]
    {
      assert forall i :: 0 <= i < |was| ==> now[i] == now[..|was|][i] == was[i];
    }

    /** A new client gets its queue with a first message. */
    method Greet(fd: int, msg: Message) returns (ghost q: Chunked)
      requires Valid() && fd !in messanger
      modifies this
      ensures Valid() && fresh(Repr - old(Repr))
      ensures View() == old(View())[fd := q] && Added(EmptyQueue, Frame(msg), q)
    {
      ghost var was := View();
      AddClient(fd);
      AddTo(fd, msg);
      q := Queue(fd);
      ViewIs(was, fd);
    }

    /** The socket of a client took `n` of the bytes that were offered. */
    method SendTo(fd: int, n: nat) returns (taken: seq<Byte>)
      requires Valid() && fd in View() && Readable(View()[fd]) && n <= CHUNK && n <= View()[fd].count
      modifies Repr
      ensures Valid() && Repr == old(Repr) && taken == Contents(old(View())[fd])[..n]
      ensures var q := old(View())[fd];
              (q.begOffset + n >= CHUNK ==> |q.store| >= CHUNK) && View() == old(View())[fd := Erased(q, n)]
    {
      ghost var was := View();
      Queued(fd);
      EraseFront(was[fd], n);
      var buf := messanger[fd].GetBitArray(CHUNK);
      PrefixOfPrefix(Contents(was[fd]), |buf|, n);
      taken := buf[..n];
      EraseFrom(fd, n);
      ViewIs(was, fd);
    }

    /** The queue of one client shrinks; no other queue notices. */
    method Shrink(fd: int, n: nat)
      requires Valid() && fd in messanger && messanger[fd].Valid() && n <= CHUNK && n <= messanger[fd].count
      modifies messanger[fd]
      ensures messanger[fd].Shaped() && messanger[fd].Value() == Erased(old(messanger[fd].Value()), n)
      ensures var was, now := old(messanger[fd].bitlist), messanger[fd].bitlist; now == was || (was != [] && now == was[1..])
      ensures forall gd :: gd in messanger && gd != fd ==>
                messanger[gd].Shaped() && messanger[gd].Value() == old(messanger[gd].Value()) &&
                messanger[gd].bitlist == old(messanger[gd].bitlist)
    {
      messanger[fd].Erase(n);
    }

    method EraseFrom(fd: int, n: nat)
      requires Valid() && fd in messanger && messanger[fd].Valid() && n <= CHUNK && n <= messanger[fd].count
      modifies messanger[fd]
      ensures Valid() && Queue(fd) == Erased(old(Queue(fd)), n)
      ensures forall gd :: gd in messanger && gd != fd ==> Queue(gd) == old(Queue(gd))
    {
      ghost var was := messanger[fd].bitlist;
      Shrink(fd, n);
      ghost var now := messanger[fd].bitlist;
      forall gd | gd in messanger && gd != fd
        ensures Apart(now, messanger[gd].bitlist) && Apart(messanger[gd].bitlist, now)
      {
        ApartFront(was, now, messanger[gd].bitlist);
      }
      assert forall i :: 0 <= i < |now| ==> now[i] in was;
    }

    /** Progress of a broadcast: the queues in `todo` are as in `was`, all others have `f` added. */
    ghost predicate Halfway(todo: set<int>, was: map<int, Chunked>, f: seq<Byte>)
      reads this, Repr
    {
      Valid() && Spread(todo, was, View(), f)
    }

    /** All queues but those of `todo` have got the frame. */
    static ghost predicate Spread(todo: set<int>, was: map<int, Chunked>, now: map<int, Chunked>, f: seq<Byte>) {
      todo <= was.Keys == now.Keys &&
      forall fd :: fd in now ==> if fd in todo then now[fd] == was[fd] else Added(was[fd], f, now[fd])
    }

    static lemma SpreadOn(todo: set<int>, was: map<int, Chunked>, now: map<int, Chunked>, next: map<int, Chunked>,
                          f: seq<Byte>, fd: int, q: Chunked)
      requires Spread(todo, was, now, f) && fd in todo && Added(was[fd], f, q) && next == now[fd := q]
      ensures Spread(todo - {fd}, was, next, f)
    {
    }

    method AddSome(todo: set<int>, msg: Message, ghost was: map<int, Chunked>) returns (rest: set<int>)
      requires Halfway(todo, was, Frame(msg)) && todo != {}
      modifies Repr
      ensures Halfway(rest, was, Frame(msg)) && fresh(Repr - old(Repr))
      ensures rest < todo
    {
      ghost var now := View();
      var fd := AnyOf(todo);
      ghost var q := AddFor(fd, msg);
      SpreadOn(todo, was, now, View(), Frame(msg), fd, q);
      rest := todo - {fd};
    }

    /** One queue gets the message, all others stay as they are. */
    method AddFor(fd: int, msg: Message) returns (ghost q: Chunked)
      requires Valid() && fd in View()
      modifies Repr
      ensures Valid() && fresh(Repr - old(Repr))
      ensures View() == old(View())[fd := q] && Added(old(View())[fd], Frame(msg), q)
    {
      ghost var now := View();
      Queued(fd);
      AddTo(fd, msg);
      q := Queue(fd);
      ViewIs(now, fd);
    }

    /** Broadcast: every client's queue gets the frame, each according to its own layout. */
    method AddMessage(msg: Message)
      requires Valid()
      modifies Repr
      ensures Valid() && fresh(Repr - old(Repr)) && View().Keys == old(View()).Keys
      ensures forall fd :: fd in View() ==> Added(old(View())[fd], Frame(msg), View()[fd])
    {
      ghost var was := View();
      var todo := messanger.Keys;
      while todo != {}
        invariant Halfway(todo, was, Frame(msg)) && fresh(Repr - old(Repr))
      {
        todo := AddSome(todo, msg, was);
      }
    }

    /** The removal on disconnect tests for the wrong case, so it never removes anything. */
    method DeleteSockFd(fd: int)
      modifies this
      ensures messanger == old(messanger)
    {
      if fd !in messanger {
        messanger := messanger - {fd};
      }
    }
  }
}
