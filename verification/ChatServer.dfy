/**
  The chat server as a state machine.  The network decides which event comes next, how the bytes of a
  client are cut into pieces and how many bytes a socket accepts; the server's own reaction to an
  event follows the decoders and queues.  Beside the server's state, the machine records history:
  what each client was sent and sent itself, and the order of all broadcasts.
 */
module ChatServer {
  import opened Common
  import opened Bytes
  import opened Framing
  import opened FrameDecoder
  import opened ChunkQueue

  const WELCOME: Message := [87, 101, 108, 99, 111, 109, 101]

  /** One broadcast: who sent it and what was delivered. */
  datatype Entry = Entry(sender: int, text: Message)

  datatype State = State(
    queues: map<int, Chunked>,        // the send queue of every client
    pending: map<int, seq<Byte>>,     // received and not yet decoded
    outbox: seq<Entry>,               // decoded by the current read and not yet broadcast
    log: seq<Entry>,                  // history: all broadcasts, in order
    sent: map<int, seq<Byte>>,        // history: bytes the socket accepted
    fed: map<int, seq<Byte>>,         // history: bytes received
    joined: map<int, nat>,            // history: length of the log when the client connected
    lost: set<int>)                   // history: clients whose queue was added to while stranded

  datatype Event = Accept(fd: int) | Receive(fd: int, piece: seq<Byte>) | Broadcast | Send(fd: int, n: nat)

  const Start := State(map[], map[], [], [], map[], map[], map[], {})

  function Texts(es: seq<Entry>): (ts: seq<Message>)
    ensures |ts| == |es| && forall i :: 0 <= i < |es| ==> ts[i] == es[i].text
  {
    seq(|es|, i requires 0 <= i < |es| => es[i].text)
  }

  function From(es: seq<Entry>, fd: int): seq<Entry> {
    if es == [] then []
    else if es[0].sender == fd then [es[0]] + From(es[1..], fd)
    else From(es[1..], fd)
  }

  ghost predicate Next(s: State, e: Event, s': State) {
    match e
    case Accept(fd) =>
      s.outbox == [] && fd !in s.queues && fd in s'.queues &&
      Added(EmptyQueue, Frame(WELCOME), s'.queues[fd]) &&
      s' == s.(queues := s.queues[fd := s'.queues[fd]], pending := s.pending[fd := []], sent := s.sent[fd := []],
               fed := s.fed[fd := []], joined := s.joined[fd := |s.log|])
    case Receive(fd, piece) =>
      s.outbox == [] && fd in s.pending && fd in s.fed && 0 < |piece| <= PIECE &&
      var d := Decode(s.pending[fd] + piece);
      TextsOf(d.msgs, Texts(s'.outbox)) && (forall x :: x in s'.outbox ==> x.sender == fd) &&
      s' == s.(outbox := s'.outbox, pending := s.pending[fd := d.rest], fed := s.fed[fd := s.fed[fd] + piece])
    case Broadcast =>
      s.outbox != [] && s'.queues.Keys == s.queues.Keys &&
      (forall fd :: fd in s.queues && fd !in s.lost ==>
         Added(s.queues[fd], Frame(s.outbox[0].text), s'.queues[fd])) &&
      s' == s.(queues := s'.queues, outbox := s.outbox[1..], log := s.log + [s.outbox[0]],
               lost := s.lost + set fd | fd in s.queues && InOrderEnds(s.queues[fd]))
    case Send(fd, n) =>
      s.outbox == [] && fd in s.queues && fd in s.sent && fd in s'.queues && fd in s'.sent &&
      (fd !in s.lost ==>
         var q := s.queues[fd];
         Readable(q) && n <= q.count && n <= CHUNK && (q.begOffset + n >= CHUNK ==> |q.store| >= CHUNK) &&
         s'.queues[fd] == Erased(q, n) && s'.sent[fd] == s.sent[fd] + Contents(q)[..n]) &&
      s' == s.(queues := s.queues[fd := s'.queues[fd]], sent := s.sent[fd := s'.sent[fd]])
  }

  /** A frame added now would not land behind the queued bytes. */
  ghost predicate InOrderEnds(q: Chunked) {
    !(Readable(q) && Synced(q))
  }

  ghost predicate Run(states: seq<State>, events: seq<Event>) {
    |states| == |events| + 1 && states[0] == Start &&
    forall i :: 0 <= i < |events| ==> Next(states[i], events[i], states[i + 1])
  }

  // ---------------------------------------------------------------- the invariant

  ghost predicate SameClients(s: State) {
    s.queues.Keys == s.pending.Keys == s.sent.Keys == s.fed.Keys == s.joined.Keys && s.lost <= s.queues.Keys
  }

  /** What client `fd` is to receive: the greeting, then everything broadcast since it connected. */
  ghost function Due(s: State, fd: int): seq<Message>
    requires fd in s.joined && s.joined[fd] <= |s.log|
  {
    [WELCOME] + Texts(s.log[s.joined[fd]..])
  }

  /** Bytes sent and bytes queued are together the frames of what is due. */
  ghost predicate StreamIntact(s: State, fd: int)
    requires SameClients(s) && fd in s.queues
  {
    s.joined[fd] <= |s.log| &&
    (fd !in s.lost ==>
       Readable(s.queues[fd]) && s.sent[fd] + Contents(s.queues[fd]) == Stream(Due(s, fd)))
  }

  /** Everything received from `fd` has been decoded, and the texts are in the log or the outbox. */
  ghost predicate SourceIntact(s: State, fd: int)
    requires SameClients(s) && fd in s.queues
  {
    var d := Decode(s.fed[fd]);
    s.pending[fd] == d.rest && TextsOf(d.msgs, Texts(From(s.log + s.outbox, fd)))
  }

  ghost predicate Inv(s: State) {
    SameClients(s) &&
    (forall fd :: fd in s.queues ==> StreamIntact(s, fd)) &&
    (forall fd :: fd in s.queues ==> SourceIntact(s, fd)) &&
    (forall x :: x in s.log + s.outbox ==> x.sender in s.queues && |x.text| < MAX_LENGTH)
  }

  lemma {:induction false} FromConcat(a: seq<Entry>, b: seq<Entry>, fd: int)
    ensures From(a + b, fd) == From(a, fd) + From(b, fd)
  {
    if a == [] {
      assert a + b == b;
    } else {
      FromConcat(a[1..], b, fd);
      assert (a + b)[1..] == a[1..] + b;
    }
  }

  lemma {:induction false} FromAll(es: seq<Entry>, fd: int)
    requires forall x :: x in es ==> x.sender == fd
    ensures From(es, fd) == es
  {
    if es != [] {
      FromAll(es[1..], fd);
      assert es == [es[0]] + es[1..];
    }
  }

  lemma {:induction false} FromNone(es: seq<Entry>, fd: int)
    requires forall x :: x in es ==> x.sender != fd
    ensures From(es, fd) == []
  {
    if es != [] {
      FromNone(es[1..], fd);
    }
  }

  lemma StreamOfOne(msg: Message)
    ensures Stream([msg]) == Frame(msg)
  {
  }

  lemma Newcomer(s: State, fd: int)
    requires SameClients(s) && fd in s.queues && Added(EmptyQueue, Frame(WELCOME), s.queues[fd])
    requires s.joined[fd] == |s.log| && s.sent[fd] == s.fed[fd] == s.pending[fd] == []
    requires forall x :: x in s.log + s.outbox ==> x.sender != fd
    ensures StreamIntact(s, fd) && SourceIntact(s, fd)
  {
    FirstFrame(Frame(WELCOME), s.queues[fd]);
    StreamOfOne(WELCOME);
    assert s.log[|s.log|..] == [];
    assert Due(s, fd) == [WELCOME];
    assert [] + Contents(s.queues[fd]) == Contents(s.queues[fd]);
    FromNone(s.log + s.outbox, fd);
  }

  lemma AcceptKeeps(s: State, fd: int, s': State)
    requires Inv(s) && Next(s, Accept(fd), s')
    ensures Inv(s')
  {
    Newcomer(s', fd);
    forall g | g in s'.queues && g != fd
      ensures StreamIntact(s', g) && SourceIntact(s', g)
    {
      assert StreamIntact(s, g) && SourceIntact(s, g);
    }
  }

  lemma TextsConcat(ms: seq<Message>, a: seq<Entry>, more: seq<Message>, b: seq<Entry>)
    requires TextsOf(ms, Texts(a)) && TextsOf(more, Texts(b))
    ensures TextsOf(ms + more, Texts(a + b))
  {
  }

  /** A further piece of the sender's stream adds exactly its messages. */
  lemma SourceGrows(s: State, fd: int, piece: seq<Byte>, s': State)
    requires SameClients(s) && fd in s.queues && SourceIntact(s, fd) && Next(s, Receive(fd, piece), s')
    ensures SameClients(s') && SourceIntact(s', fd)
  {
    var was, d := Decode(s.fed[fd]), Decode(s.pending[fd] + piece);
    DecodeResumes(s.fed[fd], piece);
    assert s.log + s.outbox == s.log;
    FromConcat(s.log, s'.outbox, fd);
    FromAll(s'.outbox, fd);
    TextsConcat(was.msgs, From(s.log, fd), d.msgs, s'.outbox);
  }

  lemma OutboxFits(s: State, fd: int, piece: seq<Byte>, s': State)
    requires Next(s, Receive(fd, piece), s')
    ensures forall x :: x in s'.outbox ==> |x.text| < MAX_LENGTH
  {
    var d := Decode(s.pending[fd] + piece);
    DecodedFit(s.pending[fd] + piece);
    forall x | x in s'.outbox
      ensures |x.text| < MAX_LENGTH
    {
      var i :| 0 <= i < |s'.outbox| && s'.outbox[i] == x;
      TextExact(d.msgs[i], Texts(s'.outbox)[i]);
    }
  }

  lemma SourceStays(s: State, fd: int, piece: seq<Byte>, s': State, g: int)
    requires SameClients(s) && g in s.queues && SourceIntact(s, g) && Next(s, Receive(fd, piece), s') && g != fd
    ensures SameClients(s') && SourceIntact(s', g)
  {
    FromConcat(s.log, s'.outbox, g);
    FromNone(s'.outbox, g);
    assert From(s.log, g) + [] == From(s.log, g);
    assert s.log + s.outbox == s.log;
  }

  lemma ReceiveKeeps(s: State, fd: int, piece: seq<Byte>, s': State)
    requires Inv(s) && Next(s, Receive(fd, piece), s')
    ensures Inv(s')
  {
    OutboxFits(s, fd, piece, s');
    SourceGrows(s, fd, piece, s');
    forall x | x in s'.log + s'.outbox
      ensures x.sender in s'.queues && |x.text| < MAX_LENGTH
    {
      assert x in s'.outbox || x in s.log + s.outbox;
    }
    forall g | g in s'.queues
      ensures StreamIntact(s', g) && SourceIntact(s', g)
    {
      assert StreamIntact(s, g) && SourceIntact(s, g);
      if g != fd { SourceStays(s, fd, piece, s', g); }
    }
  }

  lemma Enqueued(sent: seq<Byte>, q: Chunked, due: seq<Message>, text: Message, q': Chunked)
    requires Readable(q) && Synced(q) && Added(q, Frame(text), q') && sent + Contents(q) == Stream(due)
    ensures Readable(q') && sent + Contents(q') == Stream(due + [text])
  {
    AddInOrder(q, Frame(text), q');
    StreamConcat(due, [text]);
    StreamOfOne(text);
    assert sent + (Contents(q) + Frame(text)) == Stream(due) + Frame(text);
  }

  lemma BroadcastReaches(s: State, s': State, fd: int)
    requires SameClients(s) && SameClients(s') && Next(s, Broadcast, s') && fd in s.queues && StreamIntact(s, fd)
    ensures StreamIntact(s', fd)
  {
    var x := s.outbox[0];
    if fd !in s'.lost {
      assert !InOrderEnds(s.queues[fd]);
      assert s'.log[s.joined[fd]..] == s.log[s.joined[fd]..] + [x];
      assert Due(s', fd) == Due(s, fd) + [x.text];
      Enqueued(s.sent[fd], s.queues[fd], Due(s, fd), x.text, s'.queues[fd]);
    }
  }

  lemma BroadcastKeeps(s: State, s': State)
    requires Inv(s) && Next(s, Broadcast, s')
    ensures Inv(s')
  {
    assert s'.log + s'.outbox == s.log + s.outbox;
    forall g | g in s'.queues
      ensures StreamIntact(s', g) && SourceIntact(s', g)
    {
      assert StreamIntact(s, g) && SourceIntact(s, g);
      BroadcastReaches(s, s', g);
    }
  }

  lemma Handover(sent: seq<Byte>, q: Chunked, n: nat, due: seq<Byte>)
    requires Readable(q) && n <= q.count && n <= CHUNK && sent + Contents(q) == due
    ensures q.begOffset + n >= CHUNK ==> |q.store| >= CHUNK
    ensures Readable(Erased(q, n)) && sent + Contents(q)[..n] + Contents(Erased(q, n)) == due
  {
    EraseFront(q, n);
    assert Contents(q) == Contents(q)[..n] + Contents(q)[n..];
  }

  lemma SendKeeps(s: State, fd: int, n: nat, s': State)
    requires Inv(s) && Next(s, Send(fd, n), s')
    ensures Inv(s')
  {
    forall g | g in s'.queues
      ensures StreamIntact(s', g) && SourceIntact(s', g)
    {
      assert StreamIntact(s, g) && SourceIntact(s, g);
      if g == fd && fd !in s.lost {
        Handover(s.sent[fd], s.queues[fd], n, Stream(Due(s, fd)));
      }
    }
  }

  lemma NextKeeps(s: State, e: Event, s': State)
    requires Inv(s) && Next(s, e, s')
    ensures Inv(s')
  {
    match e
    case Accept(fd) => AcceptKeeps(s, fd, s');
    case Receive(fd, piece) => ReceiveKeeps(s, fd, piece, s');
    case Broadcast => BroadcastKeeps(s, s');
    case Send(fd, n) => SendKeeps(s, fd, n, s');
  }

  lemma {:induction false} InvHolds(states: seq<State>, events: seq<Event>, i: nat)
    requires Run(states, events) && i < |states|
    ensures Inv(states[i])
  {
    if i > 0 {
      InvHolds(states, events, i - 1);
      NextKeeps(states[i - 1], events[i - 1], states[i]);
    }
  }

  // ---------------------------------------------------------------- what clients can rely on

  lemma DueFits(s: State, fd: int)
    requires Inv(s) && fd in s.queues
    ensures forall i :: 0 <= i < |Due(s, fd)| ==> |Due(s, fd)[i]| < MAX_LENGTH
  {
  }

  /** In every reachable state, what a client can decode from the bytes sent to it is a prefix of the
      greeting followed by everything broadcast since it connected. */
  lemma DeliveredIsPrefix(states: seq<State>, events: seq<Event>, i: nat, fd: int)
    requires Run(states, events) && i < |states| && fd in states[i].queues && fd !in states[i].lost
    ensures Inv(states[i])
    ensures Decode(states[i].sent[fd]).msgs <= Due(states[i], fd)
  {
    InvHolds(states, events, i);
    var s := states[i];
    assert StreamIntact(s, fd);
    DueFits(s, fd);
    PrefixDelivered(Due(s, fd), s.sent[fd]);
  }

  /** Once the queue is empty the client can decode all of it, but for an empty last message, whose
      bare header waits for the next byte. */
  lemma DrainedIsComplete(states: seq<State>, events: seq<Event>, i: nat, fd: int)
    requires Run(states, events) && i < |states| && fd in states[i].queues && fd !in states[i].lost
    requires states[i].queues[fd].count == 0
    ensures Inv(states[i])
    ensures var due, got := Due(states[i], fd), Decode(states[i].sent[fd]).msgs;
            got == due <==> due[|due| - 1] != []
    ensures var due, got := Due(states[i], fd), Decode(states[i].sent[fd]).msgs;
            got == due || got + [[]] == due
  {
    InvHolds(states, events, i);
    DrainedClient(states[i], fd);
  }

  lemma DrainedClient(s: State, fd: int)
    requires Inv(s) && fd in s.queues && fd !in s.lost && s.queues[fd].count == 0
    ensures var due, got := Due(s, fd), Decode(s.sent[fd]).msgs;
            (got == due <==> due[|due| - 1] != []) && (got == due || got + [[]] == due)
  {
    assert StreamIntact(s, fd);
    assert s.sent[fd] + Contents(s.queues[fd]) == s.sent[fd];
    DueFits(s, fd);
    StreamDelivers(Due(s, fd), s.sent[fd]);
  }

  /** Two clients see the broadcasts in the same order: from the later arrival on, the same messages. */
  lemma SameOrder(states: seq<State>, events: seq<Event>, i: nat, a: int, b: int, k: nat)
    requires Run(states, events) && i < |states|
    requires a in states[i].queues && b in states[i].queues && a !in states[i].lost && b !in states[i].lost
    requires a in states[i].joined && b in states[i].joined && states[i].joined[a] <= states[i].joined[b]
    requires var ahead := states[i].joined[b] - states[i].joined[a];
             a in states[i].sent && b in states[i].sent &&
             1 + ahead + k < |Decode(states[i].sent[a]).msgs| && 1 + k < |Decode(states[i].sent[b]).msgs|
    ensures Decode(states[i].sent[a]).msgs[1 + (states[i].joined[b] - states[i].joined[a]) + k] ==
            Decode(states[i].sent[b]).msgs[1 + k]
  {
    DeliveredIsPrefix(states, events, i, a);
    DeliveredIsPrefix(states, events, i, b);
  }

  /** In every reachable state, what has been taken from a sender are exactly the messages in its bytes so
      far if and only if none of them holds a zero byte, in whatever pieces they have arrived. */
  lemma TakenExactly(states: seq<State>, events: seq<Event>, i: nat, fd: int)
    requires Run(states, events) && i < |states| && fd in states[i].queues && fd in states[i].fed
    ensures var msgs := Decode(states[i].fed[fd]).msgs;
            Texts(From(states[i].log + states[i].outbox, fd)) == msgs <==> forall j :: 0 <= j < |msgs| ==> NulFree(msgs[j])
  {
    InvHolds(states, events, i);
    assert SourceIntact(states[i], fd);
    TextsExact(Decode(states[i].fed[fd]).msgs, Texts(From(states[i].log + states[i].outbox, fd)));
  }

  /** A sender whose bytes so far are the front of the frames of `ms`, with no zero byte in them, has
      broadcast a prefix of `ms`: nothing of it is lost, repeated or reordered. */
  lemma SenderInOrder(states: seq<State>, events: seq<Event>, i: nat, fd: int, ms: seq<Message>)
    requires Run(states, events) && i < |states| && fd in states[i].queues && fd in states[i].fed
    requires forall j :: 0 <= j < |ms| ==> |ms[j]| < MAX_LENGTH && NulFree(ms[j])
    requires states[i].fed[fd] <= Stream(ms)
    ensures Texts(From(states[i].log, fd)) <= ms
    ensures states[i].fed[fd] == Stream(ms) && states[i].outbox == [] && (ms == [] || ms[|ms| - 1] != []) ==>
              Texts(From(states[i].log, fd)) == ms
  {
    InvHolds(states, events, i);
    var s := states[i];
    assert SourceIntact(s, fd);
    var d, all := Decode(s.fed[fd]), From(s.log + s.outbox, fd);
    PrefixDelivered(ms, s.fed[fd]);
    assert forall j :: 0 <= j < |d.msgs| ==> d.msgs[j] == ms[j];
    TextsExact(d.msgs, Texts(all));
    FromConcat(s.log, s.outbox, fd);
    assert Texts(From(s.log, fd)) == Texts(all)[..|From(s.log, fd)|];
    if s.fed[fd] == Stream(ms) && s.outbox == [] && (ms == [] || ms[|ms| - 1] != []) {
      StreamRoundTrip(ms);
      assert From(s.outbox, fd) == [];
    }
  }

  // ---------------------------------------------------------------- when the queue of a client goes wrong

  ghost predicate Stranded(s: State, fd: int) {
    fd in s.queues && InOrderEnds(s.queues[fd])
  }

  /** What was sent and what is queued are together the frames of what is due. */
  ghost predicate Delivers(s: State, fd: int) {
    && fd in s.queues && fd in s.sent && fd in s.joined && s.joined[fd] <= |s.log|
    && Readable(s.queues[fd]) && s.sent[fd] + Contents(s.queues[fd]) == Stream(Due(s, fd))
  }

  /** A broadcast in which the fresh memory of one client holds `fill`. */
  ghost function Broadcasted(s: State, fd: int, fill: Byte): (s': State)
    requires Inv(s) && s.outbox != [] && fd in s.queues && fd !in s.lost
    ensures Next(s, Broadcast, s') && s'.queues[fd] == AddFilled(s.queues[fd], Frame(s.outbox[0].text), fill)
  {
    assert forall g :: g in s.queues && g !in s.lost ==> StreamIntact(s, g);
    var frame := Frame(s.outbox[0].text);
    var queues := map g | g in s.queues :: if g in s.lost then s.queues[g] else AddFilled(s.queues[g], frame, fill);
    s.(queues := queues, outbox := s.outbox[1..], log := s.log + [s.outbox[0]],
       lost := s.lost + set g | g in s.queues && InOrderEnds(s.queues[g]))
  }

  lemma DueGrows(s: State, s': State, fd: int)
    requires Inv(s) && Next(s, Broadcast, s') && fd in s.queues && fd !in s.lost
    ensures fd in s'.joined && s'.joined[fd] <= |s'.log| && Due(s', fd) == Due(s, fd) + [s.outbox[0].text]
    ensures s'.sent[fd] == s.sent[fd]
    ensures Stream(Due(s', fd)) == Stream(Due(s, fd)) + Frame(s.outbox[0].text)
  {
    assert StreamIntact(s, fd);
    assert s'.log[s.joined[fd]..] == s.log[s.joined[fd]..] + [s.outbox[0]];
    StreamConcat(Due(s, fd), [s.outbox[0].text]);
    StreamOfOne(s.outbox[0].text);
  }

  /** The stream of a client goes on intact exactly if its queue takes the frame in order. */
  lemma DeliversExactlyIfAppended(s: State, s': State, fd: int)
    requires Inv(s) && Next(s, Broadcast, s') && fd in s.queues && fd !in s.lost
    ensures Readable(s.queues[fd])
    ensures Delivers(s', fd) <==> Appends(s.queues[fd], Frame(s.outbox[0].text), s'.queues[fd])
  {
    assert StreamIntact(s, fd);
    DueGrows(s, s', fd);
    var was, f := Contents(s.queues[fd]), Frame(s.outbox[0].text);
    Reassociate(s.sent[fd], was, f);
    if Delivers(s', fd) {
      assert s.sent[fd] + Contents(s'.queues[fd]) == s.sent[fd] + (was + f);
      SameRest(s.sent[fd], Contents(s'.queues[fd]), was + f);
    }
  }

  lemma SameRest(a: seq<Byte>, b: seq<Byte>, c: seq<Byte>)
    requires a + b == a + c
    ensures b == c
  {
    assert b == (a + b)[|a|..] && c == (a + c)[|a|..];
  }

  /** Whatever the fresh memory holds, the stream of a client survives the next broadcast exactly when
      its queue is not stranded. */
  lemma BroadcastIntactExactly(s: State, fd: int)
    requires Inv(s) && s.outbox != [] && fd in s.queues && fd !in s.lost
    ensures (forall s' :: Next(s, Broadcast, s') ==> Delivers(s', fd)) <==> !Stranded(s, fd)
  {
    assert StreamIntact(s, fd);
    var q, f := s.queues[fd], Frame(s.outbox[0].text);
    if Stranded(s, fd) {
      var s' := Broadcasted(s, fd, Unlike(f));
      UnsyncedDamages(q, f);
      DeliversExactlyIfAppended(s, s', fd);
    } else {
      forall s' | Next(s, Broadcast, s')
        ensures Delivers(s', fd)
      {
        AddInOrder(q, f, s'.queues[fd]);
        DeliversExactlyIfAppended(s, s', fd);
      }
    }
  }

  /** Event `j` is a broadcast that ends exactly where a new chunk of the queue of `fd` ends. */
  ghost predicate FillsChunk(states: seq<State>, events: seq<Event>, j: nat, fd: int)
    requires |states| == |events| + 1 && j < |events|
  {
    events[j] == Broadcast && fd in states[j].queues && states[j].outbox != [] &&
    |states[j].queues[fd].store| % CHUNK == 0 &&
    Strands(states[j].queues[fd], |Frame(states[j].outbox[0].text)|)
  }

  /** Event `k` takes all that is queued for `fd`. */
  ghost predicate Drains(states: seq<State>, events: seq<Event>, k: nat, fd: int)
    requires |states| == |events| + 1 && k < |events|
  {
    fd in states[k].queues && events[k] == Send(fd, states[k].queues[fd].count)
  }

  /** Event `j` fills a chunk, and up to event `i` the queue has not been drained. */
  ghost predicate FillsUndrained(states: seq<State>, events: seq<Event>, j: nat, i: nat, fd: int)
    requires |states| == |events| + 1 && j < i <= |events|
  {
    FillsChunk(states, events, j, fd) && forall k :: j < k < i ==> !Drains(states, events, k, fd)
  }

  ghost predicate Undrained(states: seq<State>, events: seq<Event>, i: nat, fd: int)
    requires |states| == |events| + 1 && i <= |events|
  {
    exists j :: 0 <= j < i && FillsUndrained(states, events, j, i, fd)
  }

  /** How one event changes whether the queue of a client that is not lost is stranded. */
  lemma StrandedNext(s: State, e: Event, s': State, fd: int)
    requires Inv(s) && Next(s, e, s') && fd !in s'.lost
    ensures fd !in s.lost && (fd in s.queues ==> fd in s'.queues)
    ensures e == Broadcast && fd in s.queues ==> !Stranded(s, fd)
    ensures Stranded(s', fd) <==>
            if e == Broadcast then fd in s.queues && Strands(s.queues[fd], |Frame(s.outbox[0].text)|)
            else Stranded(s, fd) && e != Send(fd, s.queues[fd].count)
  {
    assert fd in s.queues ==> StreamIntact(s, fd);
    match e
    case Accept(g) =>
      if g == fd { FirstFrame(Frame(WELCOME), s'.queues[fd]); }
    case Receive(g, piece) =>
    case Broadcast =>
      if fd in s.queues { AddInOrder(s.queues[fd], Frame(s.outbox[0].text), s'.queues[fd]); }
    case Send(g, n) =>
      if g == fd { EraseFront(s.queues[fd], n); }
  }

  /** Within the run: one event more. */
  lemma UndrainedNext(states: seq<State>, events: seq<Event>, i: nat, fd: int)
    requires |states| == |events| + 1 && 0 < i <= |events|
    ensures Undrained(states, events, i, fd) <==>
            FillsChunk(states, events, i - 1, fd) || (Undrained(states, events, i - 1, fd) && !Drains(states, events, i - 1, fd))
  {
    if Undrained(states, events, i, fd) {
      var j :| 0 <= j < i && FillsUndrained(states, events, j, i, fd);
      if j < i - 1 {
        assert FillsUndrained(states, events, j, i - 1, fd);
      }
    }
    if FillsChunk(states, events, i - 1, fd) {
      assert FillsUndrained(states, events, i - 1, i, fd);
    }
    if Undrained(states, events, i - 1, fd) && !Drains(states, events, i - 1, fd) {
      var j :| 0 <= j < i - 1 && FillsUndrained(states, events, j, i - 1, fd);
      assert FillsUndrained(states, events, j, i, fd);
    }
  }

  /** The queue of a client that is not lost is stranded exactly when some broadcast has filled a chunk
      of it to its end and it has not been drained since. */
  lemma {:induction false} StrandedExactly(states: seq<State>, events: seq<Event>, i: nat, fd: int)
    requires Run(states, events) && i < |states| && fd !in states[i].lost
    ensures Stranded(states[i], fd) <==> Undrained(states, events, i, fd)
  {
    if i > 0 {
      var s, e, s' := states[i - 1], events[i - 1], states[i];
      assert Next(s, e, s');
      InvHolds(states, events, i - 1);
      StrandedNext(s, e, s', fd);
      StrandedExactly(states, events, i - 1, fd);
      UndrainedNext(states, events, i, fd);
      assert fd in s.queues ==> StreamIntact(s, fd);
    }
  }

  /** Event `m` broadcasts to `fd` after some broadcast has filled a chunk and before it has drained. */
  ghost predicate HitsUndrained(states: seq<State>, events: seq<Event>, m: nat, fd: int)
    requires |states| == |events| + 1 && m < |events|
  {
    events[m] == Broadcast && fd in states[m].queues && Undrained(states, events, m, fd)
  }

  /** Some event before `i` has done that. */
  ghost predicate HitBefore(states: seq<State>, events: seq<Event>, i: nat, fd: int)
    requires |states| == |events| + 1 && i <= |events|
  {
    exists m :: 0 <= m < i && HitsUndrained(states, events, m, fd)
  }

  lemma HitNext(states: seq<State>, events: seq<Event>, i: nat, fd: int)
    requires |states| == |events| + 1 && 0 < i <= |events|
    ensures HitBefore(states, events, i, fd) <==> HitBefore(states, events, i - 1, fd) || HitsUndrained(states, events, i - 1, fd)
  {
  }

  /** Within a run: a client is lost by a broadcast to its stranded queue. */
  lemma LostNext(states: seq<State>, events: seq<Event>, i: nat, fd: int)
    requires Run(states, events) && 0 < i < |states|
    ensures fd in states[i].lost <==>
            fd in states[i - 1].lost || (events[i - 1] == Broadcast && Stranded(states[i - 1], fd))
  {
    assert Next(states[i - 1], events[i - 1], states[i]);
  }

  /** A client is lost exactly when a broadcast has filled a chunk of its queue to the end and the next
      one has come before the queue was drained. */
  lemma {:induction false} LostExactly(states: seq<State>, events: seq<Event>, i: nat, fd: int)
    requires Run(states, events) && i < |states|
    ensures fd in states[i].lost <==> HitBefore(states, events, i, fd)
  {
    if i > 0 {
      LostExactly(states, events, i - 1, fd);
      LostNext(states, events, i, fd);
      HitNext(states, events, i, fd);
      if fd !in states[i - 1].lost {
        StrandedExactly(states, events, i - 1, fd);
      }
    }
  }

  /** In every run, the stream of a client that has been intact so far survives the next broadcast,
      whatever the fresh memory holds, exactly when the queue has been drained since a chunk was filled. */
  lemma IntactExactly(states: seq<State>, events: seq<Event>, i: nat, fd: int)
    requires Run(states, events) && i < |states| && states[i].outbox != []
    requires fd in states[i].queues && !HitBefore(states, events, i, fd)
    ensures Delivers(states[i], fd)
    ensures (forall s' :: Next(states[i], Broadcast, s') ==> Delivers(s', fd)) <==> !Undrained(states, events, i, fd)
  {
    InvHolds(states, events, i);
    LostExactly(states, events, i, fd);
    StrandedExactly(states, events, i, fd);
    assert StreamIntact(states[i], fd);
    BroadcastIntactExactly(states[i], fd);
  }
}
