/**
  The objects of the chat server at work: whatever a client sends and however much its socket takes, what
  they do is a run of the state machine, so that what is proved there holds of them.
 */
module Server {
  import opened Bytes
  import opened Framing
  import opened FrameDecoder
  import opened ChunkQueue
  import opened SendQueue
  import opened ChatServer

  function Entries(fd: int, msgs: seq<Message>): (es: seq<Entry>)
    ensures |es| == |msgs| && forall i :: 0 <= i < |msgs| ==> es[i] == Entry(fd, msgs[i])
  {
    seq(|msgs|, i requires 0 <= i < |msgs| => Entry(fd, msgs[i]))
  }

  lemma RunSnoc(states: seq<State>, events: seq<Event>, e: Event, s': State)
    requires Run(states, events) && Next(states[|events|], e, s')
    ensures Run(states + [s'], events + [e])
  {
    var ss, es := states + [s'], events + [e];
    forall i | 0 <= i < |es|
      ensures Next(ss[i], es[i], ss[i + 1])
    {
      if i < |events| { assert ss[i] == states[i] && ss[i + 1] == states[i + 1] && es[i] == events[i]; }
    }
  }

  /** The state after a broadcast that has left the given queues. */
  ghost function AllGot(s: State, queues: map<int, Chunked>): State
    requires s.outbox != []
  {
    s.(queues := queues, outbox := s.outbox[1..], log := s.log + [s.outbox[0]],
       lost := s.lost + set fd | fd in s.queues && InOrderEnds(s.queues[fd]))
  }

  lemma BroadcastIsNext(s: State, queues: map<int, Chunked>)
    requires s.outbox != [] && queues.Keys == s.queues.Keys
    requires forall fd :: fd in queues ==> Added(s.queues[fd], Frame(s.outbox[0].text), queues[fd])
    ensures Next(s, Broadcast, AllGot(s, queues))
  {
  }

  lemma BroadcastRuns(states: seq<State>, events: seq<Event>, s: State, queues: map<int, Chunked>)
    requires Run(states, events) && s == states[|events|]
    requires s.outbox != [] && queues.Keys == s.queues.Keys
    requires forall fd :: fd in queues ==> Added(s.queues[fd], Frame(s.outbox[0].text), queues[fd])
    ensures Run(states + [AllGot(s, queues)], events + [Broadcast])
  {
    BroadcastIsNext(s, queues);
    RunSnoc(states, events, Broadcast, AllGot(s, queues));
  }

  /** The state after a socket has taken some bytes. */
  ghost function Sent(s: State, fd: int, q: Chunked, taken: seq<Byte>): State
    requires fd in s.sent
  {
    s.(queues := s.queues[fd := q], sent := s.sent[fd := s.sent[fd] + taken])
  }

  /** What has to be known of the queue, and the step that is then taken. */
  lemma SendRuns(states: seq<State>, events: seq<Event>, s: State, fd: int, n: nat)
    requires Run(states, events) && s == states[|events|]
    requires s.outbox == [] && fd in s.queues && fd !in s.lost && n <= CHUNK && n <= s.queues[fd].count
    ensures fd in s.sent && Readable(s.queues[fd])
    ensures var q := s.queues[fd];
            && (q.begOffset + n >= CHUNK ==> |q.store| >= CHUNK)
            && Run(states + [Sent(s, fd, Erased(q, n), Contents(q)[..n])], events + [Send(fd, n)])
  {
    InvHolds(states, events, |events|);
    assert StreamIntact(s, fd);
    EraseFront(s.queues[fd], n);
    RunSnoc(states, events, Send(fd, n), Sent(s, fd, Erased(s.queues[fd], n), Contents(s.queues[fd])[..n]));
  }

  /** The state after a piece has been decoded into `msgs`, with `rest` left. */
  ghost function Taken(s: State, fd: int, piece: seq<Byte>, rest: seq<Byte>, msgs: seq<Message>): State
    requires fd in s.fed
  {
    s.(outbox := Entries(fd, msgs), pending := s.pending[fd := rest], fed := s.fed[fd := s.fed[fd] + piece])
  }

  lemma PieceRuns(states: seq<State>, events: seq<Event>, s: State, fd: int, piece: seq<Byte>, msgs: seq<Message>)
    requires Run(states, events) && s == states[|events|]
    requires s.outbox == [] && fd in s.pending && fd in s.fed && 0 < |piece| <= PIECE
    requires TextsOf(Decode(s.pending[fd] + piece).msgs, msgs)
    ensures var rest := Decode(s.pending[fd] + piece).rest;
            Run(states + [Taken(s, fd, piece, rest, msgs)], events + [Receive(fd, piece)])
  {
    assert Texts(Entries(fd, msgs)) == msgs;
    RunSnoc(states, events, Receive(fd, piece), Taken(s, fd, piece, Decode(s.pending[fd] + piece).rest, msgs));
  }

  /** The state after a client has been accepted. */
  ghost function Accepted(s: State, fd: int, q: Chunked): State {
    s.(queues := s.queues[fd := q], pending := s.pending[fd := []], sent := s.sent[fd := []],
       fed := s.fed[fd := []], joined := s.joined[fd := |s.log|])
  }

  lemma AcceptRuns(states: seq<State>, events: seq<Event>, s: State, fd: int, q: Chunked)
    requires Run(states, events) && s == states[|events|]
    requires s.outbox == [] && fd !in s.queues && Added(EmptyQueue, Frame(WELCOME), q)
    ensures Run(states + [Accepted(s, fd, q)], events + [Accept(fd)])
  {
    RunSnoc(states, events, Accept(fd), Accepted(s, fd, q));
  }

  lemma SameKeys(states: seq<State>, events: seq<Event>, s: State)
    requires Run(states, events) && s == states[|events|]
    ensures s.queues.Keys == s.pending.Keys == s.sent.Keys == s.fed.Keys
  {
    InvHolds(states, events, |events|);
  }

  /** Decoders that have had no piece hold nothing. */
  ghost predicate PendingIs(held: map<int, seq<Byte>>, pending: map<int, seq<Byte>>) {
    held.Keys <= pending.Keys && forall fd :: fd in pending ==> pending[fd] == if fd in held then held[fd] else []
  }

  lemma PendingAfter(held: map<int, seq<Byte>>, pending: map<int, seq<Byte>>, fd: int, rest: seq<Byte>)
    requires PendingIs(held, pending) && fd in pending
    ensures PendingIs(held[fd := rest], pending[fd := rest])
  {
  }

  class Server {
    const receiver: MessageReceiver
    const sender: MessageSender
    ghost var states: seq<State>
    ghost var events: seq<Event>

    ghost predicate Apart()
      reads receiver, receiver.Repr, sender, sender.Repr
    {
      && receiver.Valid() && sender.Valid()
      && this !in receiver.Repr && this !in sender.Repr && receiver.Repr !! sender.Repr
    }

    /** What the decoders and the queues hold is what the state says. */
    ghost predicate Shows(s: State)
      requires Apart()
      reads receiver, receiver.Repr, sender, sender.Repr
    {
      sender.View() == s.queues && PendingIs(receiver.View(), s.pending)
    }

    ghost function Now(): State
      requires states != []
      reads this
    {
      states[|states| - 1]
    }

    ghost predicate Valid()
      reads this, receiver, receiver.Repr, sender, sender.Repr
    {
      Apart() && Run(states, events) && Shows(Now())
    }

    constructor ()
      ensures Valid() && states == [Start] && events == []
      ensures fresh(receiver.Repr) && fresh(sender.Repr)
    {
      receiver := new MessageReceiver();
      sender := new MessageSender();
      states, events := [Start], [];
    }

    ghost method Note(e: Event, s': State)
      requires Apart() && Run(states + [s'], events + [e]) && Shows(s')
      modifies `states, `events
      ensures Valid() && states == old(states) + [s'] && events == old(events) + [e]
      ensures receiver.Repr == old(receiver.Repr) && sender.Repr == old(sender.Repr)
    {
      states, events := states + [s'], events + [e];
    }

    method GreetClient(fd: int) returns (ghost q: Chunked)
      requires Apart() && fd !in sender.View()
      modifies sender
      ensures Apart() && fresh(sender.Repr - old(sender.Repr)) && receiver.View() == old(receiver.View())
      ensures sender.View() == old(sender.View())[fd := q] && Added(EmptyQueue, Frame(WELCOME), q)
    {
      sender.Queued(fd);
      q := sender.Greet(fd, WELCOME);
    }

    /** A new client is greeted. */
    method AcceptClient(fd: int)
      requires Valid() && Now().outbox == [] && fd !in Now().queues
      modifies this, sender
      ensures Valid() && events == old(events) + [Accept(fd)] && fresh(sender.Repr - old(sender.Repr))
    {
      ghost var s := Now();
      SameKeys(states, events, s);
      ghost var q := GreetClient(fd);
      AcceptRuns(states, events, s, fd, q);
      Note(Accept(fd), Accepted(s, fd, q));
    }

    method DecodePiece(fd: int, piece: seq<Byte>, ghost s: State, ghost states: seq<State>, ghost events: seq<Event>)
      returns (msgs: seq<Message>, ghost rest: seq<Byte>)
      requires Apart() && Shows(s) && Run(states, events) && s == states[|events|]
      requires 0 < |piece| <= PIECE && fd in s.queues && s.outbox == []
      modifies receiver.Repr
      ensures fd in s.fed && fd in s.pending && rest == Decode(s.pending[fd] + piece).rest
      ensures TextsOf(Decode(s.pending[fd] + piece).msgs, msgs)
      ensures Apart() && fresh(receiver.Repr - old(receiver.Repr)) && Shows(Taken(s, fd, piece, rest, msgs))
    {
      SameKeys(states, events, s);
      receiver.Held(fd);
      rest := Decode(s.pending[fd] + piece).rest;
      PendingAfter(receiver.View(), s.pending, fd, rest);
      msgs := receiver.Process(fd, piece);
    }

    /** A piece of what a client sends is decoded. */
    method ReceivePiece(fd: int, piece: seq<Byte>) returns (msgs: seq<Message>)
      requires Valid() && Now().outbox == [] && fd in Now().queues && 0 < |piece| <= PIECE
      modifies this, receiver.Repr
      ensures Valid() && events == old(events) + [Receive(fd, piece)] && fresh(receiver.Repr - old(receiver.Repr))
      ensures Now().outbox == Entries(fd, msgs)
    {
      ghost var s := Now();
      ghost var rest;
      msgs, rest := DecodePiece(fd, piece, s, states, events);
      PieceRuns(states, events, s, fd, piece, msgs);
      Note(Receive(fd, piece), Taken(s, fd, piece, rest, msgs));
    }

    /** The first of the decoded messages goes to all clients. */
    method BroadcastNext(msg: Message)
      requires Valid() && Now().outbox != [] && Now().outbox[0].text == msg
      modifies this, sender.Repr
      ensures Valid() && events == old(events) + [Broadcast] && fresh(sender.Repr - old(sender.Repr))
      ensures Now().outbox == old(Now().outbox)[1..] && Now().queues.Keys == old(Now().queues.Keys)
    {
      ghost var s := Now();
      sender.AddMessage(msg);
      BroadcastRuns(states, events, s, sender.View());
      Note(Broadcast, AllGot(s, sender.View()));
    }

    /** Everything that a piece completes is broadcast, before the next piece is read. */
    method ReadClient(fd: int, piece: seq<Byte>)
      requires Valid() && Now().outbox == [] && fd in Now().queues && 0 < |piece| <= PIECE
      modifies this, receiver.Repr, sender.Repr
      ensures Valid() && old(events) + [Receive(fd, piece)] <= events && Now().outbox == []
      ensures forall i :: |old(events)| < i < |events| ==> events[i] == Broadcast
      ensures fresh(receiver.Repr - old(receiver.Repr)) && fresh(sender.Repr - old(sender.Repr))
    {
      var msgs := ReceivePiece(fd, piece);
      for i := 0 to |msgs|
        invariant Valid() && old(events) + [Receive(fd, piece)] <= events && Now().outbox == Entries(fd, msgs)[i..]
        invariant forall i :: |old(events)| < i < |events| ==> events[i] == Broadcast
        invariant fresh(receiver.Repr - old(receiver.Repr)) && fresh(sender.Repr - old(sender.Repr))
      {
        BroadcastNext(msgs[i]);
      }
    }

    method SendFrom(fd: int, n: nat, ghost s: State)
      requires Apart() && Shows(s) && fd in s.queues && fd in s.sent && Readable(s.queues[fd])
      requires n <= CHUNK && n <= s.queues[fd].count
      modifies sender.Repr
      ensures Apart() && sender.Repr == old(sender.Repr)
      ensures var q := s.queues[fd];
              (q.begOffset + n >= CHUNK ==> |q.store| >= CHUNK) && Shows(Sent(s, fd, Erased(q, n), Contents(q)[..n]))
    {
      var taken := sender.SendTo(fd, n);
    }

    /** A socket takes `n` of the bytes that are queued for it. */
    method SendSome(fd: int, n: nat)
      requires Valid() && Now().outbox == [] && fd in Now().queues && fd !in Now().lost
      requires n <= CHUNK && n <= Now().queues[fd].count
      modifies this, sender.Repr
      ensures Valid() && events == old(events) + [Send(fd, n)] && sender.Repr == old(sender.Repr)
    {
      ghost var s := Now();
      SendRuns(states, events, s, fd, n);
      SendFrom(fd, n, s);
      Note(Send(fd, n), Sent(s, fd, Erased(s.queues[fd], n), Contents(s.queues[fd])[..n]));
    }
  }
}
