/**
  The two-way relay: one session between a user and a server.  An operation on a socket is posted with
  its handler and stays pending while the network moves bytes into or out of a buffer and until the
  handler is called; the order of all this, over both directions, is arbitrary.
 */
module Relay {
  import opened Common
  import opened Bytes

  const BUF_SIZE := 1024

  datatype Socket = User | Server
  datatype Buffer = UserBuffer | ServerBuffer
  datatype Handler = UserRead | UserWrite | ServerRead | ServerWrite

  /** `moved` is the number of bytes that the network has moved for the operation. */
  datatype Op = Op(socket: Socket, buffer: Buffer, start: int, len: int, handler: Handler, moved: Option<nat>)

  predicate Receives(h: Handler) {
    h == UserRead || h == ServerRead
  }

  function ReceiveOp(socket: Socket, buffer: Buffer, h: Handler): Op {
    Op(socket, buffer, 0, BUF_SIZE, h, None)
  }

  function SendOp(socket: Socket, buffer: Buffer, start: int, len: int, h: Handler): Op {
    Op(socket, buffer, start, len, h, None)
  }

  datatype Session = Session(
    userBuffer: seq<Byte>,
    serverBuffer: seq<Byte>,
    userSizeMessage: int,
    userCurSize: int,
    servSizeMessage: int,
    servCurSize: int,
    pending: multiset<Op>,
    closed: bool)

  // ---------------------------------------------------------------- the handlers

  function Post(s: Session, op: Op): Session {
    s.(pending := s.pending + multiset{op})
  }

  function OnConnect(s: Session, error: bool): Session {
    if error then s.(closed := true)
    else
      Post(Post(s.(servCurSize := 0, userCurSize := 0), ReceiveOp(User, UserBuffer, UserRead)),
           ReceiveOp(Server, ServerBuffer, ServerRead))
  }

  function OnUserRead(s: Session, error: bool, size: nat): Session {
    if error then s.(closed := true)
    else
      var s' := s.(userCurSize := 0, userSizeMessage := size);
      if size != 0 then Post(s', SendOp(Server, UserBuffer, 0, size, UserWrite))
      else Post(s', ReceiveOp(User, UserBuffer, UserRead))
  }

  function OnUserWrite(s: Session, error: bool, size: nat): Session {
    if error then s.(closed := true)
    else
      var cur := s.userCurSize + size;
      if s.userSizeMessage == cur
      then Post(s.(userSizeMessage := 0, userCurSize := 0), ReceiveOp(User, UserBuffer, UserRead))
      else Post(s.(userCurSize := cur), SendOp(Server, UserBuffer, cur, s.userSizeMessage - cur, UserWrite))
  }

  /** An empty read from the server is followed by a read from the user, into the server's buffer. */
  function OnServerRead(s: Session, error: bool, size: nat): Session {
    if error then s.(closed := true)
    else
      var s' := s.(servCurSize := 0, servSizeMessage := size);
      if size != 0 then Post(s', SendOp(User, ServerBuffer, 0, size, ServerWrite))
      else Post(s', ReceiveOp(User, ServerBuffer, ServerRead))
  }

  function OnServerWrite(s: Session, error: bool, size: nat): Session {
    if error then s.(closed := true)
    else
      var cur := s.servCurSize + size;
      if s.servSizeMessage == cur
      then Post(s.(servSizeMessage := 0, servCurSize := 0), ReceiveOp(Server, ServerBuffer, ServerRead))
      else Post(s.(servCurSize := cur), SendOp(User, ServerBuffer, cur, s.servSizeMessage - cur, ServerWrite))
  }

  function OnHandler(s: Session, h: Handler, error: bool, size: nat): Session {
    match h
    case UserRead => OnUserRead(s, error, size)
    case UserWrite => OnUserWrite(s, error, size)
    case ServerRead => OnServerRead(s, error, size)
    case ServerWrite => OnServerWrite(s, error, size)
  }

  // ---------------------------------------------------------------- the network

  /** All bytes that have been received from each side and delivered to it. */
  datatype Net = Net(userIn: seq<Byte>, userOut: seq<Byte>, serverIn: seq<Byte>, serverOut: seq<Byte>)

  datatype World = World(s: Session, net: Net)

  /** The network moves some bytes for an operation, or the handler of an operation is called. */
  datatype Event = Move(op: Op, data: seq<Byte>) | Handle(op: Op, error: bool)

  function BufferOf(s: Session, b: Buffer): seq<Byte> {
    if b == UserBuffer then s.userBuffer else s.serverBuffer
  }

  function WithBuffer(s: Session, b: Buffer, data: seq<Byte>): Session {
    if b == UserBuffer then s.(userBuffer := data) else s.(serverBuffer := data)
  }

  function Received(n: Net, socket: Socket, data: seq<Byte>): Net {
    if socket == User then n.(userIn := n.userIn + data) else n.(serverIn := n.serverIn + data)
  }

  function Delivered(n: Net, socket: Socket, data: seq<Byte>): Net {
    if socket == User then n.(userOut := n.userOut + data) else n.(serverOut := n.serverOut + data)
  }

  function Without(s: Session, op: Op): Session {
    s.(pending := s.pending - multiset{op})
  }

  ghost predicate Step(w: World, e: Event, w': World) {
    e.op in w.s.pending &&
    match e
    case Move(op, data) =>
      && op.moved.None? && |data| <= op.len
      && (var s := Post(Without(w.s, op), op.(moved := Some(|data|)));
          var buf := BufferOf(w.s, op.buffer);
          if Receives(op.handler) then
            |data| <= |buf| && w' == World(WithBuffer(s, op.buffer, Overwritten(buf, 0, data)), Received(w.net, op.socket, data))
          else
            && 0 <= op.start && op.start + |data| <= |buf| && data == buf[op.start..op.start + |data|]
            && w' == World(s, Delivered(w.net, op.socket, data)))
    case Handle(op, error) =>
      && (error || op.moved.Some?)
      && w' == World(OnHandler(Without(w.s, op), op.handler, error, if op.moved.Some? then op.moved.value else 0), w.net)
  }

  /** What has been delivered to one side is the beginning of what the other side has sent. */
  predicate Safe(w: World) {
    w.net.serverOut <= w.net.userIn && w.net.userOut <= w.net.serverIn
  }

  // ---------------------------------------------------------------- one direction

  /** A direction: where it reads, where it writes, and through which buffer. */
  datatype Lane = FromUser | FromServer

  function Source(l: Lane): Socket { if l == FromUser then User else Server }
  function Target(l: Lane): Socket { if l == FromUser then Server else User }
  function Through(l: Lane): Buffer { if l == FromUser then UserBuffer else ServerBuffer }
  function Reader(l: Lane): Handler { if l == FromUser then UserRead else ServerRead }
  function Writer(l: Lane): Handler { if l == FromUser then UserWrite else ServerWrite }
  function SizeOf(s: Session, l: Lane): int { if l == FromUser then s.userSizeMessage else s.servSizeMessage }
  function CurOf(s: Session, l: Lane): int { if l == FromUser then s.userCurSize else s.servCurSize }
  function Got(n: Net, l: Lane): seq<Byte> { if l == FromUser then n.userIn else n.serverIn }
  function Sent(n: Net, l: Lane): seq<Byte> { if l == FromUser then n.serverOut else n.userOut }

  /** The bytes in the buffer that have been received and not been delivered. */
  function Unsent(s: Session, l: Lane, op: Op): seq<Byte>
    requires |BufferOf(s, Through(l))| == BUF_SIZE
  {
    var buf := BufferOf(s, Through(l));
    var done := if op.moved.Some? then op.moved.value else 0;
    if Receives(op.handler) then (if done <= BUF_SIZE then buf[..done] else [])
    else if 0 <= CurOf(s, l) + done <= SizeOf(s, l) <= BUF_SIZE then buf[CurOf(s, l) + done..SizeOf(s, l)] else []
  }

  /** The one operation of the direction either fills its buffer or sends from it, and what has been
      received is what has been delivered and the unsent part of the buffer. */
  ghost predicate LaneInv(w: World, l: Lane, op: Option<Op>) {
    && |BufferOf(w.s, Through(l))| == BUF_SIZE
    && match op
       case None => Sent(w.net, l) <= Got(w.net, l) && |Got(w.net, l)| <= |Sent(w.net, l)| + BUF_SIZE
       case Some(o) =>
         && o.buffer == Through(l) && Got(w.net, l) == Sent(w.net, l) + Unsent(w.s, l, o)
         && (o.moved.Some? ==> o.moved.value <= o.len)
         && if Receives(o.handler) then o.handler == Reader(l) && o.socket == Source(l) && o.start == 0 && o.len == BUF_SIZE
            else
              && o.handler == Writer(l) && o.socket == Target(l) && o.start == CurOf(w.s, l)
              && 0 <= CurOf(w.s, l) < SizeOf(w.s, l) <= BUF_SIZE && o.len == SizeOf(w.s, l) - CurOf(w.s, l)
  }

  function Bag(op: Option<Op>): multiset<Op> {
    match op
    case None => multiset{}
    case Some(o) => multiset{o}
  }

  /** `u` and `v` are the operations of the two directions, and there are no others. */
  ghost predicate Lanes(w: World, u: Option<Op>, v: Option<Op>) {
    w.s.pending == Bag(u) + Bag(v) && LaneInv(w, FromUser, u) && LaneInv(w, FromServer, v)
  }

  lemma LanesAreSafe(w: World, u: Option<Op>, v: Option<Op>)
    requires Lanes(w, u, v)
    ensures Safe(w)
  {
  }

  lemma Connected(s: Session, net: Net)
    requires s.pending == multiset{} && |s.userBuffer| == BUF_SIZE && |s.serverBuffer| == BUF_SIZE
    requires net == Net([], [], [], [])
    ensures Lanes(World(OnConnect(s, false), net),
                  Some(ReceiveOp(User, UserBuffer, UserRead)), Some(ReceiveOp(Server, ServerBuffer, ServerRead)))
  {
  }

  function Other(l: Lane): Lane { if l == FromUser then FromServer else FromUser }

  /** All that the other direction depends on. */
  predicate SameLane(w: World, w': World, l: Lane) {
    && BufferOf(w'.s, Through(l)) == BufferOf(w.s, Through(l))
    && SizeOf(w'.s, l) == SizeOf(w.s, l) && CurOf(w'.s, l) == CurOf(w.s, l)
    && Got(w'.net, l) == Got(w.net, l) && Sent(w'.net, l) == Sent(w.net, l)
  }

  lemma MoveInKeepsLane(w: World, l: Lane, o: Op, data: seq<Byte>, w': World)
    requires LaneInv(w, l, Some(o)) && Step(w, Move(o, data), w') && Receives(o.handler)
    ensures LaneInv(w', l, Some(o.(moved := Some(|data|)))) && SameLane(w, w', Other(l))
  {
  }

  lemma SliceSplit(buf: seq<Byte>, i: nat, j: nat, k: nat)
    requires i <= j <= k <= |buf|
    ensures buf[i..k] == buf[i..j] + buf[j..k]
  {
  }

  lemma MoveOutKeepsLane(w: World, l: Lane, o: Op, data: seq<Byte>, w': World)
    requires LaneInv(w, l, Some(o)) && Step(w, Move(o, data), w') && !Receives(o.handler)
    ensures LaneInv(w', l, Some(o.(moved := Some(|data|)))) && SameLane(w, w', Other(l))
  {
    MoveOutBytes(w, l, o, data, w');
  }

  /** The bytes that go out are the front of the unsent ones. */
  lemma MoveOutBytes(w: World, l: Lane, o: Op, data: seq<Byte>, w': World)
    requires LaneInv(w, l, Some(o)) && Step(w, Move(o, data), w') && !Receives(o.handler)
    ensures BufferOf(w'.s, Through(l)) == BufferOf(w.s, Through(l))
    ensures Got(w'.net, l) == Sent(w'.net, l) + Unsent(w'.s, l, o.(moved := Some(|data|)))
  {
    var buf, cur, size := BufferOf(w.s, Through(l)), CurOf(w.s, l), SizeOf(w.s, l);
    SliceSplit(buf, cur, cur + |data|, size);
    Reassociate(Sent(w.net, l), data, buf[cur + |data|..size]);
  }

  /** The read from the server that came back empty. */
  predicate ZeroRead(e: Event) {
    e.Handle? && !e.error && e.op.handler == ServerRead && e.op.moved == Some(0)
  }

  lemma ReadKeepsLane(w: World, l: Lane, o: Op, w': World) returns (o': Op)
    requires LaneInv(w, l, Some(o)) && Receives(o.handler)
    requires Step(w, Handle(o, false), w') && !ZeroRead(Handle(o, false))
    ensures LaneInv(w', l, Some(o')) && SameLane(w, w', Other(l)) && w'.s.pending == w.s.pending - multiset{o} + multiset{o'}
  {
    var n := o.moved.value;
    o' := if n == 0 then ReceiveOp(Source(l), Through(l), Reader(l)) else SendOp(Target(l), Through(l), 0, n, Writer(l));
  }

  lemma WritePosts(w: World, l: Lane, o: Op, w': World)
    requires LaneInv(w, l, Some(o)) && !Receives(o.handler) && Step(w, Handle(o, false), w')
    ensures var cur, size := CurOf(w.s, l) + o.moved.value, SizeOf(w.s, l);
            w'.s.pending == w.s.pending - multiset{o} +
              multiset{if cur == size then ReceiveOp(Source(l), Through(l), Reader(l))
                       else SendOp(Target(l), Through(l), cur, size - cur, Writer(l))}
  {
  }

  lemma WriteSparesOther(w: World, l: Lane, o: Op, w': World)
    requires LaneInv(w, l, Some(o)) && !Receives(o.handler) && Step(w, Handle(o, false), w')
    ensures SameLane(w, w', Other(l))
  {
  }

  lemma WriteKeepsLane(w: World, l: Lane, o: Op, w': World) returns (o': Op)
    requires LaneInv(w, l, Some(o)) && !Receives(o.handler) && Step(w, Handle(o, false), w')
    ensures LaneInv(w', l, Some(o')) && SameLane(w, w', Other(l)) && w'.s.pending == w.s.pending - multiset{o} + multiset{o'}
  {
    var cur, size := CurOf(w.s, l) + o.moved.value, SizeOf(w.s, l);
    WritePosts(w, l, o, w');
    WriteSparesOther(w, l, o, w');
    o' := if cur == size then ReceiveOp(Source(l), Through(l), Reader(l))
          else SendOp(Target(l), Through(l), cur, size - cur, Writer(l));
  }

  lemma ErrorKeepsLane(w: World, l: Lane, o: Op, w': World)
    requires LaneInv(w, l, Some(o)) && Step(w, Handle(o, true), w')
    ensures LaneInv(w', l, None) && SameLane(w, w', Other(l)) && w'.s.pending == w.s.pending - multiset{o}
  {
  }

  lemma SameLaneKeeps(w: World, w': World, l: Lane, op: Option<Op>)
    requires LaneInv(w, l, op) && SameLane(w, w', l)
    ensures LaneInv(w', l, op)
  {
  }

  predicate Fails(e: Event) {
    e.Handle? && e.error
  }

  /** One step of one direction: without an error it has an operation again. */
  lemma StepKeepsLane(w: World, l: Lane, o: Op, e: Event, w': World) returns (o': Option<Op>)
    requires LaneInv(w, l, Some(o)) && Step(w, e, w') && e.op == o && !ZeroRead(e)
    ensures !Fails(e) ==> o'.Some?
    ensures LaneInv(w', l, o') && SameLane(w, w', Other(l)) && w'.s.pending == w.s.pending - multiset{o} + Bag(o')
  {
    if e.Move? {
      if Receives(o.handler) {
        MoveInKeepsLane(w, l, o, e.data, w');
      } else {
        MoveOutKeepsLane(w, l, o, e.data, w');
      }
      o' := Some(o.(moved := Some(|e.data|)));
    } else if e.error {
      ErrorKeepsLane(w, l, o, w');
      o' := None;
    } else if Receives(o.handler) {
      var next := ReadKeepsLane(w, l, o, w');
      o' := Some(next);
    } else {
      var next := WriteKeepsLane(w, l, o, w');
      o' := Some(next);
    }
  }

  lemma Exchanged(pending: multiset<Op>, mine: Op, others: Option<Op>, next: Option<Op>)
    requires pending == Bag(Some(mine)) + Bag(others)
    ensures pending - multiset{mine} + Bag(next) == Bag(next) + Bag(others)
  {
  }

  /** Whatever happens next, in either direction, each direction keeps to itself. */
  lemma StepKeeps(w: World, u: Option<Op>, v: Option<Op>, e: Event, w': World) returns (u': Option<Op>, v': Option<Op>)
    requires Lanes(w, u, v) && Step(w, e, w') && !ZeroRead(e)
    ensures Lanes(w', u', v')
    ensures !Fails(e) ==> (u.Some? ==> u'.Some?) && (v.Some? ==> v'.Some?)
  {
    u', v' := u, v;
    assert e.op in Bag(u) || e.op in Bag(v);
    if u == Some(e.op) {
      u' := UserSteps(w, v, e, w');
    } else {
      v' := ServerSteps(w, u, e, w');
    }
  }

  lemma UserSteps(w: World, v: Option<Op>, e: Event, w': World) returns (u': Option<Op>)
    requires Lanes(w, Some(e.op), v) && Step(w, e, w') && !ZeroRead(e)
    ensures Lanes(w', u', v) && (!Fails(e) ==> u'.Some?)
  {
    u' := StepKeepsLane(w, FromUser, e.op, e, w');
    Exchanged(w.s.pending, e.op, v, u');
    SameLaneKeeps(w, w', FromServer, v);
  }

  lemma ServerSteps(w: World, u: Option<Op>, e: Event, w': World) returns (v': Option<Op>)
    requires Lanes(w, u, Some(e.op)) && Step(w, e, w') && !ZeroRead(e)
    ensures Lanes(w', u, v') && (!Fails(e) ==> v'.Some?)
  {
    v' := StepKeepsLane(w, FromServer, e.op, e, w');
    Exchanged(w.s.pending, e.op, u, v');
    SameLaneKeeps(w, w', FromUser, u);
  }

  /** Whatever else is pending, the network may take any front of what is to be sent, or deliver any bytes
      that fit, for each operation, */
  lemma AnyMayMove(w: World, u: Option<Op>, v: Option<Op>, op: Op, data: seq<Byte>) returns (w': World)
    requires Lanes(w, u, v) && op in w.s.pending && op.moved.None?
    requires if Receives(op.handler) then |data| <= BUF_SIZE
             else data <= Unsent(w.s, if op.buffer == UserBuffer then FromUser else FromServer, op)
    ensures Step(w, Move(op, data), w')
  {
    if u == Some(op) {
      if Receives(op.handler) { w' := MayReceive(w, FromUser, op, data); } else { w' := MaySend(w, FromUser, op, data); }
    } else {
      assert v == Some(op);
      if Receives(op.handler) { w' := MayReceive(w, FromServer, op, data); } else { w' := MaySend(w, FromServer, op, data); }
    }
  }

  lemma MayReceive(w: World, l: Lane, op: Op, data: seq<Byte>) returns (w': World)
    requires LaneInv(w, l, Some(op)) && op in w.s.pending && op.moved.None? && Receives(op.handler) && |data| <= BUF_SIZE
    ensures Step(w, Move(op, data), w')
  {
    var s := Post(Without(w.s, op), op.(moved := Some(|data|)));
    w' := World(WithBuffer(s, op.buffer, Overwritten(BufferOf(w.s, op.buffer), 0, data)), Received(w.net, op.socket, data));
  }

  lemma MaySend(w: World, l: Lane, op: Op, data: seq<Byte>) returns (w': World)
    requires LaneInv(w, l, Some(op)) && op in w.s.pending && op.moved.None? && !Receives(op.handler)
    requires data <= Unsent(w.s, l, op)
    ensures Step(w, Move(op, data), w')
  {
    var s := Post(Without(w.s, op), op.(moved := Some(|data|)));
    FrontOfSlice(BufferOf(w.s, op.buffer), op.start, op.start + op.len, data);
    w' := World(s, Delivered(w.net, op.socket, data));
  }

  lemma FrontOfSlice(buf: seq<Byte>, i: nat, j: nat, data: seq<Byte>)
    requires i <= j <= |buf| && data <= buf[i..j]
    ensures i + |data| <= j && data == buf[i..i + |data|]
  {
  }

  /** and each may end, with an error at any time. */
  lemma AnyMayEnd(w: World, op: Op, error: bool) returns (w': World)
    requires op in w.s.pending && (error || op.moved.Some?)
    ensures Step(w, Handle(op, error), w')
  {
    w' := World(OnHandler(Without(w.s, op), op.handler, error, if op.moved.Some? then op.moved.value else 0), w.net);
  }

  // ---------------------------------------------------------------- runs

  ghost predicate Path(ws: seq<World>, es: seq<Event>) {
    |ws| == |es| + 1 && forall i :: 0 <= i < |es| ==> Step(ws[i], es[i], ws[i + 1])
  }

  ghost predicate NoZeroRead(es: seq<Event>) {
    forall i :: 0 <= i < |es| ==> !ZeroRead(es[i])
  }

  ghost predicate NoError(es: seq<Event>) {
    forall i :: 0 <= i < |es| ==> !Fails(es[i])
  }

  /** A session is closed, at the latest, by the first error that is handled, and by nothing else. */
  lemma {:induction false} ClosedExactly(ws: seq<World>, es: seq<Event>)
    requires Path(ws, es)
    ensures ws[|es|].s.closed <==> ws[0].s.closed || exists i :: 0 <= i < |es| && Fails(es[i])
  {
    if es != [] {
      var n := |es| - 1;
      ClosedExactly(ws[..n + 1], es[..n]);
      ClosedNext(ws[n], es[n], ws[n + 1]);
      assert forall i :: 0 <= i < n ==> es[..n][i] == es[i];
    }
  }

  lemma ClosedNext(w: World, e: Event, w': World)
    requires Step(w, e, w')
    ensures w'.s.closed <==> w.s.closed || Fails(e)
    ensures Fails(e) ==> w'.s.pending == w.s.pending - multiset{e.op} && w'.net == w.net
  {
  }

  /** In every interleaving each direction has at most one operation outstanding, and exactly one as long
      as no error has been handled; its buffer is not filled while it is being sent, and what has been
      received and not delivered is in the buffer. */
  lemma {:induction false} EveryPathKeeps(ws: seq<World>, es: seq<Event>, u: Option<Op>, v: Option<Op>)
    returns (u': Option<Op>, v': Option<Op>)
    requires Path(ws, es) && NoZeroRead(es) && Lanes(ws[0], u, v)
    ensures Lanes(ws[|es|], u', v') && Safe(ws[|es|])
    ensures NoError(es) ==> (u.Some? ==> u'.Some?) && (v.Some? ==> v'.Some?)
    decreases |es|
  {
    u', v' := u, v;
    if es != [] {
      var n := |es| - 1;
      u', v' := EveryPathKeeps(ws[..n + 1], es[..n], u, v);
      u', v' := StepKeeps(ws[n], u', v', es[n], ws[n + 1]);
    }
    LanesAreSafe(ws[|es|], u', v');
  }

  /** A session from its start: what each side receives is the beginning of what the other side has sent,
      and the rest fits into one buffer. */
  lemma SessionIsSafe(s: Session, ws: seq<World>, es: seq<Event>)
    requires s.pending == multiset{} && |s.userBuffer| == BUF_SIZE && |s.serverBuffer| == BUF_SIZE
    requires Path(ws, es) && NoZeroRead(es) && ws[0] == World(OnConnect(s, false), Net([], [], [], []))
    ensures var n := ws[|es|].net;
            && n.serverOut <= n.userIn && |n.userIn| - |n.serverOut| <= BUF_SIZE
            && n.userOut <= n.serverIn && |n.serverIn| - |n.userOut| <= BUF_SIZE
  {
    Connected(s, Net([], [], [], []));
    var u, v := EveryPathKeeps(ws, es, Some(ReceiveOp(User, UserBuffer, UserRead)), Some(ReceiveOp(Server, ServerBuffer, ServerRead)));
    LaneGap(ws[|es|], FromUser, u);
    LaneGap(ws[|es|], FromServer, v);
  }

  lemma LaneGap(w: World, l: Lane, op: Option<Op>)
    requires LaneInv(w, l, op)
    ensures Sent(w.net, l) <= Got(w.net, l) && |Got(w.net, l)| - |Sent(w.net, l)| <= BUF_SIZE
  {
  }

  ghost predicate SafeFrom(w: World) {
    forall ws, es :: Path(ws, es) && ws[0] == w && NoZeroRead(es) ==> Safe(ws[|es|])
  }

  /** The user's next byte goes into the server's buffer, */
  lemma EchoReceived(w: World, b: Byte) returns (e: Event, w': World)
    requires var r := ReceiveOp(User, ServerBuffer, ServerRead); r in w.s.pending && |w.s.serverBuffer| == BUF_SIZE
    ensures Step(w, e, w') && !ZeroRead(e) && w'.net == w.net.(userIn := w.net.userIn + [b])
    ensures ReceiveOp(User, ServerBuffer, ServerRead).(moved := Some(1)) in w'.s.pending
    ensures w'.s.serverBuffer != [] && w'.s.serverBuffer[0] == b
  {
    var r := ReceiveOp(User, ServerBuffer, ServerRead);
    e := Move(r, [b]);
    var s := Post(Without(w.s, r), r.(moved := Some(1)));
    w' := World(WithBuffer(s, ServerBuffer, Overwritten(w.s.serverBuffer, 0, [b])), Received(w.net, User, [b]));
  }

  /** is taken for the server's, */
  lemma EchoHandled(w: World) returns (e: Event, w': World)
    requires ReceiveOp(User, ServerBuffer, ServerRead).(moved := Some(1)) in w.s.pending
    ensures Step(w, e, w') && !ZeroRead(e) && w'.net == w.net
    ensures SendOp(User, ServerBuffer, 0, 1, ServerWrite) in w'.s.pending && w'.s.serverBuffer == w.s.serverBuffer
  {
    var r := ReceiveOp(User, ServerBuffer, ServerRead).(moved := Some(1));
    e := Handle(r, false);
    w' := World(OnServerRead(Without(w.s, r), false, 1), w.net);
  }

  /** and is sent back to the user. */
  lemma EchoSent(w: World, b: Byte) returns (e: Event, w': World)
    requires SendOp(User, ServerBuffer, 0, 1, ServerWrite) in w.s.pending
    requires w.s.serverBuffer != [] && w.s.serverBuffer[0] == b
    ensures Step(w, e, w') && !ZeroRead(e) && w'.net == w.net.(userOut := w.net.userOut + [b])
  {
    var t := SendOp(User, ServerBuffer, 0, 1, ServerWrite);
    e := Move(t, [b]);
    assert w.s.serverBuffer[0..1] == [b];
    w' := World(Post(Without(w.s, t), t.(moved := Some(1))), Delivered(w.net, User, [b]));
  }

  lemma AfterZeroRead(w: World, u: Option<Op>, v: Option<Op>, e: Event, w1: World)
    requires Lanes(w, u, v) && Step(w, e, w1) && ZeroRead(e)
    ensures w1.net.userOut == w1.net.serverIn && |w1.s.serverBuffer| == BUF_SIZE
    ensures ReceiveOp(User, ServerBuffer, ServerRead) in w1.s.pending
  {
  }

  /** One step before a path. */
  lemma Preceded(w: World, e: Event, ws: seq<World>, es: seq<Event>)
    requires Path(ws, es) && NoZeroRead(es) && Step(w, e, ws[0]) && !ZeroRead(e)
    ensures Path([w] + ws, [e] + es) && NoZeroRead([e] + es) && ([w] + ws)[|es| + 1] == ws[|es|]
  {
  }

  lemma EchoPath(w: World, b: Byte) returns (ws: seq<World>, es: seq<Event>)
    requires ReceiveOp(User, ServerBuffer, ServerRead).(moved := Some(1)) in w.s.pending
    requires w.s.serverBuffer != [] && w.s.serverBuffer[0] == b
    ensures Path(ws, es) && ws[0] == w && NoZeroRead(es) && ws[|es|].net == w.net.(userOut := w.net.userOut + [b])
  {
    var e1, w1 := EchoHandled(w);
    var e2, w2 := EchoSent(w1, b);
    Preceded(w1, e2, [w2], []);
    Preceded(w, e1, [w1] + [w2], [e2] + []);
    ws, es := [w] + ([w1] + [w2]), [e1] + ([e2] + []);
  }

  /** After an empty read from the server, a byte that the user sends next is echoed to the user. */
  lemma ZeroReadBreaks(w: World, u: Option<Op>, v: Option<Op>, e: Event, w1: World, b: Byte)
    returns (ws: seq<World>, es: seq<Event>)
    requires Lanes(w, u, v) && Step(w, e, w1) && ZeroRead(e)
    ensures Path(ws, es) && ws[0] == w1 && NoZeroRead(es) && !Safe(ws[|es|])
    ensures ws[|es|].net.userOut == w1.net.userOut + [b] && ws[|es|].net.serverIn == w1.net.serverIn
  {
    AfterZeroRead(w, u, v, e, w1);
    var e1, w2 := EchoReceived(w1, b);
    ws, es := EchoPath(w2, b);
    Preceded(w1, e1, ws, es);
    ws, es := [w1] + ws, [e1] + es;
    assert |ws[|es|].net.userOut| > |ws[|es|].net.serverIn|;
  }

  /** From any state of the relay, an event leaves it safe, whatever follows, exactly when the event is
      not an empty read from the server. */
  lemma SafeExactlyWithoutZeroRead(w: World, u: Option<Op>, v: Option<Op>, e: Event, w': World)
    requires Lanes(w, u, v) && Step(w, e, w')
    ensures SafeFrom(w') <==> !ZeroRead(e)
  {
    if ZeroRead(e) {
      var ws, es := ZeroReadBreaks(w, u, v, e, w', 0);
    } else {
      var u', v' := StepKeeps(w, u, v, e, w');
      forall ws, es | Path(ws, es) && ws[0] == w' && NoZeroRead(es)
        ensures Safe(ws[|es|])
      {
        var _, _ := EveryPathKeeps(ws, es, u', v');
      }
    }
  }

  /** The buffer of a direction is never filled while bytes of it are being sent, and never by two reads. */
  lemma OneOperationPerBuffer(w: World, u: Option<Op>, v: Option<Op>, a: Op, b: Op)
    requires Lanes(w, u, v) && a in w.s.pending && b in w.s.pending && a.buffer == b.buffer
    ensures a == b && w.s.pending[a] == 1
  {
  }

  // ---------------------------------------------------------------- the program

  class Client {
    const userBuffer: array<Byte>
    const serverBuffer: array<Byte>
    var userSizeMessage: int
    var userCurSize: int
    var servSizeMessage: int
    var servCurSize: int
    var pending: multiset<Op>
    var closed: bool

    constructor ()
      ensures fresh(userBuffer) && fresh(serverBuffer)
      ensures userBuffer.Length == BUF_SIZE && serverBuffer.Length == BUF_SIZE
      ensures pending == multiset{} && !closed
    {
      userBuffer, serverBuffer := new Byte[BUF_SIZE], new Byte[BUF_SIZE];
      pending, closed := multiset{}, false;
    }

    ghost function State(): Session
      reads this, userBuffer, serverBuffer
    {
      Session(userBuffer[..], serverBuffer[..], userSizeMessage, userCurSize, servSizeMessage, servCurSize, pending, closed)
    }

    method AsyncReceive(socket: Socket, buffer: Buffer, h: Handler)
      modifies this`pending
      ensures State() == Post(old(State()), ReceiveOp(socket, buffer, h))
    {
      pending := pending + multiset{ReceiveOp(socket, buffer, h)};
    }

    method AsyncSend(socket: Socket, buffer: Buffer, start: int, len: int, h: Handler)
      modifies this`pending
      ensures State() == Post(old(State()), SendOp(socket, buffer, start, len, h))
    {
      pending := pending + multiset{SendOp(socket, buffer, start, len, h)};
    }

    method Stop()
      modifies this`closed
      ensures closed
    {
      closed := true;
    }

    /** The session starts with one read in each direction, or is closed with nothing pending. */
    method Connect(error: bool)
      requires pending == multiset{} && userBuffer.Length == BUF_SIZE && serverBuffer.Length == BUF_SIZE
      modifies this
      ensures closed == (error || old(closed)) && (error ==> pending == multiset{})
      ensures !error ==> Lanes(World(State(), Net([], [], [], [])), Some(ReceiveOp(User, UserBuffer, UserRead)),
                               Some(ReceiveOp(Server, ServerBuffer, ServerRead)))
    {
      if error {
        Stop();
      } else {
        servCurSize := 0;
        userCurSize := 0;
        AsyncReceive(User, UserBuffer, UserRead);
        AsyncReceive(Server, ServerBuffer, ServerRead);
      }
    }

    method HandleUserRead(error: bool, size: nat)
      modifies this
      ensures State() == OnUserRead(old(State()), error, size)
    {
      if error {
        Stop();
      } else {
        userCurSize := 0;
        userSizeMessage := size;
        if size != 0 {
          AsyncSend(Server, UserBuffer, 0, size, UserWrite);
        } else {
          AsyncReceive(User, UserBuffer, UserRead);
        }
      }
    }

    method HandleUserWrite(error: bool, size: nat)
      modifies this
      ensures State() == OnUserWrite(old(State()), error, size)
    {
      if error {
        Stop();
      } else {
        userCurSize := userCurSize + size;
        if userSizeMessage == userCurSize {
          userSizeMessage := 0;
          userCurSize := 0;
          AsyncReceive(User, UserBuffer, UserRead);
        } else {
          AsyncSend(Server, UserBuffer, userCurSize, userSizeMessage - userCurSize, UserWrite);
        }
      }
    }

    method HandleServerRead(error: bool, size: nat)
      modifies this
      ensures State() == OnServerRead(old(State()), error, size)
    {
      if error {
        Stop();
      } else {
        servCurSize := 0;
        servSizeMessage := size;
        if size != 0 {
          AsyncSend(User, ServerBuffer, 0, size, ServerWrite);
        } else {
          AsyncReceive(User, ServerBuffer, ServerRead);
        }
      }
    }

    method HandleServerWrite(error: bool, size: nat)
      modifies this
      ensures State() == OnServerWrite(old(State()), error, size)
    {
      if error {
        Stop();
      } else {
        servCurSize := servCurSize + size;
        if servSizeMessage == servCurSize {
          servSizeMessage := 0;
          servCurSize := 0;
          AsyncReceive(Server, ServerBuffer, ServerRead);
        } else {
          AsyncSend(User, ServerBuffer, servCurSize, servSizeMessage - servCurSize, ServerWrite);
        }
      }
    }

    /** An operation has ended: its handler is called.  The event is a step of the session, and it leaves
        the relay safe for good exactly when it is not an empty read from the server; then each direction
        keeps to itself, with its one operation unless an error has ended it. */
    method Complete(op: Op, error: bool, ghost net: Net, ghost u: Option<Op>, ghost v: Option<Op>)
      returns (ghost u': Option<Op>, ghost v': Option<Op>)
      requires Lanes(World(State(), net), u, v) && op in pending && (error || op.moved.Some?)
      modifies this
      ensures Step(World(old(State()), net), Handle(op, error), World(State(), net))
      ensures SafeFrom(World(State(), net)) <==> !ZeroRead(Handle(op, error))
      ensures !ZeroRead(Handle(op, error)) ==> Lanes(World(State(), net), u', v')
      ensures !error ==> (u.Some? ==> u'.Some?) && (v.Some? ==> v'.Some?)
      ensures closed == (error || old(closed)) && (error ==> pending == old(pending) - multiset{op})
    {
      ghost var w := World(State(), net);
      Dispatch(op, error, if op.moved.Some? then op.moved.value else 0);
      u', v' := EventKeeps(w, u, v, Handle(op, error), World(State(), net));
      ClosedNext(w, Handle(op, error), World(State(), net));
    }

    method Dispatch(op: Op, error: bool, size: nat)
      modifies this
      ensures State() == OnHandler(Without(old(State()), op), op.handler, error, size)
    {
      pending := pending - multiset{op};
      match op.handler {
        case UserRead => HandleUserRead(error, size);
        case UserWrite => HandleUserWrite(error, size);
        case ServerRead => HandleServerRead(error, size);
        case ServerWrite => HandleServerWrite(error, size);
      }
    }
  }

  lemma EventKeeps(w: World, u: Option<Op>, v: Option<Op>, e: Event, w': World) returns (u': Option<Op>, v': Option<Op>)
    requires Lanes(w, u, v) && Step(w, e, w')
    ensures SafeFrom(w') <==> !ZeroRead(e)
    ensures !ZeroRead(e) ==> Lanes(w', u', v')
    ensures !Fails(e) ==> (u.Some? ==> u'.Some?) && (v.Some? ==> v'.Some?)
  {
    SafeExactlyWithoutZeroRead(w, u, v, e, w');
    u', v' := u, v;
    if !ZeroRead(e) {
      u', v' := StepKeeps(w, u, v, e, w');
    }
  }
}
