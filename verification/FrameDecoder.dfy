/**
  The incremental decoder of one connection, fed with whatever pieces the socket returns, and the
  table that keeps one decoder per socket.
 */
module FrameDecoder {
  import opened Bytes
  import opened Framing

  const PIECE: nat := 1024
  const CAPACITY: nat := 2048

  ghost predicate NulFree(s: seq<Byte>) {
    0 !in s
  }

  /** What appending a zero-terminated buffer to a string takes from the buffer. */
  function CString(s: seq<Byte>): (t: seq<Byte>)
    ensures |t| <= |s| && (NulFree(s) ==> t == s) && (!NulFree(s) ==> |t| < |s|)
  {
    if s == [] || s[0] == 0 then [] else [s[0]] + CString(s[1..])
  }

  /** The payload that arrives in the given parts. */
  ghost function Joined(parts: seq<seq<Byte>>): seq<Byte> {
    if parts == [] then [] else Joined(parts[..|parts| - 1]) + parts[|parts| - 1]
  }

  /** The text that is collected from these parts, one after the other. */
  ghost function Collected(parts: seq<seq<Byte>>): seq<Byte> {
    if parts == [] then [] else Collected(parts[..|parts| - 1]) + CString(parts[|parts| - 1])
  }

  /** The text delivered for a payload, in whatever parts the payload has arrived. */
  ghost predicate TextOf(payload: Message, text: Message) {
    exists parts :: Joined(parts) == payload && Collected(parts) == text
  }

  ghost predicate TextsOf(payloads: seq<Message>, texts: seq<Message>) {
    |texts| == |payloads| && forall i :: 0 <= i < |texts| ==> TextOf(payloads[i], texts[i])
  }

  lemma NoText()
    ensures TextOf([], [])
  {
    assert Joined([]) == [] && Collected([]) == [];
  }

  lemma TextGrows(payload: Message, text: Message, more: seq<Byte>)
    requires TextOf(payload, text)
    ensures TextOf(payload + more, text + CString(more))
  {
    var parts :| Joined(parts) == payload && Collected(parts) == text;
    assert (parts + [more])[..|parts|] == parts;
    assert Joined(parts + [more]) == payload + more && Collected(parts + [more]) == text + CString(more);
  }

  lemma {:induction false} CollectedLength(parts: seq<seq<Byte>>)
    ensures |Collected(parts)| <= |Joined(parts)|
    ensures if NulFree(Joined(parts)) then Collected(parts) == Joined(parts) else |Collected(parts)| < |Joined(parts)|
  {
    if parts != [] {
      CollectedLength(parts[..|parts| - 1]);
    }
  }

  /** One text is its payload exactly when the payload has no zero byte, and is too short otherwise. */
  lemma TextExact(payload: Message, text: Message)
    requires TextOf(payload, text)
    ensures |text| <= |payload| && (text == payload <==> NulFree(payload))
  {
    var parts :| Joined(parts) == payload && Collected(parts) == text;
    CollectedLength(parts);
  }

  /** The delivered texts are the payloads exactly when no payload contains a zero byte, however the
      stream was cut into pieces. */
  lemma TextsExact(payloads: seq<Message>, texts: seq<Message>)
    requires TextsOf(payloads, texts)
    ensures texts == payloads <==> forall i :: 0 <= i < |payloads| ==> NulFree(payloads[i])
  {
    forall i | 0 <= i < |payloads|
      ensures texts[i] == payloads[i] <==> NulFree(payloads[i])
    {
      TextExact(payloads[i], texts[i]);
    }
  }

  lemma OneMore(all: Decoded, got: seq<Message>, d: Decoded, msgs: seq<Message>, msg: Message)
    requires all == Decoded(got + d.msgs, d.rest) && d.msgs != []
    requires TextsOf(got, msgs) && TextOf(d.msgs[0], msg)
    ensures all == Decoded((got + [d.msgs[0]]) + d.msgs[1..], d.rest)
    ensures TextsOf(got + [d.msgs[0]], msgs + [msg])
  {
  }

  class FrameReader {
    var haveCount: bool
    var lenMsg: nat
    var curLen: nat
    const curPart: array<Byte>
    var curMessage: Message
    var havePartNext: bool
    var lenAddPart: nat
    const addPart: array<Byte>
    ghost var payload: seq<Byte>

    ghost predicate Full()
      reads this
    {
      haveCount && curLen == lenMsg
    }

    ghost predicate Valid()
      reads this, curPart, addPart
    {
      curPart.Length == CAPACITY && addPart.Length == CAPACITY && curPart != addPart &&
      (!haveCount ==> curLen <= HEADER && !havePartNext) &&
      (haveCount ==>
         |payload| == curLen <= lenMsg < MAX_LENGTH && TextOf(payload, curMessage) &&
         (curLen > 0 || havePartNext)) &&
      (havePartNext ==> Full() && 0 < lenAddPart <= PIECE)
    }

    /** The bytes received since the last message that was delivered. */
    ghost function Pending(): seq<Byte>
      requires Valid()
      reads this, curPart, addPart
    {
      if !haveCount then curPart[..curLen]
      else EncodeLE(lenMsg, HEADER) + payload + if havePartNext then addPart[..lenAddPart] else []
    }

    constructor (buf: seq<Byte>)
      requires |buf| <= PIECE
      ensures Valid() && Pending() == buf && fresh(curPart) && fresh(addPart)
    {
      curPart := new Byte[CAPACITY];
      addPart := new Byte[CAPACITY];
      lenMsg, lenAddPart, payload := 0, 0, [];
      curMessage, curLen, haveCount, havePartNext := [], 0, false, false;
      new;
      AddPart(buf);
    }

    method Initialise(buf: seq<Byte>)
      requires curPart.Length == CAPACITY && addPart.Length == CAPACITY && curPart != addPart && |buf| <= PIECE
      modifies this, curPart, addPart
      ensures Valid() && Pending() == buf
    {
      curMessage := [];
      curLen := 0;
      haveCount := false;
      havePartNext := false;
      AddPart(buf);
    }

    method AddToCurrent(buf: seq<Byte>)
      requires curPart.Length == CAPACITY && |buf| < CAPACITY
      requires |payload| == curLen && TextOf(payload, curMessage)
      modifies `curLen, `curMessage, `payload, curPart
      ensures payload == old(payload) + buf && |payload| == curLen && TextOf(payload, curMessage)
    {
      forall i | 0 <= i < |buf| {
        curPart[i] := buf[i];
      }
      curLen := curLen + |buf|;
      curPart[|buf|] := 0;
      TextGrows(payload, curMessage, buf);
      curMessage := curMessage + CString(curPart[..|buf|]);
      assert curPart[..|buf|] == buf;
      payload := payload + buf;
    }

    /** The piece belongs to the current payload, as far as that still needs bytes. */
    method AddPayload(buf: seq<Byte>)
      requires curPart.Length == CAPACITY && addPart.Length == CAPACITY && curPart != addPart && |buf| <= PIECE
      requires haveCount && !havePartNext && |payload| == curLen <= lenMsg < MAX_LENGTH
      requires TextOf(payload, curMessage) && 0 < curLen + |buf|
      modifies this, curPart, addPart
      ensures Valid() && Pending() == old(EncodeLE(lenMsg, HEADER) + payload) + buf
    {
      if curLen + |buf| <= lenMsg {
        AddToCurrent(buf);
        havePartNext := false;
      } else {
        var delta := lenMsg - curLen;
        AddToCurrent(buf[..delta]);
        var more := buf[delta..];
        havePartNext := true;
        forall i | 0 <= i < |more| {
          addPart[i] := more[i];
        }
        lenAddPart := |more|;
        assert addPart[..lenAddPart] == more;
        assert buf == buf[..delta] + more;
      }
    }

    /** Collects bytes until a fifth one shows that the header is complete. */
    method AddHeader(buf: seq<Byte>)
      requires Valid() && !haveCount && |buf| <= PIECE
      modifies this, curPart, addPart
      ensures Valid() && Pending() == old(Pending()) + buf
    {
      ghost var all := curPart[..curLen] + buf;
      forall i | 0 <= i < |buf| {
        curPart[curLen + i] := buf[i];
      }
      curLen := curLen + |buf|;
      assert curPart[..curLen] == all;
      if curLen > HEADER {
        var header, tmp := curPart[..HEADER], curPart[HEADER..curLen];
        assert all == header + tmp;
        lenMsg := DecodeLE(header);
        BytesRoundTrip(header);
        haveCount := true;
        curLen := 0;
        curMessage := [];
        payload := [];
        NoText();
        AddPayload(tmp);
        assert header + [] + tmp == all;
      }
    }

    /** Takes in the next piece of the stream. */
    method AddPart(buf: seq<Byte>)
      requires Valid() && !Full() && |buf| <= PIECE
      modifies this, curPart, addPart
      ensures Valid() && Pending() == old(Pending()) + buf
    {
      if haveCount {
        AddPayload(buf);
      } else {
        AddHeader(buf);
      }
    }

    lemma FullHead()
      requires Valid() && Full()
      ensures var more := if havePartNext then addPart[..lenAddPart] else [];
              Decode(Pending()) == Decoded([payload] + Decode(more).msgs, Decode(more).rest)
    {
      var more := if havePartNext then addPart[..lenAddPart] else [];
      FieldRoundTrip(lenMsg, HEADER);
      assert Pending() == Frame(payload) + more;
      FrameHead(payload, more);
    }

    lemma NotFull()
      requires Valid() && !Full()
      ensures Decode(Pending()) == Decoded([], Pending())
    {
      if haveCount {
        FieldRoundTrip(lenMsg, HEADER);
        assert Pending()[..HEADER] == EncodeLE(lenMsg, HEADER);
      }
    }

    method NextMessage() returns (msg: Message)
      requires Valid() && Full()
      modifies this, curPart, addPart
      ensures Valid() && |Pending()| < |old(Pending())|
      ensures var d := Decode(old(Pending()));
              d.msgs != [] && TextOf(d.msgs[0], msg) && Decode(Pending()) == Decoded(d.msgs[1..], d.rest)
    {
      FullHead();
      msg := curMessage;
      haveCount := false;
      curLen := 0;
      curMessage := [];
      if havePartNext {
        var tmp := addPart[..lenAddPart];
        Initialise(tmp);
      }
    }

    /** Delivers every complete message and keeps the rest; each round leaves fewer bytes to decode. */
    method GetMessages() returns (msgs: seq<Message>)
      requires Valid()
      modifies this, curPart, addPart
      ensures Valid() && !Full()
      ensures TextsOf(Decode(old(Pending())).msgs, msgs) && Pending() == Decode(old(Pending())).rest
    {
      msgs := [];
      ghost var all, got := Decode(Pending()), [];
      while haveCount && lenMsg == curLen
        invariant Valid() && TextsOf(got, msgs)
        invariant all == Decoded(got + Decode(Pending()).msgs, Decode(Pending()).rest)
        decreases |Pending()|
      {
        ghost var d := Decode(Pending());
        var msg := NextMessage();
        OneMore(all, got, d, msgs, msg);
        got, msgs := got + [d.msgs[0]], msgs + [msg];
      }
      NotFull();
      assert got + [] == got;
    }
  }

  /** The decoders of all sockets. */
  class MessageReceiver {
    var messanger: map<int, FrameReader>
    /** The decoders and their buffers. */
    ghost var Repr: set<object>

    ghost predicate Valid()
      reads this, Repr
    {
      && this in Repr
      && (forall fd :: fd in messanger ==>
            messanger[fd] in Repr && messanger[fd].curPart in Repr && messanger[fd].addPart in Repr)
      && (forall fd :: fd in messanger ==> messanger[fd].Valid() && !messanger[fd].Full())
      && (forall fd, gd :: fd in messanger && gd in messanger && fd != gd ==>
            messanger[fd] != messanger[gd] &&
            messanger[fd].curPart != messanger[gd].curPart && messanger[fd].curPart != messanger[gd].addPart &&
            messanger[fd].addPart != messanger[gd].addPart)
    }

    /** What all decoders hold. */
    ghost function View(): map<int, seq<Byte>>
      requires Valid()
      reads this, Repr
    {
      map fd | fd in messanger :: messanger[fd].Pending()
    }

    /** The undecoded bytes of a socket; none before its first piece. */
    ghost function Pending(fd: int): seq<Byte>
      requires Valid()
      reads this, Repr
    {
      if fd in messanger then messanger[fd].Pending() else []
    }

    constructor ()
      ensures Valid() && messanger == map[] && Repr == {this}
    {
      messanger, Repr := map[], {this};
    }

    static method NewReader(buf: seq<Byte>) returns (reader: FrameReader, msgs: seq<Message>)
      requires |buf| <= PIECE
      ensures fresh(reader) && fresh(reader.curPart) && fresh(reader.addPart) && reader.Valid() && !reader.Full()
      ensures TextsOf(Decode(buf).msgs, msgs) && reader.Pending() == Decode(buf).rest
    {
      reader := new FrameReader(buf);
      msgs := reader.GetMessages();
    }

    method FirstPiece(fd: int, buf: seq<Byte>) returns (msgs: seq<Message>)
      requires Valid() && |buf| <= PIECE && fd !in messanger
      modifies this
      ensures Valid() && messanger.Keys == old(messanger.Keys) + {fd} && fresh(Repr - old(Repr))
      ensures var d := Decode(old(Pending(fd)) + buf);
              TextsOf(d.msgs, msgs) && Pending(fd) == d.rest
      ensures forall gd :: gd != fd ==> Pending(gd) == old(Pending(gd))
    {
      var reader;
      reader, msgs := NewReader(buf);
      messanger := messanger[fd := reader];
      Repr := Repr + {reader, reader.curPart, reader.addPart};
      assert [] + buf == buf;
    }

    method NextPiece(fd: int, buf: seq<Byte>) returns (msgs: seq<Message>)
      requires Valid() && |buf| <= PIECE && fd in messanger
      modifies messanger[fd], messanger[fd].curPart, messanger[fd].addPart
      ensures Valid()
      ensures var d := Decode(old(Pending(fd)) + buf);
              TextsOf(d.msgs, msgs) && Pending(fd) == d.rest
      ensures forall gd :: gd != fd ==> Pending(gd) == old(Pending(gd))
    {
      var reader := messanger[fd];
      ghost var before := reader.Pending();
      reader.AddPart(buf);
      msgs := reader.GetMessages();
      assert reader.Pending() == Decode(before + buf).rest;
    }

    /** One piece of one socket: delivers what it completes there and disturbs no other socket. */
    method Process(fd: int, buf: seq<Byte>) returns (msgs: seq<Message>)
      requires Valid() && |buf| <= PIECE
      modifies Repr
      ensures Valid() && fresh(Repr - old(Repr))
      ensures var d := Decode(old(Pending(fd)) + buf);
              TextsOf(d.msgs, msgs) && View() == old(View())[fd := d.rest]
    {
      ghost var was, rest := View(), Decode(Pending(fd) + buf).rest;
      if fd !in messanger {
        msgs := FirstPiece(fd, buf);
      } else {
        msgs := NextPiece(fd, buf);
      }
      ViewIs(was, fd, rest);
    }

    lemma Held(fd: int)
      requires Valid()
      ensures Pending(fd) == if fd in View() then View()[fd] else []
      ensures View().Keys == messanger.Keys
    {
    }

    lemma ViewIs(was: map<int, seq<Byte>>, fd: int, rest: seq<Byte>)
      requires Valid() && messanger.Keys == was.Keys + {fd} && Pending(fd) == rest
      requires forall gd :: gd in was && gd != fd ==> Pending(gd) == was[gd]
      ensures View() == was[fd := rest]
    {
      forall gd | gd in messanger
        ensures gd in was[fd := rest] && View()[gd] == was[fd := rest][gd]
      {
        Held(gd);
      }
    }

    /** The removal on disconnect tests for the wrong case, so it never removes anything. */
    method DeleteSockFd(fd: int)
      modifies this
      ensures messanger == old(messanger)
    {
      if fd !in messanger {
        messanger := messanger - {fd};
      }
    }
  }
}
