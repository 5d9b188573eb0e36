/**
  The chat wire format: each message is preceded by its length in four bytes.  `Decode` is the
  meaning of a byte stream; the incremental decoder and the queues are judged against it.
 */
module Framing {
  import opened Bytes

  type Message = seq<Byte>

  const HEADER: nat := 4
  const MAX_LENGTH: nat := Pow256(HEADER)

  /** What is queued for one message.  A length of 2^32 or more is cut to its low four bytes. */
  function Frame(msg: Message): (f: seq<Byte>)
    ensures |f| == HEADER + |msg|
  {
    EncodeLE(|msg|, HEADER) + msg
  }

  /** Four digits of the length, the lowest first, and the message as it is. */
  lemma FrameBytes(msg: Message, i: nat)
    requires i < 4 + |msg|
    ensures |Frame(msg)| == 4 + |msg|
    ensures Frame(msg)[i] as nat == if i < 4 then |msg| / Pow256(i) % 256 else msg[i - 4] as nat
  {
    if i < 4 { Digit(|msg|, HEADER, i); }
  }

  function Stream(msgs: seq<Message>): seq<Byte> {
    if msgs == [] then [] else Frame(msgs[0]) + Stream(msgs[1..])
  }

  datatype Decoded = Decoded(msgs: seq<Message>, rest: seq<Byte>)

  /** A header counts only once a fifth byte has arrived. */
  function Decode(s: seq<Byte>): (d: Decoded)
    decreases |s|
  {
    if |s| <= HEADER then Decoded([], s)
    else
      var n := DecodeLE(s[..HEADER]);
      if |s| < HEADER + n then Decoded([], s)
      else
        var d := Decode(s[HEADER + n..]);
        Decoded([s[HEADER..HEADER + n]] + d.msgs, d.rest)
  }

  /** Decoding can stop anywhere and resume with the undecoded rest. */
  lemma {:induction false} DecodeResumes(a: seq<Byte>, b: seq<Byte>)
    ensures var first := Decode(a);
            var second := Decode(first.rest + b);
            Decode(a + b) == Decoded(first.msgs + second.msgs, second.rest)
    decreases |a|
  {
    if |a| <= HEADER || |a| < HEADER + DecodeLE(a[..HEADER]) {
      assert [] + Decode(a + b).msgs == Decode(a + b).msgs;
    } else {
      var n := DecodeLE(a[..HEADER]);
      assert (a + b)[..HEADER] == a[..HEADER];
      assert (a + b)[HEADER..HEADER + n] == a[HEADER..HEADER + n];
      assert (a + b)[HEADER + n..] == a[HEADER + n..] + b;
      DecodeResumes(a[HEADER + n..], b);
      var first := Decode(a[HEADER + n..]);
      var second := Decode(first.rest + b);
      assert [a[HEADER..HEADER + n]] + (first.msgs + second.msgs) == ([a[HEADER..HEADER + n]] + first.msgs) + second.msgs;
    }
  }

  /** The rest holds no further message. */
  lemma {:induction false} RestIsFinal(s: seq<Byte>)
    ensures Decode(Decode(s).rest) == Decoded([], Decode(s).rest)
    decreases |s|
  {
    if |s| > HEADER && |s| >= HEADER + DecodeLE(s[..HEADER]) {
      RestIsFinal(s[HEADER + DecodeLE(s[..HEADER])..]);
    }
  }

  lemma FrameHead(msg: Message, more: seq<Byte>)
    requires |msg| < MAX_LENGTH && |msg| + |more| > 0
    ensures Decode(Frame(msg) + more) == var d := Decode(more); Decoded([msg] + d.msgs, d.rest)
  {
    var s := Frame(msg) + more;
    FieldRoundTrip(|msg|, HEADER);
    assert s[..HEADER] == EncodeLE(|msg|, HEADER);
    assert s[HEADER..HEADER + |msg|] == msg;
    assert s[HEADER + |msg|..] == more;
  }

  /** One frame decodes to its message exactly when the length fits the header and is not zero. */
  lemma FrameRoundTrip(msg: Message)
    ensures Decode(Frame(msg)) == Decoded([msg], []) <==> 0 < |msg| < MAX_LENGTH
  {
    if 0 < |msg| < MAX_LENGTH {
      FrameHead(msg, []);
      assert Frame(msg) + [] == Frame(msg);
      assert [msg] + [] == [msg];
    } else if |msg| >= MAX_LENGTH {
      FieldRoundTrip(|msg|, HEADER);
      var s := Frame(msg);
      assert s[..HEADER] == EncodeLE(|msg|, HEADER);
      var n := DecodeLE(s[..HEADER]);
      assert Decode(s).msgs != [] ==> |Decode(s).msgs[0]| == n;
    }
  }

  /** Messages that fit decode in order; only an empty last one stays behind, as a bare header. */
  lemma {:induction false} StreamRoundTrip(msgs: seq<Message>)
    requires forall i :: 0 <= i < |msgs| ==> |msgs[i]| < MAX_LENGTH
    ensures var n := |msgs|;
            Decode(Stream(msgs)) ==
            if n == 0 || msgs[n - 1] != [] then Decoded(msgs, []) else Decoded(msgs[..n - 1], Frame([]))
  {
    if msgs == [] {
    } else if |msgs| == 1 {
      assert Stream(msgs[1..]) == [] && Frame(msgs[0]) + [] == Frame(msgs[0]);
      if msgs[0] != [] { FrameHead(msgs[0], []); }
    } else {
      var more := msgs[1..];
      StreamRoundTrip(more);
      FrameHead(msgs[0], Stream(more));
      assert msgs == [msgs[0]] + more && msgs[|msgs| - 1] == more[|more| - 1];
      assert msgs[..|msgs| - 1] == [msgs[0]] + more[..|more| - 1];
    }
  }

  lemma {:induction false} StreamConcat(a: seq<Message>, b: seq<Message>)
    ensures Stream(a + b) == Stream(a) + Stream(b)
  {
    if a == [] {
      assert a + b == b;
    } else {
      StreamConcat(a[1..], b);
      assert (a + b)[1..] == a[1..] + b && (a + b)[0] == a[0];
      var head := Frame(a[0]);
      assert Stream(a + b) == head + (Stream(a[1..]) + Stream(b));
    }
  }

  /** However much of the stream has arrived, the messages decoded so far are a prefix of those sent. */
  lemma PrefixDelivered(msgs: seq<Message>, arrived: seq<Byte>)
    requires forall i :: 0 <= i < |msgs| ==> |msgs[i]| < MAX_LENGTH
    requires arrived <= Stream(msgs)
    ensures Decode(arrived).msgs <= msgs
  {
    var more := Stream(msgs)[|arrived|..];
    assert arrived + more == Stream(msgs);
    DecodeResumes(arrived, more);
    StreamRoundTrip(msgs);
  }

  /** No decoded message is longer than a header can say. */
  lemma {:induction false} DecodedFit(s: seq<Byte>)
    ensures forall i :: 0 <= i < |Decode(s).msgs| ==> |Decode(s).msgs[i]| < MAX_LENGTH
    decreases |s|
  {
    if |s| > HEADER {
      BytesRoundTrip(s[..HEADER]);
      var n := DecodeLE(s[..HEADER]);
      if |s| >= HEADER + n {
        DecodedFit(s[HEADER + n..]);
      }
    }
  }

  /** A stream that has arrived completely delivers every message but an empty last one. */
  lemma StreamDelivers(msgs: seq<Message>, s: seq<Byte>)
    requires msgs != [] && s == Stream(msgs) && forall i :: 0 <= i < |msgs| ==> |msgs[i]| < MAX_LENGTH
    ensures var got := Decode(s).msgs;
            (got == msgs <==> msgs[|msgs| - 1] != []) && (got == msgs || got + [[]] == msgs)
  {
    StreamRoundTrip(msgs);
    assert msgs[..|msgs| - 1] + [msgs[|msgs| - 1]] == msgs;
  }
}
