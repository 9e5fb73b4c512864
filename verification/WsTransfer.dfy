/**
 The theorem the WebSocket layers add up to: messages sent by one side come out of the
 other, in order and unchanged, however the bytes are split on the way.
 */
module WsTransfer {
  import opened Wrappers
  import opened Bytes
  import opened ByteStream
  import opened WsFrame
  import opened WsMessages
  import opened WsConn

  /** What a program can send as a message and get back: the payload is not empty. */
  predicate Sendable(m: Message) {
    (m.opcode == TEXT || m.opcode == BINARY) && 0 < |m.data| < TWO_64
  }

  predicate AllSendable(ms: seq<Message>) {
    forall i :: 0 <= i < |ms| ==> Sendable(ms[i])
  }

  /** What a program can ask to send, empty payloads included. */
  predicate AllTyped(ms: seq<Message>) {
    forall i :: 0 <= i < |ms| ==> (ms[i].opcode == TEXT || ms[i].opcode == BINARY) && |ms[i].data| < TWO_64
  }

  function Encode(isClient: bool, m: Message): bytes
    requires |m.data| < TWO_64
  {
    EncodeFrame(isClient, m.opcode, m.data)
  }

  function EncodeAll(isClient: bool, ms: seq<Message>): bytes
    requires AllTyped(ms)
  {
    if ms == [] then [] else Encode(isClient, ms[0]) + EncodeAll(isClient, ms[1..])
  }

  /** One sent message is one whole group and leaves exactly what followed it. */
  lemma MessageRoundTrip(isClient: bool, m: Message, rest: bytes)
    requires Sendable(m)
    ensures PeelGroup(Encode(isClient, m) + rest) == Some((m, rest))
  {
    FrameRoundTrip(isClient, m.opcode, m.data, rest);
    assert [] + m.data == m.data;
  }

  /** The group at the front of sent messages is the first message. */
  lemma FirstGroup(isClient: bool, ms: seq<Message>, i: nat, tail: bytes)
    requires AllSendable(ms) && i < |ms|
    ensures PeelGroup(EncodeAll(isClient, ms[i..]) + tail) == Some((ms[i], EncodeAll(isClient, ms[i + 1..]) + tail))
  {
    var first, later := Encode(isClient, ms[i]), EncodeAll(isClient, ms[i + 1..]);
    EncodeAllStep(isClient, ms, i);
    Associative(first, later, tail);
    MessageRoundTrip(isClient, ms[i], later + tail);
  }

  lemma NextPrefix(ms: seq<Message>, i: nat)
    requires i < |ms|
    ensures ms[..i] + [ms[i]] == ms[..i + 1]
  {
  }

  lemma Associative(a: bytes, b: bytes, c: bytes)
    ensures a + (b + c) == a + b + c
  {
  }

  lemma CutBefore(a: bytes, b: bytes, n: nat)
    requires n < |a|
    ensures (a + b)[..n] == a[..n]
  {
  }

  lemma CutAfter(a: bytes, b: bytes, n: nat)
    requires |a| <= n <= |a| + |b|
    ensures (a + b)[..n] == a + b[..n - |a|]
    ensures n == |a| + |b| ==> (a + b)[..n] == a + b && b[..n - |a|] == b
  {
  }

  /** Whatever prefix of the bytes arrives, the groups in it are the messages that arrived
      whole: none is altered, reordered or invented. */
  lemma {:induction false} PrefixNeverCorrupts(isClient: bool, ms: seq<Message>, n: nat)
    requires AllSendable(ms) && n <= |EncodeAll(isClient, ms)|
    ensures Groups(EncodeAll(isClient, ms)[..n]) <= ms
    ensures n == |EncodeAll(isClient, ms)| ==> Groups(EncodeAll(isClient, ms)) == ms
    decreases |ms|
  {
    if ms == [] {
      assert PeelFrame([]) == None;
    } else {
      var first, later := Encode(isClient, ms[0]), EncodeAll(isClient, ms[1..]);
      if n < |first| {
        CutBefore(first, later, n);
        TruncatedFrame(isClient, ms[0].opcode, ms[0].data, n);
      } else {
        var k := n - |first|;
        CutAfter(first, later, n);
        MessageRoundTrip(isClient, ms[0], later[..k]);
        PrefixNeverCorrupts(isClient, ms[1..], k);
        GroupsStep(first + later[..k], ms[0], later[..k]);
        PrefixCons(ms, Groups(later[..k]));
      }
    }
  }

  /** The bytes of a list of messages determine the list, whichever roles sent them. */
  lemma UniqueParse(asClient: bool, ms: seq<Message>, byClient: bool, ns: seq<Message>)
    requires AllSendable(ms) && AllSendable(ns) && EncodeAll(asClient, ms) == EncodeAll(byClient, ns)
    ensures ms == ns
  {
    PrefixNeverCorrupts(asClient, ms, |EncodeAll(asClient, ms)|);
    PrefixNeverCorrupts(byClient, ns, |EncodeAll(byClient, ns)|);
  }

  lemma GroupsStep(s: bytes, m: Message, rest: bytes)
    requires PeelGroup(s) == Some((m, rest))
    ensures Groups(s) == [m] + Groups(rest)
  {
  }

  lemma PrefixCons(ms: seq<Message>, gs: seq<Message>)
    requires ms != [] && gs <= ms[1..]
    ensures [ms[0]] + gs <= ms && (gs == ms[1..] ==> [ms[0]] + gs == ms)
  {
  }

  // ---------- Which messages read back ----------

  /** An empty payload's lone byte takes the next frame's first byte for a mask bit and a length
      of 1 or 2, so that whatever comes of it is not an empty message. */
  lemma AfterEmptyFrame(first: byte, opcode: byte, later: bytes)
    requires opcode == TEXT || opcode == BINARY
    requires first & 0x80 != 0 && first & 0xf != CONTINUE
    requires later == [] || later[0] == 0x80 | TEXT || later[0] == 0x80 | BINARY
    ensures PeelGroup([first] + later).Some? ==> PeelGroup([first] + later).value.0.data != []
  {
    var s := [first] + later;
    if later != [] {
      assert s[0] == first && s[1] == later[0] && s[2..] == later[1..];
      LengthOfOneOrTwo(later[0]);
      TakeNone(s[2..]);
      if PeelFrame(s).Some? {
        var f := PeelFrame(s).value.0;
        assert EndsGroup(f) && |f.payload| > 0;
        assert [] + f.payload == f.payload;
      }
    }
  }

  lemma LengthOfOneOrTwo(second: byte)
    requires second == 0x80 | TEXT || second == 0x80 | BINARY
    ensures second & 0x7f != 0 && ExtendedWidth(second) == 0 && PayloadLength(second, []) > 0
  {
    if second == 0x80 | TEXT {
      assert second & 0x7f == 1;
    } else {
      assert second & 0x7f == 2;
    }
  }

  lemma StartsWithOpcode(isClient: bool, ms: seq<Message>)
    requires AllTyped(ms) && ms != []
    ensures EncodeAll(isClient, ms) != [] && EncodeAll(isClient, ms)[0] == 0x80 | ms[0].opcode
  {
  }

  lemma EmptyFirstIsLost(isClient: bool, ms: seq<Message>)
    requires AllTyped(ms) && ms != [] && ms[0].data == []
    ensures Groups(EncodeAll(isClient, ms)) != ms
  {
    var later := EncodeAll(isClient, ms[1..]);
    if ms[1..] != [] {
      StartsWithOpcode(isClient, ms[1..]);
    }
    FirstByteBits(ms[0].opcode);
    AfterEmptyFrame(0x80 | ms[0].opcode, ms[0].opcode, later);
    assert EncodeAll(isClient, ms) == [0x80 | ms[0].opcode] + later;
  }

  /** Of all lists of text and binary messages, exactly those without an empty payload read back
      as they were sent. */
  lemma {:induction false} MessagesReadBackExactly(isClient: bool, ms: seq<Message>)
    requires AllTyped(ms)
    ensures Groups(EncodeAll(isClient, ms)) == ms <==> forall i :: 0 <= i < |ms| ==> ms[i].data != []
    decreases |ms|
  {
    if ms == [] {
      assert PeelFrame([]) == None;
    } else if ms[0].data == [] {
      EmptyFirstIsLost(isClient, ms);
    } else {
      var later := EncodeAll(isClient, ms[1..]);
      MessageRoundTrip(isClient, ms[0], later);
      GroupsStep(EncodeAll(isClient, ms), ms[0], later);
      MessagesReadBackExactly(isClient, ms[1..]);
      OneMoreMessage(ms, Groups(later));
    }
  }

  lemma OneMoreMessage(ms: seq<Message>, gs: seq<Message>)
    requires ms != [] && ms[0].data != []
    ensures [ms[0]] + gs == ms <==> gs == ms[1..]
    ensures (forall i :: 0 <= i < |ms| ==> ms[i].data != []) <==>
            (forall i :: 0 <= i < |ms[1..]| ==> ms[1..][i].data != [])
  {
    assert ([ms[0]] + gs)[1..] == gs;
    assert forall i :: 1 <= i < |ms| ==> ms[i] == ms[1..][i - 1];
  }

  // ---------- Receiving to the end of a stream ----------

  /** What successive receives return, up to the first that is not a message, and what they leave. */
  datatype Intake = Intake(outcomes: seq<Outcome>, rest: bytes)

  function ReceiveAll(s: bytes, open: bool, accepts: seq<nat>, isClient: bool): Intake
    decreases |s|
  {
    var e := RecvEffect(s, open, accepts, isClient);
    if e.outcome.Received? then After([e.outcome], ReceiveAll(e.rest, open, e.left, isClient))
    else Intake([e.outcome], e.rest)
  }

  function After(outcomes: seq<Outcome>, later: Intake): Intake {
    later.(outcomes := outcomes + later.outcomes)
  }

  function Deliveries(ms: seq<Message>): seq<Outcome> {
    if ms == [] then [] else [Received(ms[0])] + Deliveries(ms[1..])
  }

  lemma {:induction false} DeliverOneMore(ms: seq<Message>, m: Message)
    ensures Deliveries(ms + [m]) == Deliveries(ms) + [Received(m)]
  {
    if ms == [] {
      assert [] + [m] == [m] && [m][1..] == [];
    } else {
      assert (ms + [m])[1..] == ms[1..] + [m];
      DeliverOneMore(ms[1..], m);
    }
  }

  predicate AllData(ms: seq<Message>) {
    forall i :: 0 <= i < |ms| ==> ms[i].opcode == TEXT || ms[i].opcode == BINARY
  }

  lemma DeliverFirst(m: Message, gs: seq<Message>, rest: bytes)
    ensures After([Received(m)], Intake(Deliveries(gs) + [Failed(EndOfStream)], rest)) ==
            Intake(Deliveries([m] + gs) + [Failed(EndOfStream)], rest)
  {
    assert ([m] + gs)[1..] == gs;
    assert [Received(m)] + (Deliveries(gs) + [Failed(EndOfStream)]) ==
           [Received(m)] + Deliveries(gs) + [Failed(EndOfStream)];
  }

  /** From a stream whose groups are all text or binary, successive receives return exactly the
      groups, in order, and then fail at the end of the stream. */
  lemma {:induction false} ReceiveGroups(s: bytes, open: bool, accepts: seq<nat>, isClient: bool)
    requires AllData(Groups(s))
    ensures ReceiveAll(s, open, accepts, isClient) ==
            Intake(Deliveries(Groups(s)) + [Failed(EndOfStream)], GroupLeft(AfterGroups(s)))
    decreases |s|
  {
    if PeelGroup(s).Some? {
      var (m, rest) := PeelGroup(s).value;
      GroupsStep(s, m, rest);
      assert Groups(s)[0] == m && Groups(s)[1..] == Groups(rest);
      RecvOnGroup(s, m, rest, open, accepts, isClient);
      ReceiveGroups(rest, open, accepts, isClient);
      DeliverFirst(m, Groups(rest), GroupLeft(AfterGroups(rest)));
    }
  }

  /** Whatever prefix of the bytes sent arrives, a receiver gets exactly the messages that
      arrived whole, in order, and then fails at the end of the stream. */
  lemma PrefixReceived(isClient: bool, ms: seq<Message>, n: nat, open: bool, accepts: seq<nat>, byClient: bool)
    requires AllSendable(ms) && n <= |EncodeAll(isClient, ms)|
    ensures var s := EncodeAll(isClient, ms)[..n];
            && Groups(s) <= ms
            && ReceiveAll(s, open, accepts, byClient).outcomes == Deliveries(Groups(s)) + [Failed(EndOfStream)]
  {
    PrefixNeverCorrupts(isClient, ms, n);
    ReceiveGroups(EncodeAll(isClient, ms)[..n], open, accepts, byClient);
  }

  lemma {:induction false} NothingAfterAll(isClient: bool, ms: seq<Message>)
    requires AllSendable(ms)
    ensures AfterGroups(EncodeAll(isClient, ms)) == [] && GroupLeft([]) == []
  {
    assert PeelFrame([]) == None;
    if ms != [] {
      MessageRoundTrip(isClient, ms[0], EncodeAll(isClient, ms[1..]));
      NothingAfterAll(isClient, ms[1..]);
    }
  }

  lemma HeadAndTail(ms: seq<Message>)
    requires ms != []
    ensures [ms[0]] + ms[1..] == ms
  {
  }

  lemma {:induction false} GroupsBefore(isClient: bool, ms: seq<Message>, b: byte)
    requires AllSendable(ms)
    ensures Groups(EncodeAll(isClient, ms) + [b]) == ms && AfterGroups(EncodeAll(isClient, ms) + [b]) == [b]
  {
    if ms == [] {
      EmptyBuffer([b]);
      OneByteIsNoFrame(b);
    } else {
      var first, later := Encode(isClient, ms[0]), EncodeAll(isClient, ms[1..]);
      var s, rest := first + (later + [b]), later + [b];
      Associative(first, later, [b]);
      MessageRoundTrip(isClient, ms[0], rest);
      GroupsBefore(isClient, ms[1..], b);
      GroupsStep(s, ms[0], rest);
      AfterGroupsStep(s, ms[0], rest);
      HeadAndTail(ms);
    }
  }

  /** A close after any messages: the peer gets the messages and never the close, but the end of
      the stream with the close's one byte still unread. */
  lemma CloseAfterMessagesNeverArrives(isClient: bool, ms: seq<Message>,
                                       open: bool, accepts: seq<nat>, byClient: bool)
    requires AllSendable(ms)
    ensures ReceiveAll(EncodeAll(isClient, ms) + EncodeFrame(isClient, CLOSE, []), open, accepts, byClient) ==
            Intake(Deliveries(ms) + [Failed(EndOfStream)], [0x88])
  {
    assert EncodeFrame(isClient, CLOSE, []) == [0x88];
    GroupsBefore(isClient, ms, 0x88);
    OneByteIsNoFrame(0x88);
    ReceiveGroups(EncodeAll(isClient, ms) + [0x88], open, accepts, byClient);
  }

  // ---------- Sending ----------

  /** Sends one message: the peer gets a prefix of its frame, the whole frame exactly when
      the send succeeds. */
  method SendOne(ws: WsConn, m: Message) returns (ok: bool, ghost part: bytes)
    requires ws.IsConnect() && ws.parent.Valid() && Sendable(m)
    modifies ws.parent`accepts, ws.parent`sent
    ensures ws.parent.Valid()
    ensures Flatten(ws.parent.sent) == Flatten(old(ws.parent.sent)) + part
    ensures part <= Encode(ws.isClient, m) && (ok <==> part == Encode(ws.isClient, m))
  {
    ghost var sent, accepts := ws.parent.sent, ws.parent.accepts;
    var r := ws.Send(m.data, m.opcode);
    ghost var frame := EncodeFrame(ws.isClient, m.opcode, m.data);
    part := Flatten(PushBytes(frame, accepts).pieces);
    FlattenAppend(sent, PushBytes(frame, accepts).pieces);
    PushDeliversPrefix(frame, accepts);
    ok := r.Ok?;
  }

  lemma PartWay(done: bytes, part: bytes, frame: bytes, later: bytes, base: bytes, goal: bytes)
    requires part <= frame && base <= done && done + (frame + later) == goal
    ensures base <= done + part <= goal
    ensures part == frame ==> done + part + later == goal
    ensures part != frame ==> done + part != goal
  {
    assert frame == part + frame[|part|..];
    assert goal == done + part + (frame[|part|..] + later);
  }

  /** Where a list of sends stands after one more, when `part` of its frame went out. */
  lemma SendStep(isClient: bool, ms: seq<Message>, i: nat, done: bytes, part: bytes, base: bytes, goal: bytes)
    requires AllSendable(ms) && i < |ms| && part <= Encode(isClient, ms[i])
    requires base <= done && done + EncodeAll(isClient, ms[i..]) == goal
    ensures base <= done + part <= goal
    ensures part == Encode(isClient, ms[i]) ==> done + part + EncodeAll(isClient, ms[i + 1..]) == goal
    ensures part != Encode(isClient, ms[i]) ==> done + part != goal
  {
    EncodeAllStep(isClient, ms, i);
    PartWay(done, part, Encode(isClient, ms[i]), EncodeAll(isClient, ms[i + 1..]), base, goal);
  }

  /** Sends messages one after another, stopping at the first failure. */
  method SendAll(ws: WsConn, ms: seq<Message>) returns (ok: bool)
    requires ws.IsConnect() && ws.parent.Valid() && AllSendable(ms)
    modifies ws.parent`accepts, ws.parent`sent
    ensures ws.parent.Valid()
    ensures Flatten(old(ws.parent.sent)) <= Flatten(ws.parent.sent)
    ensures Flatten(ws.parent.sent) <= Flatten(old(ws.parent.sent)) + EncodeAll(ws.isClient, ms)
    ensures ok <==> Flatten(ws.parent.sent) == Flatten(old(ws.parent.sent)) + EncodeAll(ws.isClient, ms)
  {
    ghost var base := Flatten(ws.parent.sent);
    ghost var goal := base + EncodeAll(ws.isClient, ms);
    assert ms[0..] == ms;
    for i := 0 to |ms|
      invariant ws.parent.Valid()
      invariant base <= Flatten(ws.parent.sent)
      invariant Flatten(ws.parent.sent) + EncodeAll(ws.isClient, ms[i..]) == goal
    {
      ghost var done := Flatten(ws.parent.sent);
      var sent, part := SendOne(ws, ms[i]);
      SendStep(ws.isClient, ms, i, done, part, base, goal);
      if !sent {
        return false;
      }
    }
    assert EncodeAll(ws.isClient, ms[|ms|..]) == [];
    ok := true;
  }

  lemma EncodeAllStep(isClient: bool, ms: seq<Message>, i: nat)
    requires AllTyped(ms) && i < |ms|
    ensures EncodeAll(isClient, ms[i..]) == Encode(isClient, ms[i]) + EncodeAll(isClient, ms[i + 1..])
  {
    assert ms[i..][0] == ms[i] && ms[i..][1..] == ms[i + 1..];
  }

  // ---------- Receiving ----------

  /** Receives the message at the front of the stream and touches nothing else. */
  method RecvOne(ws: WsConn, ghost m: Message, ghost rest: bytes) returns (got: Message)
    requires ws.IsConnect() && ws.parent.Valid()
    requires PeelGroup(ws.parent.Stream()) == Some((m, rest)) && (m.opcode == TEXT || m.opcode == BINARY)
    modifies ws`parent, ws.parent`tmpData, ws.parent`incoming, ws.parent`accepts, ws.parent`sent
    ensures got == m && ws.parent == old(ws.parent) && ws.parent.Valid() && ws.parent.Stream() == rest
    ensures ws.parent.sent == old(ws.parent.sent)
  {
    ghost var s, accepts := ws.parent.Stream(), ws.parent.accepts;
    RecvOnGroup(s, m, rest, true, accepts, ws.isClient);
    BeforeTwice(ws.parent.sent, [], RecvEffect(s, true, accepts, ws.isClient));
    var r := ws.Recv();
    got := r.message;
  }

  /** Receives message number `i` of those that were sent. */
  method RecvNext(ws: WsConn, ghost isClient: bool, ghost ms: seq<Message>, ghost i: nat, ghost tail: bytes)
    returns (got: Message)
    requires ws.IsConnect() && ws.parent.Valid() && AllSendable(ms) && i < |ms|
    requires ws.parent.Stream() == EncodeAll(isClient, ms[i..]) + tail
    modifies ws`parent, ws.parent`tmpData, ws.parent`incoming, ws.parent`accepts, ws.parent`sent
    ensures got == ms[i] && ws.parent == old(ws.parent) && ws.parent.Valid()
    ensures ws.parent.Stream() == EncodeAll(isClient, ms[i + 1..]) + tail && ws.parent.sent == old(ws.parent.sent)
  {
    FirstGroup(isClient, ms, i, tail);
    got := RecvOne(ws, ms[i], EncodeAll(isClient, ms[i + 1..]) + tail);
  }

  /** Receives as many messages as were sent. */
  method RecvAll(ws: WsConn, ghost isClient: bool, ghost ms: seq<Message>, n: nat, ghost tail: bytes)
    returns (got: seq<Message>)
    requires ws.IsConnect() && ws.parent.Valid() && AllSendable(ms) && n == |ms|
    requires ws.parent.Stream() == EncodeAll(isClient, ms) + tail
    modifies ws`parent, ws.parent`tmpData, ws.parent`incoming, ws.parent`accepts, ws.parent`sent
    ensures got == ms
    ensures ws.parent == old(ws.parent) && ws.parent.Valid() && ws.parent.Stream() == tail
    ensures ws.parent.sent == old(ws.parent.sent)
  {
    got := [];
    assert ms[0..] == ms;
    for i := 0 to n
      invariant ws.IsConnect() && ws.parent == old(ws.parent) && ws.parent.Valid()
      invariant got == ms[..i] && ws.parent.Stream() == EncodeAll(isClient, ms[i..]) + tail
      invariant ws.parent.sent == old(ws.parent.sent)
    {
      NextPrefix(ms, i);
      var m := RecvNext(ws, isClient, ms, i, tail);
      got := got + [m];
    }
    assert ms[..n] == ms;
  }

  lemma DeliverNext(got: seq<Message>, m: Message, later: Intake)
    ensures After(Deliveries(got), After([Received(m)], later)) == After(Deliveries(got + [m]), later)
  {
    DeliverOneMore(got, m);
    assert Deliveries(got) + ([Received(m)] + later.outcomes) == Deliveries(got) + [Received(m)] + later.outcomes;
  }

  lemma IntakeStep(got: seq<Message>, e: Effect, open: bool, isClient: bool, s: bytes, accepts: seq<nat>)
    requires e == RecvEffect(s, open, accepts, isClient)
    ensures After(Deliveries(got), ReceiveAll(s, open, accepts, isClient)) ==
            if e.outcome.Received?
            then After(Deliveries(got + [e.outcome.message]), ReceiveAll(e.rest, open, e.left, isClient))
            else Intake(Deliveries(got) + [e.outcome], e.rest)
  {
    if e.outcome.Received? {
      DeliverNext(got, e.outcome.message, ReceiveAll(e.rest, open, e.left, isClient));
    }
  }

  /** Receives messages until a receive returns none. */
  method ReceiveToEnd(ws: WsConn) returns (got: seq<Message>, last: Outcome)
    requires ws.IsConnect() && ws.parent.Valid()
    modifies ws`parent, ws.parent`tmpData, ws.parent`incoming, ws.parent`accepts, ws.parent`sent
    ensures !last.Received? && old(ws.parent).Valid()
    ensures Intake(Deliveries(got) + [last], old(ws.parent).Stream()) ==
            old(ReceiveAll(ws.parent.Stream(), true, ws.parent.accepts, ws.isClient))
    ensures ws.parent == if last.Unparsed? then null else old(ws.parent)
  {
    got := [];
    ghost var goal := ReceiveAll(ws.parent.Stream(), true, ws.parent.accepts, ws.isClient);
    assert [] + goal.outcomes == goal.outcomes;
    while true
      invariant ws.parent == old(ws.parent) && ws.parent.open && ws.parent.Valid()
      invariant After(Deliveries(got), ReceiveAll(ws.parent.Stream(), true, ws.parent.accepts, ws.isClient)) == goal
      decreases |ws.parent.Stream()|
    {
      ghost var s, accepts := ws.parent.Stream(), ws.parent.accepts;
      ghost var e := RecvEffect(s, true, accepts, ws.isClient);
      IntakeStep(got, e, true, ws.isClient, s, accepts);
      last := ws.Recv();
      if !last.Received? {
        return;
      }
      got := got + [last.message];
    }
  }

  lemma {:induction false} DeliveriesAgree(ms: seq<Message>, a: Outcome, ns: seq<Message>, b: Outcome)
    requires Deliveries(ms) + [a] == Deliveries(ns) + [b] && !a.Received? && !b.Received?
    ensures ms == ns && a == b
  {
    var x, y := Deliveries(ms) + [a], Deliveries(ns) + [b];
    assert x[0] == y[0];
    if ms != [] && ns != [] {
      assert x[1..] == Deliveries(ms[1..]) + [a] && y[1..] == Deliveries(ns[1..]) + [b];
      DeliveriesAgree(ms[1..], a, ns[1..], b);
    }
  }

  lemma WireIsPrefix(wire: bytes, all: bytes)
    requires wire <= all
    ensures wire == all[..|wire|]
  {
  }

  /** What a receiver that reads to the end of what went out has got. */
  lemma WireDelivers(isClient: bool, ms: seq<Message>, wire: bytes, accepts: seq<nat>, byClient: bool,
                     got: seq<Message>, last: Outcome, rest: bytes)
    requires AllSendable(ms) && wire <= EncodeAll(isClient, ms) && !last.Received?
    requires Intake(Deliveries(got) + [last], rest) == ReceiveAll(wire, true, accepts, byClient)
    ensures got == Groups(wire) && got <= ms && last == Failed(EndOfStream)
    ensures wire == EncodeAll(isClient, ms) ==> got == ms && rest == []
  {
    WireIsPrefix(wire, EncodeAll(isClient, ms));
    PrefixNeverCorrupts(isClient, ms, |wire|);
    ReceiveGroups(wire, true, accepts, byClient);
    DeliveriesAgree(got, last, Groups(wire), Failed(EndOfStream));
    NothingAfterAll(isClient, ms);
  }

  /** End to end: any messages, either role, any partial writes, any way the network splits
      bytes into socket reads, and any failing send. The receiver gets exactly the messages
      that went out whole, in order, and then meets the end of the stream; if every send
      reports success, that is all of them and nothing is left over. */
  method EndToEnd(sender: WsConn, receiver: WsConn, ms: seq<Message>, split: bytes -> seq<bytes>)
    returns (ok: bool, got: seq<Message>, last: Outcome)
    requires sender != receiver && sender.IsConnect() && receiver.IsConnect() && sender.parent != receiver.parent
    requires sender.parent.Valid() && sender.parent.sent == [] && AllSendable(ms)
    requires forall wire :: ValidChunks(split(wire)) && Flatten(split(wire)) == wire
    modifies sender.parent`accepts, sender.parent`sent, receiver`parent
    modifies receiver.parent`tmpData, receiver.parent`incoming, receiver.parent`accepts, receiver.parent`sent
    ensures ok <==> Flatten(sender.parent.sent) == EncodeAll(sender.isClient, ms)
    ensures got == Groups(Flatten(sender.parent.sent)) && got <= ms && last == Failed(EndOfStream)
    ensures ok ==> got == ms && receiver.IsConnect() && receiver.parent.Stream() == []
  {
    ok := SendAll(sender, ms);
    var wire := Flatten(sender.parent.sent);
    EmptyBuffer(EncodeAll(sender.isClient, ms));
    EmptyBuffer(wire);
    ghost var accepts := receiver.parent.accepts;
    receiver.parent.tmpData, receiver.parent.incoming := [], split(wire);
    ghost var peer := receiver.parent;
    got, last := ReceiveToEnd(receiver);
    WireDelivers(sender.isClient, ms, wire, accepts, receiver.isClient, got, last, peer.Stream());
  }
}
