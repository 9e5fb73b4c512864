/**
 What a WebSocket receive does with the bytes of a stream: joining frames into messages,
 answering pings, skipping pongs. Receiving is specified on the bytes and then shown to
 be a simple function of the list of frames in them.
 */
module WsMessages {
  import opened Wrappers
  import opened Bytes
  import opened ByteStream
  import opened WsFrame

  datatype Message = Message(opcode: byte, data: bytes)

  // ---------- Joining frames ----------

  /** The frame that ends a group: the reassembly loop stops here and nowhere else. */
  predicate EndsGroup(f: Frame) {
    f.fin && f.opcode != CONTINUE
  }

  /** The group at the front of a stream: its payloads joined to `data`, under the last
      opcode. */
  function JoinGroup(data: bytes, s: bytes): (r: Option<(Message, bytes)>)
    ensures r.Some? ==> |r.value.1| + 2 <= |s|
    decreases |s|
  {
    match PeelFrame(s)
    case None => None
    case Some((f, rest)) =>
      if EndsGroup(f) then Some((Message(f.opcode, data + f.payload), rest))
      else JoinGroup(data + f.payload, rest)
  }

  function PeelGroup(s: bytes): Option<(Message, bytes)> {
    JoinGroup([], s)
  }

  /** The bytes still unread when the stream ends inside a group. It matters only where
      `PeelGroup` finds no group. */
  function GroupLeft(s: bytes): bytes
    decreases |s|
  {
    match PeelFrame(s)
    case None => FrameLeft(s)
    case Some((f, rest)) => if EndsGroup(f) then rest else GroupLeft(rest)
  }

  /** Every whole frame of a stream, in order. */
  function Frames(s: bytes): seq<Frame>
    decreases |s|
  {
    match PeelFrame(s)
    case None => []
    case Some((f, rest)) => [f] + Frames(rest)
  }

  function Payloads(fs: seq<Frame>): bytes {
    if fs == [] then [] else fs[0].payload + Payloads(fs[1..])
  }

  /** The index of the first frame that ends a group. */
  function FirstEnd(fs: seq<Frame>): (r: Option<nat>)
    ensures r.None? ==> forall i :: 0 <= i < |fs| ==> !EndsGroup(fs[i])
    ensures r.Some? ==> r.value < |fs| && EndsGroup(fs[r.value]) &&
                        forall i :: 0 <= i < r.value ==> !EndsGroup(fs[i])
  {
    if fs == [] then None
    else if EndsGroup(fs[0]) then Some(0)
    else match FirstEnd(fs[1..])
      case None => None
      case Some(k) => Some(k + 1)
  }

  /** Joining on a list of frames: the message of the first group and the frames after it. */
  function JoinFrames(data: bytes, fs: seq<Frame>): (r: Option<(Message, seq<Frame>)>)
    ensures r.Some? ==> |r.value.1| < |fs|
    decreases |fs|
  {
    if fs == [] then None
    else if EndsGroup(fs[0]) then Some((Message(fs[0].opcode, data + fs[0].payload), fs[1..]))
    else JoinFrames(data + fs[0].payload, fs[1..])
  }

  /** The first group of a list of frames runs to the first frame that ends a group. */
  lemma {:induction false} JoinFramesToFirstEnd(data: bytes, fs: seq<Frame>)
    ensures match FirstEnd(fs)
            case None => JoinFrames(data, fs) == None
            case Some(k) =>
              JoinFrames(data, fs) == Some((Message(fs[k].opcode, data + Payloads(fs[..k + 1])), fs[k + 1..]))
    decreases |fs|
  {
    if fs != [] && FirstEnd(fs).Some? {
      var k := FirstEnd(fs).value;
      assert fs[..k + 1][0] == fs[0] && fs[..k + 1][1..] == fs[1..][..k];
      assert data + (fs[0].payload + Payloads(fs[1..][..k])) == data + fs[0].payload + Payloads(fs[1..][..k]);
      if k == 0 {
        assert Payloads(fs[1..][..0]) == [] && data + fs[0].payload + [] == data + fs[0].payload;
      } else {
        JoinFramesToFirstEnd(data + fs[0].payload, fs[1..]);
        assert fs[1..][k..] == fs[k + 1..];
      }
    } else if fs != [] {
      JoinFramesToFirstEnd(data + fs[0].payload, fs[1..]);
    }
  }

  /** Joining on the bytes of a stream is joining on its frames. */
  lemma {:induction false} JoinRefinesFrames(data: bytes, s: bytes)
    ensures match JoinFrames(data, Frames(s))
            case None => JoinGroup(data, s) == None
            case Some((m, left)) => JoinGroup(data, s).Some? && JoinGroup(data, s).value.0 == m &&
                                    Frames(JoinGroup(data, s).value.1) == left
    decreases |s|
  {
    match PeelFrame(s)
    case None =>
    case Some((f, rest)) =>
      assert Frames(s)[0] == f && Frames(s)[1..] == Frames(rest);
      if !EndsGroup(f) {
        JoinRefinesFrames(data + f.payload, rest);
      }
  }

  /** A group is exactly the frames up to the first one that ends a group. */
  lemma GroupIsFramesToFirstEnd(s: bytes)
    ensures var fs := Frames(s);
            match FirstEnd(fs)
            case None => PeelGroup(s) == None
            case Some(k) => PeelGroup(s).Some? &&
                            PeelGroup(s).value.0 == Message(fs[k].opcode, Payloads(fs[..k + 1])) &&
                            Frames(PeelGroup(s).value.1) == fs[k + 1..]
  {
    var fs := Frames(s);
    JoinRefinesFrames([], s);
    JoinFramesToFirstEnd([], fs);
    match FirstEnd(fs)
    case None =>
    case Some(k) =>
      assert [] + Payloads(fs[..k + 1]) == Payloads(fs[..k + 1]);
  }

  // ---------- Receiving ----------

  datatype Outcome = Received(message: Message) | PeerClosed | Unparsed | Failed(error: IoError)

  /** How a receive ends, the bytes it leaves unread, the writes it leaves unused and the
      pieces it wrote. */
  datatype Effect = Effect(outcome: Outcome, rest: bytes, left: seq<nat>, pieces: seq<bytes>)

  predicate IsControl(m: Message) {
    m.opcode == PING || m.opcode == PONG
  }

  /** How a message that is neither a ping nor a pong ends a receive. */
  function Ending(m: Message): Outcome {
    if m.opcode == CLOSE then PeerClosed
    else if m.opcode == TEXT || m.opcode == BINARY then Received(m)
    else Unparsed
  }

  function Before(pieces: seq<bytes>, e: Effect): Effect {
    e.(pieces := pieces + e.pieces)
  }

  lemma BeforeTwice(a: seq<bytes>, b: seq<bytes>, e: Effect)
    ensures Before(a, Before(b, e)) == Before(a + b, e)
    ensures e.pieces == [] ==> Before(a, e) == e.(pieces := a)
  {
    assert a + (b + e.pieces) == a + b + e.pieces;
    assert a + [] == a;
  }

  /** What sending the pong for a ping does. On a closed socket it fails at once. */
  function PongPush(open: bool, accepts: seq<nat>, isClient: bool): Push {
    if open then PushBytes(EncodeFrame(isClient, PONG, []), accepts) else Push([], accepts, Err(NotOpen))
  }

  function RecvEffect(s: bytes, open: bool, accepts: seq<nat>, isClient: bool): (e: Effect)
    ensures e.outcome.Received? ==> |e.rest| < |s|
    decreases |s|
  {
    match PeelGroup(s)
    case None => Effect(Failed(EndOfStream), GroupLeft(s), accepts, [])
    case Some((m, rest)) =>
      if m.opcode == PING then
        var p := PongPush(open, accepts, isClient);
        if p.outcome.Err? then Effect(Failed(p.outcome.error), rest, p.left, p.pieces)
        else Before(p.pieces, RecvEffect(rest, open, p.left, isClient))
      else if m.opcode == PONG then RecvEffect(rest, open, accepts, isClient)
      else Effect(Ending(m), rest, accepts, [])
  }

  /** Every whole group of a stream, in order. */
  function Groups(s: bytes): seq<Message>
    decreases |s|
  {
    match PeelGroup(s)
    case None => []
    case Some((m, rest)) => [m] + Groups(rest)
  }

  datatype GroupEffect = GroupEffect(outcome: Outcome, rest: seq<Message>, left: seq<nat>, pieces: seq<bytes>)

  /** Receiving on a list of groups: one pong attempt per ping, pongs skipped, the first
      other message ends it. */
  function RecvGroups(gs: seq<Message>, open: bool, accepts: seq<nat>): GroupEffect
    decreases |gs|
  {
    if gs == [] then GroupEffect(Failed(EndOfStream), [], accepts, [])
    else if gs[0].opcode == PING then
      if !open then GroupEffect(Failed(NotOpen), gs[1..], accepts, [])
      else if accepts == [] then GroupEffect(Failed(SocketFailure), gs[1..], [], [])
      else if accepts[0] == 0 then GroupEffect(Failed(TemporarilyClosed), gs[1..], accepts[1..], [])
      else
        var e := RecvGroups(gs[1..], open, accepts[1..]);
        e.(pieces := [PONG_BYTES] + e.pieces)
    else if gs[0].opcode == PONG then RecvGroups(gs[1..], open, accepts)
    else GroupEffect(Ending(gs[0]), gs[1..], accepts, [])
  }

  /** The pong the program writes: an empty frame, so its first byte alone. */
  const PONG_BYTES: bytes := [0x8a]

  lemma PongIsOneByte(open: bool, accepts: seq<nat>, isClient: bool)
    ensures PongPush(open, accepts, isClient) ==
            if !open then Push([], accepts, Err(NotOpen))
            else if accepts == [] then Push([], [], Err(SocketFailure))
            else if accepts[0] == 0 then Push([], accepts[1..], Err(TemporarilyClosed))
            else Push([PONG_BYTES], accepts[1..], Ok(()))
  {
    var pong := EncodeFrame(isClient, PONG, []);
    assert pong == PONG_BYTES && pong[..1] == PONG_BYTES && pong[1..] == [];
    if open && accepts != [] && accepts[0] > 0 {
      assert PushBytes(pong[1..], accepts[1..]) == Push([], accepts[1..], Ok(()));
    }
  }

  /** Receiving on the bytes of a stream is receiving on its groups, for every stream and
      every behaviour of the socket's writes. */
  lemma {:induction false} RecvRefinesGroups(s: bytes, open: bool, accepts: seq<nat>, isClient: bool)
    ensures var e, g := RecvEffect(s, open, accepts, isClient), RecvGroups(Groups(s), open, accepts);
            && e.outcome == g.outcome && e.left == g.left && e.pieces == g.pieces
            && (e.outcome != Failed(EndOfStream) ==> Groups(e.rest) == g.rest)
    decreases |s|
  {
    match PeelGroup(s)
    case None =>
    case Some((m, rest)) =>
      assert Groups(s)[0] == m && Groups(s)[1..] == Groups(rest);
      if m.opcode == PING {
        PongIsOneByte(open, accepts, isClient);
        if accepts != [] {
          RecvRefinesGroups(rest, open, accepts[1..], isClient);
        }
      } else if m.opcode == PONG {
        RecvRefinesGroups(rest, open, accepts, isClient);
      }
  }

  function Pings(gs: seq<Message>): (n: nat)
    ensures n <= |gs|
  {
    if gs == [] then 0 else (if gs[0].opcode == PING then 1 else 0) + Pings(gs[1..])
  }

  function Repeat(b: bytes, n: nat): (bs: seq<bytes>)
    ensures |bs| == n && forall i :: 0 <= i < n ==> bs[i] == b
  {
    if n == 0 then [] else [b] + Repeat(b, n - 1)
  }

  lemma {:induction false} SkipsControl(gs: seq<Message>, open: bool, accepts: seq<nat>, k: nat)
    requires k < |gs| && !IsControl(gs[k]) && forall i :: 0 <= i < k ==> IsControl(gs[i])
    requires Pings(gs[..k]) <= |accepts| && (open || Pings(gs[..k]) == 0)
    requires forall i :: 0 <= i < Pings(gs[..k]) ==> accepts[i] >= 1
    ensures var n := Pings(gs[..k]);
            RecvGroups(gs, open, accepts) ==
            GroupEffect(Ending(gs[k]), gs[k + 1..], accepts[n..], Repeat(PONG_BYTES, n))
    decreases k
  {
    if k == 0 {
      assert gs[..0] == [] && accepts[0..] == accepts;
    } else {
      assert gs[..k][0] == gs[0] && gs[..k][1..] == gs[1..][..k - 1];
      assert IsControl(gs[0]);
      if gs[0].opcode == PING {
        SkipsControl(gs[1..], open, accepts[1..], k - 1);
      } else {
        SkipsControl(gs[1..], open, accepts, k - 1);
      }
    }
  }

  /** A receive whose pongs go out skips the control messages before `gs[k]`, writes exactly
      one pong for each ping among them, and ends with `gs[k]`: delivered if it is text (1) or
      binary (2), a close if its opcode is 8, and unparsed otherwise. */
  lemma RecvSkipsControl(gs: seq<Message>, open: bool, accepts: seq<nat>, k: nat)
    requires k < |gs| && gs[k].opcode != 9 && gs[k].opcode != 10
    requires forall i :: 0 <= i < k ==> gs[i].opcode == 9 || gs[i].opcode == 10
    requires Pings(gs[..k]) <= |accepts| && (open || Pings(gs[..k]) == 0)
    requires forall i :: 0 <= i < Pings(gs[..k]) ==> accepts[i] >= 1
    ensures var n, op := Pings(gs[..k]), gs[k].opcode;
            RecvGroups(gs, open, accepts) ==
            GroupEffect(if op == 1 || op == 2 then Received(gs[k]) else if op == 8 then PeerClosed else Unparsed,
                        gs[k + 1..], accepts[n..], Repeat(PONG_BYTES, n))
  {
    SkipsControl(gs, open, accepts, k);
  }

  /** What a receive makes of the group at the front of the stream, by its opcode: 1 (text) and 2
      (binary) are delivered, 8 is a close, 10 (pong) is skipped, 9 (ping) is answered with the one
      byte of a pong, and any other opcode is unparsed. */
  lemma RecvByOpcode(s: bytes, m: Message, rest: bytes, open: bool, accepts: seq<nat>, isClient: bool)
    requires PeelGroup(s) == Some((m, rest))
    ensures var e := RecvEffect(s, open, accepts, isClient);
            && (m.opcode == 1 || m.opcode == 2 ==> e == Effect(Received(m), rest, accepts, []))
            && (m.opcode == 8 ==> e == Effect(PeerClosed, rest, accepts, []))
            && (m.opcode == 10 ==> e == RecvEffect(rest, open, accepts, isClient))
            && (m.opcode !in {1, 2, 8, 9, 10} ==> e == Effect(Unparsed, rest, accepts, []))
  {
  }

  /** A ping is answered with the byte 8A, and the receive goes on after it; if the pong does not go
      out the receive fails there. */
  lemma RecvOnPing(s: bytes, data: bytes, rest: bytes, open: bool, accepts: seq<nat>, isClient: bool)
    requires PeelGroup(s) == Some((Message(9, data), rest))
    ensures var e := RecvEffect(s, open, accepts, isClient);
            if !open then e == Effect(Failed(NotOpen), rest, accepts, [])
            else if accepts == [] then e == Effect(Failed(SocketFailure), rest, [], [])
            else if accepts[0] == 0 then e == Effect(Failed(TemporarilyClosed), rest, accepts[1..], [])
            else
              var later := RecvEffect(rest, open, accepts[1..], isClient);
              e == Effect(later.outcome, later.rest, later.left, [[0x8a]] + later.pieces)
  {
    PongIsOneByte(open, accepts, isClient);
  }

  /** What a receive delivers is a text or binary message, on every stream. */
  lemma {:induction false} OnlyDataIsReceived(s: bytes, open: bool, accepts: seq<nat>, isClient: bool)
    ensures var e := RecvEffect(s, open, accepts, isClient);
            e.outcome.Received? ==> e.outcome.message.opcode == 1 || e.outcome.message.opcode == 2
    decreases |s|
  {
    match PeelGroup(s)
    case None =>
    case Some((m, rest)) =>
      if m.opcode == 9 {
        RecvOnPing(s, m.data, rest, open, accepts, isClient);
        if accepts != [] {
          OnlyDataIsReceived(rest, open, accepts[1..], isClient);
        }
      } else {
        RecvByOpcode(s, m, rest, open, accepts, isClient);
        OnlyDataIsReceived(rest, open, accepts, isClient);
      }
  }

  // ---------- What the one-byte frames and broken frames do ----------

  lemma OneByteIsNoFrame(b: byte)
    ensures PeelFrame([b]) == None && PeelGroup([b]) == None && GroupLeft([b]) == [b]
  {
  }

  /** The close a program sends is one byte, so a peer that receives it and nothing more never
      sees a close: it fails at the end of the stream with the byte still unread. */
  lemma CloseNeverArrives(asClient: bool, byClient: bool, open: bool, accepts: seq<nat>)
    ensures RecvEffect(EncodeFrame(asClient, CLOSE, []), open, accepts, byClient) ==
            Effect(Failed(EndOfStream), [0x88], accepts, [])
  {
    assert EncodeFrame(asClient, CLOSE, []) == [0x88];
    OneByteIsNoFrame(0x88);
  }

  /** A masked frame body with a short length, read off the bytes themselves. */
  lemma MaskedBody(first: byte, second: byte, body: bytes, n: nat)
    requires second & 0x80 != 0 && ExtendedWidth(second) == 0 && (second & 0x7f) as int == n
    ensures PeelBody(first, second, body) ==
            if |body| < 4 + n then None
            else Some((Frame(first & 0x80 != 0, first & 0xf, Mask(body[4..4 + n], body[..4])), body[4 + n..]))
  {
    TakeNone(body);
    if |body| >= 4 + n {
      assert body[4..][..n] == body[4..4 + n] && body[4..][n..] == body[4 + n..];
    }
  }

  /** The frame a reader makes of a pong's lone byte and the bytes that follow it: the first of
      them is taken for a mask bit and a length, here a short one, and the next four for the key. */
  lemma PongByteFrame(s: bytes, n: nat)
    requires s != [] && s[0] & 0x80 != 0 && ExtendedWidth(s[0]) == 0 && (s[0] & 0x7f) as int == n > 0
    ensures |s| < 5 + n ==> PeelFrame(PONG_BYTES + s) == None
    ensures |s| >= 5 + n ==>
              exists data :: PeelFrame(PONG_BYTES + s) == Some((Frame(true, PONG, data), s[5 + n..]))
  {
    var t := PONG_BYTES + s;
    assert t[0] == 0x8a && t[1] == s[0] && t[2..] == s[1..];
    assert s[0] & 0x7f != 0;
    MaskedBody(0x8a, s[0], s[1..], n);
    if |s| >= 5 + n {
      assert s[1..][4 + n..] == s[5 + n..];
    }
  }

  lemma RecvPastPong(s: bytes, data: bytes, rest: bytes, open: bool, accepts: seq<nat>, isClient: bool)
    requires PeelFrame(s) == Some((Frame(true, PONG, data), rest))
    ensures RecvEffect(s, open, accepts, isClient) == RecvEffect(rest, open, accepts, isClient)
  {
  }

  lemma RecvOnBroken(s: bytes, open: bool, accepts: seq<nat>, isClient: bool)
    requires PeelFrame(s) == None
    ensures RecvEffect(s, open, accepts, isClient).outcome == Failed(EndOfStream)
  {
  }

  /** The second byte a final frame's first byte makes, whatever its opcode but CONTINUE. */
  lemma OpcodeAsLength(opcode: byte)
    requires 0 < opcode < 16
    ensures var b := 0x80 | opcode;
            b & 0x80 != 0 && ExtendedWidth(b) == 0 && (b & 0x7f) as int == opcode as int
  {
    assert (0x80 | opcode) & 0x7f == opcode;
  }

  /** After a pong the next frame is lost, be it a text, a binary frame, a ping, another pong or a
      close: the reader skips the pong together with five bytes and as many more as the frame's
      opcode, and goes on after them; if there are not that many it fails. */
  lemma PongSwallowsNext(s: bytes, opcode: byte, open: bool, accepts: seq<nat>, isClient: bool)
    requires 0 < opcode < 16 && s != [] && s[0] == 0x80 | opcode
    ensures var n := 5 + opcode as int;
            if |s| < n
            then RecvEffect(PONG_BYTES + s, open, accepts, isClient).outcome == Failed(EndOfStream)
            else RecvEffect(PONG_BYTES + s, open, accepts, isClient) == RecvEffect(s[n..], open, accepts, isClient)
  {
    OpcodeAsLength(opcode);
    var n := opcode as int;
    PongByteFrame(s, n);
    if |s| < 5 + n {
      RecvOnBroken(PONG_BYTES + s, open, accepts, isClient);
    } else {
      var data :| PeelFrame(PONG_BYTES + s) == Some((Frame(true, PONG, data), s[5 + n..]));
      RecvPastPong(PONG_BYTES + s, data, s[5 + n..], open, accepts, isClient);
    }
  }

  // ---------- Receiving again after the stream ended ----------

  /** What follows the last whole group of a stream. */
  function AfterGroups(s: bytes): bytes
    decreases |s|
  {
    match PeelGroup(s)
    case None => s
    case Some((_, rest)) => AfterGroups(rest)
  }

  lemma {:induction false} NoGroupAfter(s: bytes)
    ensures PeelGroup(AfterGroups(s)) == None
    decreases |s|
  {
    if PeelGroup(s).Some? {
      NoGroupAfter(PeelGroup(s).value.1);
    }
  }

  lemma GroupLeftIsShorter(s: bytes)
    requires PeelGroup(s) == None
    ensures |GroupLeft(s)| <= |s| && (GroupLeft(s) == s <==> |s| < 2)
  {
    BrokenGroupIsShorter([], s);
  }

  lemma {:induction false} BrokenGroupIsShorter(data: bytes, s: bytes)
    requires JoinGroup(data, s) == None
    ensures |GroupLeft(s)| <= |s| && (GroupLeft(s) == s <==> |s| < 2)
    decreases |s|
  {
    match PeelFrame(s)
    case None =>
      FailedReadKeepsStreamExactly(s);
    case Some((f, rest)) =>
      BrokenGroupIsShorter(data + f.payload, rest);
  }

  lemma AfterGroupsStep(s: bytes, m: Message, rest: bytes)
    requires PeelGroup(s) == Some((m, rest))
    ensures AfterGroups(s) == AfterGroups(rest) && |rest| < |s|
  {
  }

  lemma {:induction false} FailedReceiveLeaves(s: bytes, open: bool, accepts: seq<nat>, isClient: bool)
    ensures var e := RecvEffect(s, open, accepts, isClient);
            e.outcome == Failed(EndOfStream) ==> e.rest == GroupLeft(AfterGroups(s))
    decreases |s|
  {
    if PeelGroup(s).Some? {
      var m, rest := PeelGroup(s).value.0, PeelGroup(s).value.1;
      AfterGroupsStep(s, m, rest);
      if m.opcode == 9 {
        RecvOnPing(s, m.data, rest, open, accepts, isClient);
        if accepts != [] {
          FailedReceiveLeaves(rest, open, accepts[1..], isClient);
        }
      } else {
        RecvByOpcode(s, m, rest, open, accepts, isClient);
        FailedReceiveLeaves(rest, open, accepts, isClient);
      }
    }
  }

  /** A receive that failed at the end of the stream keeps what follows the last whole group, so
      that nothing is lost to another receive, exactly when that is fewer than two bytes. Any
      longer part of a group is lost at least in part, even one made of whole frames. */
  lemma FailedReceiveKeepsGroupExactly(s: bytes, open: bool, accepts: seq<nat>, isClient: bool)
    requires RecvEffect(s, open, accepts, isClient).outcome == Failed(EndOfStream)
    ensures RecvEffect(s, open, accepts, isClient).rest == AfterGroups(s) <==> |AfterGroups(s)| < 2
  {
    FailedReceiveLeaves(s, open, accepts, isClient);
    NoGroupAfter(s);
    GroupLeftIsShorter(AfterGroups(s));
  }

  lemma CutBody(first: byte, lb: bytes, key: bytes, part: bytes, n: nat)
    requires lb != [] && LengthReadsBack(lb, n, lb[0] & 0x80 != 0) && |part| < n
    requires |key| == KeyWidth(lb[0])
    ensures PeelBody(first, lb[0], lb[1..] + (key + part)) == None
    ensures BodyLeft(lb[0], lb[1..] + (key + part)) == part
  {
    TakeAppend(lb[1..], key + part);
    TakeAppend(key, part);
  }

  /** A stream that ends inside a frame's payload, in any length form, masked or not, final or
      not: the receive fails with the part of the payload that arrived still unread, so that the
      next receive takes that part for frames. */
  lemma RetriedReceiveReadsPayload(first: byte, lb: bytes, key: bytes, part: bytes, n: nat,
                                   open: bool, accepts: seq<nat>, isClient: bool)
    requires lb != [] && LengthReadsBack(lb, n, lb[0] & 0x80 != 0) && |part| < n
    requires |key| == KeyWidth(lb[0])
    ensures RecvEffect([first] + lb + key + part, open, accepts, isClient) ==
            Effect(Failed(EndOfStream), part, accepts, [])
  {
    NonEmptyLength(lb, n, lb[0] & 0x80 != 0);
    AssembleShape(first, lb, key, part, []);
    assert Assemble(first, lb, key, part) + [] == [first] + lb + key + part && part + [] == part;
    CutBody(first, lb, key, part, n);
  }

  /** A whole text or binary message at the front of what is unread is delivered; after such a
      failure it may be one that nobody sent. */
  lemma RecvOnGroup(s: bytes, m: Message, rest: bytes, open: bool, accepts: seq<nat>, isClient: bool)
    requires PeelGroup(s) == Some((m, rest)) && (m.opcode == TEXT || m.opcode == BINARY)
    ensures RecvEffect(s, open, accepts, isClient) == Effect(Received(m), rest, accepts, [])
  {
  }
}
