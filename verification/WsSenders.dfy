/**
 Several sends on one WebSocket connection. A send awaits between its partial writes and
 holds no lock, so the writes of another send, such as the pong a receive answers a ping
 with, can come in between. A run is any interleaving of sends and their writes.
 */
module WsSenders {
  import opened Wrappers
  import opened Bytes
  import opened ByteStream
  import opened WsFrame
  import opened WsMessages
  import opened WsTransfer

  /** The bytes written so far, what each unfinished send still has to write, and the frames of
      all sends in the order in which they began. A send that failed stays unfinished. */
  datatype Wire = Wire(out: bytes, unsent: map<nat, bytes>, begun: seq<bytes>)

  datatype Event = Begin(task: nat, frame: bytes) | Write(task: nat, n: nat)

  const SILENT := Wire([], map[], [])

  function Step(w: Wire, e: Event): Option<Wire> {
    match e
    case Begin(t, frame) =>
      if t in w.unsent || frame == [] then None
      else Some(Wire(w.out, w.unsent[t := frame], w.begun + [frame]))
    case Write(t, n) =>
      if t !in w.unsent || n == 0 || n > |w.unsent[t]| then None
      else
        var left := w.unsent[t][n..];
        Some(Wire(w.out + w.unsent[t][..n], if left == [] then w.unsent - {t} else w.unsent[t := left], w.begun))
  }

  function Run(es: seq<Event>): Option<Wire> {
    if es == [] then Some(SILENT)
    else match Run(es[..|es| - 1])
      case None => None
      case Some(w) => Step(w, es[|es| - 1])
  }

  // ---------- Sends that do not overlap ----------

  /** Whether no send begins while another is unfinished. */
  ghost predicate OneAtATime(es: seq<Event>) {
    es == [] ||
    (var fs := es[..|es| - 1];
     && OneAtATime(fs)
     && (es[|es| - 1].Begin? && Run(fs).Some? ==> Run(fs).value.unsent == map[]))
  }

  /** At most one send is unfinished, and only its rest is missing from the frames begun. */
  ghost predicate Serial(w: Wire) {
    || (w.unsent == map[] && w.out == Flatten(w.begun))
    || (exists t :: w.unsent.Keys == {t} && w.unsent[t] != [] && w.out + w.unsent[t] == Flatten(w.begun))
  }

  lemma BeginKeepsSerial(w: Wire, t: nat, frame: bytes)
    requires w.unsent == map[] && w.out == Flatten(w.begun) && frame != []
    ensures Step(w, Begin(t, frame)).Some? && Serial(Step(w, Begin(t, frame)).value)
  {
    var w' := Step(w, Begin(t, frame)).value;
    FlattenAppend(w.begun, [frame]);
    assert Flatten([frame]) == frame + Flatten([frame][1..]) == frame;
    assert w'.unsent.Keys == {t} && w'.unsent[t] == frame;
  }

  lemma WriteKeepsSerial(w: Wire, t: nat, n: nat)
    requires Serial(w) && Step(w, Write(t, n)).Some?
    ensures Serial(Step(w, Write(t, n)).value)
  {
    var w' := Step(w, Write(t, n)).value;
    var u :| w.unsent.Keys == {u} && w.unsent[u] != [] && w.out + w.unsent[u] == Flatten(w.begun);
    assert t in w.unsent.Keys;
    var whole, left := w.unsent[t], w.unsent[t][n..];
    assert whole == whole[..n] + left;
    assert w.out + whole == w.out + whole[..n] + left;
    if left == [] {
      assert w.out + whole[..n] + left == w.out + whole[..n];
      assert w'.unsent.Keys == {};
    } else {
      assert w'.unsent.Keys == {t} && w'.unsent[t] == left;
    }
  }

  lemma {:induction false} SerialRun(es: seq<Event>)
    requires Run(es).Some? && OneAtATime(es)
    ensures Serial(Run(es).value)
  {
    if es != [] {
      var fs := es[..|es| - 1];
      SerialRun(fs);
      match es[|es| - 1]
      case Begin(t, frame) => BeginKeepsSerial(Run(fs).value, t, frame);
      case Write(t, n) => WriteKeepsSerial(Run(fs).value, t, n);
    }
  }

  /** In a run in which no send begins while another is unfinished, however the writes split, the
      peer gets a prefix of the frames in the order in which they were begun, all of them exactly
      when every send has finished. */
  lemma SerialSendsConcatenate(es: seq<Event>)
    requires Run(es).Some? && OneAtATime(es)
    ensures var w := Run(es).value;
            w.out <= Flatten(w.begun) && (w.out == Flatten(w.begun) <==> w.unsent == map[])
  {
    SerialRun(es);
    var w := Run(es).value;
    if w.unsent != map[] {
      var t :| w.unsent.Keys == {t} && w.unsent[t] != [] && w.out + w.unsent[t] == Flatten(w.begun);
      assert |Flatten(w.begun)| == |w.out| + |w.unsent[t]|;
    }
  }

  function FramesOf(isClient: bool, ms: seq<Message>): seq<bytes>
    requires AllTyped(ms)
  {
    if ms == [] then [] else [Encode(isClient, ms[0])] + FramesOf(isClient, ms[1..])
  }

  lemma {:induction false} FlattenFrames(isClient: bool, ms: seq<Message>)
    requires AllTyped(ms)
    ensures Flatten(FramesOf(isClient, ms)) == EncodeAll(isClient, ms)
  {
    if ms != [] {
      assert FramesOf(isClient, ms)[1..] == FramesOf(isClient, ms[1..]);
      FlattenFrames(isClient, ms[1..]);
    }
  }

  /** So the receiver gets exactly the messages that went out whole, in the order in which their
      sends began, and all of them once every send has finished. */
  lemma SerialSendsAreReceived(es: seq<Event>, isClient: bool, ms: seq<Message>,
                               open: bool, accepts: seq<nat>, byClient: bool)
    requires Run(es).Some? && OneAtATime(es)
    requires AllSendable(ms) && Run(es).value.begun == FramesOf(isClient, ms)
    ensures var w := Run(es).value;
            && Groups(w.out) <= ms && (w.unsent == map[] ==> Groups(w.out) == ms)
            && ReceiveAll(w.out, open, accepts, byClient).outcomes ==
               Deliveries(Groups(w.out)) + [Failed(EndOfStream)]
  {
    var w := Run(es).value;
    SerialSendsConcatenate(es);
    FlattenFrames(isClient, ms);
    WireIsPrefix(w.out, EncodeAll(isClient, ms));
    PrefixNeverCorrupts(isClient, ms, |w.out|);
    PrefixReceived(isClient, ms, |w.out|, open, accepts, byClient);
  }

  // ---------- Sends that do ----------

  /** Whether the peer has a prefix of the frames in the order in which they were begun. */
  predicate InOrder(w: Wire) {
    w.out <= Flatten(w.begun)
  }

  predicate OnlyWrites(es: seq<Event>) {
    forall i :: 0 <= i < |es| ==> es[i].Write?
  }

  ghost predicate SafeTail(es: seq<Event>, tail: seq<Event>) {
    OnlyWrites(tail) && Run(es + tail).Some? ==> InOrder(Run(es + tail).value)
  }

  predicate All(s: bytes, b: byte) {
    forall i :: 0 <= i < |s| ==> s[i] == b
  }

  lemma AllAppend(a: bytes, c: bytes, b: byte)
    ensures All(a + c, b) <==> All(a, b) && All(c, b)
  {
    assert forall i :: 0 <= i < |a| ==> (a + c)[i] == a[i];
    assert forall i :: 0 <= i < |c| ==> (a + c)[|a| + i] == c[i];
  }

  /** How much task `t` still has to write. */
  function Left(w: Wire, t: nat): nat {
    if t in w.unsent then |w.unsent[t]| else 0
  }

  /** Two sends between whose writes no difference can be seen: what they wrote after `base` and
      what they still have to write is one byte repeated, `total` times in all. */
  ghost predicate Alike(w: Wire, t: nat, u: nat, base: bytes, b: byte, total: nat) {
    && (forall v :: v in w.unsent ==> (v == t || v == u) && All(w.unsent[v], b))
    && base <= w.out && All(w.out[|base|..], b)
    && |w.out| + Left(w, t) + Left(w, u) == |base| + total
  }

  lemma WriteKeepsAlike(w: Wire, e: Event, t: nat, u: nat, base: bytes, b: byte, total: nat)
    requires Alike(w, t, u, base, b, total) && t != u && e.Write? && Step(w, e).Some?
    ensures Alike(Step(w, e).value, t, u, base, b, total) && Step(w, e).value.begun == w.begun
  {
    var whole, w' := w.unsent[e.task], Step(w, e).value;
    var part, left := whole[..e.n], whole[e.n..];
    assert whole == part + left;
    AllAppend(part, left, b);
    assert w'.out[|base|..] == w.out[|base|..] + part;
    AllAppend(w.out[|base|..], part, b);
  }

  lemma AlikeIsInOrder(w: Wire, t: nat, u: nat, base: bytes, b: byte, later: bytes)
    requires Alike(w, t, u, base, b, |later|) && All(later, b) && Flatten(w.begun) == base + later
    ensures InOrder(w)
  {
    var done := w.out[|base|..];
    assert w.out == base + done;
    assert done <= later;
    assert base + later == base + done + later[|done|..];
  }

  lemma {:induction false} AlikeTail(es: seq<Event>, w: Wire, tail: seq<Event>, t: nat, u: nat,
                                     base: bytes, b: byte, total: nat)
    requires Run(es) == Some(w) && Alike(w, t, u, base, b, total) && t != u
    requires OnlyWrites(tail) && Run(es + tail).Some?
    ensures Alike(Run(es + tail).value, t, u, base, b, total) && Run(es + tail).value.begun == w.begun
    decreases |tail|
  {
    if tail == [] {
      assert es + tail == es;
    } else {
      var front := tail[..|tail| - 1];
      assert (es + tail)[..|es + tail| - 1] == es + front && (es + tail)[|es + tail| - 1] == tail[|tail| - 1];
      AlikeTail(es, w, front, t, u, base, b, total);
      WriteKeepsAlike(Run(es + front).value, tail[|tail| - 1], t, u, base, b, total);
    }
  }

  lemma {:induction false} FirstOther(s: bytes, b: byte) returns (j: nat)
    requires !All(s, b)
    ensures j < |s| && s[j] != b && All(s[..j], b)
    decreases |s|
  {
    if s[0] != b {
      j := 0;
    } else {
      assert !All(s[1..], b) by {
        assert s == [b] + s[1..];
        AllAppend([b], s[1..], b);
      }
      j := FirstOther(s[1..], b);
      j := j + 1;
      assert s[..j] == [b] + s[1..][..j - 1];
      AllAppend([b], s[1..][..j - 1], b);
    }
  }

  /** A task that writes the first `n` bytes of what it has left. */
  lemma WriteSome(es: seq<Event>, w: Wire, t: nat, n: nat)
    requires Run(es) == Some(w) && t in w.unsent && 0 < n <= |w.unsent[t]|
    ensures Run(es + [Write(t, n)]).Some?
    ensures var w' := Run(es + [Write(t, n)]).value;
            && w'.out == w.out + w.unsent[t][..n] && w'.begun == w.begun
            && forall v :: v != t && v in w.unsent ==> v in w'.unsent && w'.unsent[v] == w.unsent[v]
  {
    RunAppend(es, Write(t, n));
  }

  lemma Broken(w: Wire, i: nat)
    requires i < |w.out| && i < |Flatten(w.begun)| && w.out[i] != Flatten(w.begun)[i]
    ensures !InOrder(w)
  {
  }

  lemma BreakAt(es: seq<Event>, w: Wire, base: bytes, t: nat, rest: bytes, u: nat, frame: bytes, i: nat)
    returns (tail: seq<Event>)
    requires Run(es) == Some(w) && w.unsent == map[t := rest, u := frame] && t != u && frame != []
    requires w.out == base && Flatten(w.begun) == base + (rest + frame)
    requires i < |rest| && rest[i] != frame[0]
    ensures !SafeTail(es, tail)
  {
    assert frame[..1] == [frame[0]];
    if i == 0 {
      tail := [Write(u, 1)];
      WriteSome(es, w, u, 1);
      Broken(Run(es + tail).value, |base|);
    } else {
      tail := [Write(t, i)] + [Write(u, 1)];
      WriteSome(es, w, t, i);
      WriteSome(es + [Write(t, i)], Run(es + [Write(t, i)]).value, u, 1);
      assert es + [Write(t, i)] + [Write(u, 1)] == es + tail;
      Broken(Run(es + tail).value, |base| + i);
    }
  }

  lemma BreakInFrame(es: seq<Event>, w: Wire, base: bytes, t: nat, rest: bytes, u: nat, frame: bytes)
    returns (tail: seq<Event>)
    requires Run(es) == Some(w) && w.unsent == map[t := rest, u := frame] && t != u && frame != [] && rest != []
    requires w.out == base && Flatten(w.begun) == base + (rest + frame)
    requires All(rest, frame[0]) && !All(frame, frame[0])
    ensures !SafeTail(es, tail)
  {
    var j := FirstOther(frame, frame[0]);
    tail := [Write(u, j + 1)];
    WriteSome(es, w, u, j + 1);
    assert (rest + frame)[j] == frame[0] by {
      if j >= |rest| {
        assert (rest + frame)[j] == frame[j - |rest|] == frame[..j][j - |rest|];
      }
    }
    Broken(Run(es + tail).value, |base| + j);
  }

  lemma SerialUnsent(w: Wire, t: nat)
    requires Serial(w) && t in w.unsent
    ensures w.unsent == map[t := w.unsent[t]] && w.unsent[t] != [] && w.out + w.unsent[t] == Flatten(w.begun)
  {
    assert t in w.unsent.Keys;
    var u :| w.unsent.Keys == {u} && w.unsent[u] != [] && w.out + w.unsent[u] == Flatten(w.begun);
    assert u == t;
  }

  lemma FlattenOneMore(begun: seq<bytes>, frame: bytes)
    ensures Flatten(begun + [frame]) == Flatten(begun) + frame
  {
    FlattenAppend(begun, [frame]);
    assert Flatten([frame]) == frame + Flatten([frame][1..]) == frame;
  }

  lemma BeginSecond(es: seq<Event>, t: nat, u: nat, frame: bytes)
    requires Run(es).Some? && OneAtATime(es) && t in Run(es).value.unsent && u != t && frame != []
    ensures Run(es + [Begin(u, frame)]).Some?
    ensures var w, rest := Run(es + [Begin(u, frame)]).value, Run(es).value.unsent[t];
            && w.unsent == map[t := rest, u := frame] && rest != []
            && w.out == Run(es).value.out && Flatten(w.begun) == w.out + (rest + frame)
  {
    SerialRun(es);
    var w := Run(es).value;
    SerialUnsent(w, t);
    RunAppend(es, Begin(u, frame));
    FlattenOneMore(w.begun, frame);
    assert w.out + w.unsent[t] + frame == w.out + (w.unsent[t] + frame);
    assert map[t := w.unsent[t]][u := frame] == map[t := w.unsent[t], u := frame];
  }

  /** When a send begins while another is unfinished, the peer has a prefix of the frames in order
      however the writes of the two fall, exactly if all that the first has still to write and all
      of the new frame is one byte repeated. */
  lemma OverlapHarmlessExactly(es: seq<Event>, t: nat, u: nat, frame: bytes)
    requires Run(es).Some? && OneAtATime(es) && t in Run(es).value.unsent && u != t && frame != []
    ensures (forall tail :: SafeTail(es + [Begin(u, frame)], tail)) <==>
            All(Run(es).value.unsent[t] + frame, frame[0])
  {
    BeginSecond(es, t, u, frame);
    var begun, rest, b := es + [Begin(u, frame)], Run(es).value.unsent[t], frame[0];
    var w := Run(begun).value;
    AllAppend(rest, frame, b);
    if All(rest + frame, b) {
      forall tail
        ensures SafeTail(begun, tail)
      {
        if OnlyWrites(tail) && Run(begun + tail).Some? {
          AlikeTail(begun, w, tail, t, u, w.out, b, |rest + frame|);
          AlikeIsInOrder(Run(begun + tail).value, t, u, w.out, b, rest + frame);
        }
      }
    } else if All(rest, b) {
      var tail := BreakInFrame(begun, w, w.out, t, rest, u, frame);
    } else {
      var i := FirstOther(rest, b);
      var tail := BreakAt(begun, w, w.out, t, rest, u, frame, i);
    }
  }

  lemma RunAppend(es: seq<Event>, e: Event)
    requires Run(es).Some?
    ensures Run(es + [e]) == Step(Run(es).value, e)
  {
    assert (es + [e])[..|es|] == es;
  }

  /** A send that begins, writes all of its frame and ends while another is unfinished, which then
      ends too. */
  function Overlap(t: nat, rest: bytes, u: nat, frame: bytes): seq<Event> {
    [Begin(u, frame), Write(u, |frame|), Write(t, |rest|)]
  }

  lemma WriteAll(w: Wire, t: nat)
    requires t in w.unsent && w.unsent[t] != []
    ensures Step(w, Write(t, |w.unsent[t]|)) == Some(Wire(w.out + w.unsent[t], w.unsent - {t}, w.begun))
  {
    var whole := w.unsent[t];
    assert whole[..|whole|] == whole && whole[|whole|..] == [];
  }

  lemma SendWhole(es: seq<Event>, w: Wire, u: nat, frame: bytes)
    requires Run(es) == Some(w) && u !in w.unsent && frame != []
    ensures Run(es + [Begin(u, frame)] + [Write(u, |frame|)]) ==
            Some(Wire(w.out + frame, w.unsent, w.begun + [frame]))
  {
    RunAppend(es, Begin(u, frame));
    WriteAll(Wire(w.out, w.unsent[u := frame], w.begun + [frame]), u);
    RunAppend(es + [Begin(u, frame)], Write(u, |frame|));
    assert w.unsent[u := frame] - {u} == w.unsent;
  }

  lemma OverlapRun(es: seq<Event>, w: Wire, t: nat, rest: bytes, u: nat, frame: bytes)
    requires Run(es) == Some(w) && w.unsent == map[t := rest] && rest != []
    requires u != t && frame != []
    ensures Run(es + Overlap(t, rest, u, frame)) == Some(Wire(w.out + frame + rest, map[], w.begun + [frame]))
  {
    var e1, e2, e3 := Begin(u, frame), Write(u, |frame|), Write(t, |rest|);
    SendWhole(es, w, u, frame);
    WriteAll(Wire(w.out + frame, w.unsent, w.begun + [frame]), t);
    RunAppend(es + [e1] + [e2], e3);
    assert w.unsent - {t} == map[];
    assert es + [e1] + [e2] + [e3] == es + Overlap(t, rest, u, frame);
  }

  lemma OverlapOrder(out: bytes, rest: bytes, frame: bytes)
    ensures out + frame + rest == out + rest + frame <==> frame + rest == rest + frame
  {
    assert out + frame + rest == out + (frame + rest) && out + rest + frame == out + (rest + frame);
    assert (out + (frame + rest))[|out|..] == frame + rest && (out + (rest + frame))[|out|..] == rest + frame;
  }

  /** One schedule of an overlap: the new frame goes out whole, and then the rest of the first. It
      leaves the frames in order exactly when the new frame commutes with that rest, which is not
      enough for other schedules unless the new frame is one byte. */
  lemma WholeFrameBetweenExactly(es: seq<Event>, t: nat, u: nat, frame: bytes)
    requires Run(es).Some? && OneAtATime(es) && t in Run(es).value.unsent && u != t && frame != []
    ensures var rest := Run(es).value.unsent[t];
            var all := es + Overlap(t, rest, u, frame);
            && Run(all).Some? && Run(all).value.unsent == map[]
            && (Run(all).value.out == Flatten(Run(all).value.begun) <==> frame + rest == rest + frame)
  {
    SerialRun(es);
    var w := Run(es).value;
    var rest := w.unsent[t];
    SerialUnsent(w, t);
    OverlapRun(es, w, t, rest, u, frame);
    FlattenOneMore(w.begun, frame);
    OverlapOrder(w.out, rest, frame);
  }

  /** A one-byte frame, such as a pong, commutes with exactly the repetitions of its byte. */
  lemma {:induction false} ByteCommutesExactly(b: byte, rest: bytes)
    ensures [b] + rest == rest + [b] <==> forall i :: 0 <= i < |rest| ==> rest[i] == b
  {
    if rest != [] {
      ByteCommutesExactly(b, rest[1..]);
      assert rest == [rest[0]] + rest[1..];
      if [b] + rest == rest + [b] {
        assert ([b] + rest)[0] == b && (rest + [b])[0] == rest[0];
        assert ([b] + rest)[1..] == rest && (rest + [b])[1..] == rest[1..] + [b];
        assert [b] + rest[1..] == rest;
      }
      assert forall i :: 1 <= i < |rest| ==> rest[i] == rest[1..][i - 1];
    }
  }

  // ---------- A pong inside a message ----------

  /** A frame up to its payload. */
  function Head(isClient: bool, m: Message): bytes
    requires Sendable(m)
  {
    [0x80 | m.opcode] + LengthBytes(|m.data|, isClient) + KeyFor(isClient)
  }

  lemma MaskForTwice(isClient: bool, data: bytes)
    ensures MaskFor(isClient, MaskFor(isClient, data)) == data
  {
    if isClient {
      MaskInvolution(data, MASK_KEY);
    }
  }

  /** Any bytes in the place of a payload are read as the payload. */
  lemma HeadReads(isClient: bool, m: Message, payload: bytes, rest: bytes)
    requires Sendable(m) && |payload| == |m.data|
    ensures PeelGroup(Head(isClient, m) + payload + rest) == Some((Message(m.opcode, MaskFor(isClient, payload)), rest))
  {
    var n := Message(m.opcode, MaskFor(isClient, payload));
    MaskForTwice(isClient, payload);
    MessageRoundTrip(isClient, n, rest);
  }

  /** The payload of a message as it is read when a pong went out after its first `k` bytes: the
      pong's byte is among them and the last byte is left over. */
  function Pierced(payload: bytes, k: nat): bytes
    requires k < |payload|
  {
    payload[..k] + PONG_BYTES + payload[k..|payload| - 1]
  }

  lemma PiercedSameExactly(payload: bytes, k: nat)
    requires k < |payload|
    ensures |Pierced(payload, k)| == |payload|
    ensures Pierced(payload, k) == payload <==> forall i :: k <= i < |payload| ==> payload[i] == 0x8a
  {
    var q := Pierced(payload, k);
    assert q[..k] == payload[..k] && q[k] == 0x8a;
    assert forall i :: 0 <= i < k ==> q[i] == q[..k][i] == payload[i];
    assert forall i :: k < i < |payload| ==> q[i] == payload[i - 1];
    if q == payload {
      AllFrom(payload, k, |payload|);
    }
    if forall i :: k <= i < |payload| ==> payload[i] == 0x8a {
      assert q == payload;
    }
  }

  lemma {:induction false} AllFrom(payload: bytes, k: nat, n: nat)
    requires k < |payload| && payload[k] == 0x8a && k <= n <= |payload|
    requires forall i :: k < i < |payload| ==> payload[i] == payload[i - 1]
    ensures forall i :: k <= i < n ==> payload[i] == 0x8a
  {
    if n > k + 1 {
      AllFrom(payload, k, n - 1);
      assert payload[n - 1] == payload[n - 2];
    }
  }

  lemma FrameIsHead(isClient: bool, m: Message, k: nat)
    requires Sendable(m) && k < |m.data|
    ensures var (frame, n, payload) := (Encode(isClient, m), |Head(isClient, m)| + k, MaskFor(isClient, m.data));
            n < |frame| && frame[..n] == Head(isClient, m) + payload[..k] && frame[n..] == payload[k..]
  {
    var head, payload := Head(isClient, m), MaskFor(isClient, m.data);
    assert Encode(isClient, m) == head + payload;
    assert payload == payload[..k] + payload[k..];
  }

  lemma PausedSend(t: nat, frame: bytes, n: nat)
    requires 0 < n < |frame|
    ensures Run([Begin(t, frame)] + [Write(t, n)]) == Some(Wire(frame[..n], map[t := frame[n..]], [frame]))
  {
    RunAppend([], Begin(t, frame));
    assert [] + [Begin(t, frame)] == [Begin(t, frame)] && [] + [frame] == [frame];
    RunAppend([Begin(t, frame)], Write(t, n));
    assert map[t := frame][t := frame[n..]] == map[t := frame[n..]];
    assert SILENT.unsent[t := frame] == map[t := frame] && [] + frame[..n] == frame[..n];
  }

  lemma SendBetween(t: nat, first: bytes, n: nat, u: nat, frame: bytes)
    requires 0 < n < |first| && t != u && frame != []
    ensures Run([Begin(t, first)] + [Write(t, n)] + Overlap(t, first[n..], u, frame)) ==
            Some(Wire(first[..n] + frame + first[n..], map[], [first, frame]))
  {
    PausedSend(t, first, n);
    OverlapRun([Begin(t, first)] + [Write(t, n)], Wire(first[..n], map[t := first[n..]], [first]),
               t, first[n..], u, frame);
    assert [first] + [frame] == [first, frame];
  }

  lemma SendAfterPause(t: nat, first: bytes, n: nat, u: nat, frame: bytes)
    requires 0 < n < |first| && t != u && frame != []
    ensures Run([Begin(t, first)] + [Write(t, n)] + [Begin(u, frame)] + [Write(u, |frame|)]) ==
            Some(Wire(first[..n] + frame, map[t := first[n..]], [first, frame]))
  {
    PausedSend(t, first, n);
    SendWhole([Begin(t, first)] + [Write(t, n)], Wire(first[..n], map[t := first[n..]], [first]), u, frame);
    assert [first] + [frame] == [first, frame];
  }

  /** A run in which task `t` sends a message, waits after `k` bytes of its payload, and task `u`
      writes a pong meanwhile. */
  lemma PongCanComeBetween(isClient: bool, m: Message, k: nat, t: nat, u: nat)
    requires Sendable(m) && k < |m.data| && t != u
    ensures var (head, payload) := (Head(isClient, m), MaskFor(isClient, m.data));
            var es := [Begin(t, Encode(isClient, m))] + [Write(t, |head| + k)];
            Run(es + Overlap(t, payload[k..], u, PONG_BYTES)) ==
            Some(Wire(head + payload[..k] + PONG_BYTES + payload[k..], map[], [Encode(isClient, m), PONG_BYTES]))
  {
    FrameIsHead(isClient, m, k);
    SendBetween(t, Encode(isClient, m), |Head(isClient, m)| + k, u, PONG_BYTES);
  }

  lemma SplitOutput(head: bytes, payload: bytes, k: nat, later: bytes)
    requires k < |payload|
    ensures head + payload[..k] + PONG_BYTES + payload[k..] + later ==
            head + Pierced(payload, k) + ([payload[|payload| - 1]] + later)
  {
    assert payload[k..] == payload[k..|payload| - 1] + [payload[|payload| - 1]];
  }

  /** A pong written inside a message, as a receive can do while a send is waiting: the peer is
      given another message, with a byte of the pong in it, and goes on one byte too early. The
      message survives exactly when all that was still to be written of it is the pong's byte. */
  lemma PongInsideMessage(isClient: bool, m: Message, k: nat, later: bytes,
                          open: bool, accepts: seq<nat>, byClient: bool)
    requires Sendable(m) && k < |m.data|
    ensures var payload := MaskFor(isClient, m.data);
            var out := Head(isClient, m) + payload[..k] + PONG_BYTES + payload[k..] + later;
            var got := Message(m.opcode, MaskFor(isClient, Pierced(payload, k)));
            && RecvEffect(out, open, accepts, byClient) ==
               Effect(Received(got), [payload[|payload| - 1]] + later, accepts, [])
            && (got == m <==> forall i :: k <= i < |payload| ==> payload[i] == 0x8a)
  {
    var payload := MaskFor(isClient, m.data);
    var rest := [payload[|payload| - 1]] + later;
    SplitOutput(Head(isClient, m), payload, k, later);
    PiercedSameExactly(payload, k);
    HeadReads(isClient, m, Pierced(payload, k), rest);
    var got := Message(m.opcode, MaskFor(isClient, Pierced(payload, k)));
    RecvOnGroup(Head(isClient, m) + Pierced(payload, k) + rest, got, rest, open, accepts, byClient);
    MaskForTwice(isClient, Pierced(payload, k));
    MaskForTwice(isClient, m.data);
  }

  // ---------- A frame after a send that failed ----------

  /** A run in which the send of task `t` fails after `k` bytes of its payload, which leaves the
      socket open, and task `u` sends another frame. */
  lemma FrameCanFollowFailedSend(isClient: bool, m: Message, k: nat, t: nat, u: nat, frame: bytes)
    requires Sendable(m) && k < |m.data| && t != u && frame != []
    ensures var (head, payload) := (Head(isClient, m), MaskFor(isClient, m.data));
            var es := [Begin(t, Encode(isClient, m))] + [Write(t, |head| + k)];
            Run(es + [Begin(u, frame)] + [Write(u, |frame|)]) ==
            Some(Wire(head + payload[..k] + frame, map[t := payload[k..]], [Encode(isClient, m), frame]))
  {
    FrameIsHead(isClient, m, k);
    SendAfterPause(t, Encode(isClient, m), |Head(isClient, m)| + k, u, frame);
  }

  lemma PaddedFrame(isClient: bool, m: Message, payload: bytes)
    requires Sendable(m) && |payload| == |m.data|
    ensures var n := Message(m.opcode, MaskFor(isClient, payload));
            Sendable(n) && Encode(isClient, n) == Head(isClient, m) + payload
  {
    MaskForTwice(isClient, payload);
  }

  lemma TooFewFollow(isClient: bool, m: Message, k: nat, later: bytes)
    requires Sendable(m) && k < |m.data| && |later| < |m.data| - k
    ensures PeelFrame(Head(isClient, m) + MaskFor(isClient, m.data)[..k] + later) == None
  {
    var head, payload := Head(isClient, m), MaskFor(isClient, m.data);
    var part, pad := payload[..k] + later, payload[k + |later|..];
    PaddedFrame(isClient, m, part + pad);
    CutPadded(head, part, pad);
    TruncatedFrame(isClient, m.opcode, MaskFor(isClient, part + pad), |head + part|);
    assert head + payload[..k] + later == head + part;
  }

  lemma Regrouped(a: bytes, b: bytes, c: bytes, d: bytes)
    ensures a + b + (c + d) == a + (b + c) + d
  {
  }

  lemma UnmaskedExactly(isClient: bool, payload: bytes, data: bytes)
    ensures MaskFor(isClient, payload) == data <==> payload == MaskFor(isClient, data)
  {
    MaskForTwice(isClient, payload);
    MaskForTwice(isClient, data);
  }

  lemma EnoughFollow(isClient: bool, m: Message, k: nat, read: bytes, later: bytes)
    requires Sendable(m) && k < |m.data| && |read| == |m.data| - k
    ensures var payload := MaskFor(isClient, m.data);
            var got := Message(m.opcode, MaskFor(isClient, payload[..k] + read));
            && PeelGroup(Head(isClient, m) + payload[..k] + (read + later)) == Some((got, later))
            && (got == m <==> read == payload[k..])
  {
    var head, payload := Head(isClient, m), MaskFor(isClient, m.data);
    HeadReads(isClient, m, payload[..k] + read, later);
    Regrouped(head, payload[..k], read, later);
    UnmaskedExactly(isClient, payload[..k] + read, m.data);
    SameTail(payload, k, read);
  }

  lemma SameTail(payload: bytes, k: nat, read: bytes)
    requires k <= |payload|
    ensures payload[..k] + read == payload <==> read == payload[k..]
  {
    assert payload[..k] + payload[k..] == payload;
    assert (payload[..k] + read)[k..] == read;
  }

  /** What the peer makes of the frames that follow a send that failed inside its payload: their
      first bytes are taken for the rest of the payload. The message comes out as it was meant
      exactly when those bytes happen to be that rest, and if there are too few of them nothing
      comes out. */
  lemma FailedSendSwallowsNext(isClient: bool, m: Message, k: nat, later: bytes,
                               open: bool, accepts: seq<nat>, byClient: bool)
    requires Sendable(m) && k < |m.data|
    ensures var payload := MaskFor(isClient, m.data);
            var (out, n) := (Head(isClient, m) + payload[..k] + later, |payload| - k);
            if |later| < n
            then RecvEffect(out, open, accepts, byClient).outcome == Failed(EndOfStream)
            else var got := Message(m.opcode, MaskFor(isClient, payload[..k] + later[..n]));
                 && RecvEffect(out, open, accepts, byClient) == Effect(Received(got), later[n..], accepts, [])
                 && (got == m <==> later[..n] == payload[k..])
  {
    var payload := MaskFor(isClient, m.data);
    var out, n := Head(isClient, m) + payload[..k] + later, |payload| - k;
    if |later| < n {
      TooFewFollow(isClient, m, k, later);
      RecvOnBroken(out, open, accepts, byClient);
    } else {
      assert later == later[..n] + later[n..];
      EnoughFollow(isClient, m, k, later[..n], later[n..]);
      var got := Message(m.opcode, MaskFor(isClient, payload[..k] + later[..n]));
      RecvOnGroup(out, got, later[n..], open, accepts, byClient);
    }
  }

  lemma CutPadded(head: bytes, part: bytes, pad: bytes)
    ensures (head + (part + pad))[..|head + part|] == head + part
  {
  }
}
