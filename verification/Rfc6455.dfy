/**
 RFC 6455 (The WebSocket Protocol), sections 5.2 and 5.4: the grammar of frames and the
 reassembly of fragmented messages as the standard has them, and exactly where the
 program departs from them. Which side has to mask (section 5.1) and the size limit of
 control frames (section 5.5) are not compared.
 */
module Rfc6455 {
  import opened Wrappers
  import opened Bytes
  import opened ByteStream
  import opened WsFrame
  import opened WsMessages

  // ---------- Section 5.2 of RFC 6455: the grammar of frames ----------

  /** The opcodes the standard defines. A receiver fails the connection on any other. */
  predicate Known(opcode: byte) {
    opcode <= BINARY || CLOSE <= opcode <= PONG
  }

  /** The standard's length bytes: always present, always the shortest form. */
  function RfcLengthBytes(n: nat, masked: bool): (bs: bytes)
    requires n < TWO_63
    ensures bs != []
  {
    if n < 0x7e then [Flag(masked) | ByteOf(n)]
    else if n <= 0xffff then [Flag(masked) | 0x7e] + BigEndian(n, 2)
    else [Flag(masked) | 0x7f] + BigEndian(n, 8)
  }

  function MaskWith(data: bytes, key: bytes): (r: bytes)
    requires |key| == 0 || |key| == 4
    ensures |r| == |data|
  {
    if key == [] then data else Mask(data, key)
  }

  function FirstByte(fin: bool, opcode: byte): byte {
    (if fin then 0x80 else 0) | opcode
  }

  /** A frame as the standard writes it, with no reserved bit set; masked unless the key is
      empty. */
  function RfcFrameBytes(f: Frame, key: bytes): bytes
    requires (|key| == 0 || |key| == 4) && |f.payload| < TWO_63
  {
    Assemble(FirstByte(f.fin, f.opcode), RfcLengthBytes(|f.payload|, key != []), key, MaskWith(f.payload, key))
  }

  ghost predicate KeyedFrame(s: bytes, f: Frame, key: bytes, rest: bytes) {
    (|key| == 0 || |key| == 4) && |f.payload| < TWO_63 && s == RfcFrameBytes(f, key) + rest
  }

  /** Whether `s` is a frame of the standard, under some key or none, and then `rest`. */
  ghost predicate RfcFrame(s: bytes, f: Frame, rest: bytes) {
    Known(f.opcode) && exists key :: KeyedFrame(s, f, key, rest)
  }

  // ---------- A reader that enforces it ----------

  datatype RfcRead = Short | Violation | Whole(frame: Frame, rest: bytes)

  /** A reserved bit, which no negotiated extension explains, or an undefined opcode. */
  predicate BadFirst(first: byte) {
    first & 0x70 != 0 || !Known(first & 0xf)
  }

  /** An extended length that has a shorter form, or whose top bit is set. */
  predicate BadLength(extended: bytes) {
    || (|extended| == 2 && FromBigEndian(extended) < 0x7e)
    || (|extended| == 8 && !(0x1_0000 <= FromBigEndian(extended) < TWO_63))
  }

  /** The standard's frame reader. It reports a violation as soon as the bytes that make it
      have arrived, and a set mask bit always announces a key. */
  function RfcPeelFrame(s: bytes): RfcRead {
    if s == [] then Short
    else if BadFirst(s[0]) then Violation
    else if |s| == 1 then Short
    else match TakeCount(s[2..], ExtendedWidth(s[1]))
      case None => Short
      case Some((extended, _)) => if BadLength(extended) then Violation else Completed(PeelBody(s[0], s[1], s[2..]))
  }

  function Completed(r: Option<(Frame, bytes)>): RfcRead {
    match r
    case None => Short
    case Some((f, rest)) => Whole(f, rest)
  }

  lemma FirstByteBack(first: byte)
    requires first & 0x70 == 0
    ensures FirstByte(first & 0x80 != 0, first & 0xf) == first
  {
  }

  lemma SecondByteBack(second: byte)
    ensures Flag(second & 0x80 != 0) | (second & 0x7f) == second
  {
  }

  /** The length bytes of the length some well-formed length bytes encode are those bytes. */
  lemma LengthBytesBack(second: byte, extended: bytes)
    requires |extended| == ExtendedWidth(second) && !BadLength(extended)
    ensures PayloadLength(second, extended) < TWO_63
    ensures RfcLengthBytes(PayloadLength(second, extended), second & 0x80 != 0) == [second] + extended
  {
    SecondByteBack(second);
    DigitsBack(extended);
    FromBigEndianBound(extended);
    Pow256Eight();
    if extended == [] {
      ExtendedWidthByValue(second);
      SmallLength(second);
    }
  }

  lemma SmallLength(second: byte)
    requires ExtendedWidth(second) == 0
    ensures (second & 0x7f) as int < 0x7e && ByteOf((second & 0x7f) as int) == second & 0x7f
  {
    ExtendedWidthByValue(second);
    SevenBits(second);
    SevenBitValue(second & 0x7f);
    ByteBack(second & 0x7f);
  }

  lemma Reassembled(first: byte, second: byte, extended: bytes, key: bytes, data: bytes, rest: bytes, s: bytes)
    requires |s| >= 2 && s[0] == first && s[1] == second && s[2..] == extended + (key + (data + rest))
    ensures s == Assemble(first, [second] + extended, key, data) + rest
  {
    assert s == [first] + ([second] + s[2..]);
  }

  lemma WholeIsFrame(s: bytes)
    requires RfcPeelFrame(s).Whole?
    ensures RfcFrame(s, RfcPeelFrame(s).frame, RfcPeelFrame(s).rest)
  {
    var second, f, rest := s[1], RfcPeelFrame(s).frame, RfcPeelFrame(s).rest;
    var (extended, s1) := TakeCount(s[2..], ExtendedWidth(second)).value;
    var (key, s2) := TakeCount(s1, KeyWidth(second)).value;
    var (data, _) := TakeCount(s2, PayloadLength(second, extended)).value;
    FirstByteBack(s[0]);
    LengthBytesBack(second, extended);
    MaskWithTwice(data, key);
    Reassembled(s[0], second, extended, key, data, rest, s);
    assert KeyedFrame(s, f, key, rest);
  }

  lemma RfcLengthReads(n: nat, masked: bool)
    requires n < TWO_63
    ensures var bs := RfcLengthBytes(n, masked);
            LengthReadsBack(bs, n, masked) && !BadLength(bs[1..])
  {
    Pow256Eight();
    if n < 0x7e {
      ShortForm(n, masked);
    } else {
      LongForm(n, masked, if n <= 0xffff then 2 else 8);
      BigEndianRoundTrip(n, if n <= 0xffff then 2 else 8);
      assert RfcLengthBytes(n, masked)[1..] == BigEndian(n, if n <= 0xffff then 2 else 8);
    }
  }

  lemma FirstByteReads(fin: bool, opcode: byte)
    requires Known(opcode)
    ensures var b := FirstByte(fin, opcode);
            !BadFirst(b) && (b & 0x80 != 0 <==> fin) && b & 0xf == opcode
  {
  }

  lemma PartsAreWhole(first: byte, lb: bytes, key: bytes, data: bytes, rest: bytes)
    requires !BadFirst(first) && lb != [] && LengthReadsBack(lb, |data|, lb[0] & 0x80 != 0) && !BadLength(lb[1..])
    requires |key| == if lb[0] & 0x80 != 0 then 4 else 0
    ensures RfcPeelFrame(Assemble(first, lb, key, data) + rest) ==
            Whole(Frame(first & 0x80 != 0, first & 0xf, MaskWith(data, key)), rest)
  {
    AssembleShape(first, lb, key, data, rest);
    BodyRoundTrip(first, lb, key, data, rest);
    TakeAppend(lb[1..], key + (data + rest));
  }

  /** The enforcing reader gives back every frame of the standard: any length below 2^63, empty
      ones included, masked under any key or not, final or not. */
  lemma RfcRoundTrip(f: Frame, key: bytes, rest: bytes)
    requires Known(f.opcode) && (|key| == 0 || |key| == 4) && |f.payload| < TWO_63
    ensures RfcPeelFrame(RfcFrameBytes(f, key) + rest) == Whole(f, rest)
  {
    var lb := RfcLengthBytes(|f.payload|, key != []);
    FirstByteReads(f.fin, f.opcode);
    RfcLengthReads(|f.payload|, key != []);
    PartsAreWhole(FirstByte(f.fin, f.opcode), lb, key, MaskWith(f.payload, key), rest);
    MaskWithTwice(f.payload, key);
  }

  lemma MaskWithTwice(data: bytes, key: bytes)
    requires |key| == 0 || |key| == 4
    ensures MaskWith(MaskWith(data, key), key) == data
  {
    if key != [] {
      MaskInvolution(data, key);
    }
  }

  /** The enforcing reader accepts exactly the frames of the standard's grammar. */
  lemma RfcReaderIsGrammar(s: bytes, f: Frame, rest: bytes)
    ensures RfcPeelFrame(s) == Whole(f, rest) <==> RfcFrame(s, f, rest)
  {
    if RfcPeelFrame(s) == Whole(f, rest) {
      WholeIsFrame(s);
    }
    if RfcFrame(s, f, rest) {
      var key :| KeyedFrame(s, f, key, rest);
      RfcRoundTrip(f, key, rest);
    }
  }

  // ---------- The program against the standard ----------

  /** The program's reader knows no violations: it agrees with the standard's when both find
      the same frame or both lack bytes. */
  predicate Agree(r: Option<(Frame, bytes)>, std: RfcRead) {
    match std
    case Short => r == None
    case Violation => false
    case Whole(f, rest) => r == Some((f, rest))
  }

  /** A frame whose mask bit announces a key but whose length bits are zero. */
  predicate MaskedEmpty(s: bytes) {
    |s| >= 2 && s[1] & 0x80 != 0 && s[1] & 0x7f == 0
  }

  /** The reader follows the standard on exactly the streams that set no reserved bit, use a
      defined opcode, give a whole extended length in its shortest form and below 2^63, and do
      not start with a masked empty frame. */
  lemma ReaderMeetsRfcExactly(s: bytes)
    ensures Agree(PeelFrame(s), RfcPeelFrame(s)) <==>
            && (|s| >= 1 ==> !BadFirst(s[0]))
            && (|s| >= 2 && |s| >= 2 + ExtendedWidth(s[1]) ==> !BadLength(s[2..2 + ExtendedWidth(s[1])]))
            && !MaskedEmpty(s)
  {
    if |s| >= 2 {
      var w := ExtendedWidth(s[1]);
      assert |s| >= 2 + w ==> s[2..][..w] == s[2..2 + w];
      if s[1] & 0x7f == 0 {
        EmptyBody(s[0], s[1], s[2..]);
      }
    }
  }

  lemma EmptyBody(first: byte, second: byte, s: bytes)
    requires second & 0x7f == 0
    ensures PeelBody(first, second, s) ==
            var k := KeyWidth(second);
            if k <= |s| then Some((Frame(first & 0x80 != 0, first & 0xf, []), s[k..])) else None
  {
    assert ExtendedWidth(second) == 0 && PayloadLength(second, []) == 0;
    TakeNone(s);
    var k := KeyWidth(second);
    if k <= |s| {
      TakeNone(s[k..]);
    }
  }

  /** The standard's frame for a message, where it has one. */
  function RfcEncodeFrame(isClient: bool, opcode: byte, payload: bytes): Option<bytes> {
    if |payload| < TWO_63 then Some(RfcFrameBytes(Frame(true, opcode, payload), KeyFor(isClient))) else None
  }

  /** The writer follows the standard on exactly the payloads below 2^63 bytes that are neither
      empty nor 65535 bytes long. */
  lemma WriterMeetsRfcExactly(isClient: bool, opcode: byte, payload: bytes)
    requires Known(opcode) && |payload| < TWO_64
    ensures Some(EncodeFrame(isClient, opcode, payload)) == RfcEncodeFrame(isClient, opcode, payload) <==>
            0 < |payload| < TWO_63 && |payload| != 0xffff
  {
    if |payload| == 0xffff {
      assert |EncodeFrame(isClient, opcode, payload)| == |RfcEncodeFrame(isClient, opcode, payload).value| + 6;
    }
  }

  /** What the writer sends, the enforcing reader takes, exactly for those payloads. */
  lemma StrictPeerReadsExactly(isClient: bool, opcode: byte, payload: bytes, rest: bytes)
    requires Known(opcode) && |payload| < TWO_64
    ensures var s := EncodeFrame(isClient, opcode, payload) + rest;
            RfcPeelFrame(s) == Whole(Frame(true, opcode, payload), rest) <==>
            0 < |payload| < TWO_63 && |payload| != 0xffff
  {
    var f := Frame(true, opcode, payload);
    var s := EncodeFrame(isClient, opcode, payload) + rest;
    WriterMeetsRfcExactly(isClient, opcode, payload);
    if 0 < |payload| < TWO_63 && |payload| != 0xffff {
      RfcRoundTrip(f, KeyFor(isClient), rest);
    } else if payload == [] {
      RoundTripExact(isClient, opcode, payload, rest);
      assert |s| == 1 + |rest|;
    } else {
      LongSizeIsBad(isClient, opcode, payload, rest);
    }
  }

  lemma LongLengthIsBad(n: nat, isClient: bool)
    requires n == 0xffff || TWO_63 <= n < TWO_64
    ensures var lb := LengthBytes(n, isClient);
            |lb| == 1 + ExtendedWidth(lb[0]) && BadLength(lb[1..])
  {
    Pow256Eight();
    LengthRoundTrip(n, isClient);
    BigEndianRoundTrip(n, 8);
    assert LengthBytes(n, isClient)[1..] == BigEndian(n, 8);
  }

  lemma BadLengthIsViolation(first: byte, lb: bytes, more: bytes, s: bytes)
    requires !BadFirst(first) && |lb| >= 1 && |lb| == 1 + ExtendedWidth(lb[0]) && BadLength(lb[1..])
    requires |s| >= 2 && s[0] == first && s[1] == lb[0] && s[2..] == lb[1..] + more
    ensures RfcPeelFrame(s) == Violation
  {
    TakeAppend(lb[1..], more);
  }

  lemma LongSizeIsBad(isClient: bool, opcode: byte, payload: bytes, rest: bytes)
    requires Known(opcode) && (|payload| == 0xffff || TWO_63 <= |payload| < TWO_64)
    ensures RfcPeelFrame(EncodeFrame(isClient, opcode, payload) + rest) == Violation
  {
    var lb, key, data := LengthBytes(|payload|, isClient), KeyFor(isClient), MaskFor(isClient, payload);
    LongLengthIsBad(|payload|, isClient);
    FirstByteReads(true, opcode);
    AssembleShape(0x80 | opcode, lb, key, data, rest);
    BadLengthIsViolation(0x80 | opcode, lb, key + (data + rest), EncodeFrame(isClient, opcode, payload) + rest);
  }

  // ---------- Section 5.4: fragmented messages ----------

  /** One fragment of a message, and the control messages sent right before it. */
  datatype Part = Part(before: seq<Message>, data: bytes)

  function SingleFrames(ms: seq<Message>): seq<Frame> {
    if ms == [] then [] else [Frame(true, ms[0].opcode, ms[0].data)] + SingleFrames(ms[1..])
  }

  /** The frames section 5.4 of RFC 6455 gives a fragmented message: the opcode on the first,
      continuations after it, FIN on the last, and control frames in between. */
  function PartFrames(opcode: byte, parts: seq<Part>): seq<Frame> {
    if parts == [] then []
    else
      var f := Frame(|parts| == 1, opcode, parts[0].data);
      SingleFrames(parts[0].before) + ([f] + PartFrames(CONTINUE, parts[1..]))
  }

  /** A message in several parts with nothing sent in between. */
  function Plain(parts: seq<bytes>): (ps: seq<Part>)
    ensures |ps| == |parts|
  {
    if parts == [] then [] else [Part([], parts[0])] + Plain(parts[1..])
  }

  lemma PlainStep(opcode: byte, parts: seq<bytes>)
    requires parts != []
    ensures PartFrames(opcode, Plain(parts)) ==
            [Frame(|parts| == 1, opcode, parts[0])] + PartFrames(CONTINUE, Plain(parts[1..]))
  {
    var later := [Frame(|parts| == 1, opcode, parts[0])] + PartFrames(CONTINUE, Plain(parts[1..]));
    assert Plain(parts)[1..] == Plain(parts[1..]);
    assert [] + later == later;
  }

  /** The opcode on the first frame, continuations after it, FIN on the last. */
  predicate AreFragments(fs: seq<Frame>, opcode: byte, parts: seq<bytes>) {
    && |fs| == |parts|
    && forall i :: 0 <= i < |fs| ==> fs[i] == Frame(i == |fs| - 1, if i == 0 then opcode else CONTINUE, parts[i])
  }

  lemma OneMoreFragment(fs: seq<Frame>, opcode: byte, parts: seq<bytes>)
    requires parts != [] && AreFragments(fs, CONTINUE, parts[1..])
    ensures AreFragments([Frame(|parts| == 1, opcode, parts[0])] + fs, opcode, parts)
  {
    var all := [Frame(|parts| == 1, opcode, parts[0])] + fs;
    forall i | 0 <= i < |all|
      ensures all[i] == Frame(i == |all| - 1, if i == 0 then opcode else CONTINUE, parts[i])
    {
      if i > 0 {
        assert all[i] == fs[i - 1] && parts[i] == parts[1..][i - 1];
      }
    }
  }

  lemma {:induction false} PlainFrames(opcode: byte, parts: seq<bytes>)
    ensures AreFragments(PartFrames(opcode, Plain(parts)), opcode, parts)
    decreases |parts|
  {
    if parts != [] {
      PlainFrames(CONTINUE, parts[1..]);
      PlainStep(opcode, parts);
      OneMoreFragment(PartFrames(CONTINUE, Plain(parts[1..])), opcode, parts);
    }
  }

  /** The frames of such a message. */
  function Fragments(opcode: byte, parts: seq<bytes>): (fs: seq<Frame>)
    ensures AreFragments(fs, opcode, parts)
  {
    PlainFrames(opcode, parts);
    PartFrames(opcode, Plain(parts))
  }

  /** The standard's fragments form a group exactly when there is only one of them: the last
      continuation never ends the group, so the next message is swallowed into it. */
  lemma FragmentsFormGroupExactly(opcode: byte, parts: seq<bytes>)
    requires parts != [] && opcode != CONTINUE
    ensures FirstEnd(Fragments(opcode, parts)).Some? <==> |parts| == 1
  {
    assert EndsGroup(Fragments(opcode, parts)[0]) <==> |parts| == 1;
  }

  lemma {:induction false} JoinThrough(data: bytes, fs: seq<Frame>, more: seq<Frame>)
    requires forall i :: 0 <= i < |fs| ==> !EndsGroup(fs[i])
    ensures JoinFrames(data, fs + more) == JoinFrames(data + Payloads(fs), more)
    decreases |fs|
  {
    if fs == [] {
      assert fs + more == more && data + [] == data;
    } else {
      assert (fs + more)[1..] == fs[1..] + more;
      JoinThrough(data + fs[0].payload, fs[1..], more);
      assert data + fs[0].payload + Payloads(fs[1..]) == data + (fs[0].payload + Payloads(fs[1..]));
    }
  }

  lemma {:induction false} PayloadsOfParts(fs: seq<Frame>, parts: seq<bytes>)
    requires |fs| == |parts| && forall i :: 0 <= i < |fs| ==> fs[i].payload == parts[i]
    ensures Payloads(fs) == Flatten(parts)
  {
    if fs != [] {
      PayloadsOfParts(fs[1..], parts[1..]);
    }
  }

  /** What the program makes of a message sent in several parts: it is joined to the front of
      the next message and delivered under that one's opcode. */
  lemma FragmentedMessageSwallowsNext(opcode: byte, parts: seq<bytes>, next: Frame, later: seq<Frame>)
    requires |parts| >= 2 && EndsGroup(next)
    ensures JoinFrames([], Fragments(opcode, parts) + ([next] + later)) ==
            Some((Message(next.opcode, Flatten(parts) + next.payload), later))
  {
    var fs := Fragments(opcode, parts);
    JoinThrough([], fs, [next] + later);
    PayloadsOfParts(fs, parts);
    assert [] + Flatten(parts) == Flatten(parts);
    assert ([next] + later)[1..] == later;
  }

  /** A message in several fragments with a ping or pong behind it never reaches the receiver:
      its payload is taken for the control message's, and receiving goes on after that. */
  lemma FragmentsBeforeControlAreLost(s: bytes, opcode: byte, parts: seq<bytes>, control: Frame, later: seq<Frame>,
                                      open: bool, accepts: seq<nat>, isClient: bool)
    requires |parts| >= 2 && control.fin && (control.opcode == PING || control.opcode == PONG)
    requires Frames(s) == Fragments(opcode, parts) + ([control] + later)
    requires control.opcode == PING ==> open && accepts != [] && accepts[0] > 0
    ensures PeelGroup(s).Some? && Frames(PeelGroup(s).value.1) == later
    ensures var rest := PeelGroup(s).value.1;
            RecvEffect(s, open, accepts, isClient) ==
            if control.opcode == PONG then RecvEffect(rest, open, accepts, isClient)
            else Before([PONG_BYTES], RecvEffect(rest, open, accepts[1..], isClient))
  {
    FragmentedMessageSwallowsNext(opcode, parts, control, later);
    JoinRefinesFrames([], s);
    if control.opcode == PING {
      PongIsOneByte(open, accepts, isClient);
    }
  }

  // ---------- A reassembler that follows section 5.4 ----------

  predicate IsControlOpcode(opcode: byte) {
    CLOSE <= opcode <= PONG
  }

  /** What the standard makes of a list of frames while `partial` is open: a control frame is a
      message of its own, a data frame opens a message or, as a continuation, extends the open
      one, and FIN completes it. It stops at a frame that the standard forbids there. */
  function RfcMessages(partial: Option<Message>, fs: seq<Frame>): seq<Message>
    decreases |fs|
  {
    if fs == [] then []
    else if IsControlOpcode(fs[0].opcode) then
      if fs[0].fin then [Message(fs[0].opcode, fs[0].payload)] + RfcMessages(partial, fs[1..]) else []
    else if !Known(fs[0].opcode) || partial.Some? != (fs[0].opcode == CONTINUE) then []
    else
      var m := Extended(partial, fs[0].opcode, fs[0].payload);
      if fs[0].fin then [m] + RfcMessages(None, fs[1..]) else RfcMessages(Some(m), fs[1..])
  }

  function Extended(partial: Option<Message>, opcode: byte, data: bytes): Message {
    match partial
    case None => Message(opcode, data)
    case Some(m) => Message(m.opcode, m.data + data)
  }

  /** A message and how it was fragmented. */
  datatype Sent = Sent(opcode: byte, parts: seq<Part>)

  predicate ControlMessages(ms: seq<Message>) {
    forall i :: 0 <= i < |ms| ==> IsControlOpcode(ms[i].opcode)
  }

  predicate ValidParts(parts: seq<Part>) {
    forall i :: 0 <= i < |parts| ==> ControlMessages(parts[i].before)
  }

  predicate ValidSent(m: Sent) {
    m.parts != [] && ValidParts(m.parts) && (m.opcode == TEXT || m.opcode == BINARY)
  }

  predicate AllValid(ms: seq<Sent>) {
    forall i :: 0 <= i < |ms| ==> ValidSent(ms[i])
  }

  function SentFrames(ms: seq<Sent>): seq<Frame> {
    if ms == [] then [] else PartFrames(ms[0].opcode, ms[0].parts) + SentFrames(ms[1..])
  }

  function Controls(parts: seq<Part>): seq<Message> {
    if parts == [] then [] else parts[0].before + Controls(parts[1..])
  }

  function DataOf(parts: seq<Part>): bytes {
    if parts == [] then [] else parts[0].data + DataOf(parts[1..])
  }

  /** What the receiver of these messages should get: control messages when they come, and
      every message whole when it is complete. */
  function Expected(ms: seq<Sent>): seq<Message> {
    if ms == [] then []
    else Controls(ms[0].parts) + ([Message(ms[0].opcode, DataOf(ms[0].parts))] + Expected(ms[1..]))
  }

  lemma RfcControl(partial: Option<Message>, m: Message, fs: seq<Frame>)
    requires IsControlOpcode(m.opcode)
    ensures RfcMessages(partial, [Frame(true, m.opcode, m.data)] + fs) == [m] + RfcMessages(partial, fs)
  {
    assert ([Frame(true, m.opcode, m.data)] + fs)[1..] == fs;
  }

  lemma SingleFramesCons(ms: seq<Message>, fs: seq<Frame>)
    requires ms != []
    ensures SingleFrames(ms) + fs == [Frame(true, ms[0].opcode, ms[0].data)] + (SingleFrames(ms[1..]) + fs)
  {
  }

  lemma MessagesCons(ms: seq<Message>, later: seq<Message>)
    requires ms != []
    ensures [ms[0]] + (ms[1..] + later) == ms + later
  {
  }

  lemma {:induction false} RfcControls(partial: Option<Message>, ms: seq<Message>, fs: seq<Frame>)
    requires ControlMessages(ms)
    ensures RfcMessages(partial, SingleFrames(ms) + fs) == ms + RfcMessages(partial, fs)
  {
    if ms == [] {
      assert SingleFrames(ms) + fs == fs;
    } else {
      SingleFramesCons(ms, fs);
      RfcControl(partial, ms[0], SingleFrames(ms[1..]) + fs);
      RfcControls(partial, ms[1..], fs);
      MessagesCons(ms, RfcMessages(partial, fs));
    }
  }

  lemma RfcData(partial: Option<Message>, f: Frame, fs: seq<Frame>)
    requires Known(f.opcode) && !IsControlOpcode(f.opcode) && partial.Some? == (f.opcode == CONTINUE)
    ensures var m := Extended(partial, f.opcode, f.payload);
            RfcMessages(partial, [f] + fs) ==
            if f.fin then [m] + RfcMessages(None, fs) else RfcMessages(Some(m), fs)
  {
    assert ([f] + fs)[1..] == fs;
  }

  lemma ExtendedTwice(partial: Option<Message>, opcode: byte, a: bytes, b: bytes)
    ensures Extended(Some(Extended(partial, opcode, a)), CONTINUE, b) == Extended(partial, opcode, a + b)
  {
    if partial.Some? {
      assert partial.value.data + (a + b) == partial.value.data + a + b;
    }
  }

  lemma FramesRegroup(a: seq<Frame>, b: seq<Frame>, c: seq<Frame>, d: seq<Frame>)
    ensures a + (b + c) + d == a + (b + (c + d))
  {
  }

  lemma MessagesRegroup(a: seq<Message>, b: seq<Message>, c: seq<Message>)
    ensures a + (b + c) == a + b + c
  {
  }

  lemma {:induction false} RfcParts(partial: Option<Message>, opcode: byte, parts: seq<Part>, fs: seq<Frame>)
    requires parts != [] && ValidParts(parts)
    requires Known(opcode) && !IsControlOpcode(opcode) && partial.Some? == (opcode == CONTINUE)
    ensures RfcMessages(partial, PartFrames(opcode, parts) + fs) ==
            Controls(parts) + ([Extended(partial, opcode, DataOf(parts))] + RfcMessages(None, fs))
    decreases |parts|
  {
    var before, f := parts[0].before, Frame(|parts| == 1, opcode, parts[0].data);
    var later := PartFrames(CONTINUE, parts[1..]);
    FramesRegroup(SingleFrames(before), [f], later, fs);
    RfcControls(partial, before, [f] + (later + fs));
    RfcData(partial, f, later + fs);
    if |parts| == 1 {
      assert later + fs == fs;
      OnePartContents(parts);
    } else {
      var m := Extended(partial, opcode, f.payload);
      RfcParts(Some(m), CONTINUE, parts[1..], fs);
      ExtendedTwice(partial, opcode, f.payload, DataOf(parts[1..]));
      MessagesRegroup(before, Controls(parts[1..]), [Extended(partial, opcode, DataOf(parts))] + RfcMessages(None, fs));
    }
  }

  /** The standard's reassembly gives back what was sent, however it was fragmented and
      whatever control messages came between the fragments. */
  lemma {:induction false} RfcReassembles(ms: seq<Sent>)
    requires AllValid(ms)
    ensures RfcMessages(None, SentFrames(ms)) == Expected(ms)
  {
    if ms != [] {
      RfcParts(None, ms[0].opcode, ms[0].parts, SentFrames(ms[1..]));
      RfcReassembles(ms[1..]);
    }
  }

  // ---------- The program's reassembly against it ----------

  /** Every group the program makes of a list of frames. */
  function FrameGroups(fs: seq<Frame>): seq<Message>
    decreases |fs|
  {
    match JoinFrames([], fs)
    case None => []
    case Some((m, left)) => [m] + FrameGroups(left)
  }

  /** The groups of a stream are the groups of its frames. */
  lemma {:induction false} GroupsAreFrameGroups(s: bytes)
    ensures Groups(s) == FrameGroups(Frames(s))
    decreases |s|
  {
    JoinRefinesFrames([], s);
    if PeelGroup(s).Some? {
      GroupsAreFrameGroups(PeelGroup(s).value.1);
    }
  }

  function Ends(fs: seq<Frame>): nat {
    if fs == [] then 0 else (if EndsGroup(fs[0]) then 1 else 0) + Ends(fs[1..])
  }

  lemma {:induction false} EndsAppend(a: seq<Frame>, b: seq<Frame>)
    ensures Ends(a + b) == Ends(a) + Ends(b)
  {
    if a == [] {
      assert a + b == b;
    } else {
      assert (a + b)[1..] == a[1..] + b;
      EndsAppend(a[1..], b);
    }
  }

  lemma {:induction false} JoinUsesOneEnd(data: bytes, fs: seq<Frame>)
    ensures JoinFrames(data, fs).None? ==> Ends(fs) == 0
    ensures JoinFrames(data, fs).Some? ==> Ends(fs) == 1 + Ends(JoinFrames(data, fs).value.1)
    decreases |fs|
  {
    if fs != [] && !EndsGroup(fs[0]) {
      JoinUsesOneEnd(data + fs[0].payload, fs[1..]);
    }
  }

  lemma {:induction false} GroupsCountEnds(fs: seq<Frame>)
    ensures |FrameGroups(fs)| == Ends(fs)
    decreases |fs|
  {
    JoinUsesOneEnd([], fs);
    if JoinFrames([], fs).Some? {
      GroupsCountEnds(JoinFrames([], fs).value.1);
    }
  }

  lemma {:induction false} SingleEnds(ms: seq<Message>)
    requires ControlMessages(ms)
    ensures Ends(SingleFrames(ms)) == |ms|
  {
    if ms != [] {
      SingleEnds(ms[1..]);
    }
  }

  lemma {:induction false} PartEnds(opcode: byte, parts: seq<Part>)
    requires ValidParts(parts)
    ensures Ends(PartFrames(opcode, parts)) == |Controls(parts)| + if |parts| == 1 && opcode != CONTINUE then 1 else 0
    decreases |parts|
  {
    if parts != [] {
      var f, later := Frame(|parts| == 1, opcode, parts[0].data), PartFrames(CONTINUE, parts[1..]);
      SingleEnds(parts[0].before);
      PartEnds(CONTINUE, parts[1..]);
      EndsAppend(SingleFrames(parts[0].before), [f] + later);
      EndsAppend([f], later);
    }
  }

  function Fragmented(ms: seq<Sent>): nat {
    if ms == [] then 0 else (if |ms[0].parts| > 1 then 1 else 0) + Fragmented(ms[1..])
  }

  /** Every fragmented message costs the program's receiver exactly one message. */
  lemma {:induction false} FragmentedMessageCostsOne(ms: seq<Sent>)
    requires AllValid(ms)
    ensures |FrameGroups(SentFrames(ms))| + Fragmented(ms) == |Expected(ms)|
  {
    GroupsCountEnds(SentFrames(ms));
    if ms != [] {
      FragmentedMessageCostsOne(ms[1..]);
      GroupsCountEnds(SentFrames(ms[1..]));
      PartEnds(ms[0].opcode, ms[0].parts);
      EndsAppend(PartFrames(ms[0].opcode, ms[0].parts), SentFrames(ms[1..]));
    }
  }

  lemma {:induction false} FragmentedSome(ms: seq<Sent>)
    requires AllValid(ms)
    ensures Fragmented(ms) == 0 <==> forall i :: 0 <= i < |ms| ==> |ms[i].parts| == 1
  {
    if ms != [] {
      FragmentedSome(ms[1..]);
      assert forall i :: 1 <= i < |ms| ==> ms[i] == ms[1..][i - 1];
    }
  }

  predicate NoContinuation(ms: seq<Message>) {
    forall i :: 0 <= i < |ms| ==> ms[i].opcode != CONTINUE
  }

  lemma {:induction false} SinglesAreGroups(ms: seq<Message>)
    requires NoContinuation(ms)
    ensures FrameGroups(SingleFrames(ms)) == ms
  {
    if ms != [] {
      assert [] + ms[0].data == ms[0].data;
      SinglesAreGroups(ms[1..]);
    }
  }

  lemma {:induction false} SinglesAppend(a: seq<Message>, b: seq<Message>)
    ensures SingleFrames(a + b) == SingleFrames(a) + SingleFrames(b)
  {
    if a == [] {
      assert a + b == b;
    } else {
      assert (a + b)[1..] == a[1..] + b;
      SinglesAppend(a[1..], b);
    }
  }

  lemma OneSingle(m: Message)
    ensures SingleFrames([m]) == [Frame(true, m.opcode, m.data)]
  {
    assert [m][1..] == [];
  }

  lemma OnePartContents(parts: seq<Part>)
    requires |parts| == 1
    ensures Controls(parts) == parts[0].before && DataOf(parts) == parts[0].data
  {
    assert parts[1..] == [];
    assert parts[0].before + [] == parts[0].before && parts[0].data + [] == parts[0].data;
  }

  lemma OnePart(m: Sent)
    requires ValidSent(m) && |m.parts| == 1
    ensures PartFrames(m.opcode, m.parts) == SingleFrames(Controls(m.parts) + [Message(m.opcode, DataOf(m.parts))])
  {
    OnePartContents(m.parts);
    SinglesAppend(m.parts[0].before, [Message(m.opcode, m.parts[0].data)]);
    OneSingle(Message(m.opcode, m.parts[0].data));
    assert PartFrames(CONTINUE, m.parts[1..]) == [];
  }

  lemma {:induction false} UnfragmentedIsSingles(ms: seq<Sent>)
    requires AllValid(ms) && Fragmented(ms) == 0
    ensures NoContinuation(Expected(ms)) && SentFrames(ms) == SingleFrames(Expected(ms))
  {
    if ms != [] {
      var m := ms[0];
      UnfragmentedIsSingles(ms[1..]);
      OnePart(m);
      OnePartContents(m.parts);
      MessagesRegroup(Controls(m.parts), [Message(m.opcode, DataOf(m.parts))], Expected(ms[1..]));
      SinglesAppend(Controls(m.parts) + [Message(m.opcode, DataOf(m.parts))], Expected(ms[1..]));
    }
  }

  /** The program gets what was sent exactly when no message was fragmented. */
  lemma ReassemblyMeetsRfcExactly(ms: seq<Sent>)
    requires AllValid(ms)
    ensures FrameGroups(SentFrames(ms)) == RfcMessages(None, SentFrames(ms)) <==>
            forall i :: 0 <= i < |ms| ==> |ms[i].parts| == 1
  {
    RfcReassembles(ms);
    FragmentedMessageCostsOne(ms);
    FragmentedSome(ms);
    if Fragmented(ms) == 0 {
      UnfragmentedIsSingles(ms);
      SinglesAreGroups(Expected(ms));
    }
  }

  // ---------- The same on the bytes of a conversation ----------

  /** The bytes of a list of frames, each under its own key or none. */
  function FramesBytes(fs: seq<Frame>, keys: seq<bytes>): bytes
    requires |keys| == |fs| && WritableFrames(fs, keys)
  {
    if fs == [] then [] else RfcFrameBytes(fs[0], keys[0]) + FramesBytes(fs[1..], keys[1..])
  }

  predicate Writable(f: Frame, key: bytes) {
    Known(f.opcode) && (|key| == 0 || |key| == 4) && |f.payload| < TWO_63
  }

  predicate WritableFrames(fs: seq<Frame>, keys: seq<bytes>)
    requires |keys| == |fs|
  {
    forall i :: 0 <= i < |fs| ==> Writable(fs[i], keys[i])
  }

  /** Of the standard's frames, the program reads back exactly those that are not both masked and
      empty. */
  lemma StandardFrameReadExactly(f: Frame, key: bytes, rest: bytes)
    requires Writable(f, key)
    ensures PeelFrame(RfcFrameBytes(f, key) + rest) == Some((f, rest)) <==> key == [] || f.payload != []
  {
    var first, lb, data := FirstByte(f.fin, f.opcode), RfcLengthBytes(|f.payload|, key != []), MaskWith(f.payload, key);
    var s := RfcFrameBytes(f, key) + rest;
    FirstByteReads(f.fin, f.opcode);
    RfcLengthReads(|f.payload|, key != []);
    AssembleShape(first, lb, key, data, rest);
    if f.payload == [] {
      ZeroLength(lb[0], lb[1..]);
      assert |s| == 2 + |key| + |rest|;
      assert key == [] ==> s[2..] == rest;
    } else {
      NonEmptyLength(lb, |f.payload|, key != []);
      RfcRoundTrip(f, key, rest);
    }
  }

  lemma ZeroLength(second: byte, extended: bytes)
    requires |extended| == ExtendedWidth(second) && !BadLength(extended) && PayloadLength(second, extended) == 0
    ensures second & 0x7f == 0 && extended == []
  {
    ExtendedWidthByValue(second);
  }

  lemma FinalFrameIsGroup(s: bytes, opcode: byte, payload: bytes, rest: bytes)
    requires PeelFrame(s) == Some((Frame(true, opcode, payload), rest)) && opcode != CONTINUE
    ensures PeelGroup(s) == Some((Message(opcode, payload), rest))
  {
    assert [] + payload == payload;
  }

  /** A close (opcode 8) as the standard writes it, with any body and under any key or none, ends a
      receive as a close and consumes exactly its bytes, except that a masked one without a body
      leaves its key. */
  lemma StandardCloseIsSeen(payload: bytes, key: bytes, rest: bytes, open: bool, accepts: seq<nat>, isClient: bool)
    requires (|key| == 0 || |key| == 4) && |payload| < TWO_63
    ensures RecvEffect(RfcFrameBytes(Frame(true, 8, payload), key) + rest, open, accepts, isClient) ==
            Effect(PeerClosed, if payload == [] then key + rest else rest, accepts, [])
  {
    var f, s := Frame(true, 8, payload), RfcFrameBytes(Frame(true, 8, payload), key) + rest;
    StandardFrameReadExactly(f, key, rest);
    if payload == [] && key != [] {
      MaskedEmptyLeavesKey(f, key, rest);
    }
    var left := if payload == [] then key + rest else rest;
    assert [] + rest == rest;
    FinalFrameIsGroup(s, 8, payload, left);
    RecvByOpcode(s, Message(8, payload), left, open, accepts, isClient);
  }

  lemma MaskedEmptyLeavesKey(f: Frame, key: bytes, rest: bytes)
    requires Writable(f, key) && f.payload == [] && key != []
    ensures PeelFrame(RfcFrameBytes(f, key) + rest) == Some((f, key + rest))
  {
    var first, lb := FirstByte(f.fin, f.opcode), RfcLengthBytes(0, true);
    FirstByteReads(f.fin, f.opcode);
    RfcLengthReads(0, true);
    AssembleShape(first, lb, key, [], rest);
    ZeroLength(lb[0], lb[1..]);
    assert [] + (key + ([] + rest)) == key + rest;
  }

  const HELLO: bytes := [0x48, 0x65, 0x6c, 0x6c, 0x6f]

  lemma StandardExampleBytes()
    ensures RfcFrameBytes(Frame(true, 1, HELLO), []) == [0x81, 0x05, 0x48, 0x65, 0x6c, 0x6c, 0x6f]
    ensures RfcFrameBytes(Frame(true, 1, HELLO), [0x37, 0xfa, 0x21, 0x3d]) ==
            [0x81, 0x85, 0x37, 0xfa, 0x21, 0x3d, 0x7f, 0x9f, 0x4d, 0x51, 0x58]
    ensures RfcFrameBytes(Frame(false, 1, HELLO[..3]), []) == [0x01, 0x03, 0x48, 0x65, 0x6c]
    ensures RfcFrameBytes(Frame(true, 0, HELLO[3..]), []) == [0x80, 0x02, 0x6c, 0x6f]
    ensures RfcFrameBytes(Frame(true, 8, [0x03, 0xe8]), []) == [0x88, 0x02, 0x03, 0xe8]
  {
  }

  /** The program reads the frames that section 5.7 of RFC 6455 gives as examples for the text
      "Hello", masked, unmasked and in two fragments. */
  lemma StandardExamplesRead(rest: bytes)
    ensures PeelFrame([0x81, 0x05, 0x48, 0x65, 0x6c, 0x6c, 0x6f] + rest) == Some((Frame(true, 1, HELLO), rest))
    ensures PeelFrame([0x81, 0x85, 0x37, 0xfa, 0x21, 0x3d, 0x7f, 0x9f, 0x4d, 0x51, 0x58] + rest) ==
            Some((Frame(true, 1, HELLO), rest))
    ensures PeelFrame([0x01, 0x03, 0x48, 0x65, 0x6c] + rest) == Some((Frame(false, 1, HELLO[..3]), rest))
    ensures PeelFrame([0x80, 0x02, 0x6c, 0x6f] + rest) == Some((Frame(true, 0, HELLO[3..]), rest))
  {
    StandardExampleBytes();
    StandardFrameReadExactly(Frame(true, 1, HELLO), [], rest);
    StandardFrameReadExactly(Frame(true, 1, HELLO), [0x37, 0xfa, 0x21, 0x3d], rest);
    StandardFrameReadExactly(Frame(false, 1, HELLO[..3]), [], rest);
    StandardFrameReadExactly(Frame(true, 0, HELLO[3..]), [], rest);
  }

  /** A close with status 1000 is seen as a close. */
  lemma NormalCloseIsSeen(rest: bytes, open: bool, accepts: seq<nat>, isClient: bool)
    ensures RecvEffect([0x88, 0x02, 0x03, 0xe8] + rest, open, accepts, isClient) ==
            Effect(PeerClosed, rest, accepts, [])
  {
    StandardExampleBytes();
    StandardCloseIsSeen([0x03, 0xe8], [], rest, open, accepts, isClient);
  }

  lemma {:induction false} FramesReadBack(fs: seq<Frame>, keys: seq<bytes>)
    requires |keys| == |fs| && WritableFrames(fs, keys)
    requires forall i :: 0 <= i < |fs| ==> keys[i] == [] || fs[i].payload != []
    ensures Frames(FramesBytes(fs, keys)) == fs
  {
    if fs == [] {
      assert PeelFrame([]) == None;
    } else {
      var rest := FramesBytes(fs[1..], keys[1..]);
      FramesReadBack(fs[1..], keys[1..]);
      FrameBeforeOthers(fs[0], keys[0], rest);
      assert [fs[0]] + fs[1..] == fs;
    }
  }

  lemma FramesStep(s: bytes, f: Frame, rest: bytes)
    requires PeelFrame(s) == Some((f, rest))
    ensures Frames(s) == [f] + Frames(rest)
  {
  }

  lemma FrameBeforeOthers(f: Frame, key: bytes, rest: bytes)
    requires Writable(f, key) && (key == [] || f.payload != [])
    ensures Frames(RfcFrameBytes(f, key) + rest) == [f] + Frames(rest)
  {
    StandardFrameReadExactly(f, key, rest);
    FramesStep(RfcFrameBytes(f, key) + rest, f, rest);
  }

  /** From the bytes of a valid conversation in which no frame is both masked and empty, under any
      keys, the program gets what was sent exactly when no message was fragmented. */
  lemma ConversationMeetsRfcExactly(ms: seq<Sent>, keys: seq<bytes>)
    requires AllValid(ms) && |keys| == |SentFrames(ms)| && WritableFrames(SentFrames(ms), keys)
    requires forall i :: 0 <= i < |keys| ==> keys[i] == [] || SentFrames(ms)[i].payload != []
    ensures Groups(FramesBytes(SentFrames(ms), keys)) == Expected(ms) <==>
            forall i :: 0 <= i < |ms| ==> |ms[i].parts| == 1
  {
    FramesReadBack(SentFrames(ms), keys);
    GroupsAreFrameGroups(FramesBytes(SentFrames(ms), keys));
    ReassemblyMeetsRfcExactly(ms);
    RfcReassembles(ms);
  }
}
