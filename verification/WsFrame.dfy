/**
 The WebSocket frame codec: what one send writes, and what one frame read accepts.
 */
module WsFrame {
  import opened Wrappers
  import opened Bytes

  const CONTINUE: byte := 0
  const TEXT: byte := 1
  const BINARY: byte := 2
  const CLOSE: byte := 8
  const PING: byte := 9
  const PONG: byte := 10

  const MASK_KEY: bytes := [0xfa, 0xfb, 0xfc, 0xfd]

  datatype Frame = Frame(fin: bool, opcode: byte, payload: bytes)

  function Mask(data: bytes, key: bytes): (r: bytes)
    requires |key| == 4
    ensures |r| == |data|
  {
    seq(|data|, i requires 0 <= i < |data| => data[i] ^ key[i % 4])
  }

  lemma XorTwice(a: byte, k: byte)
    ensures a ^ k ^ k == a
  {
  }

  lemma MaskInvolution(data: bytes, key: bytes)
    requires |key| == 4
    ensures Mask(Mask(data, key), key) == data
    ensures forall i :: 0 <= i < |data| ==> Mask(data, key)[i] == data[i] ^ key[i % 4]
  {
    forall i | 0 <= i < |data|
      ensures Mask(Mask(data, key), key)[i] == data[i]
    {
      XorTwice(data[i], key[i % 4]);
    }
  }

  // ---------- Writing one frame ----------

  function Flag(isClient: bool): byte { if isClient then 0x80 else 0 }

  /** The length bytes a non-empty payload of `n` bytes gets. 65535 takes the long form. */
  function LengthBytes(n: nat, isClient: bool): (bs: bytes)
    requires 0 < n < TWO_64
    ensures 1 <= |bs| <= 9
  {
    if n < 0x7e then [Flag(isClient) | ByteOf(n)]
    else if n < 0xffff then [Flag(isClient) | 0x7e] + BigEndian(n, 2)
    else [Flag(isClient) | 0x7f] + BigEndian(n, 8)
  }

  function KeyFor(isClient: bool): (key: bytes)
    ensures |key| == if isClient then 4 else 0
  {
    if isClient then MASK_KEY else []
  }

  function MaskFor(isClient: bool, payload: bytes): (data: bytes)
    ensures |data| == |payload|
  {
    if isClient then Mask(payload, MASK_KEY) else payload
  }

  function Assemble(first: byte, length: bytes, key: bytes, data: bytes): bytes {
    [first] + length + key + data
  }

  /** The bytes one send writes. An empty payload gets neither length byte nor key. */
  function EncodeFrame(isClient: bool, opcode: byte, payload: bytes): (bs: bytes)
    requires |payload| < TWO_64
  {
    if payload == [] then [0x80 | opcode]
    else Assemble(0x80 | opcode, LengthBytes(|payload|, isClient), KeyFor(isClient), MaskFor(isClient, payload))
  }

  // ---------- Reading one frame ----------

  /** How many bytes of extended length follow the second byte. */
  function ExtendedWidth(second: byte): nat {
    if second & 0x7f == 126 then 2 else if second & 0x7f == 127 then 8 else 0
  }

  lemma ExtendedWidthByValue(second: byte)
    ensures ExtendedWidth(second) ==
            if (second & 0x7f) as int == 126 then 2 else if (second & 0x7f) as int == 127 then 8 else 0
    ensures second & 0x7f == 0 <==> (second & 0x7f) as int <= 0
  {
  }

  lemma SevenBits(b: byte)
    ensures b & 0x7f < 0x80
  {
  }

  lemma SevenBitValue(b: byte)
    requires b < 0x80
    ensures b as int < 0x80
  {
  }

  /** The payload length: the seven bits themselves or the extended length. */
  function PayloadLength(second: byte, extended: bytes): nat {
    if extended == [] then (second & 0x7f) as nat else FromBigEndian(extended)
  }

  /** The frame at the front of `s` and what follows it. A frame whose seven length bits
      are zero ends after two bytes, whatever its mask bit says. */
  function PeelFrame(s: bytes): (r: Option<(Frame, bytes)>)
    ensures r.Some? ==> |r.value.1| + 2 <= |s|
  {
    if |s| < 2 then None
    else if s[1] & 0x7f == 0 then Some((Frame(s[0] & 0x80 != 0, s[0] & 0xf, []), s[2..]))
    else PeelBody(s[0], s[1], s[2..])
  }

  /** The rest of a frame after its first two bytes, when its length bits are not zero. */
  function PeelBody(first: byte, second: byte, s: bytes): (r: Option<(Frame, bytes)>)
    ensures r.Some? ==> |r.value.1| <= |s|
  {
    match TakeCount(s, ExtendedWidth(second))
    case None => None
    case Some((extended, s1)) => PeelKeyed(first, second, PayloadLength(second, extended), s1)
  }

  /** The rest of a frame with `n` bytes of payload after its length. */
  function PeelKeyed(first: byte, second: byte, n: nat, s: bytes): (r: Option<(Frame, bytes)>)
    ensures r.Some? ==> |r.value.1| <= |s|
  {
    match TakeCount(s, KeyWidth(second))
    case None => None
    case Some((key, s2)) =>
      match TakeCount(s2, n)
      case None => None
      case Some((data, rest)) =>
        var payload := if second & 0x80 != 0 then Mask(data, key) else data;
        Some((Frame(first & 0x80 != 0, first & 0xf, payload), rest))
  }

  function KeyWidth(second: byte): nat {
    if second & 0x80 != 0 then 4 else 0
  }

  /** The bytes still unread when the stream ends inside a frame: every part of the frame that
      arrived whole is gone. It matters only where `PeelFrame` finds no frame. */
  function FrameLeft(s: bytes): bytes {
    if |s| < 2 then s else BodyLeft(s[1], s[2..])
  }

  function BodyLeft(second: byte, s: bytes): bytes {
    match TakeCount(s, ExtendedWidth(second))
    case None => s
    case Some((_, s1)) => KeyedLeft(second, s1)
  }

  function KeyedLeft(second: byte, s: bytes): bytes {
    match TakeCount(s, KeyWidth(second))
    case None => s
    case Some((_, rest)) => rest
  }

  /** A failed frame read keeps the stream, so that it can be tried again, exactly when fewer
      than two bytes had arrived. */
  lemma FailedReadKeepsStreamExactly(s: bytes)
    requires PeelFrame(s) == None
    ensures FrameLeft(s) == s <==> |s| < 2
  {
    if |s| >= 2 {
      assert |BodyLeft(s[1], s[2..])| <= |s[2..]|;
    }
  }

  // ---------- The round trip ----------

  lemma FirstByteBits(opcode: byte)
    requires opcode < 16
    ensures (0x80 | opcode) & 0x80 != 0 && (0x80 | opcode) & 0xf == opcode
  {
  }

  ghost predicate LengthReadsBack(bs: bytes, n: nat, isClient: bool) {
    && |bs| >= 1
    && (bs[0] & 0x80 != 0 <==> isClient)
    && ExtendedWidth(bs[0]) == |bs| - 1
    && PayloadLength(bs[0], bs[1..]) == n
  }

  lemma ShortForm(n: nat, isClient: bool)
    requires n < 0x7e
    ensures LengthReadsBack([Flag(isClient) | ByteOf(n)], n, isClient)
  {
    var b := ByteOf(n);
    assert b < 0x7e;
    assert (Flag(isClient) | b) & 0x7f == b && (Flag(isClient) | b) & 0x80 == Flag(isClient);
  }

  lemma LongForm(n: nat, isClient: bool, width: nat)
    requires (width == 2 || width == 8) && n < Pow256(width)
    ensures LengthReadsBack([Flag(isClient) | (if width == 2 then 0x7e else 0x7f)] + BigEndian(n, width), n, isClient)
  {
    var b := Flag(isClient) | (if width == 2 then 0x7e else 0x7f);
    assert b & 0x7f == (if width == 2 then 0x7e else 0x7f) && b & 0x80 == Flag(isClient);
    assert ([b] + BigEndian(n, width))[1..] == BigEndian(n, width);
    BigEndianRoundTrip(n, width);
  }

  /** What the decoder reads back from the length bytes, in each of the three forms. */
  lemma LengthRoundTrip(n: nat, isClient: bool)
    requires 0 < n < TWO_64
    ensures LengthReadsBack(LengthBytes(n, isClient), n, isClient)
  {
    Pow256Eight();
    if n < 0x7e {
      ShortForm(n, isClient);
    } else {
      LongForm(n, isClient, if n < 0xffff then 2 else 8);
    }
  }

  /** A non-empty frame decodes to itself and leaves exactly what followed it. */
  lemma FrameRoundTrip(isClient: bool, opcode: byte, payload: bytes, rest: bytes)
    requires opcode < 16 && 0 < |payload| < TWO_64
    ensures PeelFrame(EncodeFrame(isClient, opcode, payload) + rest) == Some((Frame(true, opcode, payload), rest))
  {
    var lb, key, data := LengthBytes(|payload|, isClient), KeyFor(isClient), MaskFor(isClient, payload);
    LengthRoundTrip(|payload|, isClient);
    NonEmptyLength(lb, |payload|, isClient);
    FirstByteBits(opcode);
    AssembleShape(0x80 | opcode, lb, key, data, rest);
    BodyRoundTrip(0x80 | opcode, lb, key, data, rest);
    MaskInvolution(payload, MASK_KEY);
  }

  lemma NonEmptyLength(lb: bytes, n: nat, isClient: bool)
    requires LengthReadsBack(lb, n, isClient) && n > 0
    ensures lb[0] & 0x7f != 0
  {
  }

  lemma AssembleShape(first: byte, lb: bytes, key: bytes, data: bytes, rest: bytes)
    requires lb != []
    ensures var s := Assemble(first, lb, key, data) + rest;
            |s| >= 2 && s[0] == first && s[1] == lb[0] && s[2..] == lb[1..] + (key + (data + rest))
  {
    var s := Assemble(first, lb, key, data) + rest;
    assert s == [first] + (lb + (key + (data + rest)));
  }

  lemma BodyRoundTrip(first: byte, lb: bytes, key: bytes, data: bytes, rest: bytes)
    requires lb != [] && LengthReadsBack(lb, |data|, lb[0] & 0x80 != 0)
    requires |key| == if lb[0] & 0x80 != 0 then 4 else 0
    ensures PeelBody(first, lb[0], lb[1..] + (key + (data + rest))) ==
            Some((Frame(first & 0x80 != 0, first & 0xf, if lb[0] & 0x80 != 0 then Mask(data, key) else data), rest))
  {
    TakeAppend(lb[1..], key + (data + rest));
    TakeAppend(key, data + rest);
    TakeAppend(data, rest);
  }

  lemma TakeStable(s: bytes, n: nat, more: bytes)
    requires TakeCount(s, n).Some?
    ensures TakeCount(s + more, n) == Some((TakeCount(s, n).value.0, TakeCount(s, n).value.1 + more))
  {
    TakeAppend(s[..n], s[n..] + more);
    assert s[..n] + (s[n..] + more) == s + more;
  }

  lemma BodyStable(first: byte, second: byte, s: bytes, more: bytes)
    requires PeelBody(first, second, s).Some?
    ensures PeelBody(first, second, s + more) ==
            Some((PeelBody(first, second, s).value.0, PeelBody(first, second, s).value.1 + more))
  {
    var (extended, s1) := TakeCount(s, ExtendedWidth(second)).value;
    TakeStable(s, ExtendedWidth(second), more);
    var (_, s2) := TakeCount(s1, KeyWidth(second)).value;
    TakeStable(s1, KeyWidth(second), more);
    TakeStable(s2, PayloadLength(second, extended), more);
  }

  lemma LongerFront(s: bytes, more: bytes)
    requires |s| >= 2
    ensures (s + more)[0] == s[0] && (s + more)[1] == s[1] && (s + more)[2..] == s[2..] + more
  {
  }

  /** A frame is self-delimiting: once it is whole, further bytes do not change it. */
  lemma FrameStable(s: bytes, more: bytes)
    requires PeelFrame(s).Some?
    ensures PeelFrame(s + more) == Some((PeelFrame(s).value.0, PeelFrame(s).value.1 + more))
  {
    LongerFront(s, more);
    if s[1] & 0x7f != 0 {
      BodyStable(s[0], s[1], s[2..], more);
    }
  }

  lemma Rejoined(s: bytes, n: nat)
    requires n <= |s|
    ensures s + [] == s == s[..n] + s[n..]
  {
  }

  /** A frame cut short decodes to nothing rather than to a different frame. */
  lemma TruncatedFrame(isClient: bool, opcode: byte, payload: bytes, n: nat)
    requires opcode < 16 && 0 < |payload| < TWO_64 && n < |EncodeFrame(isClient, opcode, payload)|
    ensures PeelFrame(EncodeFrame(isClient, opcode, payload)[..n]) == None
  {
    var s := EncodeFrame(isClient, opcode, payload);
    FrameRoundTrip(isClient, opcode, payload, []);
    Rejoined(s, n);
    if PeelFrame(s[..n]).Some? {
      FrameStable(s[..n], s[n..]);
    }
  }

  /** Exactly the payloads whose frames decode to themselves, whatever follows: the non-empty
      ones. No continuation makes an empty frame decode to itself. */
  lemma RoundTripExact(isClient: bool, opcode: byte, payload: bytes, rest: bytes)
    requires opcode < 16 && |payload| < TWO_64
    ensures PeelFrame(EncodeFrame(isClient, opcode, payload) + rest) == Some((Frame(true, opcode, payload), rest)) <==>
            payload != []
  {
    if payload == [] {
      assert |EncodeFrame(isClient, opcode, payload) + rest| == 1 + |rest|;
    } else {
      FrameRoundTrip(isClient, opcode, payload, rest);
    }
  }

  // ---------- The bytes of a frame one by one ----------

  /** Whether the second byte of `s` and the `w` bytes after it announce `n` bytes of payload, in
      one of the three forms of section 5.2 of RFC 6455. */
  predicate Announces(s: bytes, w: nat, n: int)
    requires |s| >= 2 + w
  {
    var b := (s[1] & 0x7f) as int;
    || (w == 0 && b == n < 126)
    || (w == 2 && b == 126 && n == TwoBytes(s, 2))
    || (w == 8 && b == 127 && n == EightBytes(s, 2))
  }

  lemma ShortAnnounces(second: byte, s: bytes)
    requires ExtendedWidth(second) == 0 && |s| >= 2 && s[1] == second
    ensures Announces(s, 0, PayloadLength(second, []))
  {
    ExtendedWidthByValue(second);
    SevenBits(second);
    SevenBitValue(second & 0x7f);
  }

  lemma LongAnnounces(second: byte, extended: bytes, s: bytes)
    requires |extended| == ExtendedWidth(second) > 0
    requires |s| >= 2 + |extended| && s[1] == second && s[2..2 + |extended|] == extended
    ensures Announces(s, |extended|, PayloadLength(second, extended))
  {
    ExtendedWidthByValue(second);
    if |extended| == 2 {
      FromBigEndianTwo(extended);
      assert extended[0] == s[2] && extended[1] == s[3];
    } else {
      FromBigEndianEight(extended);
      SameEight(s, 2, extended);
    }
  }

  /** The length a reader finds is the one the bytes announce. */
  lemma LengthAnnounced(second: byte, extended: bytes, s: bytes)
    requires |extended| == ExtendedWidth(second)
    requires |s| >= 2 + |extended| && s[1] == second && s[2..2 + |extended|] == extended
    ensures Announces(s, |extended|, PayloadLength(second, extended))
  {
    if extended == [] {
      ShortAnnounces(second, s);
    } else {
      LongAnnounces(second, extended, s);
    }
  }

  /** How many bytes of extended length the program writes. */
  lemma WrittenWidth(n: nat, isClient: bool)
    requires 0 < n < TWO_64
    ensures |LengthBytes(n, isClient)| == if n < 126 then 1 else if n < 65535 then 3 else 9
  {
  }

  lemma PartsInPlace(first: byte, lb: bytes, key: bytes, data: bytes)
    requires lb != []
    ensures var s := Assemble(first, lb, key, data);
            && |s| == 1 + |lb| + |key| + |data| && s[0] == first && s[1] == lb[0] && s[2..1 + |lb|] == lb[1..]
            && (forall i :: 0 <= i < |key| ==> s[1 + |lb| + i] == key[i])
            && (forall i :: 0 <= i < |data| ==> s[1 + |lb| + |key| + i] == data[i])
  {
  }

  /** What a send of a non-empty payload writes, byte by byte: FIN and the opcode, the mask bit of
      the role and the length, a client's key FA FB FC FD, and the payload, whose byte `i` a client
      combines with byte `i % 4` of that key. */
  lemma WrittenBytes(isClient: bool, opcode: byte, payload: bytes)
    requires 0 < |payload| < TWO_64
    ensures var s, n := EncodeFrame(isClient, opcode, payload), |payload|;
            var w := if n < 126 then 0 else if n < 65535 then 2 else 8;
            && s[0] == 0x80 | opcode
            && |s| == (if isClient then 6 else 2) + w + n
            && (s[1] & 0x80 != 0 <==> isClient) && Announces(s, w, n)
            && (isClient ==> s[2 + w..6 + w] == [0xfa, 0xfb, 0xfc, 0xfd])
            && forall i :: 0 <= i < n ==>
                 s[|s| - n + i] == if isClient then payload[i] ^ [0xfa, 0xfb, 0xfc, 0xfd][i % 4] else payload[i]
  {
    var lb, key, data := LengthBytes(|payload|, isClient), KeyFor(isClient), MaskFor(isClient, payload);
    LengthRoundTrip(|payload|, isClient);
    WrittenWidth(|payload|, isClient);
    PartsInPlace(0x80 | opcode, lb, key, data);
    LengthAnnounced(lb[0], lb[1..], EncodeFrame(isClient, opcode, payload));
  }

  lemma KeyedParts(first: byte, second: byte, n: nat, s: bytes)
    ensures PeelKeyed(first, second, n, s).Some? <==> |s| >= KeyWidth(second) + n
    ensures PeelKeyed(first, second, n, s).Some? ==>
              var (f, rest) := PeelKeyed(first, second, n, s).value;
              var data := s[KeyWidth(second)..][..n];
              && f == Frame(first & 0x80 != 0, first & 0xf, if second & 0x80 != 0 then Mask(data, s[..4]) else data)
              && rest == s[KeyWidth(second) + n..]
  {
  }

  /** Where a frame's key, or without one its payload, begins. */
  predicate Header(second: byte, at: nat) {
    second & 0x7f != 0 && at == if second & 0x7f == 126 then 4 else if second & 0x7f == 127 then 10 else 2
  }

  lemma BodyBytes(s: bytes, at: nat)
    requires |s| >= 2 && Header(s[1], at)
    ensures at - 2 == ExtendedWidth(s[1])
    ensures |s| < at ==> PeelFrame(s) == None
    ensures |s| >= at ==> PeelFrame(s) == PeelKeyed(s[0], s[1], PayloadLength(s[1], s[2..at]), s[at..])
  {
    assert |s| >= at ==> s[2..][..at - 2] == s[2..at] && s[2..][at - 2..] == s[at..];
  }

  lemma PartsOfTail(s: bytes, at: nat, k: nat, n: nat)
    requires at + k + n <= |s|
    ensures s[at..][..k] == s[at..at + k] && s[at..][k..][..n] == s[at + k..at + k + n]
    ensures s[at..][k + n..] == s[at + k + n..]
  {
  }

  lemma TailParts(first: byte, second: byte, n: nat, s: bytes, at: nat, f: Frame, rest: bytes)
    requires at <= |s| && PeelKeyed(first, second, n, s[at..]) == Some((f, rest))
    ensures f.fin == (first & 0x80 != 0) && f.opcode == first & 0xf && |f.payload| == n
    ensures if second & 0x80 != 0 then |s| >= at + 4 + n && rest == s[at + 4 + n..]
            else |s| >= at + n && rest == s[at + n..]
  {
    KeyedParts(first, second, n, s[at..]);
    PartsOfTail(s, at, KeyWidth(second), n);
  }

  lemma TailByte(first: byte, second: byte, n: nat, s: bytes, at: nat, f: Frame, rest: bytes, i: nat)
    requires at <= |s| && PeelKeyed(first, second, n, s[at..]) == Some((f, rest)) && i < |f.payload|
    ensures if second & 0x80 != 0
            then |s| > at + 4 + i && f.payload[i] == s[at + 4 + i] ^ s[at + i % 4]
            else |s| > at + i && f.payload[i] == s[at + i]
  {
    KeyedParts(first, second, n, s[at..]);
    PartsOfTail(s, at, KeyWidth(second), n);
  }

  /** What a frame read makes of a stream: where the parts of the frame are. */
  lemma ReadParts(s: bytes, at: nat, f: Frame, rest: bytes)
    requires PeelFrame(s) == Some((f, rest)) && Header(s[1], at)
    ensures f.fin == (s[0] & 0x80 != 0) && f.opcode == s[0] & 0xf
    ensures var n := |f.payload|;
            if s[1] & 0x80 != 0 then |s| >= at + 4 + n && rest == s[at + 4 + n..]
            else |s| >= at + n && rest == s[at + n..]
  {
    BodyBytes(s, at);
    TailParts(s[0], s[1], PayloadLength(s[1], s[2..at]), s, at, f, rest);
  }

  /** The payload read is as long as the bytes before it announce. */
  lemma ReadLengthBytes(s: bytes, at: nat, f: Frame, rest: bytes)
    requires PeelFrame(s) == Some((f, rest)) && Header(s[1], at)
    ensures |s| >= at && Announces(s, at - 2, |f.payload|)
  {
    BodyBytes(s, at);
    LengthAnnounced(s[1], s[2..at], s);
    TailParts(s[0], s[1], PayloadLength(s[1], s[2..at]), s, at, f, rest);
  }

  /** Each byte of a payload read is the byte on the wire, combined with byte `i % 4` of the four
      key bytes on the wire if the mask bit is set. */
  lemma ReadByte(s: bytes, at: nat, f: Frame, rest: bytes, i: nat)
    requires PeelFrame(s) == Some((f, rest)) && Header(s[1], at) && i < |f.payload|
    ensures if s[1] & 0x80 != 0
            then |s| > at + 4 + i && f.payload[i] == s[at + 4 + i] ^ s[at + i % 4]
            else |s| > at + i && f.payload[i] == s[at + i]
  {
    BodyBytes(s, at);
    TailByte(s[0], s[1], PayloadLength(s[1], s[2..at]), s, at, f, rest, i);
  }

  /** A frame whose length bits are zero ends with its second byte. */
  lemma ReadEmpty(s: bytes)
    requires |s| >= 2 && s[1] & 0x7f == 0
    ensures PeelFrame(s) == Some((Frame(s[0] & 0x80 != 0, s[0] & 0xf, []), s[2..]))
  {
  }

  lemma AnnouncesOne(s: bytes, w: nat, m: int, n: int)
    requires |s| >= 2 + w && Announces(s, w, m) && Announces(s, w, n)
    ensures m == n
  {
  }

  lemma TailWhole(first: byte, second: byte, n: nat, s: bytes, at: nat)
    requires at <= |s|
    ensures PeelKeyed(first, second, n, s[at..]).Some? <==> |s| >= at + (if second & 0x80 != 0 then 4 else 0) + n
  {
    KeyedParts(first, second, n, s[at..]);
  }

  /** A frame that announces `n` bytes is read exactly when they are there, after its key if its
      mask bit is set. */
  lemma ReadsWholeExactly(s: bytes, at: nat, n: nat)
    requires |s| >= at && at >= 2 && Header(s[1], at) && Announces(s, at - 2, n)
    ensures PeelFrame(s).Some? <==> |s| >= at + (if s[1] & 0x80 != 0 then 4 else 0) + n
  {
    BodyBytes(s, at);
    var m := PayloadLength(s[1], s[2..at]);
    LengthAnnounced(s[1], s[2..at], s);
    AnnouncesOne(s, at - 2, n, m);
    TailWhole(s[0], s[1], m, s, at);
  }

  /** A frame whose header has not all arrived is not read. */
  lemma CutHeader(s: bytes)
    ensures |s| < 2 || (s[1] & 0x7f == 126 && |s| < 4) || (s[1] & 0x7f == 127 && |s| < 10) ==> PeelFrame(s) == None
  {
  }

  /** What a frame read leaves unread when the stream ends inside the frame: everything from the
      first part of the frame on that had not arrived whole. */
  lemma LeftUnread(s: bytes, at: nat)
    requires |s| >= 2 && Header(s[1], at)
    ensures FrameLeft(s) == if |s| < at then s[2..]
                            else if s[1] & 0x80 != 0 && |s| >= at + 4 then s[at + 4..] else s[at..]
  {
    if |s| >= at {
      assert s[2..][at - 2..] == s[at..];
      assert |s| >= at + 4 ==> s[at..][4..] == s[at + 4..];
    }
  }
}
