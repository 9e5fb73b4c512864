/**
 The WebSocket connection object: reading frames and groups, receiving, sending and
 closing, each against its specification on bytes.
 */
module WsConn {
  import opened Wrappers
  import opened Bytes
  import opened ByteStream
  import opened WsFrame
  import opened WsMessages

  /** The group that continues after frame `f` brought the data so far to `data`. */
  function AfterFrame(data: bytes, f: Frame, s: bytes): Option<(Message, bytes)> {
    if EndsGroup(f) then Some((Message(f.opcode, data), s)) else JoinGroup(data, s)
  }

  /** What stays unread if the stream ends in the group that continues after frame `f`. */
  function LeftAfter(f: Frame, s: bytes): bytes {
    if EndsGroup(f) then s else GroupLeft(s)
  }

  lemma GroupStep(data: bytes, s: bytes)
    ensures PeelFrame(s).None? ==> JoinGroup(data, s) == None && GroupLeft(s) == FrameLeft(s)
    ensures PeelFrame(s).Some? ==> var r := PeelFrame(s).value;
                                   && JoinGroup(data, s) == AfterFrame(data + r.0.payload, r.0, r.1)
                                   && GroupLeft(s) == LeftAfter(r.0, r.1)
  {
  }

  class WsConn {
    var parent: Conn?
    var isClient: bool
    var run: bool

    constructor (parent: Conn, isClient: bool)
      ensures this.parent == parent && this.isClient == isClient && run
    {
      this.parent, this.isClient, run := parent, isClient, true;
    }

    predicate IsConnect()
      reads this, parent
    {
      parent != null && parent.open
    }

    ghost function Wire(): set<Conn>
      reads this
    {
      if parent == null then {} else {parent}
    }

    /** Reads one frame. */
    method ReadPack() returns (r: Result<Frame, IoError>)
      requires parent != null && parent.Valid() && (parent.open || PeelFrame(parent.Stream()).Some?)
      modifies parent`tmpData, parent`incoming
      ensures parent.Valid()
      ensures match PeelFrame(old(parent.Stream()))
              case Some((f, rest)) => r == Ok(f) && parent.Stream() == rest
              case None => r == Err(EndOfStream) && parent.Stream() == FrameLeft(old(parent.Stream()))
    {
      var head := parent.ReadCount(2);
      if head.Err? {
        return Err(head.error);
      }
      var first, second := head.value[0], head.value[1];
      ExtendedWidthByValue(second);
      var payloadLength: int := (second & 0x7f) as int;
      if payloadLength <= 0 {
        return Ok(Frame(first & 0x80 != 0, first & 0xf, []));
      }
      r := ReadBody(first, second);
    }

    /** Reads what follows the first two bytes of a frame whose length bits are not zero. */
    method ReadBody(first: byte, second: byte) returns (r: Result<Frame, IoError>)
      requires parent != null && parent.Valid() && (parent.open || PeelBody(first, second, parent.Stream()).Some?)
      modifies parent`tmpData, parent`incoming
      ensures parent.Valid()
      ensures match PeelBody(first, second, old(parent.Stream()))
              case Some((f, rest)) => r == Ok(f) && parent.Stream() == rest
              case None => r == Err(EndOfStream) && parent.Stream() == BodyLeft(second, old(parent.Stream()))
    {
      var length := ReadLength(second);
      if length.Err? {
        return Err(length.error);
      }
      r := ReadKeyed(first, second, length.value);
    }

    /** Reads the masking key, if there is one, and `n` bytes of payload. */
    method ReadKeyed(first: byte, second: byte, n: nat) returns (r: Result<Frame, IoError>)
      requires parent != null && parent.Valid() && (parent.open || PeelKeyed(first, second, n, parent.Stream()).Some?)
      modifies parent`tmpData, parent`incoming
      ensures parent.Valid()
      ensures match PeelKeyed(first, second, n, old(parent.Stream()))
              case Some((f, rest)) => r == Ok(f) && parent.Stream() == rest
              case None => r == Err(EndOfStream) && parent.Stream() == KeyedLeft(second, old(parent.Stream()))
    {
      var key := ReadKey(second);
      if key.Err? {
        return Err(key.error);
      }
      var body := parent.ReadCount(n);
      if body.Err? {
        return Err(body.error);
      }
      var s := body.value;
      if second & 0x80 != 0 {
        s := ApplyMask(s, 0, key.value);
        assert body.value[0..] == body.value && s == Mask(body.value, key.value);
      }
      r := Ok(Frame(first & 0x80 != 0, first & 0xf, s));
    }

    /** Reads the masking key if the frame has one. */
    method ReadKey(second: byte) returns (r: Result<bytes, IoError>)
      requires parent != null && parent.Valid() && (parent.open || KeyWidth(second) <= |parent.Stream()|)
      modifies parent`tmpData, parent`incoming
      ensures parent.Valid()
      ensures match TakeCount(old(parent.Stream()), KeyWidth(second))
              case Some((key, rest)) => r == Ok(key) && parent.Stream() == rest
              case None => r == Err(EndOfStream) && parent.Stream() == old(parent.Stream())
    {
      TakeNone(parent.Stream());
      r := Ok([]);
      if second & 0x80 != 0 {
        r := parent.ReadCount(4);
      }
    }

    /** Reads the payload length, kept in an `int64_t` until it is used as a `size_t`. */
    method ReadLength(second: byte) returns (r: Result<nat, IoError>)
      requires parent != null && parent.Valid() && (parent.open || ExtendedWidth(second) <= |parent.Stream()|)
      modifies parent`tmpData, parent`incoming
      ensures parent.Valid()
      ensures match TakeCount(old(parent.Stream()), ExtendedWidth(second))
              case Some((extended, rest)) => r == Ok(PayloadLength(second, extended)) && parent.Stream() == rest
              case None => r == Err(EndOfStream) && parent.Stream() == old(parent.Stream())
    {
      ExtendedWidthByValue(second);
      TakeNone(parent.Stream());
      var payloadLength: int := (second & 0x7f) as int;
      if payloadLength == 126 || payloadLength == 127 {
        var tmp := parent.ReadCount(if payloadLength == 126 then 2 else 8);
        if tmp.Err? {
          return Err(tmp.error);
        }
        payloadLength := Accumulate(tmp.value);
      }
      r := Ok(ToSize(payloadLength));
    }

    /** Reads one more frame of a group and joins its payload to `data`. */
    method ReadNext(data: bytes) returns (r: Result<(Frame, bytes), IoError>)
      requires parent != null && parent.Valid() && (parent.open || PeelFrame(parent.Stream()).Some?)
      modifies parent`tmpData, parent`incoming
      ensures parent.Valid()
      ensures r.Ok? ==>
                var (f, joined) := r.value;
                && AfterFrame(joined, f, parent.Stream()) == JoinGroup(data, old(parent.Stream()))
                && LeftAfter(f, parent.Stream()) == GroupLeft(old(parent.Stream()))
                && |parent.Stream()| < |old(parent.Stream())|
      ensures r.Err? ==>
                && r.error == EndOfStream && JoinGroup(data, old(parent.Stream())) == None
                && parent.Stream() == GroupLeft(old(parent.Stream()))
    {
      GroupStep(data, parent.Stream());
      var pack := ReadPack();
      if pack.Err? {
        return Err(pack.error);
      }
      r := Ok((pack.value, data + pack.value.payload));
    }

    /** Reads one group: frames until the one that ends it. */
    method ReadGroup() returns (r: Result<Message, IoError>)
      requires parent != null && parent.Valid() && (parent.open || PeelGroup(parent.Stream()).Some?)
      modifies parent`tmpData, parent`incoming
      ensures parent.Valid()
      ensures match PeelGroup(old(parent.Stream()))
              case Some((m, rest)) => r == Ok(m) && parent.Stream() == rest
              case None => r == Err(EndOfStream) && parent.Stream() == GroupLeft(old(parent.Stream()))
    {
      ghost var goal, left := PeelGroup(parent.Stream()), GroupLeft(parent.Stream());
      var next := ReadNext([]);
      if next.Err? {
        return Err(next.error);
      }
      var (f, data) := next.value;
      while !f.fin || f.opcode == CONTINUE
        invariant parent.Valid() && (parent.open || goal.Some?)
        invariant AfterFrame(data, f, parent.Stream()) == goal && LeftAfter(f, parent.Stream()) == left
        decreases |parent.Stream()|
      {
        next := ReadNext(data);
        if next.Err? {
          return Err(next.error);
        }
        f, data := next.value.0, next.value.1;
      }
      r := Ok(Message(f.opcode, data));
    }

    /** Whether a receive would wait for bytes that are not there yet, which on a closed socket
        never come. */
    ghost predicate Starves()
      requires parent != null
      reads this, parent
    {
      RecvEffect(parent.Stream(), parent.open, parent.accepts, isClient).outcome == Failed(EndOfStream)
    }

    /** Receives the next text or binary message. */
    method Recv() returns (r: Outcome)
      requires parent != null && parent.Valid()
      requires parent.open || !Starves()
      modifies `parent, parent`tmpData, parent`incoming, parent`accepts, parent`sent
      ensures var p := old(parent);
              var e := old(Before(parent.sent, RecvEffect(parent.Stream(), parent.open, parent.accepts, isClient)));
              && p.Valid() && parent == (if r.Unparsed? then null else p)
              && Effect(r, p.Stream(), p.accepts, p.sent) == e
      ensures r.Received? ==> r.message.opcode == 1 || r.message.opcode == 2
      ensures var p := old(parent);
              var group := old(PeelGroup(parent.Stream()));
              group.Some? && group.value.0.opcode != 9 && group.value.0.opcode != 10 ==>
                && (group.value.0.opcode == 8 ==> r == PeerClosed && parent == p)
                && (group.value.0.opcode == 1 || group.value.0.opcode == 2 ==>
                      r == Received(group.value.0) && parent == p)
                && (group.value.0.opcode != 1 && group.value.0.opcode != 2 && group.value.0.opcode != 8 ==>
                      r == Unparsed && parent == null)
                && p.Stream() == group.value.1 && p.accepts == old(p.accepts) && p.sent == old(p.sent)
      decreases |parent.Stream()|
    {
      ghost var sent := parent.sent;
      BeforeTwice(sent, [], RecvEffect(parent.Stream(), parent.open, parent.accepts, isClient));
      var group := ReadGroup();
      if group.Err? {
        return Failed(group.error);
      }
      var m := group.value;
      if m.opcode == CLOSE {
        return PeerClosed;
      } else if m.opcode == PING {
        ghost var pieces := PongPush(parent.open, parent.accepts, isClient).pieces;
        var pong := Send([], PONG);
        if pong.Err? {
          return Failed(pong.error);
        }
        BeforeTwice(sent, pieces, RecvEffect(parent.Stream(), parent.open, parent.accepts, isClient));
        r := Recv();
      } else if m.opcode == PONG {
        r := Recv();
      } else if m.opcode == TEXT || m.opcode == BINARY {
        return Received(m);
      } else {
        parent := null;
        return Unparsed;
      }
    }

    /** Sends one frame. A failed close is not an error. */
    method Send(data: bytes, opcode: byte) returns (r: Result<(), IoError>)
      requires parent != null ==> parent.Valid()
      requires |data| < TWO_64
      modifies Wire()`accepts, Wire()`sent
      ensures parent != null ==> parent.Valid()
      ensures !IsConnect() ==> r == if opcode == CLOSE then Ok(()) else Err(NotOpen)
      ensures !IsConnect() && parent != null ==> unchanged(parent)
      ensures IsConnect() ==>
                var p := Resume(PushBytes(EncodeFrame(isClient, opcode, data), old(parent.accepts)), old(parent.sent));
                && parent.sent == p.pieces && parent.accepts == p.left
                && r == if opcode == CLOSE then Ok(()) else p.outcome
    {
      if !IsConnect() {
        if opcode == CLOSE {
          return Ok(());
        }
        return Err(NotOpen);
      }
      var toSend := BuildFrame(isClient, opcode, data);
      r := parent.Send(toSend);
      if opcode == CLOSE {
        r := Ok(());
      }
    }

    method Close()
      requires parent != null ==> parent.Valid()
      modifies this, Wire()`accepts, Wire()`sent
      ensures parent == null && !run && isClient == old(isClient)
      ensures old(IsConnect()) ==>
                old(parent).sent == old(parent.sent) + PushBytes([0x88], old(parent.accepts)).pieces
    {
      run := false;
      assert EncodeFrame(isClient, CLOSE, []) == [0x88];
      var _ := Send([], CLOSE);
      parent := null;
    }
  }

  // ---------- Building a frame ----------

  lemma EightDigits(size: nat, i: nat)
    requires size < TWO_64 && i < 8
    ensures BigEndian(ShiftRight(size, i), 8 - i) ==
            BigEndian(ShiftRight(size, i + 1), 7 - i) + [ByteOf(ShiftRight(ToInt64(size), i))]
  {
    ShiftOnce(size, i);
    ShiftedDigit(size, i);
  }

  lemma OrZero(b: byte)
    ensures 0 | b == b
  {
  }

  /** The length bytes, eight of them shifted out of an `int64_t` in the long form. */
  method BuildLength(size: nat, isClient: bool) returns (ss: bytes)
    requires 0 < size < TWO_64
    ensures ss == LengthBytes(size, isClient)
  {
    OrZero(ByteOf(size));
    if size < 0x7e {
      ss := [if isClient then 0x80 | ByteOf(size) else ByteOf(size)];
    } else if size < 0xffff {
      ss := [if isClient then 0xfe else 0x7e] + [ByteOf(size / 256)] + [ByteOf(size)];
      assert BigEndian(size, 2) == [ByteOf(size / 256)] + [ByteOf(size)];
    } else {
      ss := [if isClient then 0xff else 0x7f];
      var i := 8;
      while i > 0
        invariant 0 <= i <= 8
        invariant ss == [Flag(isClient) | 0x7f] + BigEndian(ShiftRight(size, i), 8 - i)
      {
        i := i - 1;
        EightDigits(size, i);
        ss := ss + [ByteOf(ShiftRight(ToInt64(size), i))];
      }
    }
  }

  lemma HeadAndData(head: bytes, data: bytes)
    ensures (head + data)[..|head|] == head && (head + data)[|head|..] == data
    ensures data == [] ==> head + data == head
  {
  }

  /** Serialises a frame and then masks its payload in place. */
  method BuildFrame(isClient: bool, opcode: byte, data: bytes) returns (toSend: bytes)
    requires |data| < TWO_64
    ensures toSend == EncodeFrame(isClient, opcode, data)
  {
    toSend := [0x80 | opcode];
    ghost var head := toSend;
    if |data| > 0 {
      var length := BuildLength(|data|, isClient);
      toSend := toSend + length;
      if isClient {
        toSend := toSend + MASK_KEY;
      }
      head := toSend;
      toSend := toSend + data;
    }
    HeadAndData(head, data);
    if isClient {
      toSend := ApplyMask(toSend, |toSend| - |data|, MASK_KEY);
      HeadAndData(head, Mask(data, MASK_KEY));
    }
  }

  /** Joins the extended length bytes in an `int64_t`. */
  method Accumulate(tmp: bytes) returns (payloadLength: int)
    requires |tmp| == 2 || |tmp| == 8
    ensures -TWO_63 <= payloadLength < TWO_63
    ensures ToSize(payloadLength) == FromBigEndian(tmp)
  {
    if |tmp| == 2 {
      FromBigEndianTwo(tmp);
      return tmp[0] as int * 256 + tmp[1] as int;
    }
    payloadLength := 0;
    for i := 0 to 8
      invariant payloadLength == ToInt64(FromBigEndian(tmp[..i]))
    {
      AccumulateDigit(tmp, i);
      payloadLength := Int64Append(payloadLength, tmp[i]);
      assert payloadLength == ToInt64(FromBigEndian(tmp[..i + 1]));
    }
    assert tmp[..8] == tmp;
    AccumulatedIsValue(tmp);
  }

  /** Masks the bytes of `s` from `offset` on, one at a time. */
  method ApplyMask(s: bytes, offset: nat, key: bytes) returns (r: bytes)
    requires |key| == 4 && offset <= |s|
    ensures |r| == |s| && r[..offset] == s[..offset]
    ensures forall j :: offset <= j < |s| ==> r[j] == s[j] ^ key[(j - offset) % 4]
    ensures r == s[..offset] + Mask(s[offset..], key)
  {
    r := s;
    for i := 0 to |s| - offset
      invariant |r| == |s|
      invariant forall j :: 0 <= j < |s| ==>
                  r[j] == if offset <= j < offset + i then s[j] ^ key[(j - offset) % 4] else s[j]
    {
      r := r[offset + i := r[offset + i] ^ key[i % 4]];
    }
    assert forall j :: 0 <= j < |s| ==> r[j] == (s[..offset] + Mask(s[offset..], key))[j];
  }
}
