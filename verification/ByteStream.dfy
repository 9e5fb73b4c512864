/**
 Buffered reading and partial writing over a connection.

 The network is explicit data: `incoming` lists the chunks that successive socket
 reads will deliver, after which the peer has closed; `accepts` lists how many bytes
 successive socket writes will take. Quantifying over these fields covers every way
 the operating system can split the bytes. What a read returns is specified on
 `Stream()`, which does not mention the split.
 */
module ByteStream {
  import opened Wrappers
  import opened Bytes

  const READ_SIZE := 1024
  const LF: byte := 10
  const CR: byte := 13

  datatype IoError = NotOpen | EndOfStream | TemporarilyClosed | SocketFailure

  // ---------- Reading: what each call means on the whole stream ----------

  /** The first index of `b` in `s`. */
  function Find(s: bytes, b: byte): (r: Option<nat>)
    ensures r.None? ==> b !in s
    ensures r.Some? ==> r.value < |s| && s[r.value] == b && forall j :: 0 <= j < r.value ==> s[j] != b
  {
    if s == [] then None
    else if s[0] == b then Some(0)
    else match Find(s[1..], b)
      case None => None
      case Some(i) => Some(i + 1)
  }

  lemma FindUnique(s: bytes, b: byte, i: nat)
    requires i < |s| && s[i] == b && forall j :: 0 <= j < i ==> s[j] != b
    ensures Find(s, b) == Some(i)
  {
  }

  /** A line without its terminator: one trailing carriage return is dropped. */
  function StripCR(line: bytes): bytes {
    if line != [] && line[|line| - 1] == CR then line[..|line| - 1] else line
  }

  /** The line that ends at index `p`, and what follows its LF. */
  function LineAt(s: bytes, p: nat): (bytes, bytes)
    requires p < |s|
  {
    (StripCR(s[..p]), s[p + 1..])
  }

  /** The next line of `s` and what follows it, if `s` holds a whole line. */
  function TakeLine(s: bytes): Option<(bytes, bytes)> {
    match Find(s, LF)
    case None => None
    case Some(p) => Some(LineAt(s, p))
  }

  lemma FindInFront(buffer: bytes, p: nat, more: bytes)
    requires Find(buffer, LF) == Some(p)
    ensures Find(buffer + more, LF) == Some(p)
  {
    FindUnique(buffer + more, LF, p);
  }

  lemma LineAtInFront(buffer: bytes, p: nat, more: bytes)
    requires p < |buffer|
    ensures LineAt(buffer + more, p) == (LineAt(buffer, p).0, LineAt(buffer, p).1 + more)
  {
    assert (buffer + more)[..p] == buffer[..p];
    assert (buffer + more)[p + 1..] == buffer[p + 1..] + more;
  }

  /** A line that is whole in the buffer is the next line of the stream. */
  lemma BufferedLine(buffer: bytes, p: nat, more: bytes)
    requires Find(buffer, LF) == Some(p)
    ensures TakeLine(buffer + more) == Some((LineAt(buffer, p).0, LineAt(buffer, p).1 + more))
  {
    FindInFront(buffer, p, more);
    LineAtInFront(buffer, p, more);
  }

  lemma HasLine(s: bytes)
    ensures TakeLine(s).Some? <==> LF in s
  {
  }

  lemma EmptyBuffer(s: bytes)
    ensures [] + s == s && s + [] == s
  {
  }

  lemma CRSplit(body: bytes)
    ensures body == StripCR(body) || body == StripCR(body) + [CR]
  {
  }

  lemma CRAdded(line: bytes)
    ensures StripCR(line + [CR]) == line
  {
    assert (line + [CR])[..|line|] == line;
  }

  lemma TakeTerminated(body: bytes, rest: bytes)
    requires LF !in body
    ensures TakeLine(body + [LF] + rest) == Some((StripCR(body), rest))
  {
    var s := body + [LF] + rest;
    FindUnique(s, LF, |body|);
    SplitAtLF(body, rest);
  }

  lemma SplitAtLF(body: bytes, rest: bytes)
    ensures LineAt(body + [LF] + rest, |body|) == (StripCR(body), rest)
  {
    var s := body + [LF] + rest;
    assert s[..|body|] == body && s[|body| + 1..] == rest;
  }

  lemma LineEnd(s: bytes)
    requires TakeLine(s).Some?
    ensures var body := s[..Find(s, LF).value];
            LF !in body && s == body + [LF] + TakeLine(s).value.1 && TakeLine(s).value.0 == StripCR(body)
  {
  }

  lemma CRLF(line: bytes, rest: bytes)
    ensures line + [CR, LF] + rest == (line + [CR]) + [LF] + rest
  {
  }

  /** Whether `s` is `line`, terminated by LF or CRLF, and then `rest`. A line that itself
      ends in CR needs the CRLF form. */
  predicate Terminates(s: bytes, line: bytes, rest: bytes) {
    s == line + [CR, LF] + rest || (s == line + [LF] + rest && StripCR(line) == line)
  }

  lemma TerminatedLine(s: bytes, line: bytes, rest: bytes)
    requires LF !in line && Terminates(s, line, rest)
    ensures TakeLine(s) == Some((line, rest))
  {
    if s == line + [CR, LF] + rest {
      CRLF(line, rest);
      CRAdded(line);
      TakeTerminated(line + [CR], rest);
    } else {
      TakeTerminated(line, rest);
    }
  }

  lemma LineIsTerminated(s: bytes)
    requires TakeLine(s).Some?
    ensures var (line, rest) := TakeLine(s).value;
            LF !in line && Terminates(s, line, rest)
  {
    LineEnd(s);
    var body := s[..Find(s, LF).value];
    CRSplit(body);
    CRLF(StripCR(body), TakeLine(s).value.1);
  }

  lemma LineIsTerminatedExactly(s: bytes, line: bytes, rest: bytes)
    ensures TakeLine(s) == Some((line, rest)) <==> LF !in line && Terminates(s, line, rest)
  {
    if TakeLine(s) == Some((line, rest)) {
      LineIsTerminated(s);
    } else if LF !in line && Terminates(s, line, rest) {
      TerminatedLine(s, line, rest);
    }
  }

  lemma StrippedExactly(line: bytes)
    ensures StripCR(line) == line <==> line == [] || line[|line| - 1] != 13
  {
  }

  /** Exactly the ways a stream can yield a given line: bytes other than 10 (LF), and then 13 and 10
      (CRLF), or 10 alone if the line does not end in 13. */
  lemma TakeLineExact(s: bytes, line: bytes, rest: bytes)
    ensures TakeLine(s) == Some((line, rest)) <==>
            10 !in line && (s == line + [13, 10] + rest ||
                            (s == line + [10] + rest && (line == [] || line[|line| - 1] != 13)))
  {
    LineIsTerminatedExactly(s, line, rest);
    StrippedExactly(line);
  }

  /** What reading one character returns and leaves in the buffer and on the socket. After
      taking the first byte the program erases from index 0 to the end, so the rest is
      dropped. With nothing buffered, a closed socket reads no bytes, and the character is
      the terminating zero of the empty string. */
  function TakeChar(buffer: bytes, open: bool, incoming: seq<bytes>): Option<(byte, bytes, seq<bytes>)> {
    if buffer != [] then Some((buffer[0], [], incoming))
    else if !open then Some((0, [], incoming))
    else if incoming == [] || incoming[0] == [] then None
    else Some((incoming[0][0], [], incoming[1..]))
  }

  lemma LonelyByte(full: bytes, later: bytes)
    requires full != []
    ensures full + later == [full[0]] + later <==> |full| == 1
  {
    assert |full + later| == |full| + |later| && |[full[0]] + later| == 1 + |later|;
    if |full| == 1 {
      assert full == [full[0]];
    }
  }

  /** Reading a character keeps the other bytes of the stream, and makes none up, exactly when
      it was alone in the buffer, or alone in the chunk that refilled an empty one. */
  lemma TakeCharKeepsStream(buffer: bytes, open: bool, incoming: seq<bytes>)
    requires ValidChunks(incoming) && TakeChar(buffer, open, incoming).Some?
    ensures var (c, buffer', incoming') := TakeChar(buffer, open, incoming).value;
            buffer + Flatten(incoming) == [c] + (buffer' + Flatten(incoming')) <==>
            |if buffer == [] && open then incoming[0] else buffer| == 1
  {
    var (c, buffer', incoming') := TakeChar(buffer, open, incoming).value;
    var later := Flatten(incoming');
    assert buffer' + later == later;
    if buffer != [] {
      LonelyByte(buffer, later);
    } else if open {
      assert buffer + Flatten(incoming) == incoming[0] + later;
      LonelyByte(incoming[0], later);
    } else {
      assert |buffer + later| != |[c] + later|;
    }
  }

  /** Bytes that are whole in the buffer are the next bytes of the stream. */
  lemma BufferedCount(buffer: bytes, more: bytes, n: nat)
    requires n <= |buffer|
    ensures TakeCount(buffer + more, n) == Some((buffer[..n], buffer[n..] + more))
  {
    TakeAppend(buffer[..n], buffer[n..] + more);
    assert buffer[..n] + (buffer[n..] + more) == buffer + more;
  }

  lemma Refilled(buffer: bytes, chunk: bytes, later: seq<bytes>)
    ensures buffer + Flatten([chunk] + later) == (buffer + chunk) + Flatten(later)
  {
    assert ([chunk] + later)[1..] == later;
  }

  /** A read request, and what a script of them returns on a stream. A request that
      meets the end of the stream fails and leaves the unread bytes in place. */
  datatype ReadOp = Line | Count(n: nat)

  function Take(s: bytes, op: ReadOp): Option<(bytes, bytes)> {
    match op
    case Line => TakeLine(s)
    case Count(n) => TakeCount(s, n)
  }

  /** What one request returns on a stream and what it leaves. */
  function Answer(s: bytes, op: ReadOp): (Result<bytes, IoError>, bytes) {
    match Take(s, op)
    case None => (Err(EndOfStream), s)
    case Some((b, rest)) => (Ok(b), rest)
  }

  function RunScript(s: bytes, script: seq<ReadOp>): (seq<Result<bytes, IoError>>, bytes) {
    if script == [] then ([], s)
    else
      var (r, s') := Answer(s, script[0]);
      var (tail, rest) := RunScript(s', script[1..]);
      ([r] + tail, rest)
  }

  predicate AllOk(results: seq<Result<bytes, IoError>>) {
    forall i :: 0 <= i < |results| ==> results[i].Ok?
  }

  /** The final state of a script whose first requests returned `results`. */
  function Continue(results: seq<Result<bytes, IoError>>, s: bytes, script: seq<ReadOp>):
    (seq<Result<bytes, IoError>>, bytes)
  {
    (results + RunScript(s, script).0, RunScript(s, script).1)
  }

  lemma ScriptStep(results: seq<Result<bytes, IoError>>, s: bytes, script: seq<ReadOp>, i: nat)
    requires i < |script|
    ensures var (r, s') := Answer(s, script[i]);
            Continue(results, s, script[i..]) == Continue(results + [r], s', script[i + 1..])
  {
    var (r, s') := Answer(s, script[i]);
    assert script[i..][0] == script[i] && script[i..][1..] == script[i + 1..];
    var tail := RunScript(s', script[i + 1..]).0;
    assert results + ([r] + tail) == (results + [r]) + tail;
  }

  lemma OkStep(s: bytes, script: seq<ReadOp>, i: nat)
    requires i < |script| && AllOk(RunScript(s, script[i..]).0)
    ensures Take(s, script[i]).Some? && AllOk(RunScript(Answer(s, script[i]).1, script[i + 1..]).0)
  {
    assert script[i..][0] == script[i] && script[i..][1..] == script[i + 1..];
    var results := RunScript(s, script[i..]).0;
    var tail := RunScript(Answer(s, script[i]).1, script[i + 1..]).0;
    assert results[0] == Answer(s, script[i]).0 && results[1..] == tail;
    assert forall j :: 0 <= j < |tail| ==> tail[j] == results[j + 1];
  }

  // ---------- Writing: what the operating system takes ----------

  /** How many bytes the next write takes when `done` are already out. */
  function NextWrite(data: bytes, done: nat, accepts: seq<nat>): (n: nat)
    requires done <= |data| && accepts != []
    ensures done + n <= |data|
  {
    if accepts[0] <= |data| - done then accepts[0] else |data| - done
  }

  /** The pieces a send loop hands over, the writes left unused, and how it ends. */
  datatype Push = Push(pieces: seq<bytes>, left: seq<nat>, outcome: Result<(), IoError>)

  function PushBytes(data: bytes, accepts: seq<nat>): (p: Push)
    decreases |accepts|
  {
    if data == [] then Push([], accepts, Ok(()))
    else if accepts == [] then Push([], [], Err(SocketFailure))
    else if accepts[0] == 0 then Push([], accepts[1..], Err(TemporarilyClosed))
    else
      var n := NextWrite(data, 0, accepts);
      var p := PushBytes(data[n..], accepts[1..]);
      p.(pieces := [data[..n]] + p.pieces)
  }

  /** However the writes split, the peer gets a prefix of the data, and all of it exactly
      when the send reports success. */
  lemma {:induction false} PushDeliversPrefix(data: bytes, accepts: seq<nat>)
    ensures var p := PushBytes(data, accepts);
            Flatten(p.pieces) <= data && (p.outcome.Ok? <==> Flatten(p.pieces) == data)
    decreases |accepts|
  {
    if data != [] && accepts != [] && accepts[0] != 0 {
      var n := NextWrite(data, 0, accepts);
      PushDeliversPrefix(data[n..], accepts[1..]);
      var p := PushBytes(data[n..], accepts[1..]);
      var q := PushBytes(data, accepts);
      assert q.pieces[0] == data[..n] && q.pieces[1..] == p.pieces;
      assert Flatten(q.pieces) == data[..n] + Flatten(p.pieces);
      assert data == data[..n] + data[n..];
    }
  }

  function Sum(ns: seq<nat>): nat {
    if ns == [] then 0 else ns[0] + Sum(ns[1..])
  }

  /** Whether the first `k` writes all take something and together `n` bytes or more. */
  predicate Suffice(accepts: seq<nat>, k: nat, n: nat) {
    k <= |accepts| && (forall i :: 0 <= i < k ==> accepts[i] > 0) && Sum(accepts[..k]) >= n
  }

  lemma SufficeStep(accepts: seq<nat>, k: nat, n: nat)
    requires accepts != [] && n > 0
    ensures !Suffice(accepts, 0, n)
    ensures Suffice(accepts, k + 1, n) <==>
            accepts[0] > 0 && Suffice(accepts[1..], k, if accepts[0] <= n then n - accepts[0] else 0)
  {
    if k + 1 <= |accepts| {
      assert accepts[..k + 1][1..] == accepts[1..][..k];
      assert (forall i :: 0 <= i < k + 1 ==> accepts[i] > 0) <==>
             accepts[0] > 0 && forall i :: 0 <= i < k ==> accepts[1..][i] > 0;
    }
  }

  /** A send succeeds exactly when enough bytes are taken before a write takes none or fails;
      otherwise it fails by a write that takes none, if there is one. */
  lemma {:induction false} PushSucceedsExactly(data: bytes, accepts: seq<nat>)
    ensures var outcome := PushBytes(data, accepts).outcome;
            && (outcome.Ok? <==> exists k: nat :: Suffice(accepts, k, |data|))
            && (outcome.Err? ==> outcome.error == if 0 in accepts then TemporarilyClosed else SocketFailure)
    decreases |accepts|
  {
    if data == [] {
      assert Suffice(accepts, 0, 0);
    } else if accepts != [] {
      var n := NextWrite(data, 0, accepts);
      PushSucceedsExactly(data[n..], accepts[1..]);
      assert 0 in accepts <==> accepts[0] == 0 || 0 in accepts[1..];
      if k: nat :| Suffice(accepts[1..], k, |data[n..]|) {
        SufficeStep(accepts, k, |data|);
      }
      if k: nat :| Suffice(accepts, k, |data|) {
        SufficeStep(accepts, if k > 0 then k - 1 else 0, |data|);
      }
    }
  }

  lemma {:induction false} PiecesFitWrites(data: bytes, accepts: seq<nat>)
    ensures var p := PushBytes(data, accepts);
            && |p.pieces| <= |accepts|
            && (forall i :: 0 <= i < |p.pieces| ==> 0 < |p.pieces[i]| <= accepts[i])
            && (forall i :: 0 <= i < |p.pieces| && (p.outcome.Err? || i + 1 < |p.pieces|) ==>
                  |p.pieces[i]| == accepts[i])
    decreases |accepts|
  {
    if data != [] && accepts != [] && accepts[0] != 0 {
      var n := NextWrite(data, 0, accepts);
      PiecesFitWrites(data[n..], accepts[1..]);
    }
  }

  /** The writes a send uses up: one for each piece, and the one that took none if it failed by it. */
  predicate UsesUp(p: Push, accepts: seq<nat>) {
    if p.outcome == Err(TemporarilyClosed)
    then |p.pieces| < |accepts| && accepts[|p.pieces|] == 0 && p.left == accepts[|p.pieces| + 1..]
    else |p.pieces| <= |accepts| && p.left == accepts[|p.pieces|..]
  }

  lemma OneMorePiece(p: Push, q: Push, piece: bytes, accepts: seq<nat>)
    requires accepts != [] && UsesUp(p, accepts[1..]) && q == p.(pieces := [piece] + p.pieces)
    ensures UsesUp(q, accepts)
  {
  }

  lemma {:induction false} WritesUsedUp(data: bytes, accepts: seq<nat>)
    ensures UsesUp(PushBytes(data, accepts), accepts)
    decreases |accepts|
  {
    if data != [] && accepts != [] && accepts[0] != 0 {
      var n := NextWrite(data, 0, accepts);
      WritesUsedUp(data[n..], accepts[1..]);
      OneMorePiece(PushBytes(data[n..], accepts[1..]), PushBytes(data, accepts), data[..n], accepts);
    }
  }

  /** Each piece is as long as its write allows, but for the last piece of a send that succeeds; the
      writes used up are those of the pieces, and the one that took none. */
  lemma PushUsesWrites(data: bytes, accepts: seq<nat>)
    ensures var p := PushBytes(data, accepts);
            && UsesUp(p, accepts)
            && (forall i :: 0 <= i < |p.pieces| ==> 0 < |p.pieces[i]| <= accepts[i])
            && (forall i :: 0 <= i < |p.pieces| && (p.outcome.Err? || i + 1 < |p.pieces|) ==>
                  |p.pieces[i]| == accepts[i])
  {
    WritesUsedUp(data, accepts);
    PiecesFitWrites(data, accepts);
  }

  /** The final state of a send loop that has already handed over `sent`. */
  function Resume(p: Push, sent: seq<bytes>): Push {
    p.(pieces := sent + p.pieces)
  }

  lemma CutOnce(data: bytes, done: nat, n: nat)
    requires done + n <= |data|
    ensures data[done..][..n] == data[done..done + n] && data[done..][n..] == data[done + n..]
  {
  }

  lemma PiecesJoin(sent: seq<bytes>, piece: bytes, pieces: seq<bytes>)
    ensures sent + ([piece] + pieces) == sent + [piece] + pieces
  {
  }

  lemma PushOne(data: bytes, accepts: seq<nat>, sent: seq<bytes>)
    requires data != [] && accepts != [] && accepts[0] != 0
    ensures var n := NextWrite(data, 0, accepts);
            Resume(PushBytes(data, accepts), sent) ==
            Resume(PushBytes(data[n..], accepts[1..]), sent + [data[..n]])
  {
    var n := NextWrite(data, 0, accepts);
    PiecesJoin(sent, data[..n], PushBytes(data[n..], accepts[1..]).pieces);
  }

  lemma PushStep(data: bytes, done: nat, accepts: seq<nat>, sent: seq<bytes>)
    requires done < |data| && accepts != [] && accepts[0] != 0
    ensures var n := NextWrite(data, done, accepts);
            Resume(PushBytes(data[done..], accepts), sent) ==
            Resume(PushBytes(data[done + n..], accepts[1..]), sent + [data[done..done + n]])
  {
    PushOne(data[done..], accepts, sent);
    CutOnce(data, done, NextWrite(data, done, accepts));
  }

  lemma PushStop(data: bytes, done: nat, accepts: seq<nat>, sent: seq<bytes>)
    requires done <= |data|
    ensures var p := Resume(PushBytes(data[done..], accepts), sent);
            && (done == |data| ==> p == Push(sent, accepts, Ok(())))
            && (done < |data| && accepts == [] ==> p == Push(sent, [], Err(SocketFailure)))
            && (done < |data| && accepts != [] && accepts[0] == 0 ==>
                p == Push(sent, accepts[1..], Err(TemporarilyClosed)))
  {
    assert sent + [] == sent;
  }

  // ---------- The connection ----------

  ghost predicate ValidChunks(chunks: seq<bytes>) {
    forall i :: 0 <= i < |chunks| ==> 1 <= |chunks[i]| <= READ_SIZE
  }

  /** What a new socket will do: whether it can be opened, what it will deliver, and what it
      will take. */
  datatype Socket = Socket(reachable: bool, incoming: seq<bytes>, accepts: seq<nat>)

  class Conn {
    var host: string
    var port: string
    var tmpData: bytes
    var incoming: seq<bytes>
    var accepts: seq<nat>
    var sent: seq<bytes>
    var open: bool

    ghost predicate Valid()
      reads this
    {
      ValidChunks(incoming)
    }

    /** Every byte a read can still return: the buffer, then what an open socket will deliver. */
    ghost function Stream(): bytes
      reads this
    {
      if open then tmpData + Flatten(incoming) else tmpData
    }

    constructor (incoming: seq<bytes>, accepts: seq<nat>)
      requires ValidChunks(incoming)
      ensures Valid() && open && tmpData == [] && sent == []
      ensures this.incoming == incoming && this.accepts == accepts
    {
      this.host, this.port := "", "";
      this.tmpData, this.incoming, this.accepts, this.sent, this.open := [], incoming, accepts, [], true;
    }

    /** A connection object before it is connected. */
    constructor Unconnected()
      ensures Valid() && !open
    {
      host, port := "", "";
      tmpData, incoming, accepts, sent, open := [], [], [], [], false;
    }

    method Connect(host: string, port: string, socket: Socket) returns (ok: bool)
      requires ValidChunks(socket.incoming)
      modifies this
      ensures Valid() && this.host == host && this.port == port
      ensures tmpData == [] && sent == [] && incoming == socket.incoming && accepts == socket.accepts
      ensures ok == open == socket.reachable
    {
      this.host, this.port := host, port;
      ok := Reconnect(socket);
    }

    /** Drops the socket and everything buffered from it, then opens a new one. */
    method Reconnect(socket: Socket) returns (ok: bool)
      requires ValidChunks(socket.incoming)
      modifies `tmpData, `incoming, `accepts, `sent, `open
      ensures Valid()
      ensures tmpData == [] && sent == [] && incoming == socket.incoming && accepts == socket.accepts
      ensures ok == open == socket.reachable
    {
      tmpData := [];
      sent, incoming, accepts, open := [], socket.incoming, socket.accepts, socket.reachable;
      ok := open;
    }

    /** One socket read. A closed socket delivers no bytes. */
    method RecvImpl() returns (r: Result<bytes, IoError>)
      requires Valid()
      modifies `incoming
      ensures Valid()
      ensures !open ==> r == Ok([]) && incoming == old(incoming)
      ensures open && old(incoming) == [] ==> r == Err(EndOfStream) && incoming == []
      ensures open && old(incoming) != [] ==>
                r.Ok? && old(incoming) == [r.value] + incoming && 1 <= |r.value| <= READ_SIZE
    {
      if !open {
        return Ok([]);
      }
      if incoming == [] {
        return Err(EndOfStream);
      }
      r := Ok(incoming[0]);
      incoming := incoming[1..];
    }

    method ReadChar() returns (r: Result<byte, IoError>)
      requires Valid()
      modifies `tmpData, `incoming
      ensures Valid()
      ensures match TakeChar(old(tmpData), open, old(incoming))
              case Some((c, buffer, left)) => r == Ok(c) && tmpData == buffer && incoming == left
              case None => r == Err(EndOfStream) && Stream() == old(Stream()) == []
      ensures old(tmpData) != [] ==> r == Ok(old(tmpData)[0]) && tmpData == [] && incoming == old(incoming)
      ensures old(tmpData) == [] && !open ==> r == Ok(0) && tmpData == [] && incoming == old(incoming)
      ensures old(tmpData) == [] && open && old(incoming) != [] ==>
                r == Ok(old(incoming)[0][0]) && tmpData == [] && incoming == old(incoming)[1..]
    {
      if |tmpData| == 0 {
        var chunk := RecvImpl();
        if chunk.Err? {
          return Err(chunk.error);
        }
        tmpData := chunk.value;
      }
      r := Ok(if tmpData == [] then 0 else tmpData[0]);
      tmpData := [];
    }

    /** Appends one socket read to the buffer. */
    method Refill() returns (r: Result<(), IoError>)
      requires Valid() && open
      modifies `tmpData, `incoming
      ensures Valid() && Stream() == old(Stream())
      ensures r.Ok? ==> |incoming| < |old(incoming)|
      ensures r.Err? ==> r.error == EndOfStream && tmpData == old(tmpData) == Stream()
    {
      var chunk := RecvImpl();
      if chunk.Err? {
        assert tmpData + [] == tmpData;
        return Err(chunk.error);
      }
      Refilled(tmpData, chunk.value, incoming);
      tmpData := tmpData + chunk.value;
      r := Ok(());
    }

    /** Reads until the buffer holds a whole line, and says where its LF is. On a closed
        socket a line that is not yet buffered is waited for in vain. */
    method AwaitLine() returns (r: Result<nat, IoError>)
      requires Valid() && (open || LF in Stream())
      modifies `tmpData, `incoming
      ensures Valid() && Stream() == old(Stream())
      ensures r.Ok? ==> Find(tmpData, LF) == Some(r.value)
      ensures r.Err? ==> r.error == EndOfStream && tmpData == Stream() && LF !in tmpData
    {
      var p := Find(tmpData, LF);
      while p.None?
        invariant Valid() && Stream() == old(Stream())
        invariant p == Find(tmpData, LF) && (open || p.Some?)
        decreases |incoming|
      {
        var more := Refill();
        if more.Err? {
          return Err(more.error);
        }
        p := Find(tmpData, LF);
      }
      r := Ok(p.value);
    }

    method ReadLine() returns (r: Result<bytes, IoError>)
      requires Valid() && (open || LF in Stream())
      modifies `tmpData, `incoming
      ensures Valid()
      ensures match TakeLine(old(Stream()))
              case Some((line, rest)) => r == Ok(line) && Stream() == rest
              case None => r == Err(EndOfStream) && tmpData == Stream() == old(Stream())
    {
      var p := AwaitLine();
      if p.Err? {
        HasLine(tmpData);
        return Err(p.error);
      }
      BufferedLine(tmpData, p.value, if open then Flatten(incoming) else []);
      assert tmpData + [] == tmpData && tmpData[p.value + 1..] + [] == tmpData[p.value + 1..];
      r := Ok(StripCR(tmpData[..p.value]));
      tmpData := tmpData[p.value + 1..];
    }

    /** On a closed socket bytes that are not yet buffered are waited for in vain. */
    method ReadCount(count: nat) returns (r: Result<bytes, IoError>)
      requires Valid() && (open || count <= |Stream()|)
      modifies `tmpData, `incoming
      ensures Valid()
      ensures match TakeCount(old(Stream()), count)
              case Some((b, rest)) => r == Ok(b) && Stream() == rest
              case None => r == Err(EndOfStream) && tmpData == Stream() == old(Stream())
    {
      if count == 0 {
        TakeNone(Stream());
        return Ok([]);
      }
      while |tmpData| < count
        invariant Valid() && Stream() == old(Stream())
        invariant open || count <= |tmpData|
        decreases |incoming|
      {
        var more := Refill();
        if more.Err? {
          return Err(more.error);
        }
      }
      BufferedCount(tmpData, if open then Flatten(incoming) else [], count);
      assert tmpData + [] == tmpData && tmpData[count..] + [] == tmpData[count..];
      r := Ok(tmpData[..count]);
      tmpData := tmpData[count..];
    }

    /** Returns the buffer if it holds anything, else one socket read. */
    method ReadSome() returns (r: Result<bytes, IoError>)
      requires Valid()
      modifies `tmpData, `incoming
      ensures Valid() && tmpData == []
      ensures r.Ok? ==> old(Stream()) == r.value + Stream()
      ensures old(tmpData) != [] ==> r == Ok(old(tmpData)) && incoming == old(incoming)
      ensures old(tmpData) == [] && !open ==> r == Ok([]) && incoming == old(incoming)
      ensures old(tmpData) == [] && open && old(incoming) == [] ==> r == Err(EndOfStream) && incoming == []
      ensures old(tmpData) == [] && open && old(incoming) != [] ==> r == Ok(old(incoming)[0])
    {
      EmptyBuffer(Flatten(incoming));
      if |tmpData| > 0 {
        EmptyBuffer(tmpData);
        r := Ok(tmpData);
        tmpData := [];
      } else {
        r := RecvImpl();
        if open && r.Ok? {
          Refilled([], r.value, incoming);
          EmptyBuffer(r.value);
          EmptyBuffer(Flatten(incoming));
        }
      }
    }

    /** One read request. */
    method Read(op: ReadOp) returns (r: Result<bytes, IoError>)
      requires Valid() && (open || Take(Stream(), op).Some?)
      modifies `tmpData, `incoming
      ensures Valid() && (r, Stream()) == Answer(old(Stream()), op)
    {
      match op {
        case Line =>
          if !open {
            HasLine(Stream());
          }
          r := ReadLine();
        case Count(n) => r := ReadCount(n);
      }
    }

    /** Runs a script of reads, keeping going after a failed one. On a closed socket every read
        has to be met from the buffer. */
    method Run(script: seq<ReadOp>) returns (results: seq<Result<bytes, IoError>>)
      requires Valid() && (open || AllOk(RunScript(Stream(), script).0))
      modifies `tmpData, `incoming
      ensures Valid()
      ensures (results, Stream()) == RunScript(old(Stream()), script)
    {
      results := [];
      ghost var goal := RunScript(Stream(), script);
      assert script[0..] == script && [] + goal.0 == goal.0;
      for i := 0 to |script|
        invariant Valid() && Continue(results, Stream(), script[i..]) == goal
        invariant open || AllOk(RunScript(Stream(), script[i..]).0)
      {
        ScriptStep(results, Stream(), script, i);
        if !open {
          OkStep(Stream(), script, i);
        }
        var r := Read(script[i]);
        results := results + [r];
      }
      assert script[|script|..] == [] && results + [] == results;
    }

    /** Writes all of `data`, in as many socket writes as the system asks for. */
    method Send(data: bytes) returns (r: Result<(), IoError>)
      requires Valid()
      modifies `accepts, `sent
      ensures Valid()
      ensures !open ==> r == Err(NotOpen) && sent == old(sent) && accepts == old(accepts)
      ensures open ==> Push(sent, accepts, r) == Resume(PushBytes(data, old(accepts)), old(sent))
    {
      if !open {
        return Err(NotOpen);
      }
      var done: nat := 0;
      ghost var goal := Resume(PushBytes(data, accepts), sent);
      assert data[0..] == data;
      while done < |data|
        invariant done <= |data|
        invariant Resume(PushBytes(data[done..], accepts), sent) == goal
        decreases |accepts|
      {
        PushStop(data, done, accepts, sent);
        if accepts == [] {
          return Err(SocketFailure);
        }
        var n := NextWrite(data, done, accepts);
        if n == 0 {
          accepts := accepts[1..];
          return Err(TemporarilyClosed);
        }
        PushStep(data, done, accepts, sent);
        accepts := accepts[1..];
        sent := sent + [data[done..done + n]];
        done := done + n;
      }
      PushStop(data, done, accepts, sent);
      r := Ok(());
    }
  }

  /** The same script on two connections that carry the same bytes in different chunks
      returns the same results and leaves the same bytes. */
  method SameStreamSameReads(c: Conn, d: Conn, script: seq<ReadOp>)
    returns (rc: seq<Result<bytes, IoError>>, rd: seq<Result<bytes, IoError>>)
    requires c != d && c.Valid() && d.Valid() && c.Stream() == d.Stream()
    requires (c.open && d.open) || AllOk(RunScript(c.Stream(), script).0)
    modifies c`tmpData, c`incoming, d`tmpData, d`incoming
    ensures rc == rd && c.Stream() == d.Stream()
  {
    rc := c.Run(script);
    rd := d.Run(script);
  }
}
