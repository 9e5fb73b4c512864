/**
 One HTTP request over a session: connecting when the flag changed, sending, and one
 retry on a fresh socket. What a request serialises to is a parameter, and the model
 stops where the program starts to read the response.
 */
module HttpSession {
  import opened Wrappers
  import opened Bytes
  import opened ByteStream
  import opened Url
  import opened SessionPool

  datatype Outcome = BadUrl | ConnectFailed | BadRequest | ReconnectFailed | ResendFailed | ReadsResponse

  /** The result of sending `data` on a socket that will take `accepts`. */
  predicate Sends(open: bool, data: bytes, accepts: seq<nat>) {
    open && PushBytes(data, accepts).outcome.Ok?
  }

  /** Whether a response is read: the request has a serialised form, and it goes out whole on the
      connection at hand, or on the one opened for it, or else on the one a reconnect opens. */
  predicate ResponseIsRead(request: Option<bytes>, connected: bool, open: bool, accepts: seq<nat>,
                           first: Socket, second: Socket) {
    && request.Some?
    && (connected || first.reachable)
    && (Sends(if connected then open else true, request.value, if connected then accepts else first.accepts) ||
        Sends(second.reachable, request.value, second.accepts))
  }

  /** Whether a host and port are those of the URLs with flag `k`. */
  predicate GoesTo(host: string, port: string, k: string) {
    match Parse(k)
    case None => false
    case Some(u) => host == u.host && port == u.port
  }

  /** The flag of a URL leads to its host and port and to no other. */
  lemma FlagLeadsHome(host: string, port: string, url: string, u: Url)
    requires Parse(url) == Some(u)
    ensures GoesTo(host, port, Flag(u)) <==> host == u.host && port == u.port
  {
    ParseIsCanonical(url);
    FlagParses(u);
  }

  class HttpSession {
    var conn: Conn?
    var connFlag: string
    var lastUseTime: int

    constructor (conn: Conn?, flag: string, lastUse: int)
      ensures this.conn == conn && connFlag == flag && lastUseTime == lastUse
    {
      this.conn, connFlag, lastUseTime := conn, flag, lastUse;
    }

    /** The copy the pool keeps. */
    function Copy(): Session<Conn>
      reads this
    {
      Session(if conn == null then None else Some(conn), connFlag, lastUseTime)
    }

    ghost predicate Valid()
      reads this, conn
    {
      conn != null ==> conn.Valid()
    }

    /** Whether the connection, if there is one, goes where the session's flag says. */
    ghost predicate Faithful()
      reads this, conn
    {
      conn != null ==> GoesTo(conn.host, conn.port, connFlag)
    }

    ghost function Wire(): set<Conn>
      reads this
    {
      if conn == null then {} else {conn}
    }

    ghost predicate MustConnect(flag: string)
      reads this
    {
      conn == null || connFlag != flag
    }

    /** Opens a connection for `u` unless the session already has one under its flag. */
    method Attach(u: Url, socket: Socket) returns (ok: bool, connects: nat)
      requires Valid() && ValidChunks(socket.incoming)
      modifies `conn, `connFlag
      ensures Valid() && conn != null && connFlag == Flag(u)
      ensures connects == if old(MustConnect(Flag(u))) then 1 else 0
      ensures connects == 0 ==> ok && conn == old(conn)
      ensures connects == 1 ==> fresh(conn) && conn.host == u.host && conn.port == u.port &&
                                ok == conn.open == socket.reachable && conn.accepts == socket.accepts &&
                                conn.sent == [] && conn.tmpData == []
    {
      ok, connects := true, 0;
      if conn == null || connFlag != Flag(u) {
        connFlag := Flag(u);
        conn := new Conn.Unconnected();
        connects := 1;
        ok := conn.Connect(u.host, u.port, socket);
      }
    }

    /** Sends on the current socket; on success the socket got exactly `data` on top of what
        it had. */
    method TrySend(data: bytes) returns (ok: bool)
      requires Valid() && conn != null
      modifies conn`sent, conn`accepts
      ensures Valid()
      ensures ok <==> Sends(conn.open, data, old(conn.accepts))
      ensures ok ==> Flatten(conn.sent) == Flatten(old(conn.sent)) + data
    {
      ghost var sent, accepts := conn.sent, conn.accepts;
      var r := conn.Send(data);
      FlattenAppend(sent, PushBytes(data, accepts).pieces);
      PushDeliversPrefix(data, accepts);
      ok := r.Ok?;
    }

    /** Sends, and if that fails, once more on a new socket. */
    method Exchange(data: bytes, socket: Socket) returns (r: Outcome, reconnects: nat)
      requires Valid() && conn != null && ValidChunks(socket.incoming)
      modifies conn`sent, conn`accepts, conn`incoming, conn`tmpData, conn`open
      ensures Valid()
      ensures reconnects == if Sends(old(conn.open), data, old(conn.accepts)) then 0 else 1
      ensures r.ReadsResponse? <==> reconnects == 0 || Sends(socket.reachable, data, socket.accepts)
      ensures r.ReadsResponse? || r.ReconnectFailed? || r.ResendFailed?
      ensures r.ReadsResponse? ==>
                Flatten(conn.sent) == (if reconnects == 0 then Flatten(old(conn.sent)) else []) + data
      ensures reconnects == 0 ==> conn.tmpData == old(conn.tmpData) && conn.incoming == old(conn.incoming)
      ensures reconnects == 1 ==> conn.tmpData == [] && conn.incoming == socket.incoming
    {
      var ok := TrySend(data);
      if ok {
        return ReadsResponse, 0;
      }
      ok := conn.Reconnect(socket);
      if !ok {
        return ReconnectFailed, 1;
      }
      ok := TrySend(data);
      if !ok {
        return ResendFailed, 1;
      }
      return ReadsResponse, 1;
    }

    /** How one request on a parsed URL went: whether it connected and reconnected, how it
        ended, and what the socket whose response is read has received. */
    twostate predicate Performed(u: Url, new request: Option<bytes>, first: Socket, second: Socket,
                                 r: Outcome, connects: nat, reconnects: nat)
      reads this, conn
    {
      && conn != null && connFlag == Flag(u)
      && connects == (if old(MustConnect(Flag(u))) then 1 else 0)
      && (connects == 0 ==> conn == old(conn) && conn.host == old(conn.host) && conn.port == old(conn.port))
      && (connects == 1 ==> conn.host == u.host && conn.port == u.port)
      && (r.ConnectFailed? <==> connects == 1 && !first.reachable)
      && (r.BadRequest? <==> !r.ConnectFailed? && request == None)
      && !r.BadUrl?
      && (r.ConnectFailed? || r.BadRequest? ==> reconnects == 0)
      && (!r.ConnectFailed? && !r.BadRequest? ==>
            var sends := if connects == 1 then Sends(true, request.value, first.accepts)
                         else old(conn != null && Sends(conn.open, request.value, conn.accepts));
            && reconnects == (if sends then 0 else 1)
            && (r.ReadsResponse? <==> sends || Sends(second.reachable, request.value, second.accepts)))
      && (r.ReadsResponse? ==>
            if connects + reconnects == 0
            then Flatten(conn.sent) == Flatten(old(if conn == null then [] else conn.sent)) + request.value
            else Flatten(conn.sent) == request.value && conn.tmpData == [])
    }

    method Perform(u: Url, request: Option<bytes>, now: int, first: Socket, second: Socket)
      returns (r: Outcome, connects: nat, reconnects: nat)
      requires Valid() && ValidChunks(first.incoming) && ValidChunks(second.incoming)
      modifies this
      modifies Wire()`sent, Wire()`accepts, Wire()`incoming, Wire()`tmpData, Wire()`open
      ensures Valid() && lastUseTime == now && (connects == 1 ==> fresh(conn))
      ensures old(conn) != null ==> old(conn).Valid()
      ensures Performed(u, request, first, second, r, connects, reconnects)
    {
      lastUseTime := now;
      var ok;
      ok, connects := Attach(u, first);
      if !ok {
        return ConnectFailed, connects, 0;
      }
      if request.None? {
        return BadRequest, connects, 0;
      }
      r, reconnects := Exchange(request.value, second);
    }

    /** Runs one request up to the point where its response is read. `first` is the socket a
        connect would get and `second` the one a reconnect would get. Whenever the response
        is read, its socket has received the whole request exactly once from this call, and if
        the session's connection went where its flag says, the request went to the URL's host
        and port, through a reconnect or without one. */
    method DoMethod(url: string, serialize: Url -> Option<bytes>, now: int, first: Socket, second: Socket)
      returns (r: Outcome, connects: nat, reconnects: nat)
      requires Valid() && ValidChunks(first.incoming) && ValidChunks(second.incoming)
      modifies this, Wire()`sent, Wire()`accepts, Wire()`incoming, Wire()`tmpData, Wire()`open
      ensures Valid() && lastUseTime == now && connects <= 1 && reconnects <= 1
      ensures Parse(url).None? ==> r.BadUrl? && connects == reconnects == 0
      ensures Parse(url).None? ==> conn == old(conn) && connFlag == old(connFlag)
      ensures old(conn) != null ==> old(conn).Valid()
      ensures Parse(url).Some? && connects == 1 ==> fresh(conn)
      ensures Parse(url).Some? && old(Faithful()) ==>
                conn != null && Faithful() && conn.host == Parse(url).value.host && conn.port == Parse(url).value.port
      ensures Parse(url).Some? ==>
                Performed(Parse(url).value, serialize(Parse(url).value), first, second, r, connects, reconnects)
    {
      var parsed := ParseUrl(url);
      if parsed.None? {
        lastUseTime := now;
        return BadUrl, 0, 0;
      }
      r, connects, reconnects := Perform(parsed.value, serialize(parsed.value), now, first, second);
      FlagLeadsHome(conn.host, conn.port, url, parsed.value);
    }

    /** What a request does to a session that is new or already connected for the URL. */
    method Request(url: string, ghost u: Url, serialize: Url -> Option<bytes>, now: int, first: Socket, second: Socket)
      returns (r: Outcome, connects: nat)
      requires Valid() && ValidChunks(first.incoming) && ValidChunks(second.incoming) && Parse(url) == Some(u)
      requires conn != null ==> connFlag == Flag(u) && conn.host == u.host && conn.port == u.port
      modifies this, Wire()`sent, Wire()`accepts, Wire()`incoming, Wire()`tmpData, Wire()`open
      ensures conn != null && conn.Valid() && connFlag == Flag(u) && lastUseTime == now
      ensures conn.host == u.host && conn.port == u.port
      ensures connects == if old(conn) == null then 1 else 0
      ensures if old(conn) == null then fresh(conn) else conn == old(conn)
      ensures r.ReadsResponse? <==> ResponseIsRead(serialize(u), old(conn) != null, old(conn != null && conn.open),
                                                   old(if conn != null then conn.accepts else []), first, second)
    {
      var outcome, n, _ := DoMethod(url, serialize, now, first, second);
      r, connects := outcome, n;
    }
  }

  // ---------- The pool of connections ----------

  ghost function ConnOf(x: Session<Conn>): set<Conn> {
    if x.conn.Some? then {x.conn.value} else {}
  }

  ghost predicate IsOpen(x: Session<Conn>)
    reads ConnOf(x)
  {
    x.conn.Some? && x.conn.value.open
  }

  ghost function AcceptsOf(x: Session<Conn>): seq<nat>
    reads ConnOf(x)
  {
    if x.conn.Some? then x.conn.value.accepts else []
  }

  /** Whether a request on session `x` will have its response read. */
  ghost predicate WillRead(x: Session<Conn>, request: Option<bytes>, first: Socket, second: Socket)
    reads ConnOf(x)
  {
    ResponseIsRead(request, x.conn.Some?, IsOpen(x), AcceptsOf(x), first, second)
  }

  /** Where each flag leads: the host and port of every URL that has it. */
  type Homes = string -> (string, string)

  ghost predicate LeadHome(homes: Homes) {
    forall url :: Parse(url).Some? ==>
      homes(Flag(Parse(url).value)) == (Parse(url).value.host, Parse(url).value.port)
  }

  function HomeOf(k: string): (string, string) {
    match Parse(k)
    case None => ("", "")
    case Some(u) => (u.host, u.port)
  }

  /** Because flags are faithful, there is one place each of them leads to. */
  lemma FlagsLeadHome()
    ensures LeadHome(HomeOf)
  {
    forall url | Parse(url).Some?
      ensures HomeOf(Flag(Parse(url).value)) == (Parse(url).value.host, Parse(url).value.port)
    {
      ParseIsCanonical(url);
      FlagParses(Parse(url).value);
    }
  }

  /** A session is connected under flag `k`, to where that leads. */
  ghost predicate Settled(k: string, x: Session<Conn>, homes: Homes)
    reads ConnOf(x)`host, ConnOf(x)`port
  {
    x.flag == k && x.conn.Some? && (x.conn.value.host, x.conn.value.port) == homes(k)
  }

  /** Every pooled session is settled under its bucket's flag, on one of the connections
      `conns`. */
  ghost predicate AllSettled(pool: Pool<Conn>, conns: set<Conn>, homes: Homes)
    reads conns`host, conns`port
  {
    forall k, i :: k in pool && 0 <= i < |pool[k]| ==> ConnOf(pool[k][i]) <= conns && Settled(k, pool[k][i], homes)
  }

  ghost predicate AllUsable(conns: set<Conn>)
    reads conns
  {
    forall c :: c in conns ==> c.Valid()
  }

  ghost predicate PoolValid(pool: Pool<Conn>, conns: set<Conn>, homes: Homes)
    reads conns
  {
    AllSettled(pool, conns, homes) && AllUsable(conns)
  }

  lemma TakenSettled(pool: Pool<Conn>, conns: set<Conn>, homes: Homes, key: string, now: int)
    requires AllSettled(pool, conns, homes)
    ensures TakeSession(pool, key, now).0.conn.Some? <==> BucketOf(pool, key) != []
    ensures TakeSession(pool, key, now).0.conn.Some? ==> Settled(key, TakeSession(pool, key, now).0, homes)
    ensures ConnOf(TakeSession(pool, key, now).0) <= conns
  {
    var v := BucketOf(pool, key);
    if v != [] {
      assert Settled(key, pool[key][0], homes);
    }
  }

  lemma RestSettled(pool: Pool<Conn>, conns: set<Conn>, homes: Homes, key: string, now: int)
    requires AllSettled(pool, conns, homes)
    ensures AllSettled(TakeSession(pool, key, now).1, conns, homes)
  {
    var rest := TakeSession(pool, key, now).1;
    if BucketOf(pool, key) != [] {
      forall k, i | k in rest && 0 <= i < |rest[k]|
        ensures ConnOf(rest[k][i]) <= conns && Settled(k, rest[k][i], homes)
      {
        assert rest[k][i] == pool[k][if k == key then i + 1 else i];
      }
    }
  }

  lemma GivenSlot(pool: Pool<Conn>, x: Session<Conn>, k: string, i: nat)
    requires k in GiveSession(pool, x) && i < |GiveSession(pool, x)[k]|
    ensures (k == x.flag && GiveSession(pool, x)[k][i] == x) ||
            (k in pool && i < |pool[k]| && GiveSession(pool, x)[k][i] == pool[k][i])
  {
  }

  lemma GivenSettled(pool: Pool<Conn>, conns: set<Conn>, homes: Homes, x: Session<Conn>)
    requires AllSettled(pool, conns, homes) && Settled(x.flag, x, homes)
    ensures AllSettled(GiveSession(pool, x), conns + ConnOf(x), homes)
  {
    var given := GiveSession(pool, x);
    forall k, i | k in given && 0 <= i < |given[k]|
      ensures ConnOf(given[k][i]) <= conns + ConnOf(x) && Settled(k, given[k][i], homes)
    {
      GivenSlot(pool, x, k, i);
    }
  }

  /** Runs one request on a session taken from the pool under the URL's flag. */
  method RunTaken(x: Session<Conn>, url: string, ghost u: Url, serialize: Url -> Option<bytes>, now: int,
                  first: Socket, second: Socket, ghost willRead: bool, ghost homes: Homes)
    returns (r: Outcome, connects: nat, back: Session<Conn>)
    requires ValidChunks(first.incoming) && ValidChunks(second.incoming)
    requires Parse(url) == Some(u) && homes(Flag(u)) == (u.host, u.port)
    requires AllUsable(ConnOf(x)) && (x.conn.Some? ==> Settled(Flag(u), x, homes))
    requires willRead <==> WillRead(x, serialize(u), first, second)
    modifies ConnOf(x)`sent, ConnOf(x)`accepts, ConnOf(x)`incoming, ConnOf(x)`tmpData, ConnOf(x)`open
    ensures connects == if x.conn.Some? then 0 else 1
    ensures if x.conn.Some? then back.conn == x.conn else fresh(ConnOf(back))
    ensures r.ReadsResponse? <==> willRead
    ensures AllUsable(ConnOf(back)) && Settled(Flag(u), back, homes) && back.lastUse == now
  {
    var session := new HttpSession(if x.conn.Some? then x.conn.value else null, x.flag, x.lastUse);
    r, connects := session.Request(url, u, serialize, now, first, second);
    back := session.Copy();
  }

  /** Gives a session back to the pool. */
  method GiveBack(pool: SessionPool<Conn>, ghost conns: set<Conn>, x: Session<Conn>, ghost homes: Homes)
    requires PoolValid(pool.pool, conns, homes) && AllUsable(ConnOf(x)) && Settled(x.flag, x, homes)
    modifies pool
    ensures PoolValid(pool.pool, conns + ConnOf(x), homes) && pool.pool == GiveSession(old(pool.pool), x)
  {
    GivenSettled(pool.pool, conns, homes, x);
    pool.FreeSession(x);
  }

  /** Runs one request on a taken session, and gives the session back only if the response was
      read. */
  method UseTaken(pool: SessionPool<Conn>, ghost conns: set<Conn>, x: Session<Conn>, url: string, ghost u: Url,
                  serialize: Url -> Option<bytes>, now: int, first: Socket, second: Socket, responseOk: bool,
                  ghost willRead: bool, ghost homes: Homes)
    returns (connects: nat, used: Option<Session<Conn>>)
    requires PoolValid(pool.pool, conns, homes) && ValidChunks(first.incoming) && ValidChunks(second.incoming)
    requires Parse(url) == Some(u) && homes(Flag(u)) == (u.host, u.port)
    requires ConnOf(x) <= conns && (x.conn.Some? ==> Settled(Flag(u), x, homes))
    requires willRead <==> WillRead(x, serialize(u), first, second)
    modifies pool, conns
    ensures connects == if x.conn.Some? then 0 else 1
    ensures used.Some? <==> responseOk && willRead
    ensures used.None? ==> PoolValid(pool.pool, conns, homes) && pool.pool == old(pool.pool)
    ensures used.Some? ==>
              && PoolValid(pool.pool, conns + ConnOf(used.value), homes) && fresh(ConnOf(used.value) - conns)
              && Settled(Flag(u), used.value, homes) && used.value.lastUse == now
              && pool.pool == GiveSession(old(pool.pool), used.value)
  {
    var r, n, back := RunTaken(x, url, u, serialize, now, first, second, willRead, homes);
    connects, used := n, None;
    if r.ReadsResponse? && responseOk {
      GiveBack(pool, conns, back, homes);
      used := Some(back);
    }
  }

  /** How one request on a parsed URL went and what it did to the pool. `used` is the session it
      gave back, if its response was read. */
  ghost predicate Got(before: Pool<Conn>, after: Pool<Conn>, u: Url, now: int, connects: nat,
                      used: Option<Session<Conn>>)
    reads if used.Some? then ConnOf(used.value) else {}
  {
    && connects == (if BucketOf(before, Flag(u)) == [] then 1 else 0)
    && (used.None? ==> after == TakeSession(before, Flag(u), now).1)
    && (used.Some? ==>
          && used.value.flag == Flag(u) && used.value.lastUse == now && used.value.conn.Some?
          && used.value.conn.value.host == u.host && used.value.conn.value.port == u.port
          && after == GiveSession(TakeSession(before, Flag(u), now).1, used.value))
  }

  /** The connection of the oldest session of a bucket. */
  ghost function Head(pool: Pool<Conn>, key: string): set<Conn> {
    if BucketOf(pool, key) == [] then {} else ConnOf(BucketOf(pool, key)[0])
  }

  ghost predicate HeadIsOpen(pool: Pool<Conn>, key: string)
    reads Head(pool, key)
  {
    BucketOf(pool, key) != [] && IsOpen(BucketOf(pool, key)[0])
  }

  ghost function HeadAccepts(pool: Pool<Conn>, key: string): seq<nat>
    reads Head(pool, key)
  {
    if BucketOf(pool, key) == [] then [] else AcceptsOf(BucketOf(pool, key)[0])
  }

  lemma HeadIsTaken(pool: Pool<Conn>, key: string, now: int)
    ensures HeadIsOpen(pool, key) == IsOpen(TakeSession(pool, key, now).0)
    ensures HeadAccepts(pool, key) == AcceptsOf(TakeSession(pool, key, now).0)
  {
  }

  /** The free request functions: take a session, run the request, and give the session back
      only if the response was read. A request that finds a pooled session opens no new
      connection first; one that finds none opens exactly one. A response is only read from a
      connection to the URL's host and port. `conns` and `after` are the pool's connections. */
  method Get(pool: SessionPool<Conn>, ghost conns: set<Conn>, url: string, serialize: Url -> Option<bytes>, now: int,
             first: Socket, second: Socket, responseOk: bool, ghost homes: Homes)
    returns (connects: nat, used: Option<Session<Conn>>, ghost after: set<Conn>)
    requires PoolValid(pool.pool, conns, homes) && LeadHome(homes)
    requires ValidChunks(first.incoming) && ValidChunks(second.incoming)
    modifies pool, conns
    ensures PoolValid(pool.pool, after, homes) && conns <= after && fresh(after - conns)
    ensures Parse(url).None? ==> connects == 0 && used.None? && pool.pool == old(pool.pool)
    ensures Parse(url).Some? ==> Got(old(pool.pool), pool.pool, Parse(url).value, now, connects, used)
    ensures Parse(url).Some? ==>
              (used.Some? <==>
               responseOk && ResponseIsRead(serialize(Parse(url).value),
                                            BucketOf(old(pool.pool), Flag(Parse(url).value)) != [],
                                            old(HeadIsOpen(pool.pool, Flag(Parse(url).value))),
                                            old(HeadAccepts(pool.pool, Flag(Parse(url).value))), first, second))
  {
    after := conns;
    ghost var before := pool.pool;
    var taken := pool.GetSession(url, now);
    if taken.None? {
      return 0, None, conns;
    }
    ghost var u := Parse(url).value;
    ghost var willRead := WillRead(taken.value, serialize(u), first, second);
    HeadIsTaken(before, Flag(u), now);
    TakenSettled(before, conns, homes, Flag(u), now);
    RestSettled(before, conns, homes, Flag(u), now);
    connects, used := UseTaken(pool, conns, taken.value, url, u, serialize, now, first, second, responseOk,
                               willRead, homes);
    after := if used.Some? then conns + ConnOf(used.value) else conns;
  }

  /** What one of several requests meets. */
  datatype Attempt = Attempt(now: int, first: Socket, second: Socket, responseOk: bool)

  lemma GotLeavesSession(before: Pool<Conn>, after: Pool<Conn>, u: Url, now: int, connects: nat, used: Session<Conn>)
    requires Got(before, after, u, now, connects, Some(used))
    ensures BucketOf(after, Flag(u)) != []
  {
  }

  /** An attempt whose response is read on any connection, and given a new one if it needs it. */
  predicate Willing(a: Attempt, request: Option<bytes>) {
    a.responseOk && request.Some? && Sends(a.second.reachable, request.value, a.second.accepts)
  }

  lemma WillingIsRead(a: Attempt, request: Option<bytes>, connected: bool, open: bool, accepts: seq<nat>)
    requires Willing(a, request) && (connected || a.first.reachable)
    ensures ResponseIsRead(request, connected, open, accepts, a.first, a.second)
  {
  }

  /** One attempt, as one of several sees it. */
  method Try(pool: SessionPool<Conn>, ghost conns: set<Conn>, url: string, ghost key: string,
             serialize: Url -> Option<bytes>, a: Attempt, ghost willing: bool, ghost homes: Homes)
    returns (served: bool, connects: nat, ghost after: set<Conn>)
    requires PoolValid(pool.pool, conns, homes) && LeadHome(homes)
    requires ValidChunks(a.first.incoming) && ValidChunks(a.second.incoming)
    requires Parse(url).Some? ==> key == Flag(Parse(url).value)
    requires willing ==> Parse(url).Some? && Willing(a, serialize(Parse(url).value))
    modifies pool, conns
    ensures PoolValid(pool.pool, after, homes) && conns <= after && fresh(after - conns)
    ensures Parse(url).None? ==> !served && connects == 0
    ensures Parse(url).Some? ==> connects == if BucketOf(old(pool.pool), key) == [] then 1 else 0
    ensures served ==> BucketOf(pool.pool, key) != []
    ensures willing && (BucketOf(old(pool.pool), key) == [] ==> a.first.reachable) ==> served
  {
    ghost var before := pool.pool;
    ghost var open, accepts := HeadIsOpen(before, key), HeadAccepts(before, key);
    var used;
    connects, used, after := Get(pool, conns, url, serialize, a.now, a.first, a.second, a.responseOk, homes);
    served := used.Some?;
    if willing && (BucketOf(before, key) == [] ==> a.first.reachable) {
      WillingIsRead(a, serialize(Parse(url).value), BucketOf(before, key) != [], open, accepts);
    }
    if served {
      GotLeavesSession(before, pool.pool, Parse(url).value, a.now, connects, used.value);
    }
  }

  predicate AllServed(served: seq<bool>) {
    forall i :: 0 <= i < |served| ==> served[i]
  }

  lemma OneMoreServed(served: seq<bool>, ok: bool)
    ensures AllServed(served + [ok]) <==> AllServed(served) && ok
  {
    assert forall i :: 0 <= i < |served| ==> (served + [ok])[i] == served[i];
    assert (served + [ok])[|served|] == ok;
  }

  /** Whether each attempt would go out on a reconnect, and the first can connect if it has to. */
  predicate AllWilling(attempts: seq<Attempt>, request: Option<bytes>, empty: bool) {
    && (forall i :: 0 <= i < |attempts| ==> Willing(attempts[i], request))
    && (attempts != [] && empty ==> attempts[0].first.reachable)
  }

  /** Several requests on one URL, one after another; `served` says which of them had their response
      read. If all did, the first opened a connection if the bucket was empty, and no other opened
      any; and all do if each would go out on a reconnect and the first can connect if it has to. */
  method GetRepeatedly(pool: SessionPool<Conn>, ghost conns: set<Conn>, url: string, serialize: Url -> Option<bytes>,
                       attempts: seq<Attempt>)
    returns (served: seq<bool>, connects: nat, ghost after: set<Conn>)
    requires PoolValid(pool.pool, conns, HomeOf)
    requires forall i :: 0 <= i < |attempts| ==>
               ValidChunks(attempts[i].first.incoming) && ValidChunks(attempts[i].second.incoming)
    modifies pool, conns
    ensures PoolValid(pool.pool, after, HomeOf) && conns <= after && fresh(after - conns)
    ensures |served| == |attempts| && (Parse(url).None? && attempts != [] ==> !AllServed(served))
    ensures AllServed(served) && attempts != [] ==>
              connects == if BucketOf(old(pool.pool), Flag(Parse(url).value)) == [] then 1 else 0
    ensures Parse(url).Some? &&
            AllWilling(attempts, serialize(Parse(url).value),
                       BucketOf(old(pool.pool), Flag(Parse(url).value)) == []) ==>
              AllServed(served)
  {
    served, connects, after := [], 0, conns;
    FlagsLeadHome();
    ghost var parses := Parse(url).Some?;
    ghost var key := if parses then Flag(Parse(url).value) else "";
    ghost var empty := BucketOf(pool.pool, key) == [];
    ghost var willing := parses && AllWilling(attempts, serialize(Parse(url).value), empty);
    for i := 0 to |attempts|
      invariant PoolValid(pool.pool, after, HomeOf) && conns <= after && fresh(after - conns)
      invariant |served| == i
      invariant i == 0 ==> connects == 0 && (BucketOf(pool.pool, key) == [] <==> empty)
      invariant i > 0 && AllServed(served) ==>
                  parses && BucketOf(pool.pool, key) != [] && connects == if empty then 1 else 0
      invariant willing ==> AllServed(served)
    {
      var ok, n;
      ok, n, after := Try(pool, after, url, key, serialize, attempts[i], willing, HomeOf);
      OneMoreServed(served, ok);
      served, connects := served + [ok], connects + n;
    }
  }
}
