/**
 Every interleaved run of requests over the session pool. A request begins by taking a
 session, starts by connecting it if it must, and either fails, dropping the session, or
 finishes, giving it back. A cleaner expires idle sessions at any time, under whatever
 timeout is set then.
 */
module PoolRuns {
  import opened Wrappers
  import opened Url
  import opened SessionPool

  datatype InFlight = InFlight(key: string, session: Session<nat>, started: bool)

  /** Connections are numbered as they are opened; `nextConn` is the next number. */
  datatype State = State(pool: Pool<nat>, tasks: map<nat, InFlight>, nextConn: nat, now: int)

  datatype Event =
    | Begin(task: nat, url: string)
    | Start(task: nat)
    | Fail(task: nat)
    | Finish(task: nat)
    | Expire(timeout: int)
    | Tick(ms: nat)

  const INITIAL := State(map[], map[], 0, 0)

  /** Whether a request on `key` has to open a connection for this session. */
  predicate NeedsConnect<C>(session: Session<C>, key: string) {
    session.conn.None? || session.flag != key
  }

  /** The session a started request uses. */
  function Used(r: InFlight, next: nat, now: int): Session<nat> {
    if NeedsConnect(r.session, r.key) then Session(Some(next), r.key, now) else r.session.(lastUse := now)
  }

  function Begun(s: State, t: nat, key: string): State {
    var (session, pool) := TakeSession(s.pool, key, s.now);
    s.(pool := pool, tasks := s.tasks[t := InFlight(key, session, false)])
  }

  function Started(s: State, t: nat): State
    requires t in s.tasks
  {
    var r := s.tasks[t];
    s.(tasks := s.tasks[t := InFlight(r.key, Used(r, s.nextConn, s.now), true)],
       nextConn := if NeedsConnect(r.session, r.key) then s.nextConn + 1 else s.nextConn)
  }

  function Finished(s: State, t: nat): State
    requires t in s.tasks
  {
    s.(pool := GiveSession(s.pool, s.tasks[t].session), tasks := s.tasks - {t})
  }

  /** The state after one event, if the event can happen. A URL that does not parse raises
      before the pool is touched. */
  function Step(s: State, e: Event): Option<State> {
    match e
    case Begin(t, url) =>
      if t in s.tasks then None
      else if Parse(url).None? then Some(s)
      else Some(Begun(s, t, Flag(Parse(url).value)))
    case Start(t) => if t !in s.tasks || s.tasks[t].started then None else Some(Started(s, t))
    case Fail(t) => if t !in s.tasks then None else Some(s.(tasks := s.tasks - {t}))
    case Finish(t) => if t !in s.tasks || !s.tasks[t].started then None else Some(Finished(s, t))
    case Expire(timeout) => Some(s.(pool := CleanPool(s.pool, s.now, timeout)))
    case Tick(ms) => Some(s.(now := s.now + ms))
  }

  function Run(es: seq<Event>): Option<State> {
    if es == [] then Some(INITIAL)
    else match Run(es[..|es| - 1])
      case None => None
      case Some(s) => Step(s, es[|es| - 1])
  }

  lemma RunStep(es: seq<Event>, e: Event)
    requires Run(es).Some?
    ensures Run(es + [e]) == Step(Run(es).value, e)
  {
    assert (es + [e])[..|es|] == es;
  }

  /** A run is a chain of steps. */
  lemma {:induction false} RunOfSteps(es: seq<Event>, ss: seq<State>)
    requires |ss| == |es| + 1 && ss[0] == INITIAL
    requires forall i :: 0 <= i < |es| ==> Step(ss[i], es[i]) == Some(ss[i + 1])
    ensures Run(es) == Some(ss[|es|])
  {
    if es != [] {
      RunOfSteps(es[..|es| - 1], ss[..|es|]);
    }
  }

  // ---------- Ownership ----------

  /** Where a connection can be: a slot of a bucket or the hands of a request. */
  datatype Place = Slot(key: string, i: nat) | Holder(task: nat)

  ghost predicate At(s: State, p: Place, c: nat) {
    match p
    case Slot(k, i) => k in s.pool && i < |s.pool[k]| && s.pool[k][i].conn == Some(c)
    case Holder(t) => t in s.tasks && s.tasks[t].session.conn == Some(c)
  }

  /** No connection is in two places. */
  ghost predicate Exclusive(s: State) {
    forall p, q, c: nat :: At(s, p, c) && At(s, q, c) ==> p == q
  }

  predicate SlotMatches(k: string, x: Session<nat>, nextConn: nat) {
    x.flag == k && x.conn.Some? && x.conn.value < nextConn
  }

  /** Every pooled session is connected under its bucket's flag. */
  ghost predicate BucketsMatch(s: State) {
    forall k, i :: k in s.pool && 0 <= i < |s.pool[k]| ==> SlotMatches(k, s.pool[k][i], s.nextConn)
  }

  /** A request holds a new session or one connected under its key; a started one is connected. */
  predicate HolderMatches(r: InFlight, nextConn: nat) {
    if r.session.conn.None? then !r.started else r.session.flag == r.key && r.session.conn.value < nextConn
  }

  ghost predicate TasksMatch(s: State) {
    forall t :: t in s.tasks ==> HolderMatches(s.tasks[t], s.nextConn)
  }

  ghost predicate Owned(s: State) {
    BucketsMatch(s) && TasksMatch(s) && Exclusive(s)
  }

  /** Connections that only move, each from a place of its own, stay exclusive. */
  lemma MoveKeepsExclusive(s: State, s': State, origin: Place -> Place)
    requires Exclusive(s)
    requires forall p, c: nat :: At(s', p, c) ==> At(s, origin(p), c)
    requires forall p, q, c: nat :: At(s', p, c) && At(s', q, c) && origin(p) == origin(q) ==> p == q
    ensures Exclusive(s')
  {
    forall p, q, c: nat | At(s', p, c) && At(s', q, c)
      ensures p == q
    {
      assert At(s, origin(p), c) && At(s, origin(q), c);
    }
  }

  lemma BegunKeepsOwnership(s: State, t: nat, key: string)
    requires Owned(s) && t !in s.tasks
    ensures Owned(Begun(s, t, key))
  {
    var d := if BucketOf(s.pool, key) == [] then 0 else 1;
    assert d == 1 ==> SlotMatches(key, s.pool[key][0], s.nextConn);
    MoveKeepsExclusive(s, Begun(s, t, key), (p: Place) =>
      match p
      case Slot(k, i) => Slot(k, if k == key then i + d else i)
      case Holder(u) => if u == t then Slot(key, 0) else p);
  }

  lemma StartedKeepsOwnership(s: State, t: nat)
    requires Owned(s) && t in s.tasks
    ensures Owned(Started(s, t))
  {
    var s' := Started(s, t);
    assert HolderMatches(s.tasks[t], s.nextConn);
    if s'.nextConn == s.nextConn {
      MoveKeepsExclusive(s, s', (p: Place) => p);
    } else {
      forall p, q, c: nat | At(s', p, c) && At(s', q, c)
        ensures p == q
      {
        ConnsAreNumbered(s, p);
        ConnsAreNumbered(s, q);
        assert p == Holder(t) || At(s, p, c);
        assert q == Holder(t) || At(s, q, c);
      }
    }
  }

  lemma ConnsAreNumbered(s: State, p: Place)
    requires BucketsMatch(s) && TasksMatch(s)
    ensures forall c: nat :: At(s, p, c) ==> c < s.nextConn
  {
    match p
    case Slot(k, i) =>
      if k in s.pool && i < |s.pool[k]| {
        assert SlotMatches(k, s.pool[k][i], s.nextConn);
      }
    case Holder(t) =>
  }

  lemma FinishedKeepsOwnership(s: State, t: nat)
    requires Owned(s) && t in s.tasks && s.tasks[t].started
    ensures Owned(Finished(s, t))
  {
    var x := s.tasks[t].session;
    var n := |BucketOf(s.pool, x.flag)|;
    assert HolderMatches(s.tasks[t], s.nextConn);
    MoveKeepsExclusive(s, Finished(s, t), (p: Place) => if p == Slot(x.flag, n) then Holder(t) else p);
  }

  function Dropped(s: State, k: string, timeout: int): nat {
    if k in s.pool then |s.pool[k]| - |Prune(s.pool[k], s.now, timeout)| else 0
  }

  lemma CleanedSlot(s: State, k: string, i: nat, timeout: int)
    requires k in s.pool && i < |Prune(s.pool[k], s.now, timeout)|
    ensures Prune(s.pool[k], s.now, timeout)[i] == s.pool[k][i + Dropped(s, k, timeout)]
  {
    PruneIsLongestPrefix(s.pool[k], s.now, timeout);
  }

  function BeforeCleaning(s: State, p: Place, timeout: int): Place {
    match p
    case Slot(k, i) => Slot(k, i + Dropped(s, k, timeout))
    case Holder(_) => p
  }

  lemma ExpireKeepsOwnership(s: State, timeout: int)
    requires Owned(s)
    ensures Owned(Step(s, Expire(timeout)).value)
  {
    var s' := Step(s, Expire(timeout)).value;
    forall k, i | k in s'.pool && 0 <= i < |s'.pool[k]|
      ensures SlotMatches(k, s'.pool[k][i], s'.nextConn)
    {
      CleanedSlot(s, k, i, timeout);
    }
    forall p, c: nat | At(s', p, c)
      ensures At(s, BeforeCleaning(s, p, timeout), c)
    {
      if p.Slot? {
        CleanedSlot(s, p.key, p.i, timeout);
      }
    }
    MoveKeepsExclusive(s, s', (p: Place) => BeforeCleaning(s, p, timeout));
  }

  lemma StepKeepsOwnership(s: State, e: Event)
    requires Owned(s) && Step(s, e).Some?
    ensures Owned(Step(s, e).value)
  {
    match e
    case Begin(t, url) =>
      if Parse(url).Some? {
        BegunKeepsOwnership(s, t, Flag(Parse(url).value));
      }
    case Start(t) => StartedKeepsOwnership(s, t);
    case Fail(t) =>
      MoveKeepsExclusive(s, Step(s, e).value, (p: Place) => p);
    case Finish(t) => FinishedKeepsOwnership(s, t);
    case Expire(timeout) => ExpireKeepsOwnership(s, timeout);
    case Tick(_) => MoveKeepsExclusive(s, Step(s, e).value, (p: Place) => p);
  }

  /** In every run, no connection is both pooled and in use or held twice, and every
      pooled session is connected under its bucket's flag. */
  lemma {:induction false} RunsAreExclusive(es: seq<Event>)
    requires Run(es).Some?
    ensures Owned(Run(es).value)
  {
    if es != [] {
      RunsAreExclusive(es[..|es| - 1]);
      StepKeepsOwnership(Run(es[..|es| - 1]).value, es[|es| - 1]);
    }
  }

  /** Whether an event is a step of request `t`. */
  predicate Touches(e: Event, t: nat) {
    match e
    case Begin(u, _) => u == t
    case Start(u) => u == t
    case Fail(u) => u == t
    case Finish(u) => u == t
    case Expire(_) => false
    case Tick(_) => false
  }

  lemma OtherStep(s: State, e: Event, t: nat)
    requires !Touches(e, t) && t in s.tasks && Step(s, e).Some?
    ensures t in Step(s, e).value.tasks && Step(s, e).value.tasks[t] == s.tasks[t]
  {
  }

  lemma RunFront(es: seq<Event>)
    requires es != [] && Run(es).Some?
    ensures Run(es[..|es| - 1]).Some? && Step(Run(es[..|es| - 1]).value, es[|es| - 1]) == Run(es)
  {
  }

  /** What other requests and the cleaner do leaves a request's session alone. */
  lemma {:induction false} OthersLeaveRequest(es: seq<Event>, n: nat, t: nat)
    requires n <= |es| && forall i :: n <= i < |es| ==> !Touches(es[i], t)
    requires Run(es).Some? && Run(es[..n]).Some? && t in Run(es[..n]).value.tasks
    ensures t in Run(es).value.tasks && Run(es).value.tasks[t] == Run(es[..n]).value.tasks[t]
  {
    if n == |es| {
      assert es[..n] == es;
    } else {
      var front := es[..|es| - 1];
      assert front[..n] == es[..n];
      RunFront(es);
      OthersLeaveRequest(front, n, t);
      OtherStep(Run(front).value, es[|es| - 1], t);
    }
  }

  lemma StartUsesTaken(s: State, m: State, t: nat, key: string)
    requires BucketsMatch(s) && t in m.tasks && m.tasks[t] == Begun(s, t, key).tasks[t]
    ensures var bucket := BucketOf(s.pool, key);
            && Step(m, Start(t)) == Some(Started(m, t))
            && var x := Started(m, t).tasks[t].session;
               && x.flag == key
               && (if bucket == [] then x.conn == Some(m.nextConn) && Started(m, t).nextConn == m.nextConn + 1
                   else x.conn == bucket[0].conn && Started(m, t).nextConn == m.nextConn)
  {
    if BucketOf(s.pool, key) != [] {
      assert SlotMatches(key, s.pool[key][0], s.nextConn);
    }
  }

  /** Whatever happens between taking a session and using it, a request uses the session it
      took, without a new connection, exactly when its bucket was not empty when it began;
      otherwise it opens exactly one connection, and either way it ends up under its own key. */
  lemma ConnectsExactlyWhenBucketEmpty(es: seq<Event>, t: nat, url: string, mid: seq<Event>)
    requires Run(es).Some? && t !in Run(es).value.tasks && Parse(url).Some?
    requires forall i :: 0 <= i < |mid| ==> !Touches(mid[i], t)
    requires Run(es + [Begin(t, url)] + mid).Some?
    ensures var bucket := BucketOf(Run(es).value.pool, Flag(Parse(url).value));
            var m := Run(es + [Begin(t, url)] + mid).value;
            && t in m.tasks && Step(m, Start(t)) == Some(Started(m, t))
            && var x := Started(m, t).tasks[t].session;
               && x.flag == Flag(Parse(url).value)
               && (if bucket == [] then x.conn == Some(m.nextConn) && Started(m, t).nextConn == m.nextConn + 1
                   else x.conn == bucket[0].conn && Started(m, t).nextConn == m.nextConn)
  {
    var s, key := Run(es).value, Flag(Parse(url).value);
    RunStep(es, Begin(t, url));
    var all := es + [Begin(t, url)] + mid;
    assert all[..|es| + 1] == es + [Begin(t, url)];
    OthersLeaveRequest(all, |es| + 1, t);
    RunsAreExclusive(es);
    StartUsesTaken(s, Run(all).value, t, key);
  }

  // ---------- How a connection is lost ----------

  /** Whether an event loses the connection at a place: its request fails, or it and every session
      before it in its bucket have been idle for the timeout. */
  ghost predicate Loses(s: State, e: Event, p: Place) {
    match e
    case Fail(t) => p == Holder(t)
    case Expire(timeout) =>
      p.Slot? && p.key in s.pool && p.i < |s.pool[p.key]| &&
      forall j :: 0 <= j <= p.i ==> s.pool[p.key][j].lastUse + timeout <= s.now
    case Begin(_, _) => false
    case Start(_) => false
    case Finish(_) => false
    case Tick(_) => false
  }

  ghost predicate Somewhere(s: State, c: nat) {
    exists p :: At(s, p, c)
  }

  lemma BegunKeepsConn(s: State, t: nat, key: string, p: Place, c: nat)
    requires t !in s.tasks && At(s, p, c)
    ensures Somewhere(Begun(s, t, key), c)
  {
    var s' := Begun(s, t, key);
    match p
    case Slot(k, i) =>
      assert if k != key then At(s', p, c) else if i == 0 then At(s', Holder(t), c) else At(s', Slot(k, i - 1), c);
    case Holder(_) =>
      assert At(s', p, c);
  }

  lemma StartedKeepsConn(s: State, t: nat, p: Place, c: nat)
    requires TasksMatch(s) && t in s.tasks && At(s, p, c)
    ensures Somewhere(Started(s, t), c)
  {
    assert HolderMatches(s.tasks[t], s.nextConn);
    assert At(Started(s, t), p, c);
  }

  lemma FinishedKeepsConn(s: State, t: nat, p: Place, c: nat)
    requires t in s.tasks && At(s, p, c)
    ensures Somewhere(Finished(s, t), c)
  {
    var x := s.tasks[t].session;
    assert At(Finished(s, t), if p == Holder(t) then Slot(x.flag, |BucketOf(s.pool, x.flag)|) else p, c);
  }

  lemma FailedLosesConn(s: State, t: nat, p: Place, c: nat)
    requires Exclusive(s) && t in s.tasks && At(s, p, c)
    ensures Somewhere(Step(s, Fail(t)).value, c) <==> p != Holder(t)
  {
    var s' := Step(s, Fail(t)).value;
    assert p != Holder(t) ==> At(s', p, c);
    if q :| At(s', q, c) {
      assert At(s, q, c) && q != Holder(t);
    }
  }

  lemma ExpiredLosesConn(s: State, timeout: int, p: Place, c: nat)
    requires Exclusive(s) && At(s, p, c)
    ensures Somewhere(Step(s, Expire(timeout)).value, c) <==> !Loses(s, Expire(timeout), p)
  {
    var s' := Step(s, Expire(timeout)).value;
    match p
    case Holder(_) =>
      assert At(s', p, c);
    case Slot(k, i) =>
      var d := Dropped(s, k, timeout);
      PruneIsLongestPrefix(s.pool[k], s.now, timeout);
      if i >= d {
        assert At(s', Slot(k, i - d), c);
      }
      if q :| At(s', q, c) {
        if q.Slot? {
          CleanedSlot(s, q.key, q.i, timeout);
        }
        assert At(s, BeforeCleaning(s, q, timeout), c);
      }
  }

  /** In every run a connection, wherever it is, is lost exactly by the failure of the request that
      holds it, or by a cleaning that finds it and all before it in its bucket idle for the
      timeout; every other step leaves it in a bucket or with a request. */
  lemma ConnectionLostExactly(es: seq<Event>, e: Event, p: Place, c: nat)
    requires Run(es).Some? && Step(Run(es).value, e).Some? && At(Run(es).value, p, c)
    ensures Somewhere(Step(Run(es).value, e).value, c) <==> !Loses(Run(es).value, e, p)
  {
    var s := Run(es).value;
    RunsAreExclusive(es);
    match e
    case Begin(t, url) =>
      if Parse(url).Some? {
        BegunKeepsConn(s, t, Flag(Parse(url).value), p, c);
      }
    case Start(t) => StartedKeepsConn(s, t, p, c);
    case Fail(t) => FailedLosesConn(s, t, p, c);
    case Finish(t) => FinishedKeepsConn(s, t, p, c);
    case Expire(timeout) => ExpiredLosesConn(s, timeout, p, c);
    case Tick(_) =>
      assert At(Step(s, e).value, p, c);
  }

  // ---------- The resource bound ----------

  /** The requests in flight on a key. */
  function InFlightOn(s: State, k: string): set<nat> {
    set t | t in s.tasks && s.tasks[t].key == k
  }

  /** The largest number of simultaneous requests on a key in a run. */
  function Peak(es: seq<Event>, k: string): (n: nat) {
    if es == [] then 0
    else
      var before := Peak(es[..|es| - 1], k);
      match Run(es)
      case None => before
      case Some(s) => if |InFlightOn(s, k)| > before then |InFlightOn(s, k)| else before
  }

  /** Sessions on a key, pooled or in flight. */
  function Load(s: State, k: string): nat {
    |BucketOf(s.pool, k)| + |InFlightOn(s, k)|
  }

  lemma BegunLoad(s: State, t: nat, key: string, k: string)
    requires t !in s.tasks
    ensures var s' := Begun(s, t, key);
            Load(s', k) == Load(s, k) || Load(s', k) == |InFlightOn(s', k)|
  {
    assert InFlightOn(Begun(s, t, key), k) == if key == k then InFlightOn(s, k) + {t} else InFlightOn(s, k);
  }

  lemma FinishedLoad(s: State, t: nat, k: string)
    requires t in s.tasks && s.tasks[t].session.flag == s.tasks[t].key
    ensures Load(Finished(s, t), k) == Load(s, k)
  {
    assert InFlightOn(Finished(s, t), k) == InFlightOn(s, k) - {t};
  }

  lemma StepLoad(s: State, e: Event, k: string)
    requires Owned(s) && Step(s, e).Some?
    ensures var s' := Step(s, e).value;
            Load(s', k) <= Load(s, k) || Load(s', k) == |InFlightOn(s', k)|
  {
    var s' := Step(s, e).value;
    match e
    case Begin(t, url) =>
      if Parse(url).Some? {
        BegunLoad(s, t, Flag(Parse(url).value), k);
      }
    case Start(t) =>
      assert InFlightOn(s', k) == InFlightOn(s, k);
    case Fail(t) =>
      SubsetSize(InFlightOn(s', k), InFlightOn(s, k));
    case Finish(t) =>
      assert HolderMatches(s.tasks[t], s.nextConn);
      FinishedLoad(s, t, k);
    case Expire(_) =>
      assert InFlightOn(s', k) == InFlightOn(s, k);
    case Tick(_) =>
      assert InFlightOn(s', k) == InFlightOn(s, k);
  }

  lemma {:induction false} SubsetSize(a: set<nat>, b: set<nat>)
    requires a <= b
    ensures |a| <= |b|
  {
    if x :| x in a {
      SubsetSize(a - {x}, b - {x});
    }
  }

  /** In every run, the sessions on a key never outnumber the largest number of requests
      that were in flight on it at once. */
  lemma {:induction false} SessionsWithinPeak(es: seq<Event>, k: string)
    requires Run(es).Some?
    ensures Load(Run(es).value, k) <= Peak(es, k)
  {
    if es != [] {
      var fs := es[..|es| - 1];
      SessionsWithinPeak(fs, k);
      RunsAreExclusive(fs);
      StepLoad(Run(fs).value, es[|es| - 1], k);
    }
  }

  // ---------- Runs that finish in start order ----------

  /** Whether no started request on the same key began before request `t`. */
  ghost predicate FinishesFirst(s: State, t: nat)
    requires t in s.tasks
  {
    forall u :: u in s.tasks && s.tasks[u].started && s.tasks[u].key == s.tasks[t].key ==>
      s.tasks[t].session.lastUse <= s.tasks[u].session.lastUse
  }

  ghost predicate InOrder(es: seq<Event>) {
    es == [] ||
    (var fs, e := es[..|es| - 1], es[|es| - 1];
     && InOrder(fs)
     && (e.Finish? && Run(fs).Some? && e.task in Run(fs).value.tasks ==> FinishesFirst(Run(fs).value, e.task)))
  }

  /** Buckets are sorted, and every started request was last used no earlier than what its
      bucket holds. */
  ghost predicate Ordered(s: State) {
    && (forall k :: k in s.pool ==> Sorted(s.pool[k]))
    && (forall k, i :: k in s.pool && 0 <= i < |s.pool[k]| ==> s.pool[k][i].lastUse <= s.now)
    && (forall t :: t in s.tasks && s.tasks[t].started ==> s.tasks[t].session.lastUse <= s.now)
    && (forall t, i :: t in s.tasks && s.tasks[t].started && s.tasks[t].key in s.pool &&
                       0 <= i < |s.pool[s.tasks[t].key]| ==>
          s.pool[s.tasks[t].key][i].lastUse <= s.tasks[t].session.lastUse)
  }

  predicate Moved(s: State, s': State, k: string, i: nat, d: nat)
    requires k in s'.pool && i < |s'.pool[k]|
  {
    k in s.pool && i + d < |s.pool[k]| && s'.pool[k][i] == s.pool[k][i + d]
  }

  /** Whether a state's buckets are ends of the buckets before, from `shift` on, and its started
      requests were there before. */
  ghost predicate Shortened(s: State, s': State, shift: string -> nat) {
    && s'.now == s.now
    && (forall t :: t in s'.tasks && s'.tasks[t].started ==> t in s.tasks && s'.tasks[t] == s.tasks[t])
    && (forall k, i :: k in s'.pool && 0 <= i < |s'.pool[k]| ==> Moved(s, s', k, i, shift(k)))
  }

  lemma ShortenedKeepsOrder(s: State, s': State, shift: string -> nat)
    requires Ordered(s) && Shortened(s, s', shift)
    ensures Ordered(s')
  {
    forall k, i, j | k in s'.pool && 0 <= i < j < |s'.pool[k]|
      ensures s'.pool[k][i].lastUse <= s'.pool[k][j].lastUse
    {
      assert Moved(s, s', k, i, shift(k)) && Moved(s, s', k, j, shift(k));
    }
    forall k, i | k in s'.pool && 0 <= i < |s'.pool[k]|
      ensures s'.pool[k][i].lastUse <= s'.now
    {
      assert Moved(s, s', k, i, shift(k));
    }
    forall t, i | t in s'.tasks && s'.tasks[t].started && s'.tasks[t].key in s'.pool &&
                  0 <= i < |s'.pool[s'.tasks[t].key]|
      ensures s'.pool[s'.tasks[t].key][i].lastUse <= s'.tasks[t].session.lastUse
    {
      assert Moved(s, s', s'.tasks[t].key, i, shift(s'.tasks[t].key));
    }
  }

  lemma BegunKeepsOrder(s: State, t: nat, key: string)
    requires Ordered(s) && t !in s.tasks
    ensures Ordered(Begun(s, t, key))
  {
    ShortenedKeepsOrder(s, Begun(s, t, key), k => if k == key then 1 else 0);
  }

  lemma StartedKeepsOrder(s: State, t: nat)
    requires Ordered(s) && t in s.tasks
    ensures Ordered(Started(s, t))
  {
  }

  lemma FinishedKeepsOrder(s: State, t: nat)
    requires Owned(s) && Ordered(s) && t in s.tasks && s.tasks[t].started && FinishesFirst(s, t)
    ensures Ordered(Finished(s, t))
  {
    assert HolderMatches(s.tasks[t], s.nextConn);
  }

  lemma ExpiredKeepsOrder(s: State, timeout: int)
    requires Ordered(s)
    ensures Ordered(s.(pool := CleanPool(s.pool, s.now, timeout)))
  {
    var pool := CleanPool(s.pool, s.now, timeout);
    forall k, i | k in pool && 0 <= i < |pool[k]|
      ensures Moved(s, s.(pool := pool), k, i, Dropped(s, k, timeout))
    {
      CleanedSlot(s, k, i, timeout);
    }
    ShortenedKeepsOrder(s, s.(pool := pool), k => Dropped(s, k, timeout));
  }

  lemma StepKeepsOrder(s: State, e: Event)
    requires Owned(s) && Ordered(s) && Step(s, e).Some?
    requires e.Finish? ==> FinishesFirst(s, e.task)
    ensures Ordered(Step(s, e).value)
  {
    match e
    case Begin(t, url) =>
      if Parse(url).Some? {
        BegunKeepsOrder(s, t, Flag(Parse(url).value));
      }
    case Start(t) => StartedKeepsOrder(s, t);
    case Fail(t) =>
    case Finish(t) => FinishedKeepsOrder(s, t);
    case Expire(timeout) => ExpiredKeepsOrder(s, timeout);
    case Tick(_) =>
  }

  /** In runs whose requests finish in start order, buckets stay sorted by last use, and a
      cleaning at any point, under any timeout, leaves no expired session. */
  lemma {:induction false} InOrderRunsStaySorted(es: seq<Event>, timeout: int)
    requires Run(es).Some? && InOrder(es)
    ensures Ordered(Run(es).value)
    ensures var s := Run(es).value;
            forall k, x :: k in s.pool && x in CleanPool(s.pool, s.now, timeout)[k] ==> !Expired(x, s.now, timeout)
  {
    if es != [] {
      var fs := es[..|es| - 1];
      InOrderRunsStaySorted(fs, timeout);
      RunsAreExclusive(fs);
      StepKeepsOrder(Run(fs).value, es[|es| - 1]);
    }
    var s := Run(es).value;
    forall k, x | k in s.pool && x in CleanPool(s.pool, s.now, timeout)[k]
      ensures !Expired(x, s.now, timeout)
    {
      SortedPruneLeavesNoneExpired(s.pool[k], s.now, timeout);
    }
  }
}
