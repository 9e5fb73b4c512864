/**
 The HTTP server's request loop on one connection. The user's callbacks, the serialiser
 and the socket are data: each request comes with what they will do. The log records the
 calls that matter for the order and number of responses.
 */
module HttpServer {
  import opened Wrappers

  /** Which callbacks are installed; `paths` have their own handler. */
  datatype Config = Config(hasBefore: bool, hasAfter: bool, paths: set<string>)

  datatype Before = Passes | Intercepts(code: int) | BeforeRaises

  datatype Reply = Returns(code: int) | Raises

  /** One request and what the callbacks and the socket do with it. */
  datatype Exchange = Exchange(path: string, before: Before, handler: Reply, unhandled: Reply, upgraded: bool,
                               afterRaises: bool, serializes: bool, sends: bool)

  datatype Event = Handled(i: nat) | Unhandled(i: nat) | After(i: nat, code: int) | Sent(i: nat) | SendFailed(i: nat)

  /** Why the loop ended: the next request could not be read, the connection was upgraded, a
      send failed, or an exception went through. */
  datatype Ending = Disconnected | Upgraded | SendError | Raised

  /** What the loop did, how it ended, and at which request. */
  datatype Log = Log(events: seq<Event>, ending: Ending, last: nat)

  /** What one request causes, and how it ends the loop if it does. */
  type Turn = (seq<Event>, Option<Ending>)

  const NOT_FOUND := 404

  predicate Intercepted(cfg: Config, x: Exchange) {
    cfg.hasBefore && x.before.Intercepts?
  }

  /** The code after the handler for the path, -1 when there is none or it raised. */
  function HandlerCode(cfg: Config, x: Exchange): int {
    if x.path in cfg.paths && x.handler.Returns? then x.handler.code else -1
  }

  /** The code after the fallback, still possibly -1. */
  function FallbackCode(cfg: Config, x: Exchange): int {
    if HandlerCode(cfg, x) != -1 then HandlerCode(cfg, x)
    else match x.unhandled
      case Returns(code) => code
      case Raises => NOT_FOUND
  }

  /** The code the after-filter sees. */
  function ResponseCode(cfg: Config, x: Exchange): int {
    if Intercepted(cfg, x) then x.before.code
    else if FallbackCode(cfg, x) == -1 then NOT_FOUND
    else FallbackCode(cfg, x)
  }

  function Handlers(cfg: Config, x: Exchange, i: nat): seq<Event> {
    (if x.path in cfg.paths then [Handled(i)] else []) + (if HandlerCode(cfg, x) == -1 then [Unhandled(i)] else [])
  }

  /** The after-filter, the serialiser and the send; `None` when the loop goes on. */
  function Respond(cfg: Config, x: Exchange, i: nat): (seq<Event>, Option<Ending>) {
    var after := if cfg.hasAfter then [After(i, ResponseCode(cfg, x))] else [];
    if (cfg.hasAfter && x.afterRaises) || !x.serializes then (after, Some(Raised))
    else if x.sends then (after + [Sent(i)], None)
    else (after + [SendFailed(i)], Some(SendError))
  }

  /** Everything one request causes. */
  function ServeOne(cfg: Config, x: Exchange, i: nat): Turn {
    if cfg.hasBefore && x.before.BeforeRaises? then ([], Some(Raised))
    else if Intercepted(cfg, x) then Respond(cfg, x, i)
    else if x.upgraded then (Handlers(cfg, x, i), Some(Upgraded))
    else (Handlers(cfg, x, i) + Respond(cfg, x, i).0, Respond(cfg, x, i).1)
  }

  /** What each request causes, in order. */
  function Turns(cfg: Config, xs: seq<Exchange>): (turns: seq<Turn>)
    ensures |turns| == |xs| && forall i :: 0 <= i < |xs| ==> turns[i] == ServeOne(cfg, xs[i], i)
  {
    seq(|xs|, i requires 0 <= i < |xs| => ServeOne(cfg, xs[i], i))
  }

  /** Taking turns from `i` on, up to one that ends the loop. */
  function Play(turns: seq<Turn>, i: nat): Log
    requires i <= |turns|
    decreases |turns| - i
  {
    if i == |turns| then Log([], Disconnected, i)
    else Taken(turns[i], i, Play(turns, i + 1))
  }

  /** The log once turn `i` was taken before what came later. */
  function Taken(turn: Turn, i: nat, later: Log): Log {
    match turn.1
    case Some(ending) => Log(turn.0, ending, i)
    case None => Prepend(turn.0, later)
  }

  /** The loop on a stream of requests. */
  function Serve(cfg: Config, xs: seq<Exchange>): Log {
    Play(Turns(cfg, xs), 0)
  }

  function Prepend(events: seq<Event>, l: Log): Log {
    l.(events := events + l.events)
  }

  lemma PrependTwice(a: seq<Event>, b: seq<Event>, l: Log)
    ensures Prepend(a, Prepend(b, l)) == Prepend(a + b, l)
    ensures l.events == [] ==> Prepend(a, l) == l.(events := a)
    ensures Prepend([], l) == l
  {
    assert a + (b + l.events) == a + b + l.events;
    assert a + [] == a && [] + l.events == l.events;
  }

  lemma LoopStep(before: seq<Event>, turns: seq<Turn>, i: nat)
    requires i < |turns|
    ensures var (events, end) := turns[i];
            Prepend(before, Play(turns, i)) ==
            if end.Some? then Log(before + events, end.value, i) else Prepend(before + events, Play(turns, i + 1))
  {
    if turns[i].1.None? {
      PrependTwice(before, turns[i].0, Play(turns, i + 1));
    }
  }

  /** The request loop. */
  method ProcessRequests(cfg: Config, xs: seq<Exchange>) returns (log: Log)
    ensures log == Serve(cfg, xs)
    ensures log.last <= |xs| && forall k :: 0 <= k < log.last ==> Answers(cfg, xs[k])
    ensures if log.last == |xs| then log.ending == Disconnected else EndsBy(cfg, xs[log.last], log.ending)
  {
    LoopEndsExactly(cfg, xs);
    ghost var turns := Turns(cfg, xs);
    var events: seq<Event> := [];
    var i: nat := 0;
    PrependTwice([], [], Play(turns, 0));
    while i < |xs|
      invariant i <= |xs|
      invariant Prepend(events, Play(turns, i)) == Serve(cfg, xs)
    {
      LoopStep(events, turns, i);
      var steps, ending := ServeRequest(cfg, xs[i], i);
      events := events + steps;
      if ending.Some? {
        return Log(events, ending.value, i);
      }
      i := i + 1;
    }
    PrependTwice(events, [], Play(turns, i));
    log := Log(events, Disconnected, i);
  }

  /** One turn of the loop. */
  method ServeRequest(cfg: Config, x: Exchange, i: nat) returns (events: seq<Event>, ending: Option<Ending>)
    ensures (events, ending) == ServeOne(cfg, x, i)
  {
    if cfg.hasBefore {
      if x.before.BeforeRaises? {
        return [], Some(Raised);
      }
      if x.before.Intercepts? {
        events, ending := SendResponse(cfg, x, i, x.before.code);
        return;
      }
    }
    var code, handlers := RunHandlers(cfg, x, i);
    if x.upgraded {
      return handlers, Some(Upgraded);
    }
    if code == -1 {
      code := NOT_FOUND;
    }
    events, ending := SendResponse(cfg, x, i, code);
    events := handlers + events;
  }

  /** Runs the path's handler and, if it left no response, the fallback. */
  method RunHandlers(cfg: Config, x: Exchange, i: nat) returns (code: int, events: seq<Event>)
    ensures code == FallbackCode(cfg, x) && events == Handlers(cfg, x, i)
  {
    code, events := -1, [];
    if x.path in cfg.paths {
      events := [Handled(i)];
      if x.handler.Returns? {
        code := x.handler.code;
      }
    }
    if code == -1 {
      events := events + [Unhandled(i)];
      match x.unhandled {
        case Returns(c) => code := c;
        case Raises => code := NOT_FOUND;
      }
    }
  }

  method SendResponse(cfg: Config, x: Exchange, i: nat, code: int) returns (events: seq<Event>, ending: Option<Ending>)
    requires code == ResponseCode(cfg, x)
    ensures (events, ending) == Respond(cfg, x, i)
    ensures ending == if (cfg.hasAfter && x.afterRaises) || !x.serializes then Some(Raised)
                      else if x.sends then None else Some(SendError)
  {
    events := [];
    if cfg.hasAfter {
      events := [After(i, code)];
      if x.afterRaises {
        return events, Some(Raised);
      }
    }
    if !x.serializes {
      return events, Some(Raised);
    }
    if !x.sends {
      return events + [SendFailed(i)], Some(SendError);
    }
    return events + [Sent(i)], None;
  }

  // ---------- What the log shows ----------

  predicate IsAttempt(e: Event) { e.Sent? || e.SendFailed? }

  /** The requests of the send attempts, or of the after-filter calls, in order. */
  function Requests(events: seq<Event>, attempts: bool): seq<nat> {
    if events == [] then []
    else
      var e := events[0];
      (if (if attempts then IsAttempt(e) else e.After?) then [e.i] else []) + Requests(events[1..], attempts)
  }

  function Attempts(events: seq<Event>): seq<nat> { Requests(events, true) }

  function Afters(events: seq<Event>): seq<nat> { Requests(events, false) }

  /** The requests `i`, `i + 1`, ... up to but not including `n`. */
  predicate CountsUp(r: seq<nat>, i: nat, n: nat) {
    i + |r| == n && forall k :: 0 <= k < |r| ==> r[k] == i + k
  }

  lemma {:induction false} RequestsConcat(a: seq<Event>, b: seq<Event>, attempts: bool)
    ensures Requests(a + b, attempts) == Requests(a, attempts) + Requests(b, attempts)
  {
    if a == [] {
      assert a + b == b;
    } else {
      assert (a + b)[1..] == a[1..] + b;
      RequestsConcat(a[1..], b, attempts);
      var head := Requests([a[0]], attempts);
      assert head + (Requests(a[1..], attempts) + Requests(b, attempts)) ==
             head + Requests(a[1..], attempts) + Requests(b, attempts);
    }
  }

  lemma RequestsOfOne(e: Event, attempts: bool)
    ensures Requests([e], attempts) == if (if attempts then IsAttempt(e) else e.After?) then [e.i] else []
  {
    assert [e][1..] == [];
  }

  lemma HandlersAreSilent(cfg: Config, x: Exchange, i: nat, attempts: bool)
    ensures Requests(Handlers(cfg, x, i), attempts) == []
  {
    RequestsOfOne(Handled(i), attempts);
    RequestsOfOne(Unhandled(i), attempts);
    RequestsConcat(if x.path in cfg.paths then [Handled(i)] else [],
                   if HandlerCode(cfg, x) == -1 then [Unhandled(i)] else [], attempts);
  }

  lemma RespondCounts(cfg: Config, x: Exchange, i: nat, attempts: bool)
    ensures var (events, end) := Respond(cfg, x, i);
            && Requests(events, attempts) ==
               (if attempts then (if end == Some(Raised) then [] else [i]) else (if cfg.hasAfter then [i] else []))
            && end != Some(Upgraded) && end != Some(Disconnected)
  {
    var e := if x.sends then Sent(i) else SendFailed(i);
    var after := After(i, ResponseCode(cfg, x));
    RequestsOfOne(e, attempts);
    RequestsOfOne(after, attempts);
    RequestsConcat(if cfg.hasAfter then [after] else [], [e], attempts);
  }

  /** The sends and after-filter calls one request may cause. */
  predicate Orderly(turn: Turn, i: nat, hasAfter: bool) {
    var (events, end) := turn;
    && end != Some(Disconnected)
    && Attempts(events) == (if end == None || end == Some(SendError) then [i] else [])
    && (end == None || end == Some(SendError) ==> Afters(events) == if hasAfter then [i] else [])
    && (end == Some(Upgraded) ==> Afters(events) == [])
    && (Afters(events) == [] || Afters(events) == [i])
  }

  lemma OneRequest(cfg: Config, x: Exchange, i: nat)
    ensures Orderly(ServeOne(cfg, x, i), i, cfg.hasAfter)
  {
    HandlersAreSilent(cfg, x, i, true);
    HandlersAreSilent(cfg, x, i, false);
    RespondCounts(cfg, x, i, true);
    RespondCounts(cfg, x, i, false);
    RequestsConcat(Handlers(cfg, x, i), Respond(cfg, x, i).0, true);
    RequestsConcat(Handlers(cfg, x, i), Respond(cfg, x, i).0, false);
  }

  lemma AllOrderly(cfg: Config, xs: seq<Exchange>)
    ensures forall i :: 0 <= i < |xs| ==> Orderly(Turns(cfg, xs)[i], i, cfg.hasAfter)
  {
    forall i | 0 <= i < |xs|
      ensures Orderly(Turns(cfg, xs)[i], i, cfg.hasAfter)
    {
      OneRequest(cfg, xs[i], i);
    }
  }

  lemma CountsUpBefore(events: seq<Event>, later: Log, i: nat, n: nat, attempts: bool)
    requires Requests(events, attempts) == [i] && CountsUp(Requests(later.events, attempts), i + 1, n)
    ensures CountsUp(Requests(Prepend(events, later).events, attempts), i, n)
  {
    RequestsConcat(events, later.events, attempts);
  }

  /** One attempt for each request from `i` on, up to the one the loop ended at, which has one
      exactly when its send failed. */
  predicate Responds(l: Log, i: nat, n: nat) {
    && i <= l.last <= n && (l.last == n <==> l.ending == Disconnected)
    && CountsUp(Attempts(l.events), i, if l.ending == SendError then l.last + 1 else l.last)
  }

  lemma RespondsBefore(turn: Turn, i: nat, n: nat, hasAfter: bool, later: Log)
    requires i < n && Orderly(turn, i, hasAfter) && Responds(later, i + 1, n)
    ensures Responds(Taken(turn, i, later), i, n)
  {
    if turn.1.None? {
      CountsUpBefore(turn.0, later, i, if later.ending == SendError then later.last + 1 else later.last, true);
    }
  }

  lemma {:induction false} PlayResponds(turns: seq<Turn>, i: nat, hasAfter: bool)
    requires i <= |turns| && forall k :: 0 <= k < |turns| ==> Orderly(turns[k], k, hasAfter)
    ensures Responds(Play(turns, i), i, |turns|)
    decreases |turns| - i
  {
    if i < |turns| {
      PlayResponds(turns, i + 1, hasAfter);
      RespondsBefore(turns[i], i, |turns|, hasAfter, Play(turns, i + 1));
    }
  }

  /** Every request whose turn came is answered exactly once and in order: the sends
      attempted are for requests 0, 1, 2, ... up to the one at which the loop ended, and that
      one got an attempt exactly when the loop ended by a failed send. */
  lemma OneResponsePerRequest(cfg: Config, xs: seq<Exchange>)
    ensures var l := Serve(cfg, xs);
            && l.last <= |xs| && (l.last == |xs| <==> l.ending == Disconnected)
            && CountsUp(Attempts(l.events), 0, if l.ending == SendError then l.last + 1 else l.last)
  {
    AllOrderly(cfg, xs);
    PlayResponds(Turns(cfg, xs), 0, cfg.hasAfter);
  }

  /** One after-filter call for each request from `i` on before the one the loop ended at, and
      for that one too if its send failed, but not after an upgrade. */
  predicate Filters(l: Log, i: nat) {
    && i <= l.last
    && (CountsUp(Afters(l.events), i, l.last) || CountsUp(Afters(l.events), i, l.last + 1))
    && (l.ending == SendError ==> CountsUp(Afters(l.events), i, l.last + 1))
    && (l.ending == Upgraded || l.ending == Disconnected ==> CountsUp(Afters(l.events), i, l.last))
  }

  lemma FiltersBefore(turn: Turn, i: nat, later: Log)
    requires Orderly(turn, i, true) && Filters(later, i + 1)
    ensures Filters(Taken(turn, i, later), i)
  {
    if turn.1.None? {
      CountsUpBefore(turn.0, later, i, i + 1 + |Afters(later.events)|, false);
    }
  }

  lemma {:induction false} PlayFilters(turns: seq<Turn>, i: nat)
    requires i <= |turns| && forall k :: 0 <= k < |turns| ==> Orderly(turns[k], k, true)
    ensures Filters(Play(turns, i), i)
    decreases |turns| - i
  {
    if i < |turns| {
      PlayFilters(turns, i + 1);
      FiltersBefore(turns[i], i, Play(turns, i + 1));
    }
  }

  /** The after-filter runs once for each of the same requests; at the request that ended the
      loop it ran unless the loop ended before it. It never runs after an upgrade. */
  lemma OneAfterPerResponse(cfg: Config, xs: seq<Exchange>)
    requires cfg.hasAfter
    ensures var l := Serve(cfg, xs);
            && (CountsUp(Afters(l.events), 0, l.last) || CountsUp(Afters(l.events), 0, l.last + 1))
            && (l.ending == SendError ==> CountsUp(Afters(l.events), 0, l.last + 1))
            && (l.ending == Upgraded || l.ending == Disconnected ==> CountsUp(Afters(l.events), 0, l.last))
  {
    AllOrderly(cfg, xs);
    PlayFilters(Turns(cfg, xs), 0);
  }

  // ---------- The whole log, from the requests alone ----------

  /** Whether a request reaches the handlers. */
  predicate ReachesHandlers(cfg: Config, x: Exchange) {
    !cfg.hasBefore || x.before.Passes?
  }

  /** Whether a request upgrades the connection: nothing more is sent and the loop ends. */
  predicate Upgrades(cfg: Config, x: Exchange) {
    ReachesHandlers(cfg, x) && x.upgraded
  }

  /** Whether an exception goes through the loop: out of the before-filter, or, for a request that
      is answered, out of the after-filter or the serialiser. */
  predicate Throws(cfg: Config, x: Exchange) {
    || (cfg.hasBefore && x.before.BeforeRaises?)
    || (!Upgrades(cfg, x) && ((cfg.hasAfter && x.afterRaises) || !x.serializes))
  }

  /** Whether a request is answered but the send fails. */
  predicate FailsToSend(cfg: Config, x: Exchange) {
    !Upgrades(cfg, x) && !Throws(cfg, x) && !x.sends
  }

  /** Whether a request is answered and the send succeeds. */
  predicate Answers(cfg: Config, x: Exchange) {
    !Upgrades(cfg, x) && !Throws(cfg, x) && x.sends
  }

  /** How a request ends the loop. */
  ghost predicate EndsBy(cfg: Config, x: Exchange, ending: Ending) {
    match ending
    case Disconnected => false
    case Upgraded => Upgrades(cfg, x)
    case Raised => Throws(cfg, x)
    case SendError => FailsToSend(cfg, x)
  }

  lemma TurnEnds(cfg: Config, x: Exchange, i: nat)
    ensures var end := ServeOne(cfg, x, i).1;
            (end == None <==> Answers(cfg, x)) && (end.Some? ==> EndsBy(cfg, x, end.value))
  {
  }

  predicate EndsAt(turns: seq<Turn>, i: nat, l: Log) {
    && i <= l.last <= |turns|
    && (forall k :: i <= k < l.last ==> turns[k].1 == None)
    && (if l.last == |turns| then l.ending == Disconnected else turns[l.last].1 == Some(l.ending))
  }

  lemma {:induction false} PlayEnds(turns: seq<Turn>, i: nat)
    requires i <= |turns|
    ensures EndsAt(turns, i, Play(turns, i))
    decreases |turns| - i
  {
    if i < |turns| {
      PlayEnds(turns, i + 1);
    }
  }

  /** Where the loop ends and why: at the first request that is not answered with a successful
      send, by an upgrade, by an exception or by a failed send, whichever that request brings about; and
      if all of them are answered it ends where the connection does. */
  lemma LoopEndsExactly(cfg: Config, xs: seq<Exchange>)
    ensures var l := Serve(cfg, xs);
            && l.last <= |xs| && (forall k :: 0 <= k < l.last ==> Answers(cfg, xs[k]))
            && (l.ending == Disconnected <==> forall k :: 0 <= k < |xs| ==> Answers(cfg, xs[k]))
            && (l.ending == Disconnected <==> l.last == |xs|)
            && (l.last < |xs| ==>
                  && (l.ending == Upgraded <==> Upgrades(cfg, xs[l.last]))
                  && (l.ending == Raised <==> Throws(cfg, xs[l.last]))
                  && (l.ending == SendError <==> FailsToSend(cfg, xs[l.last])))
  {
    var turns, l := Turns(cfg, xs), Serve(cfg, xs);
    PlayEnds(turns, 0);
    forall k | 0 <= k < |xs|
      ensures turns[k].1 == None <==> Answers(cfg, xs[k])
    {
      TurnEnds(cfg, xs[k], k);
    }
    if l.last < |xs| {
      TurnEnds(cfg, xs[l.last], l.last);
    }
  }

  /** The code a request gets from the handlers: the path handler's, or else the fallback's, or 404;
      -1 stands for no code. */
  predicate GetsCode(cfg: Config, x: Exchange, code: int) {
    if x.path in cfg.paths && x.handler.Returns? && x.handler.code != -1 then code == x.handler.code
    else if x.unhandled.Returns? && x.unhandled.code != -1 then code == x.unhandled.code
    else code == 404
  }

  /** Whether a request causes an event if its turn comes. */
  predicate Causes(cfg: Config, x: Exchange, e: Event) {
    match e
    case Handled(_) => ReachesHandlers(cfg, x) && x.path in cfg.paths
    case Unhandled(_) =>
      ReachesHandlers(cfg, x) && (x.path in cfg.paths ==> x.handler.Raises? || x.handler.code == -1)
    case After(_, code) =>
      cfg.hasAfter && !Upgrades(cfg, x) &&
      (if ReachesHandlers(cfg, x) then GetsCode(cfg, x, code) else x.before == Intercepts(code))
    case Sent(_) => Answers(cfg, x)
    case SendFailed(_) => FailsToSend(cfg, x)
  }

  lemma InEither(e: Event, a: seq<Event>, b: seq<Event>)
    ensures e in a + b <==> e in a || e in b
  {
  }

  lemma HandlersCause(cfg: Config, x: Exchange, i: nat, e: Event)
    ensures e in Handlers(cfg, x, i) <==>
            (e == Handled(i) && x.path in cfg.paths) || (e == Unhandled(i) && HandlerCode(cfg, x) == -1)
  {
    InEither(e, if x.path in cfg.paths then [Handled(i)] else [],
             if HandlerCode(cfg, x) == -1 then [Unhandled(i)] else []);
  }

  lemma RespondCauses(cfg: Config, x: Exchange, i: nat, e: Event)
    ensures e in Respond(cfg, x, i).0 <==>
            || (e == After(i, ResponseCode(cfg, x)) && cfg.hasAfter)
            || (e == Sent(i) && Respond(cfg, x, i).1 == None)
            || (e == SendFailed(i) && Respond(cfg, x, i).1 == Some(SendError))
  {
    InEither(e, if cfg.hasAfter then [After(i, ResponseCode(cfg, x))] else [],
             [if x.sends then Sent(i) else SendFailed(i)]);
  }

  lemma TurnCauses(cfg: Config, x: Exchange, i: nat, e: Event)
    ensures e in ServeOne(cfg, x, i).0 <==> e.i == i && Causes(cfg, x, e)
  {
    HandlersCause(cfg, x, i, e);
    RespondCauses(cfg, x, i, e);
    InEither(e, Handlers(cfg, x, i), Respond(cfg, x, i).0);
  }

  lemma {:induction false} PlayEvents(turns: seq<Turn>, i: nat, e: Event)
    requires i <= |turns| && forall k :: 0 <= k < |turns| && e in turns[k].0 ==> k == e.i
    ensures var l := Play(turns, i);
            e in l.events <==> i <= e.i <= l.last && e.i < |turns| && e in turns[e.i].0
    decreases |turns| - i
  {
    if i < |turns| && turns[i].1.None? {
      PlayEnds(turns, i + 1);
      PlayEvents(turns, i + 1, e);
      InEither(e, turns[i].0, Play(turns, i + 1).events);
    }
  }

  /** Exactly the events of the log: those of the requests whose turn came. */
  lemma LogEventsExactly(cfg: Config, xs: seq<Exchange>, e: Event)
    ensures var l := Serve(cfg, xs);
            e in l.events <==> e.i <= l.last && e.i < |xs| && Causes(cfg, xs[e.i], e)
  {
    var turns := Turns(cfg, xs);
    forall k | 0 <= k < |turns|
      ensures e in turns[k].0 <==> e.i == k && Causes(cfg, xs[k], e)
    {
      TurnCauses(cfg, xs[k], k, e);
    }
    PlayEvents(turns, 0, e);
  }

  /** The order of the events of one request. */
  function Stage(e: Event): nat {
    match e
    case Handled(_) => 0
    case Unhandled(_) => 1
    case After(_, _) => 2
    case Sent(_) => 3
    case SendFailed(_) => 3
  }

  predicate Precedes(a: Event, b: Event) {
    a.i < b.i || (a.i == b.i && Stage(a) < Stage(b))
  }

  predicate InOrder(events: seq<Event>) {
    forall p, q :: 0 <= p < q < |events| ==> Precedes(events[p], events[q])
  }

  lemma InOrderConcat(a: seq<Event>, b: seq<Event>)
    requires InOrder(a) && InOrder(b) && forall d, e :: d in a && e in b ==> Precedes(d, e)
    ensures InOrder(a + b)
  {
    forall p, q | 0 <= p < q < |a + b|
      ensures Precedes((a + b)[p], (a + b)[q])
    {
      if p < |a| <= q {
        assert a[p] in a && b[q - |a|] in b;
      }
    }
  }

  lemma TwoInOrder(a: seq<Event>, b: seq<Event>)
    requires |a| <= 1 && |b| <= 1 && (a != [] && b != [] ==> Precedes(a[0], b[0]))
    ensures InOrder(a + b)
  {
  }

  lemma PartsInOrder(cfg: Config, x: Exchange, i: nat)
    ensures InOrder(Handlers(cfg, x, i)) && InOrder(Respond(cfg, x, i).0)
  {
    TwoInOrder(if x.path in cfg.paths then [Handled(i)] else [],
               if HandlerCode(cfg, x) == -1 then [Unhandled(i)] else []);
    TwoInOrder(if cfg.hasAfter then [After(i, ResponseCode(cfg, x))] else [],
               [if x.sends then Sent(i) else SendFailed(i)]);
  }

  lemma TurnInOrder(cfg: Config, x: Exchange, i: nat)
    ensures InOrder(ServeOne(cfg, x, i).0)
  {
    PartsInOrder(cfg, x, i);
    forall e
      ensures e in Handlers(cfg, x, i) ==> e.i == i && Stage(e) <= 1
      ensures e in Respond(cfg, x, i).0 ==> e.i == i && Stage(e) >= 2
    {
      HandlersCause(cfg, x, i, e);
      RespondCauses(cfg, x, i, e);
    }
    InOrderConcat(Handlers(cfg, x, i), Respond(cfg, x, i).0);
  }

  predicate OfRequest(turn: Turn, i: nat) {
    InOrder(turn.0) && forall e :: e in turn.0 ==> e.i == i
  }

  lemma {:induction false} PlayInOrder(turns: seq<Turn>, i: nat)
    requires i <= |turns| && forall k :: 0 <= k < |turns| ==> OfRequest(turns[k], k)
    ensures InOrder(Play(turns, i).events) && forall e :: e in Play(turns, i).events ==> e.i >= i
    decreases |turns| - i
  {
    if i < |turns| {
      PlayInOrder(turns, i + 1);
      assert OfRequest(turns[i], i);
      InOrderConcat(turns[i].0, Play(turns, i + 1).events);
    }
  }

  /** The log is in the order of the requests and, for each of them, of the handler, the fallback,
      the after-filter and the send, with no event twice. */
  lemma LogInOrder(cfg: Config, xs: seq<Exchange>)
    ensures InOrder(Serve(cfg, xs).events)
  {
    var turns := Turns(cfg, xs);
    forall k | 0 <= k < |turns|
      ensures OfRequest(turns[k], k)
    {
      TurnInOrder(cfg, xs[k], k);
      forall e | e in turns[k].0
        ensures e.i == k
      {
        TurnCauses(cfg, xs[k], k, e);
      }
    }
    PlayInOrder(turns, 0);
  }

  predicate SameEvents(a: seq<Event>, b: seq<Event>) {
    (forall e :: e in a ==> e in b) && (forall e :: e in b ==> e in a)
  }

  lemma OrderedTail(a: seq<Event>)
    requires InOrder(a) && a != []
    ensures InOrder(a[1..]) && a[0] !in a[1..] && forall e :: e in a <==> e == a[0] || e in a[1..]
    ensures forall e :: e in a[1..] ==> Precedes(a[0], e)
  {
    assert a == [a[0]] + a[1..];
    assert forall k :: 1 <= k < |a| ==> Precedes(a[0], a[k]);
  }

  /** Events in order are determined by which they are. */
  lemma {:induction false} OrderedIsUnique(a: seq<Event>, b: seq<Event>)
    requires InOrder(a) && InOrder(b) && SameEvents(a, b)
    ensures a == b
  {
    assert (a != [] ==> a[0] in b) && (b != [] ==> b[0] in a);
    if a != [] {
      OrderedTail(a);
      OrderedTail(b);
      OrderedIsUnique(a[1..], b[1..]);
    }
  }

  /** A failed send is the last event of the log, and the request it is for ended the loop. */
  lemma FailedSendIsLast(cfg: Config, xs: seq<Exchange>, p: nat)
    requires p < |Serve(cfg, xs).events| && Serve(cfg, xs).events[p].SendFailed?
    ensures var l := Serve(cfg, xs);
            p == |l.events| - 1 && l.ending == SendError && l.last == l.events[p].i
  {
    var l := Serve(cfg, xs);
    LoopEndsExactly(cfg, xs);
    LogEventsExactly(cfg, xs, l.events[p]);
    LogInOrder(cfg, xs);
    if p + 1 < |l.events| {
      assert Precedes(l.events[p], l.events[p + 1]);
      LogEventsExactly(cfg, xs, l.events[p + 1]);
    }
  }

  lemma FilterIsInLog(cfg: Config, xs: seq<Exchange>, i: nat)
    requires cfg.hasAfter && (Sent(i) in Serve(cfg, xs).events || SendFailed(i) in Serve(cfg, xs).events)
    ensures i < |xs| && After(i, ResponseCode(cfg, xs[i])) in Serve(cfg, xs).events
  {
    LogEventsExactly(cfg, xs, Sent(i));
    LogEventsExactly(cfg, xs, SendFailed(i));
    LogEventsExactly(cfg, xs, After(i, ResponseCode(cfg, xs[i])));
  }

  lemma PositionsFollow(events: seq<Event>, q: nat, p: nat)
    requires InOrder(events) && q < |events| && p < |events| && Precedes(events[q], events[p])
    ensures q < p
  {
  }

  lemma NothingBetween(events: seq<Event>, q: nat, p: nat)
    requires InOrder(events) && q < p < |events|
    requires events[q].After? && IsAttempt(events[p]) && events[q].i == events[p].i
    ensures p == q + 1
  {
    assert Precedes(events[q], events[q + 1]);
  }

  /** With an after-filter, each attempted send comes right after the filter's call for the same
      request. */
  lemma SendFollowsFilter(cfg: Config, xs: seq<Exchange>, p: nat)
    requires cfg.hasAfter && p < |Serve(cfg, xs).events| && IsAttempt(Serve(cfg, xs).events[p])
    ensures var events := Serve(cfg, xs).events;
            p > 0 && events[p - 1].After? && events[p - 1].i == events[p].i
  {
    var events := Serve(cfg, xs).events;
    var i := events[p].i;
    LogInOrder(cfg, xs);
    FilterIsInLog(cfg, xs, i);
    var q :| 0 <= q < |events| && events[q] == After(i, ResponseCode(cfg, xs[i]));
    PositionsFollow(events, q, p);
    NothingBetween(events, q, p);
  }

  /** The after-filter never sees code -1 for a request the before-filter let through. */
  lemma AfterNeverSeesNoCode(cfg: Config, xs: seq<Exchange>, j: nat, code: int)
    requires j < |xs| && (cfg.hasBefore ==> !xs[j].before.Intercepts?)
    ensures After(j, code) in Serve(cfg, xs).events ==> code != -1
  {
    LogEventsExactly(cfg, xs, After(j, code));
  }

  /** Exactly the requests before the one the loop ended at have a successful send in the log. */
  lemma SentExactlyBeforeEnd(cfg: Config, xs: seq<Exchange>, i: nat)
    ensures Sent(i) in Serve(cfg, xs).events <==> i < Serve(cfg, xs).last
  {
    LoopEndsExactly(cfg, xs);
    LogEventsExactly(cfg, xs, Sent(i));
  }

  /** The log is the only list of events in that order that holds exactly the events which the
      requests up to the one the loop ended at cause. */
  lemma LogIsDetermined(cfg: Config, xs: seq<Exchange>, events: seq<Event>)
    ensures events == Serve(cfg, xs).events <==>
            && InOrder(events)
            && forall e :: e in events <==> e.i <= Serve(cfg, xs).last && e.i < |xs| && Causes(cfg, xs[e.i], e)
  {
    var l := Serve(cfg, xs);
    LogInOrder(cfg, xs);
    forall e
      ensures e in l.events <==> e.i <= l.last && e.i < |xs| && Causes(cfg, xs[e.i], e)
    {
      LogEventsExactly(cfg, xs, e);
    }
    if InOrder(events) && SameEvents(events, l.events) {
      OrderedIsUnique(events, l.events);
    }
  }

  /** The fallback runs for exactly the requests that reached the handlers and got no code
      there, upgraded ones included. */
  lemma FallbackRunsExactly(cfg: Config, xs: seq<Exchange>, j: nat)
    requires j < |xs|
    ensures Unhandled(j) in Serve(cfg, xs).events <==>
            && j <= Serve(cfg, xs).last && (!cfg.hasBefore || xs[j].before.Passes?)
            && (xs[j].path in cfg.paths ==> xs[j].handler.Raises? || xs[j].handler.code == -1)
  {
    LogEventsExactly(cfg, xs, Unhandled(j));
  }
}
