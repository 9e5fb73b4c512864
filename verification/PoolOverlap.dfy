/**
 A run of the session pool after which a cleaning leaves an expired session behind: two
 requests on one URL overlap, and the later one finishes first.
 */
module PoolOverlap {
  import opened Wrappers
  import opened Url
  import opened SessionPool
  import opened PoolRuns

  function New(k: string, now: int): InFlight {
    InFlight(k, Session(None, "", now), false)
  }

  function Opened(k: string, conn: nat, now: int): InFlight {
    InFlight(k, Session(Some(conn), k, now), true)
  }

  /** Two requests on one URL overlap, and the later one finishes first. */
  function OverlappingRequests(url: string): seq<Event> {
    [Begin(0, url), Start(0), Tick(1), Begin(1, url), Start(1), Finish(1), Finish(0)]
  }

  /** Every state of their run. */
  function OverlapStates(k: string): seq<State> {
    var idle: Pool<nat>, one: Pool<nat> := map[k := []], map[k := [Session(Some(1), k, 1)]];
    [ INITIAL,
      State(idle, map[0 := New(k, 0)], 0, 0),
      State(idle, map[0 := Opened(k, 0, 0)], 1, 0),
      State(idle, map[0 := Opened(k, 0, 0)], 1, 1),
      State(idle, map[0 := Opened(k, 0, 0), 1 := New(k, 1)], 1, 1),
      State(idle, map[0 := Opened(k, 0, 0), 1 := Opened(k, 1, 1)], 2, 1),
      State(one, map[0 := Opened(k, 0, 0)], 2, 1),
      State(map[k := [Session(Some(1), k, 1), Session(Some(0), k, 0)]], map[], 2, 1) ]
  }

  /** Whether event number `i` leads from state number `i` to the next. */
  ghost predicate Leads(k: string, url: string, i: nat)
    requires i < 7
  {
    Step(OverlapStates(k)[i], OverlappingRequests(url)[i]) == Some(OverlapStates(k)[i + 1])
  }

  lemma FirstOpens(k: string)
    ensures var ss := OverlapStates(k);
            Begun(ss[0], 0, k) == ss[1] && Started(ss[1], 0) == ss[2]
  {
    var idle: Pool<nat> := map[k := []];
    assert INITIAL.pool[k := []] == idle && INITIAL.tasks[0 := New(k, 0)] == map[0 := New(k, 0)];
    assert map[0 := New(k, 0)][0 := Opened(k, 0, 0)] == map[0 := Opened(k, 0, 0)];
  }

  lemma SecondOpens(k: string)
    ensures var ss := OverlapStates(k);
            Begun(ss[3], 1, k) == ss[4] && Started(ss[4], 1) == ss[5]
  {
    var idle: Pool<nat> := map[k := []];
    var two := map[0 := Opened(k, 0, 0), 1 := New(k, 1)];
    assert idle[k := []] == idle && map[0 := Opened(k, 0, 0)][1 := New(k, 1)] == two;
    assert two[1 := Opened(k, 1, 1)] == map[0 := Opened(k, 0, 0), 1 := Opened(k, 1, 1)];
  }

  lemma BothFinish(k: string)
    ensures var ss := OverlapStates(k);
            Finished(ss[5], 1) == ss[6] && Finished(ss[6], 0) == ss[7]
  {
    var first, second := Opened(k, 0, 0), Opened(k, 1, 1);
    var idle: Pool<nat>, one: Pool<nat> := map[k := []], map[k := [second.session]];
    assert map[0 := first, 1 := second] - {1} == map[0 := first];
    assert [] + [second.session] == [second.session] && idle[k := [second.session]] == one;
    assert map[0 := first] - {0} == map[];
    assert [second.session] + [first.session] == [second.session, first.session];
    assert one[k := [second.session, first.session]] == map[k := [second.session, first.session]];
  }

  lemma BeginStep(s: State, t: nat, url: string, k: string)
    requires t !in s.tasks && Parse(url).Some? && Flag(Parse(url).value) == k
    ensures Step(s, Begin(t, url)) == Some(Begun(s, t, k))
  {
  }

  lemma StartStep(s: State, t: nat)
    requires t in s.tasks && !s.tasks[t].started
    ensures Step(s, Start(t)) == Some(Started(s, t))
  {
  }

  lemma FinishStep(s: State, t: nat)
    requires t in s.tasks && s.tasks[t].started
    ensures Step(s, Finish(t)) == Some(Finished(s, t))
  {
  }

  lemma FirstBegins(k: string, url: string)
    requires Parse(url).Some? && Flag(Parse(url).value) == k
    ensures Leads(k, url, 0)
  {
    FirstOpens(k);
    BeginStep(INITIAL, 0, url, k);
  }

  lemma SecondBegins(k: string, url: string)
    requires Parse(url).Some? && Flag(Parse(url).value) == k
    ensures Leads(k, url, 3)
  {
    SecondOpens(k);
    BeginStep(OverlapStates(k)[3], 1, url, k);
  }

  lemma FirstStarts(k: string, url: string)
    ensures Leads(k, url, 1)
  {
    FirstOpens(k);
    StartStep(OverlapStates(k)[1], 0);
  }

  lemma SecondStarts(k: string, url: string)
    ensures Leads(k, url, 4)
  {
    SecondOpens(k);
    StartStep(OverlapStates(k)[4], 1);
  }

  lemma TimePasses(k: string, url: string)
    ensures Leads(k, url, 2)
  {
  }

  lemma SecondEnds(k: string, url: string)
    ensures Leads(k, url, 5)
  {
    BothFinish(k);
    FinishStep(OverlapStates(k)[5], 1);
  }

  lemma FirstEnds(k: string, url: string)
    ensures Leads(k, url, 6)
  {
    BothFinish(k);
    FinishStep(OverlapStates(k)[6], 0);
  }

  lemma OverlapStep(k: string, url: string, i: nat)
    requires i < 7 && Parse(url).Some? && Flag(Parse(url).value) == k
    ensures Leads(k, url, i)
  {
    if i == 0 {
      FirstBegins(k, url);
    } else if i == 1 {
      FirstStarts(k, url);
    } else if i == 2 {
      TimePasses(k, url);
    } else if i == 3 {
      SecondBegins(k, url);
    } else if i == 4 {
      SecondStarts(k, url);
    } else if i == 5 {
      SecondEnds(k, url);
    } else {
      FirstEnds(k, url);
    }
  }

  /** The bucket they leave is not sorted by last use. */
  lemma OverlapLeavesUnsorted(k: string, url: string)
    requires Parse(url).Some? && Flag(Parse(url).value) == k
    ensures Run(OverlappingRequests(url)) ==
            Some(State(map[k := [Session(Some(1), k, 1), Session(Some(0), k, 0)]], map[], 2, 1))
  {
    forall i | 0 <= i < 7
      ensures Step(OverlapStates(k)[i], OverlappingRequests(url)[i]) == Some(OverlapStates(k)[i + 1])
    {
      OverlapStep(k, url, i);
    }
    RunOfSteps(OverlappingRequests(url), OverlapStates(k));
  }

  lemma CleaningKeepsBoth(k: string, timeout: nat)
    requires timeout > 0
    ensures var v: Bucket<nat> := [Session(Some(1), k, 1), Session(Some(0), k, 0)];
            CleanPool(map[k := v], timeout, timeout) == map[k := v] && Expired(v[1], timeout, timeout)
  {
  }

  /** An expired session can survive a cleaning, under every positive timeout: the run of two
      overlapping requests leaves one behind a live one when the timeout of the first is up. */
  lemma ExpiredSessionSurvives(url: string, timeout: nat)
    requires Parse(url).Some? && timeout > 0
    ensures var k := Flag(Parse(url).value);
            Run(OverlappingRequests(url) + [Tick(timeout - 1)] + [Expire(timeout)]) ==
            Some(State(map[k := [Session(Some(1), k, 1), Session(Some(0), k, 0)]], map[], 2, timeout))
    ensures Expired(Session(Some(0), Flag(Parse(url).value), 0), timeout, timeout)
  {
    OverlapLeavesUnsorted(Flag(Parse(url).value), url);
    RunStep(OverlappingRequests(url), Tick(timeout - 1));
    RunStep(OverlappingRequests(url) + [Tick(timeout - 1)], Expire(timeout));
    CleaningKeepsBoth(Flag(Parse(url).value), timeout);
  }
}
