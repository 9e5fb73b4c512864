/**
 The asynchronous semaphore and mutex. Any number of tasks poll under an inner lock and
 sleep between polls; a run is any interleaving of their steps. Reading the shared value
 and writing it back are two steps, so nothing but the inner lock keeps them together.
 */
module AsyncSync {
  import opened Wrappers
  import opened Bytes

  // ---------- Tasks ----------

  /** What a task asked for. `Deadline` is the timed form; `Release` also stands for unlock. */
  datatype Op = Try | Wait | Deadline(at: int) | Release

  /** Where a task is: before the clock check, before the inner lock, holding the inner lock,
      holding it with the shared value read, or asleep until the next poll. */
  datatype Pc =
    | Idle
    | Polling(op: Op)
    | Entering(op: Op)
    | Inside(op: Op)
    | Loaded(op: Op, seen: nat)
    | Asleep(op: Op)

  /** The tasks, the owner of the inner lock, who holds the resource (with multiplicity), how
      often it was acquired and released, and the clock. */
  datatype Tasks = Tasks(pcs: map<nat, Pc>, inner: Option<nat>, held: multiset<nat>,
                         acquired: nat, released: nat, now: int)

  datatype Event =
    | Call(task: nat, op: Op)
    | Check(task: nat)
    | Lock(task: nat)
    | Load(task: nat)
    | Store(task: nat)
    | Wake(task: nat)
    | Tick(d: nat)

  const NOBODY := Tasks(map[], None, multiset{}, 0, 0, 0)

  function PcOf(ts: Tasks, t: nat): Pc {
    if t in ts.pcs then ts.pcs[t] else Idle
  }

  function Goto(ts: Tasks, t: nat, pc: Pc): Tasks {
    ts.(pcs := ts.pcs[t := pc])
  }

  /** Every step but the store, which differs between the two objects. `free` is the shared
      value a load reads. */
  function Move(ts: Tasks, free: nat, e: Event): (r: Option<Tasks>)
    requires !e.Store?
    ensures r.Some? ==> r.value.held == ts.held && r.value.acquired == ts.acquired && r.value.released == ts.released
  {
    match e
    case Call(t, op) => if PcOf(ts, t).Idle? then Some(Goto(ts, t, Polling(op))) else None
    case Check(t) =>
      if !PcOf(ts, t).Polling? then None
      else
        var op := PcOf(ts, t).op;
        Some(Goto(ts, t, if op.Deadline? && op.at <= ts.now then Idle else Entering(op)))
    case Lock(t) =>
      if PcOf(ts, t).Entering? && ts.inner.None?
      then Some(Goto(ts, t, Inside(PcOf(ts, t).op)).(inner := Some(t))) else None
    case Load(t) => if PcOf(ts, t).Inside? then Some(Goto(ts, t, Loaded(PcOf(ts, t).op, free))) else None
    case Wake(t) => if PcOf(ts, t).Asleep? then Some(Goto(ts, t, Polling(PcOf(ts, t).op))) else None
    case Tick(d) => Some(ts.(now := ts.now + d))
  }

  /** Leaving the inner lock. */
  function Leave(ts: Tasks, t: nat, pc: Pc): Tasks {
    Goto(ts, t, pc).(inner := None)
  }

  function Acquired(ts: Tasks, t: nat): Tasks {
    Leave(ts, t, Idle).(held := ts.held + multiset{t}, acquired := ts.acquired + 1)
  }

  function Released(ts: Tasks, t: nat): Tasks {
    Leave(ts, t, Idle).(held := ts.held - multiset{t}, released := ts.released + 1)
  }

  /** A poll that found nothing: a try gives up, the others sleep. */
  function Missed(ts: Tasks, t: nat, op: Op): Tasks {
    Leave(ts, t, if op.Try? then Idle else Asleep(op))
  }

  // ---------- What the inner lock is for ----------

  predicate InLock(pc: Pc) {
    pc.Inside? || pc.Loaded?
  }

  /** The inner lock is owned exactly by the one task inside it. */
  ghost predicate InnerLockSound(ts: Tasks) {
    forall t: nat :: ts.inner == Some(t) <==> InLock(PcOf(ts, t))
  }

  /** What any task has read is still the shared value. */
  ghost predicate LoadsFresh(ts: Tasks, free: nat) {
    forall t: nat :: PcOf(ts, t).Loaded? ==> PcOf(ts, t).seen == free
  }

  ghost predicate Sound(ts: Tasks, free: nat) {
    InnerLockSound(ts) && LoadsFresh(ts, free)
  }

  lemma MoveKeepsSound(ts: Tasks, free: nat, e: Event)
    requires Sound(ts, free) && !e.Store? && Move(ts, free, e).Some?
    ensures Sound(Move(ts, free, e).value, free)
  {
  }

  /** Whatever the one task inside the lock stores, no other task has read the old value. */
  lemma LeaveKeepsSound(ts: Tasks, free: nat, t: nat, pc: Pc, free': nat)
    requires Sound(ts, free) && InLock(PcOf(ts, t)) && !InLock(pc)
    ensures Sound(Leave(ts, t, pc), free')
  {
    forall u: nat | u != t
      ensures !InLock(PcOf(ts, u))
    {
      assert ts.inner == Some(t);
    }
  }

  // ---------- The semaphore ----------

  datatype Semaphore = Semaphore(count: nat, tasks: Tasks)

  /** A store writes what follows from the value the task read, not from the current one. */
  function SemStep(s: Semaphore, e: Event): Option<Semaphore> {
    match e
    case Store(t) =>
      if !PcOf(s.tasks, t).Loaded? then None
      else
        var Loaded(op, n) := PcOf(s.tasks, t);
        if op.Release? then Some(Semaphore((n + 1) % TWO_64, Released(s.tasks, t)))
        else if n > 0 then Some(Semaphore(n - 1, Acquired(s.tasks, t)))
        else Some(s.(tasks := Missed(s.tasks, t, op)))
    case _ =>
      match Move(s.tasks, s.count, e)
      case None => None
      case Some(ts) => Some(s.(tasks := ts))
  }

  function SemRun(init: nat, es: seq<Event>): Option<Semaphore> {
    if es == [] then Some(Semaphore(init, NOBODY))
    else match SemRun(init, es[..|es| - 1])
      case None => None
      case Some(s) => SemStep(s, es[|es| - 1])
  }

  lemma StepKeepsSound(s: Semaphore, e: Event)
    requires Sound(s.tasks, s.count) && SemStep(s, e).Some?
    ensures Sound(SemStep(s, e).value.tasks, SemStep(s, e).value.count)
  {
    if e.Store? {
      var s' := SemStep(s, e).value;
      LeaveKeepsSound(s.tasks, s.count, e.task, Idle, s'.count);
      LeaveKeepsSound(s.tasks, s.count, e.task, Asleep(PcOf(s.tasks, e.task).op), s'.count);
    } else {
      MoveKeepsSound(s.tasks, s.count, e);
    }
  }

  ghost predicate Balanced(init: nat, s: Semaphore) {
    s.count == (init - s.tasks.acquired + s.tasks.released) % TWO_64
  }

  lemma CountByOne(n: int)
    ensures (n % TWO_64 + 1) % TWO_64 == (n + 1) % TWO_64
    ensures n % TWO_64 > 0 ==> n % TWO_64 - 1 == (n - 1) % TWO_64
  {
  }

  lemma StepKeepsBalance(init: nat, s: Semaphore, e: Event)
    requires LoadsFresh(s.tasks, s.count) && Balanced(init, s) && SemStep(s, e).Some?
    ensures Balanced(init, SemStep(s, e).value)
  {
    if e.Store? {
      CountByOne(init - s.tasks.acquired + s.tasks.released);
      assert PcOf(s.tasks, e.task).seen == s.count;
    }
  }

  lemma {:induction false} RunConserves(init: nat, es: seq<Event>)
    requires init < TWO_64 && SemRun(init, es).Some?
    ensures var s := SemRun(init, es).value;
            Sound(s.tasks, s.count) && Balanced(init, s)
  {
    if es != [] {
      RunConserves(init, es[..|es| - 1]);
      StepKeepsSound(SemRun(init, es[..|es| - 1]).value, es[|es| - 1]);
      StepKeepsBalance(init, SemRun(init, es[..|es| - 1]).value, es[|es| - 1]);
    }
  }

  /** In every run at most one task is inside the inner lock, none sleeps while it owns it, what
      a task has read is current until it writes, and the count is the initial count less the
      acquires plus the releases, in `size_t` arithmetic. */
  lemma SemaphoreConserves(init: nat, es: seq<Event>, t: nat, u: nat)
    requires init < TWO_64 && SemRun(init, es).Some?
    ensures var s := SemRun(init, es).value;
            && (InLock(PcOf(s.tasks, t)) && InLock(PcOf(s.tasks, u)) ==> t == u)
            && (PcOf(s.tasks, t).Asleep? ==> s.tasks.inner != Some(t))
            && (PcOf(s.tasks, t).Loaded? ==> PcOf(s.tasks, t).seen == s.count)
            && s.count == (init - s.tasks.acquired + s.tasks.released) % TWO_64
  {
    RunConserves(init, es);
    var ts := SemRun(init, es).value.tasks;
    assert InLock(PcOf(ts, t)) ==> ts.inner == Some(t);
    assert InLock(PcOf(ts, u)) ==> ts.inner == Some(u);
  }

  // ---------- If only holders release ----------

  predicate Releasing(pc: Pc) {
    !pc.Idle? && pc.op.Release?
  }

  /** Whether a call to release is made by a task that holds the resource. */
  predicate ByHolder(ts: Tasks, e: Event) {
    e.Call? && e.op.Release? ==> e.task in ts.held
  }

  /** Whether every call to release in a run is by a task that holds the resource. */
  ghost predicate HoldersRelease(init: nat, es: seq<Event>) {
    es == [] ||
    (var fs := es[..|es| - 1];
     HoldersRelease(init, fs) && (SemRun(init, fs).Some? ==> ByHolder(SemRun(init, fs).value.tasks, es[|es| - 1])))
  }

  /** A task that is about to release still holds the resource. */
  ghost predicate ReleasersHold(ts: Tasks) {
    forall t: nat :: Releasing(PcOf(ts, t)) ==> t in ts.held
  }

  ghost predicate Permits(init: nat, s: Semaphore) {
    ReleasersHold(s.tasks) && s.count + |s.tasks.held| == init
  }

  lemma MoveKeepsReleasers(ts: Tasks, free: nat, e: Event)
    requires ReleasersHold(ts) && !e.Store? && Move(ts, free, e).Some? && ByHolder(ts, e)
    ensures ReleasersHold(Move(ts, free, e).value)
  {
  }

  lemma StoreKeepsReleasers(ts: Tasks, ts': Tasks, t: nat, pc: Pc)
    requires ReleasersHold(ts) && !Releasing(pc) && ts'.pcs == ts.pcs[t := pc]
    requires forall u: nat :: u != t && u in ts.held ==> u in ts'.held
    ensures ReleasersHold(ts')
  {
    forall u: nat | Releasing(PcOf(ts', u))
      ensures u in ts'.held
    {
      assert u != t && PcOf(ts', u) == PcOf(ts, u);
    }
  }

  lemma StepKeepsReleasers(s: Semaphore, e: Event)
    requires ReleasersHold(s.tasks) && SemStep(s, e).Some? && ByHolder(s.tasks, e)
    ensures ReleasersHold(SemStep(s, e).value.tasks)
  {
    if e.Store? {
      var ts := SemStep(s, e).value.tasks;
      StoreKeepsReleasers(s.tasks, ts, e.task, PcOf(ts, e.task));
    } else {
      MoveKeepsReleasers(s.tasks, s.count, e);
    }
  }

  lemma OneMore(held: multiset<nat>, t: nat)
    ensures |held + multiset{t}| == |held| + 1
    ensures t in held ==> |held - multiset{t}| == |held| - 1
  {
    assert t in held ==> held - multiset{t} + multiset{t} == held;
  }

  lemma StepKeepsPermits(init: nat, s: Semaphore, e: Event)
    requires init < TWO_64 && LoadsFresh(s.tasks, s.count) && Permits(init, s)
    requires SemStep(s, e).Some? && ByHolder(s.tasks, e)
    ensures Permits(init, SemStep(s, e).value)
  {
    StepKeepsReleasers(s, e);
    if e.Store? {
      assert PcOf(s.tasks, e.task).seen == s.count;
      OneMore(s.tasks.held, e.task);
    }
  }

  lemma {:induction false} RunKeepsPermits(init: nat, es: seq<Event>)
    requires init < TWO_64 && SemRun(init, es).Some? && HoldersRelease(init, es)
    ensures Permits(init, SemRun(init, es).value)
  {
    if es != [] {
      RunKeepsPermits(init, es[..|es| - 1]);
      RunConserves(init, es[..|es| - 1]);
      StepKeepsPermits(init, SemRun(init, es[..|es| - 1]).value, es[|es| - 1]);
    }
  }

  /** If only holders call release, permits are neither created nor lost: the count and the
      permits held always add up to the initial count, so at most that many are held. */
  lemma PermitsConserved(init: nat, es: seq<Event>)
    requires init < TWO_64 && SemRun(init, es).Some? && HoldersRelease(init, es)
    ensures var s := SemRun(init, es).value;
            s.count + |s.tasks.held| == init
  {
    RunKeepsPermits(init, es);
  }

  lemma OneHolder(held: multiset<nat>, t: nat, u: nat)
    requires |held| <= 1 && t in held && u in held
    ensures t == u && held == multiset{t}
  {
    OneMore(held, t);
    assert held == multiset{t} + (held - multiset{t});
  }

  /** With one permit, no two tasks hold it at once. */
  lemma MutualExclusion(es: seq<Event>, t: nat, u: nat)
    requires SemRun(1, es).Some? && HoldersRelease(1, es)
    requires t in SemRun(1, es).value.tasks.held && u in SemRun(1, es).value.tasks.held
    ensures t == u && SemRun(1, es).value.tasks.held == multiset{t}
  {
    PermitsConserved(1, es);
    OneHolder(SemRun(1, es).value.tasks.held, t, u);
  }

  // ---------- What a task does next, and when it is done ----------

  lemma GotoOthers(ts: Tasks, u: nat, pc: Pc, t: nat)
    requires u != t
    ensures PcOf(Goto(ts, u, pc), t) == PcOf(ts, t)
  {
  }

  lemma MoveOthers(ts: Tasks, free: nat, e: Event, t: nat)
    requires !e.Store? && Move(ts, free, e).Some? && (e.Tick? || e.task != t)
    ensures PcOf(Move(ts, free, e).value, t) == PcOf(ts, t)
  {
    if !e.Tick? {
      GotoOthers(ts, e.task, PcOf(Move(ts, free, e).value, e.task), t);
    }
  }

  lemma OthersUntouched(s: Semaphore, e: Event, t: nat)
    requires SemStep(s, e).Some? && (e.Tick? || e.task != t)
    ensures PcOf(SemStep(s, e).value.tasks, t) == PcOf(s.tasks, t)
  {
    if !e.Store? {
      MoveOthers(s.tasks, s.count, e, t);
    }
  }

  /** Whether a step ends what task `t` asked for: a store, unless a waiting task found nothing, or
      the check of a deadline that has passed. */
  predicate Completes(s: Semaphore, e: Event, t: nat, op: Op) {
    || (e == Store(t) && (op.Try? || op.Release? || s.count > 0))
    || (e == Check(t) && op.Deadline? && op.at <= s.tasks.now)
  }

  lemma StepCompletes(s: Semaphore, e: Event, t: nat)
    requires LoadsFresh(s.tasks, s.count) && SemStep(s, e).Some? && !PcOf(s.tasks, t).Idle?
    ensures var op, pc := PcOf(s.tasks, t).op, PcOf(SemStep(s, e).value.tasks, t);
            && (pc.Idle? <==> Completes(s, e, t, op))
            && (!pc.Idle? ==> pc.op == op)
            && (!pc.Idle? && e == Store(t) ==> pc == Asleep(op))
  {
    if !e.Tick? && e.task == t {
      if e.Store? {
        assert PcOf(s.tasks, t).seen == s.count;
      }
    } else {
      OthersUntouched(s, e, t);
    }
  }

  /** In every run a task is done with what it asked for exactly when its store took a permit or
      gave one back, when it only tried, or when the deadline it checks has passed; a task that
      waits and finds no permit goes to sleep, and until it is done it asks for the same. */
  lemma TaskIsDoneExactly(init: nat, es: seq<Event>, e: Event, t: nat)
    requires init < TWO_64 && SemRun(init, es).Some?
    requires SemStep(SemRun(init, es).value, e).Some? && !PcOf(SemRun(init, es).value.tasks, t).Idle?
    ensures var s := SemRun(init, es).value;
            var op, pc := PcOf(s.tasks, t).op, PcOf(SemStep(s, e).value.tasks, t);
            && (pc.Idle? <==>
                  || (e == Store(t) && (op.Try? || op.Release? || s.count > 0))
                  || (e == Check(t) && op.Deadline? && op.at <= s.tasks.now))
            && (!pc.Idle? ==> pc.op == op)
            && (!pc.Idle? && e == Store(t) ==> pc == Asleep(op))
  {
    RunConserves(init, es);
    StepCompletes(SemRun(init, es).value, e, t);
  }

  /** What a store does to the count and to who holds permits; no other step changes either. */
  lemma StoreEffect(init: nat, es: seq<Event>, e: Event)
    requires init < TWO_64 && SemRun(init, es).Some? && SemStep(SemRun(init, es).value, e).Some?
    ensures var s := SemRun(init, es).value;
            var s' := SemStep(s, e).value;
            if e.Store? && PcOf(s.tasks, e.task).op.Release?
            then s'.count == (s.count + 1) % TWO_64 && s'.tasks.held == s.tasks.held - multiset{e.task}
            else if e.Store? && s.count > 0
            then s'.count == s.count - 1 && s'.tasks.held == s.tasks.held + multiset{e.task}
            else s'.count == s.count && s'.tasks.held == s.tasks.held
  {
    RunConserves(init, es);
    var s := SemRun(init, es).value;
    if e.Store? {
      assert PcOf(s.tasks, e.task).seen == s.count;
    }
  }

  /** The one step task `t` can take by itself, if it has asked for something. */
  function OwnStep(pc: Pc, t: nat): Event
    requires !pc.Idle?
  {
    match pc
    case Polling(_) => Check(t)
    case Entering(_) => Lock(t)
    case Inside(_) => Load(t)
    case Loaded(_, _) => Store(t)
    case Asleep(_) => Wake(t)
  }

  /** In every run no task is stuck: it can take its own next step, unless it waits for the inner
      lock, and then the one task inside can take its own. */
  lemma NoTaskIsStuck(init: nat, es: seq<Event>, t: nat)
    requires init < TWO_64 && SemRun(init, es).Some? && !PcOf(SemRun(init, es).value.tasks, t).Idle?
    ensures var s := SemRun(init, es).value;
            var pc := PcOf(s.tasks, t);
            if pc.Entering? && s.tasks.inner.Some?
            then var u := s.tasks.inner.value;
                 InLock(PcOf(s.tasks, u)) && SemStep(s, OwnStep(PcOf(s.tasks, u), u)).Some?
            else SemStep(s, OwnStep(pc, t)).Some?
  {
    RunConserves(init, es);
    var s := SemRun(init, es).value;
    if s.tasks.inner.Some? {
      assert s.tasks.inner == Some(s.tasks.inner.value);
    }
  }

  /** Where the own step of a task leads, except for a store. */
  lemma OwnStepLeads(s: Semaphore, t: nat)
    requires !PcOf(s.tasks, t).Idle? && SemStep(s, OwnStep(PcOf(s.tasks, t), t)).Some?
    ensures var pc, s' := PcOf(s.tasks, t), SemStep(s, OwnStep(PcOf(s.tasks, t), t)).value;
            match pc
            case Polling(op) =>
              PcOf(s'.tasks, t) == if op.Deadline? && op.at <= s.tasks.now then Idle else Entering(op)
            case Entering(op) => PcOf(s'.tasks, t) == Inside(op) && s.tasks.inner == None && s'.tasks.inner == Some(t)
            case Inside(op) => PcOf(s'.tasks, t) == Loaded(op, s.count)
            case Loaded(_, _) => s'.tasks.inner == None
            case Asleep(op) => PcOf(s'.tasks, t) == Polling(op)
  {
  }

  // ---------- The mutex ----------

  datatype Mutex = Mutex(locked: bool, tasks: Tasks)

  /** What a load reads of a mutex: whether it is free. */
  function Free(m: Mutex): nat {
    if m.locked then 0 else 1
  }

  /** Unlocking a mutex that was read as unlocked raises and changes nothing but the inner
      lock. */
  function MutexStep(m: Mutex, e: Event): Option<Mutex> {
    match e
    case Store(t) =>
      if !PcOf(m.tasks, t).Loaded? then None
      else
        var Loaded(op, n) := PcOf(m.tasks, t);
        if op.Release? then
          if n == 0 then Some(Mutex(false, Released(m.tasks, t))) else Some(m.(tasks := Leave(m.tasks, t, Idle)))
        else if n > 0 then Some(Mutex(true, Acquired(m.tasks, t)))
        else Some(m.(tasks := Missed(m.tasks, t, op)))
    case _ =>
      match Move(m.tasks, Free(m), e)
      case None => None
      case Some(ts) => Some(m.(tasks := ts))
  }

  function MutexRun(locked: bool, es: seq<Event>): Option<Mutex> {
    if es == [] then Some(Mutex(locked, NOBODY))
    else match MutexRun(locked, es[..|es| - 1])
      case None => None
      case Some(m) => MutexStep(m, es[|es| - 1])
  }

  function AsSemaphore(m: Mutex): Semaphore {
    Semaphore(Free(m), m.tasks)
  }

  function Lifted(m: Option<Mutex>): Option<Semaphore> {
    match m
    case None => None
    case Some(x) => Some(AsSemaphore(x))
  }

  /** Whether a step unlocks a mutex that is not locked. */
  predicate StrayUnlock(m: Mutex, e: Event) {
    e.Store? && PcOf(m.tasks, e.task).Loaded? && PcOf(m.tasks, e.task).op.Release? && !m.locked
  }

  lemma MutexStepKeepsSound(m: Mutex, e: Event)
    requires Sound(m.tasks, Free(m)) && MutexStep(m, e).Some?
    ensures Sound(MutexStep(m, e).value.tasks, Free(MutexStep(m, e).value))
  {
    if e.Store? {
      var m' := MutexStep(m, e).value;
      LeaveKeepsSound(m.tasks, Free(m), e.task, Idle, Free(m'));
      LeaveKeepsSound(m.tasks, Free(m), e.task, Asleep(PcOf(m.tasks, e.task).op), Free(m'));
    } else {
      MoveKeepsSound(m.tasks, Free(m), e);
    }
  }

  lemma {:induction false} MutexRunSound(locked: bool, es: seq<Event>)
    requires MutexRun(locked, es).Some?
    ensures Sound(MutexRun(locked, es).value.tasks, Free(MutexRun(locked, es).value))
  {
    if es != [] {
      MutexRunSound(locked, es[..|es| - 1]);
      MutexStepKeepsSound(MutexRun(locked, es[..|es| - 1]).value, es[|es| - 1]);
    }
  }

  lemma StepLifts(m: Mutex, e: Event)
    requires LoadsFresh(m.tasks, Free(m))
    ensures Lifted(MutexStep(m, e)) == SemStep(AsSemaphore(m), e) <==> !StrayUnlock(m, e)
  {
    if e.Store? && PcOf(m.tasks, e.task).Loaded? {
      assert PcOf(m.tasks, e.task).seen == Free(m);
    }
  }

  /** In every run, a mutex step is a step of a one-permit semaphore exactly when it is not a
      stray unlock. */
  lemma MutexStepIsSemaphoreStepExactly(locked: bool, es: seq<Event>, e: Event)
    requires MutexRun(locked, es).Some?
    ensures var m := MutexRun(locked, es).value;
            Lifted(MutexStep(m, e)) == SemStep(AsSemaphore(m), e) <==> !StrayUnlock(m, e)
  {
    MutexRunSound(locked, es);
    StepLifts(MutexRun(locked, es).value, e);
  }

  /** A stray unlock raises: the task is done, the mutex stays unlocked, and nobody gains or loses
      it. */
  lemma StrayUnlockRaises(m: Mutex, e: Event)
    requires LoadsFresh(m.tasks, Free(m)) && StrayUnlock(m, e)
    ensures MutexStep(m, e).Some?
    ensures var m' := MutexStep(m, e).value;
            && !m'.locked && m'.tasks.held == m.tasks.held && m'.tasks.inner == None
            && PcOf(m'.tasks, e.task) == Idle
  {
    assert PcOf(m.tasks, e.task).seen == Free(m);
  }

  ghost predicate NoStrayUnlock(locked: bool, es: seq<Event>) {
    es == [] ||
    (NoStrayUnlock(locked, es[..|es| - 1]) &&
     (MutexRun(locked, es[..|es| - 1]).Some? ==> !StrayUnlock(MutexRun(locked, es[..|es| - 1]).value, es[|es| - 1])))
  }

  /** In runs that unlock only when locked, the mutex behaves as a semaphore with one permit,
      or with none when it starts locked. */
  lemma {:induction false} MutexSimulatesSemaphore(locked: bool, es: seq<Event>)
    requires NoStrayUnlock(locked, es)
    ensures Lifted(MutexRun(locked, es)) == SemRun(if locked then 0 else 1, es)
  {
    if es != [] {
      MutexSimulatesSemaphore(locked, es[..|es| - 1]);
      if MutexRun(locked, es[..|es| - 1]).Some? {
        MutexStepIsSemaphoreStepExactly(locked, es[..|es| - 1], es[|es| - 1]);
      }
    }
  }

  /** Whether every call to unlock in a run is by a task that holds the mutex. */
  ghost predicate HoldersUnlock(es: seq<Event>) {
    es == [] ||
    (var fs := es[..|es| - 1];
     HoldersUnlock(fs) && (MutexRun(false, fs).Some? ==> ByHolder(MutexRun(false, fs).value.tasks, es[|es| - 1])))
  }

  lemma HolderIsNoStray(m: Mutex, e: Event)
    requires LoadsFresh(m.tasks, Free(m)) && Permits(1, AsSemaphore(m))
    ensures !StrayUnlock(m, e)
  {
    if e.Store? && Releasing(PcOf(m.tasks, e.task)) {
      OneMore(m.tasks.held, e.task);
    }
  }

  lemma {:induction false} HoldersSimulate(es: seq<Event>)
    requires HoldersUnlock(es)
    ensures NoStrayUnlock(false, es) && HoldersRelease(1, es) && Lifted(MutexRun(false, es)) == SemRun(1, es)
  {
    if es != [] {
      var fs := es[..|es| - 1];
      HoldersSimulate(fs);
      if MutexRun(false, fs).Some? {
        RunKeepsPermits(1, fs);
        MutexRunSound(false, fs);
        HolderIsNoStray(MutexRun(false, fs).value, es[|es| - 1]);
      }
      MutexSimulatesSemaphore(false, es);
    }
  }

  /** If only holders call unlock, no unlock is stray, no two tasks hold the mutex at once, and
      it is locked exactly while someone holds it. */
  lemma MutexExcludes(es: seq<Event>, t: nat, u: nat)
    requires MutexRun(false, es).Some? && HoldersUnlock(es)
    ensures NoStrayUnlock(false, es)
    ensures var m := MutexRun(false, es).value;
            && (t in m.tasks.held && u in m.tasks.held ==> t == u && m.tasks.held == multiset{t})
            && (m.locked <==> m.tasks.held != multiset{})
  {
    HoldersSimulate(es);
    PermitsConserved(1, es);
    var held := MutexRun(false, es).value.tasks.held;
    if t in held && u in held {
      OneHolder(held, t, u);
    }
  }

  // ---------- The objects, and the timed loop ----------

  /** One millisecond on the system clock, in nanoseconds. */
  const MS := 1_000_000

  /** How far the system clock moved during a sleep, and what the other tasks left meanwhile. */
  datatype Sleep = Sleep(elapsed: int, count: nat)

  /** What poll number `i` finds. */
  function SeenAt(first: nat, sleeps: seq<Sleep>, i: nat): nat
    requires i <= |sleeps|
  {
    if i == 0 then first else sleeps[i - 1].count
  }

  /** The clock at poll number `i`. */
  function ClockAt(start: int, sleeps: seq<Sleep>, i: nat): int
    requires i <= |sleeps|
  {
    if i == 0 then start else ClockAt(start, sleeps, i - 1) + sleeps[i - 1].elapsed
  }

  /** The most polls a timeout allows: its length in milliseconds, rounded up. */
  function MaxPolls(timeout: int): nat {
    if timeout <= 0 then 0 else (timeout + MS - 1) / MS
  }

  predicate ClockAdvances(sleeps: seq<Sleep>) {
    forall i :: 0 <= i < |sleeps| ==> sleeps[i].elapsed >= MS
  }

  lemma {:induction false} ClockAtLeast(start: int, sleeps: seq<Sleep>, i: nat)
    requires ClockAdvances(sleeps) && i <= |sleeps|
    ensures ClockAt(start, sleeps, i) >= start + i * MS
  {
    if i > 0 {
      ClockAtLeast(start, sleeps, i - 1);
    }
  }

  /** If every sleep advances the clock by a millisecond, polls before a deadline are at most
      the timeout's milliseconds, rounded up. */
  lemma PollsAreBounded(start: int, timeout: int, sleeps: seq<Sleep>, polls: nat)
    requires ClockAdvances(sleeps) && polls <= |sleeps| + 1
    requires polls > 0 ==> ClockAt(start, sleeps, polls - 1) < start + timeout
    ensures polls <= MaxPolls(timeout) && (timeout <= 0 ==> polls == 0)
    ensures polls > 0 ==> (polls - 1) * 1_000_000 < timeout
  {
    if polls > 0 {
      ClockAtLeast(start, sleeps, polls - 1);
      assert (polls - 1) * MS < timeout;
    }
  }

  /** How a timed acquire ends: with a permit, at its deadline, or not within the sleeps given. */
  datatype Timed = Took | GaveUp | StillPolling

  class AsyncSemaphore {
    var count: nat

    constructor (initCount: nat)
      requires initCount < TWO_64
      ensures count == initCount
    {
      count := initCount;
    }

    method TryAcquire() returns (ok: bool)
      modifies this
      ensures ok <==> old(count) > 0
      ensures count == if ok then old(count) - 1 else old(count)
    {
      ok := count > 0;
      if ok {
        count := count - 1;
      }
    }

    method Release()
      modifies this
      ensures count == (old(count) + 1) % TWO_64
    {
      count := (count + 1) % TWO_64;
    }

    /** The timed acquire. A sleep may move the clock by anything, even back, and the other tasks
        may leave any count. It takes one permit exactly when it says so, otherwise it leaves
        what the others left, and every poll is before the deadline. Only the bound on the polls
        needs a clock that advances. */
    method AcquireFor(timeout: int, start: int, sleeps: seq<Sleep>) returns (r: Timed, polls: nat)
      modifies this
      ensures polls <= |sleeps| + 1
      ensures r.Took? ==> polls > 0 && SeenAt(old(count), sleeps, polls - 1) > 0 &&
                          count == SeenAt(old(count), sleeps, polls - 1) - 1
      ensures r.GaveUp? ==> polls <= |sleeps| && count == SeenAt(old(count), sleeps, polls) &&
                            ClockAt(start, sleeps, polls) >= start + timeout
      ensures r.StillPolling? ==> polls == |sleeps| + 1 && count == SeenAt(old(count), sleeps, |sleeps|) == 0
      ensures forall i :: 0 <= i < polls ==> ClockAt(start, sleeps, i) < start + timeout
      ensures forall i :: 0 <= i < (if r.Took? then polls - 1 else polls) ==> SeenAt(old(count), sleeps, i) == 0
      ensures ClockAdvances(sleeps) ==>
                && polls <= MaxPolls(timeout) && (|sleeps| >= MaxPolls(timeout) ==> !r.StillPolling?)
                && (polls > 0 ==> (polls - 1) * 1_000_000 < timeout)
    {
      polls := 0;
      var now := start;
      var elapsed := start + timeout;
      while elapsed > now
        invariant polls <= |sleeps| && now == ClockAt(start, sleeps, polls)
        invariant count == SeenAt(old(count), sleeps, polls)
        invariant forall i :: 0 <= i < polls ==> ClockAt(start, sleeps, i) < start + timeout
        invariant forall i :: 0 <= i < polls ==> SeenAt(old(count), sleeps, i) == 0
        decreases |sleeps| - polls
      {
        if ClockAdvances(sleeps) {
          PollsAreBounded(start, timeout, sleeps, polls + 1);
        }
        polls := polls + 1;
        if count > 0 {
          count := count - 1;
          return Took, polls;
        }
        if polls > |sleeps| {
          return StillPolling, polls;
        }
        var sleep := sleeps[polls - 1];
        now, count := now + sleep.elapsed, sleep.count;
      }
      if ClockAdvances(sleeps) {
        PollsAreBounded(start, timeout, sleeps, polls);
      }
      r := GaveUp;
    }
  }

  class AsyncMutex {
    var locked: bool

    constructor (initLocked: bool)
      ensures locked == initLocked
    {
      locked := initLocked;
    }

    method TryLock() returns (ok: bool)
      modifies this
      ensures ok == !old(locked) && locked
    {
      ok := !locked;
      locked := true;
    }

    /** Fails, changing nothing, when the mutex is not locked. */
    method Unlock() returns (ok: bool)
      modifies this
      ensures ok == old(locked) && !locked
    {
      if !locked {
        return false;
      }
      locked := false;
      ok := true;
    }
  }
}
