/** A pool of at most max_size objects, shared by threads that wait on a condition variable. */
module BorrowedObjectPools {
  type Object = nat
  type Thread = nat

  // ---- The critical sections ----

  /** What the mutex protects. */
  datatype Pool = Pool(maxSize: nat, allocatedSize: int, borrowedSize: int, objects: seq<Object>)

  datatype Option = None | Some(value: Object)

  function BorrowFromObjects(p: Pool): (Pool, Object)
    requires p.objects != []
  {
    var last := |p.objects| - 1;
    (p.(objects := p.objects[..last], borrowedSize := p.borrowedSize + 1), p.objects[last])
  }

  function AllocateForBorrowing(p: Pool): Pool {
    p.(allocatedSize := p.allocatedSize + 1, borrowedSize := p.borrowedSize + 1)
  }

  /** The section a borrower enters first: takes an object, makes one with the factory, or has to wait. */
  function Enter(p: Pool, made: Object): (Pool, Option) {
    if p.objects != [] then
      var (next, item) := BorrowFromObjects(p);
      (next, Some(item))
    else if p.maxSize == 0 || p.allocatedSize < p.maxSize then (AllocateForBorrowing(p), Some(made))
    else (p, None)
  }

  /** The section a borrower runs when it has been woken: the predicate of the wait, then the object. */
  function Resume(p: Pool): (Pool, Option) {
    if p.objects == [] then (p, None)
    else
      var (next, item) := BorrowFromObjects(p);
      (next, Some(item))
  }

  function PutBack(p: Pool, item: Object): Pool {
    p.(objects := p.objects + [item], borrowedSize := p.borrowedSize - 1)
  }

  /** The counters count: allocated = borrowed + idle, none negative, and the limit is kept. */
  predicate Sound(p: Pool) {
    && p.borrowedSize >= 0
    && p.allocatedSize == p.borrowedSize + |p.objects|
    && (p.maxSize > 0 ==> p.allocatedSize <= p.maxSize)
  }

  /** No object idle, and none left to make: clients hold all that the limit allows. */
  predicate Exhausted(p: Pool) {
    p.maxSize > 0 && p.objects == [] && p.borrowedSize == p.maxSize
  }

  /** The pool itself, one critical section per method. */
  class BorrowedObjectPool {
    const maxSize: nat
    var allocatedSize: int
    var borrowedSize: int
    var objects: seq<Object>

    function Contents(): Pool
      reads this
    {
      Pool(maxSize, allocatedSize, borrowedSize, objects)
    }

    ghost predicate Valid()
      reads this
    {
      Sound(Contents())
    }

    constructor (maxSize: nat)
      ensures Valid() && Contents() == Pool(maxSize, 0, 0, [])
    {
      this.maxSize := maxSize;
      allocatedSize, borrowedSize, objects := 0, 0, [];
    }

    /**
     * A borrower waits exactly when clients hold every object the limit allows. Otherwise it gets one object and the
     * client count grows by one: the last idle one, or a new one, made only when none is idle.
     */
    method EnterBorrow(made: Object) returns (dest: Option)
      requires Valid()
      modifies this
      ensures Valid() && (Contents(), dest) == Enter(old(Contents()), made)
      ensures dest == None <==> old(Exhausted(Contents()))
      ensures dest == None ==> Contents() == old(Contents())
      ensures dest.Some? ==> borrowedSize == old(borrowedSize) + 1
      ensures dest.Some? && old(objects) != [] ==>
                objects + [dest.value] == old(objects) && allocatedSize == old(allocatedSize)
      ensures dest.Some? && old(objects) == [] ==>
                dest.value == made && allocatedSize == old(allocatedSize) + 1 && objects == []
    {
      if objects != [] {
        var item := TakeLast();
        return Some(item);
      }
      if maxSize == 0 || allocatedSize < maxSize {
        allocatedSize := allocatedSize + 1;
        borrowedSize := borrowedSize + 1;
        return Some(made);
      }
      dest := None;
    }

    /** A woken borrower gets an object exactly when one is idle, and makes none. */
    method ResumeBorrow() returns (dest: Option)
      requires Valid()
      modifies this
      ensures Valid() && (Contents(), dest) == Resume(old(Contents()))
      ensures dest.Some? <==> old(objects) != []
      ensures dest.Some? ==> objects + [dest.value] == old(objects) && borrowedSize == old(borrowedSize) + 1
      ensures dest.None? ==> Contents() == old(Contents())
      ensures allocatedSize == old(allocatedSize)
    {
      if objects == [] {
        return None;
      }
      var item := TakeLast();
      dest := Some(item);
    }

    method TakeLast() returns (dst: Object)
      requires Valid() && objects != []
      modifies this
      ensures Valid() && (Contents(), dst) == BorrowFromObjects(old(Contents()))
      ensures objects + [dst] == old(objects)
    {
      dst := objects[|objects| - 1];
      objects := objects[..|objects| - 1];
      borrowedSize := borrowedSize + 1;
    }

    /** Only a borrowed object can come back; it is the next one to be handed out. */
    method ReturnObject(item: Object)
      requires Valid() && borrowedSize >= 1
      modifies this
      ensures Valid() && Contents() == PutBack(old(Contents()), item)
      ensures objects == old(objects) + [item] && !Exhausted(Contents())
      ensures allocatedSize == old(allocatedSize) && borrowedSize == old(borrowedSize) - 1
    {
      objects := objects + [item];
      borrowedSize := borrowedSize - 1;
    }

    /** An object returned to an idle-empty pool goes to the next borrower, and the pool is as before. */
    method ReturnThenBorrow(item: Object, made: Object) returns (dest: Option)
      requires Valid() && borrowedSize >= 1
      modifies this
      ensures Valid() && dest == Some(item) && Contents() == old(Contents())
    {
      ReturnObject(item);
      dest := EnterBorrow(made);
      assert objects + [dest.value] == old(objects) + [item];
      assert objects == (objects + [dest.value])[..|old(objects)|] == old(objects);
    }
  }

  // ---- The protocol ----

  /** How a thread left its sleep: whether its wait is timed, and whether the time is over. */
  datatype Wake = Wake(timed: bool, expired: bool)

  /** The pool, the threads asleep (timed or not), those unblocked but not yet run, and what clients hold. */
  datatype State =
    State(pool: Pool, sleeping: map<Thread, bool>, woken: map<Thread, Wake>, holding: map<Thread, Object>)

  /** Every mutex section, and every way to leave a sleep. */
  datatype Step =
    | EnterStep(thread: Thread, timed: bool, made: Object)
    | NotifiedReturn(thread: Thread, waiter: Thread)
    | QuietReturn(thread: Thread)
    | Spurious(thread: Thread)
    | Timeout(thread: Thread)
    | ResumeStep(thread: Thread)

  predicate Busy(s: State, t: Thread) {
    t in s.sleeping || t in s.woken || t in s.holding
  }

  /** An object that the factory has not made before. */
  predicate Fresh(s: State, o: Object) {
    o !in s.pool.objects && forall t :: t in s.holding ==> s.holding[t] != o
  }

  /** notify_one unblocks some sleeping thread when there is one, and has no effect otherwise. */
  predicate Enabled(s: State, step: Step) {
    match step
    case EnterStep(t, timed, made) => !Busy(s, t) && Fresh(s, made)
    case NotifiedReturn(t, waiter) => t in s.holding && waiter in s.sleeping
    case QuietReturn(t) => t in s.holding && s.sleeping == map[]
    case Spurious(t) => t in s.sleeping
    case Timeout(t) => t in s.sleeping && s.sleeping[t]
    case ResumeStep(t) => t in s.woken
  }

  function Next(s: State, step: Step): State
    requires Enabled(s, step)
  {
    match step
    case EnterStep(t, timed, made) =>
      var (pool, taken) := Enter(s.pool, made);
      if taken.Some? then s.(pool := pool, holding := s.holding[t := taken.value])
      else s.(sleeping := s.sleeping[t := timed])
    case NotifiedReturn(t, waiter) =>
      s.(pool := PutBack(s.pool, s.holding[t]), holding := s.holding - {t},
         sleeping := s.sleeping - {waiter}, woken := s.woken[waiter := Wake(s.sleeping[waiter], false)])
    case QuietReturn(t) =>
      s.(pool := PutBack(s.pool, s.holding[t]), holding := s.holding - {t})
    case Spurious(t) =>
      s.(sleeping := s.sleeping - {t}, woken := s.woken[t := Wake(s.sleeping[t], false)])
    case Timeout(t) =>
      s.(sleeping := s.sleeping - {t}, woken := s.woken[t := Wake(true, true)])
    case ResumeStep(t) =>
      var (pool, taken) := Resume(s.pool);
      if taken.Some? then s.(pool := pool, woken := s.woken - {t}, holding := s.holding[t := taken.value])
      else if s.woken[t].expired then s.(woken := s.woken - {t})
      else s.(woken := s.woken - {t}, sleeping := s.sleeping[t := s.woken[t].timed])
  }

  // ---- What every step keeps ----

  /** Every thread is in one place. */
  predicate Separate(s: State) {
    && s.sleeping.Keys !! s.woken.Keys
    && s.sleeping.Keys !! s.holding.Keys
    && s.woken.Keys !! s.holding.Keys
  }

  /** The counters count: allocated = borrowed + idle, and the borrowed objects are those that clients hold. */
  predicate Tallies(p: Pool, holding: map<Thread, Object>) {
    p.borrowedSize == |holding| && p.allocatedSize == p.borrowedSize + |p.objects|
  }

  predicate Counted(s: State) {
    Tallies(s.pool, s.holding)
  }

  predicate Limited(s: State) {
    s.pool.maxSize > 0 ==> s.pool.allocatedSize <= s.pool.maxSize
  }

  /** Threads wait only for a full pool. */
  predicate WaitsWhenFull(s: State) {
    s.sleeping != map[] || s.woken != map[] ==> s.pool.maxSize > 0 && s.pool.allocatedSize == s.pool.maxSize
  }

  /** No object is in two places. */
  predicate OneHolder(objects: seq<Object>, holding: map<Thread, Object>) {
    && (forall i, j :: 0 <= i < j < |objects| ==> objects[i] != objects[j])
    && (forall t, u :: t in holding && u in holding && t != u ==> holding[t] != holding[u])
    && (forall t :: t in holding ==> holding[t] !in objects)
  }

  predicate Exclusive(s: State) {
    OneHolder(s.pool.objects, s.holding)
  }

  /** No lost wakeup: while a thread sleeps, every idle object has a woken thread on its way. */
  predicate NoLostWakeup(s: State) {
    s.sleeping != map[] ==> |s.woken| >= |s.pool.objects|
  }

  predicate Inv(s: State) {
    Separate(s) && Counted(s) && Limited(s) && WaitsWhenFull(s) && Exclusive(s) && NoLostWakeup(s)
  }

  predicate Init(s: State) {
    s == State(Pool(s.pool.maxSize, 0, 0, []), map[], map[], map[])
  }

  lemma Removed<V>(m: map<Thread, V>, t: Thread)
    requires t in m
    ensures |m - {t}| == |m| - 1 && (m - {t}).Keys == m.Keys - {t}
  {
    assert (m - {t})[t := m[t]] == m;
  }

  lemma StepKeepsSeparate(s: State, step: Step)
    requires Enabled(s, step) && Inv(s)
    ensures Separate(Next(s, step))
  {
    hide Exclusive, Fresh, Enter, Resume, PutBack, Limited, WaitsWhenFull, NoLostWakeup;
  }

  lemma TakingKeepsTallies(p: Pool, holding: map<Thread, Object>, t: Thread)
    requires Tallies(p, holding) && p.objects != [] && t !in holding
    ensures Tallies(BorrowFromObjects(p).0, holding[t := BorrowFromObjects(p).1])
  {
  }

  lemma MakingKeepsTallies(p: Pool, holding: map<Thread, Object>, t: Thread, made: Object)
    requires Tallies(p, holding) && t !in holding
    ensures Tallies(AllocateForBorrowing(p), holding[t := made])
  {
  }

  lemma ReturningKeepsTallies(p: Pool, holding: map<Thread, Object>, t: Thread)
    requires Tallies(p, holding) && t in holding
    ensures Tallies(PutBack(p, holding[t]), holding - {t})
  {
    Removed(holding, t);
  }

  lemma StepKeepsCounts(s: State, step: Step)
    requires Enabled(s, step) && Inv(s)
    ensures Counted(Next(s, step))
  {
    hide Exclusive, Fresh, WaitsWhenFull, NoLostWakeup, Limited, Tallies;
    hide BorrowFromObjects, AllocateForBorrowing, PutBack;
    var p, holding := s.pool, s.holding;
    match step
    case EnterStep(t, timed, made) =>
      if p.objects != [] { TakingKeepsTallies(p, holding, t); } else { MakingKeepsTallies(p, holding, t, made); }
    case NotifiedReturn(t, waiter) => ReturningKeepsTallies(p, holding, t);
    case QuietReturn(t) => ReturningKeepsTallies(p, holding, t);
    case Spurious(t) =>
    case Timeout(t) =>
    case ResumeStep(t) =>
      if p.objects != [] { TakingKeepsTallies(p, holding, t); }
  }

  lemma StepKeepsLimit(s: State, step: Step)
    requires Enabled(s, step) && Inv(s)
    ensures Limited(Next(s, step)) && WaitsWhenFull(Next(s, step))
  {
    hide Exclusive, Fresh, NoLostWakeup, Separate;
  }

  lemma TakingKeepsExclusive(objects: seq<Object>, holding: map<Thread, Object>, t: Thread)
    requires OneHolder(objects, holding) && objects != [] && t !in holding
    ensures OneHolder(objects[..|objects| - 1], holding[t := objects[|objects| - 1]])
  {
  }

  lemma MakingKeepsExclusive(objects: seq<Object>, holding: map<Thread, Object>, t: Thread, made: Object)
    requires OneHolder(objects, holding) && t !in holding && made !in objects
    requires forall u :: u in holding ==> holding[u] != made
    ensures OneHolder(objects, holding[t := made])
  {
  }

  lemma ReturningKeepsExclusive(objects: seq<Object>, holding: map<Thread, Object>, t: Thread)
    requires OneHolder(objects, holding) && t in holding
    ensures OneHolder(objects + [holding[t]], holding - {t})
  {
  }

  lemma StepKeepsExclusive(s: State, step: Step)
    requires Enabled(s, step) && Inv(s)
    ensures Exclusive(Next(s, step))
  {
    hide OneHolder, Tallies, Limited, WaitsWhenFull, NoLostWakeup;
    var objects, holding := s.pool.objects, s.holding;
    match step
    case EnterStep(t, timed, made) =>
      if objects != [] {
        TakingKeepsExclusive(objects, holding, t);
      } else {
        MakingKeepsExclusive(objects, holding, t, made);
      }
    case NotifiedReturn(t, waiter) => ReturningKeepsExclusive(objects, holding, t);
    case QuietReturn(t) => ReturningKeepsExclusive(objects, holding, t);
    case Spurious(t) =>
    case Timeout(t) =>
    case ResumeStep(t) =>
      if objects != [] { TakingKeepsExclusive(objects, holding, t); }
  }

  lemma EnterKeepsWakeups(s: State, step: Step)
    requires Enabled(s, step) && Inv(s) && step.EnterStep?
    ensures NoLostWakeup(Next(s, step))
  {
    hide Separate, Counted, Limited, WaitsWhenFull, Exclusive, Fresh, Busy;
  }

  lemma ResumeKeepsWakeups(s: State, step: Step)
    requires Enabled(s, step) && Inv(s) && step.ResumeStep?
    ensures NoLostWakeup(Next(s, step))
  {
    hide Separate, Counted, Limited, WaitsWhenFull, Exclusive, Fresh, Busy;
    Removed(s.woken, step.thread);
    var pool, woken := Next(s, step).pool, Next(s, step).woken;
    assert |woken| == |s.woken| - 1;
    assert |pool.objects| == if s.pool.objects == [] then 0 else |s.pool.objects| - 1;
  }

  lemma ReturnKeepsWakeups(s: State, step: Step)
    requires Enabled(s, step) && Inv(s) && (step.NotifiedReturn? || step.QuietReturn?)
    ensures NoLostWakeup(Next(s, step))
  {
    hide Counted, Limited, WaitsWhenFull, Exclusive, Fresh, Busy;
  }

  lemma WakingKeepsWakeups(s: State, step: Step)
    requires Enabled(s, step) && Inv(s) && (step.Spurious? || step.Timeout?)
    ensures NoLostWakeup(Next(s, step))
  {
    hide Counted, Limited, WaitsWhenFull, Exclusive, Fresh, Busy;
  }

  lemma StepKeepsWakeups(s: State, step: Step)
    requires Enabled(s, step) && Inv(s)
    ensures NoLostWakeup(Next(s, step))
  {
    hide *;
    match step
    case EnterStep(_, _, _) => EnterKeepsWakeups(s, step);
    case NotifiedReturn(_, _) => ReturnKeepsWakeups(s, step);
    case QuietReturn(_) => ReturnKeepsWakeups(s, step);
    case Spurious(_) => WakingKeepsWakeups(s, step);
    case Timeout(_) => WakingKeepsWakeups(s, step);
    case ResumeStep(_) => ResumeKeepsWakeups(s, step);
  }

  /** Every step of every thread keeps the whole invariant. */
  lemma StepKeepsInvariant(s: State, step: Step)
    requires Enabled(s, step) && Inv(s)
    ensures Inv(Next(s, step))
  {
    hide Separate, Counted, Limited, WaitsWhenFull, Exclusive, NoLostWakeup, Enabled, Next;
    StepKeepsSeparate(s, step);
    StepKeepsCounts(s, step);
    StepKeepsLimit(s, step);
    StepKeepsExclusive(s, step);
    StepKeepsWakeups(s, step);
  }

  /** A run: steps that were each possible when they were taken. */
  ghost predicate IsRun(states: seq<State>, steps: seq<Step>) {
    && |states| == |steps| + 1
    && Init(states[0])
    && forall i :: 0 <= i < |steps| ==> Enabled(states[i], steps[i]) && states[i + 1] == Next(states[i], steps[i])
  }

  /** The invariant holds after every step of every run, whatever the interleaving. */
  lemma {:induction false} RunKeepsInvariant(states: seq<State>, steps: seq<Step>, n: nat)
    requires IsRun(states, steps) && n < |states|
    ensures Inv(states[n])
  {
    if n == 0 {
    } else {
      RunKeepsInvariant(states, steps, n - 1);
      StepKeepsInvariant(states[n - 1], steps[n - 1]);
    }
  }

  // ---- What becomes of each thread ----

  datatype Where = Away | Asleep(timed: bool) | Awake(timed: bool, expired: bool) | Holds(item: Object)

  function WhereIs(s: State, t: Thread): Where {
    if t in s.holding then Holds(s.holding[t])
    else if t in s.sleeping then Asleep(s.sleeping[t])
    else if t in s.woken then Awake(s.woken[t].timed, s.woken[t].expired)
    else Away
  }

  /** A step concerns its own thread, and the one that a return notifies; every other thread stays where it is. */
  lemma OthersStay(s: State, step: Step, t: Thread)
    requires Enabled(s, step) && t != step.thread && !(step.NotifiedReturn? && t == step.waiter)
    ensures WhereIs(Next(s, step), t) == WhereIs(s, t)
  {
  }

  /** Which steps may happen, by where the threads are. */
  lemma StepsPossible(s: State, t: Thread, u: Thread, timed: bool, made: Object)
    requires Separate(s)
    ensures Enabled(s, EnterStep(t, timed, made)) <==> WhereIs(s, t) == Away && Fresh(s, made)
    ensures Enabled(s, NotifiedReturn(t, u)) <==> WhereIs(s, t).Holds? && WhereIs(s, u).Asleep?
    ensures Enabled(s, QuietReturn(t)) <==> WhereIs(s, t).Holds? && forall v :: !WhereIs(s, v).Asleep?
    ensures Enabled(s, Spurious(t)) <==> WhereIs(s, t).Asleep?
    ensures Enabled(s, Timeout(t)) <==> WhereIs(s, t) == Asleep(true)
    ensures Enabled(s, ResumeStep(t)) <==> WhereIs(s, t).Awake?
  {
    hide Fresh;
    forall v | v in s.sleeping ensures WhereIs(s, v).Asleep? {
      assert v in s.sleeping.Keys && v !in s.holding.Keys;
    }
    assert s.sleeping == map[] <==> forall v :: v !in s.sleeping;
  }

  /** Where the thread of a step goes, and with which object. */
  lemma ThreadMoves(s: State, step: Step)
    requires Enabled(s, step) && Inv(s)
    ensures var t, idle := step.thread, s.pool.objects;
            var before, after := WhereIs(s, t), WhereIs(Next(s, step), t);
            match step
            case EnterStep(_, timed, made) =>
              && before == Away
              && after == if idle != [] then Holds(idle[|idle| - 1])
                          else if s.pool.maxSize > 0 && |s.holding| == s.pool.maxSize then Asleep(timed)
                          else Holds(made)
            case NotifiedReturn(_, waiter) =>
              && before.Holds? && after == Away && WhereIs(s, waiter).Asleep?
              && WhereIs(Next(s, step), waiter) == Awake(WhereIs(s, waiter).timed, false)
            case QuietReturn(_) => before.Holds? && after == Away && s.sleeping == map[]
            case Spurious(_) => before.Asleep? && after == Awake(before.timed, false)
            case Timeout(_) => before == Asleep(true) && after == Awake(true, true)
            case ResumeStep(_) =>
              && before.Awake?
              && after == if idle != [] then Holds(idle[|idle| - 1])
                          else if before.expired then Away
                          else Asleep(before.timed)
  {
    hide Exclusive, Fresh, NoLostWakeup;
  }

  /** What happens to the idle objects: the last one is taken, a returned one becomes the last, waking changes none. */
  lemma IdleMoves(s: State, step: Step)
    requires Enabled(s, step)
    ensures var idle, after := s.pool.objects, Next(s, step).pool.objects;
            match step
            case EnterStep(_, _, _) => after == if idle == [] then [] else idle[..|idle| - 1]
            case NotifiedReturn(t, _) => after == idle + [s.holding[t]]
            case QuietReturn(t) => after == idle + [s.holding[t]]
            case Spurious(_) => after == idle
            case Timeout(_) => after == idle
            case ResumeStep(_) => after == if idle == [] then [] else idle[..|idle| - 1]
    ensures Next(s, step).pool.maxSize == s.pool.maxSize
  {
  }

  predicate Waits(s: State, t: Thread, timed: bool) {
    (t in s.sleeping && s.sleeping[t] == timed) || (t in s.woken && s.woken[t].timed == timed)
  }

  /** A time that is over was limited. */
  predicate ExpiredAreTimed(s: State) {
    forall t :: t in s.woken && s.woken[t].expired ==> s.woken[t].timed
  }

  lemma StepKeepsExpired(s: State, step: Step)
    requires Enabled(s, step) && ExpiredAreTimed(s)
    ensures ExpiredAreTimed(Next(s, step))
  {
    hide Enter, Resume, PutBack, Fresh, Busy;
  }

  /** A waiting thread leaves its wait only with an object, or when its time is over and no object is idle. */
  lemma WaitEnds(s: State, step: Step, t: Thread, timed: bool)
    requires Enabled(s, step) && Inv(s) && ExpiredAreTimed(s) && Waits(s, t, timed)
    ensures var next := Next(s, step);
            || Waits(next, t, timed)
            || t in next.holding
            || (timed && step == ResumeStep(t) && s.woken[t].expired && s.pool.objects == []
                && WhereIs(next, t) == Away)
  {
    hide Exclusive, Fresh, NoLostWakeup, Counted, Limited, WaitsWhenFull;
    if t == step.thread || (step.NotifiedReturn? && t == step.waiter) {
      ThreadMoves(s, step);
    } else {
      OthersStay(s, step, t);
    }
  }

  /** And then it does leave. */
  lemma ExpiredWaitEnds(s: State, t: Thread)
    requires Inv(s) && t in s.woken && s.woken[t].expired && s.pool.objects == []
    ensures Enabled(s, ResumeStep(t)) && WhereIs(Next(s, ResumeStep(t)), t) == Away
  {
    ThreadMoves(s, ResumeStep(t));
  }

  lemma {:induction false} RunKeepsExpired(states: seq<State>, steps: seq<Step>, n: nat)
    requires IsRun(states, steps) && n < |states|
    ensures ExpiredAreTimed(states[n])
  {
    if n == 0 {
    } else {
      RunKeepsExpired(states, steps, n - 1);
      StepKeepsExpired(states[n - 1], steps[n - 1]);
    }
  }

  /** One step of a run, for a thread that waits without a limit. */
  lemma UntimedStep(states: seq<State>, steps: seq<Step>, i: nat, t: Thread)
    requires IsRun(states, steps) && i < |steps| && Waits(states[i], t, false)
    ensures Waits(states[i + 1], t, false) || t in states[i + 1].holding
  {
    RunKeepsInvariant(states, steps, i);
    RunKeepsExpired(states, steps, i);
    WaitEnds(states[i], steps[i], t, false);
  }

  /** In every run, an untimed borrower that waits goes on waiting until it holds an object. */
  lemma {:induction false} UntimedBorrowersAreServed(states: seq<State>, steps: seq<Step>, i: nat, j: nat, t: Thread)
    requires IsRun(states, steps) && i <= j < |states| && Waits(states[i], t, false)
    ensures Waits(states[j], t, false) || exists m :: i < m <= j && t in states[m].holding
    decreases j
  {
    hide Waits, Next, Enabled;
    if i == j {
    } else {
      UntimedBorrowersAreServed(states, steps, i, j - 1, t);
      if Waits(states[j - 1], t, false) { UntimedStep(states, steps, j - 1, t); }
    }
  }

  /** A timed borrower that gives up has been timed out, and finds no idle object when it does. */
  lemma TimedBorrowersGiveUp(states: seq<State>, steps: seq<Step>, i: nat, t: Thread)
    requires IsRun(states, steps) && i < |steps| && Waits(states[i], t, true) && !Waits(states[i + 1], t, true)
    ensures t in states[i + 1].holding
            || (steps[i] == ResumeStep(t) && t in states[i].woken && states[i].woken[t].expired
                && states[i].pool.objects == [] && WhereIs(states[i + 1], t) == Away)
  {
    RunKeepsInvariant(states, steps, i);
    RunKeepsExpired(states, steps, i);
    WaitEnds(states[i], steps[i], t, true);
  }

  // ---- What the invariant gives ----

  /** In every reachable state the object behind the mutex is sound, so its methods may be called. */
  lemma InvariantIsSound(s: State)
    requires Inv(s)
    ensures Sound(s.pool) && (s.holding != map[] ==> s.pool.borrowedSize >= 1)
    ensures Exhausted(s.pool) <==> s.pool.maxSize > 0 && s.pool.objects == [] && |s.holding| == s.pool.maxSize
  {
    if s.holding != map[] {
      var t :| t in s.holding;
      Removed(s.holding, t);
    }
  }

  /** A thread sleeps with nobody on the way only while clients hold every object the pool may make. */
  lemma SleepersWaitForClients(s: State)
    requires Inv(s) && s.sleeping != map[] && s.woken == map[]
    ensures s.pool.objects == [] && |s.holding| == s.pool.maxSize > 0
  {
  }

  /** The woken threads alone can take every idle object while a thread sleeps. */
  lemma {:induction false} WokenThreadsTakeIdleObjects(s: State) returns (steps: seq<Step>, final: State)
    requires Inv(s) && s.sleeping != map[]
    ensures final.pool.objects == [] && |steps| == |s.pool.objects| && Leads(s, steps, final)
    decreases |s.pool.objects|
  {
    if s.pool.objects == [] {
      steps, final := [], s;
    } else {
      assert s.woken != map[];
      var t :| t in s.woken;
      var step := ResumeStep(t);
      StepKeepsInvariant(s, step);
      var rest;
      rest, final := WokenThreadsTakeIdleObjects(Next(s, step));
      steps := [step] + rest;
      assert steps[1..] == rest;
    }
  }

  predicate Leads(s: State, steps: seq<Step>, final: State)
    decreases |steps|
  {
    if steps == [] then s == final
    else Enabled(s, steps[0]) && Leads(Next(s, steps[0]), steps[1..], final)
  }
}
