/** The timer queue under any interleaving of scheduling and worker threads. */
module Timers {
  import opened Rows

  /** `id` numbers timers in the order they are added. */
  datatype Timer = Timer(id: nat, deadline: int)

  // ---- timer_add

  /** Behind the last timer that is not due later, found from the back. */
  function Place(q: seq<Timer>, deadline: int): (k: nat)
    ensures k <= |q|
    ensures k > 0 ==> q[k - 1].deadline <= deadline
    ensures forall i | k <= i < |q| :: deadline < q[i].deadline
  {
    if q == [] || q[|q| - 1].deadline <= deadline then |q| else Place(q[..|q| - 1], deadline)
  }

  ghost function Added(q: seq<Timer>, t: Timer): (r: seq<Timer>) {
    Inserted(q, Place(q, t.deadline), t)
  }

  /** By deadline, and in order of arrival among equals. */
  ghost predicate Ordered(q: seq<Timer>) {
    forall i, j | 0 <= i < j < |q| :: Before(q[i], q[j])
  }

  ghost predicate Before(a: Timer, b: Timer) {
    a.deadline < b.deadline || (a.deadline == b.deadline && a.id < b.id)
  }

  lemma AddedOrdered(q: seq<Timer>, t: Timer)
    requires Ordered(q) && forall i | 0 <= i < |q| :: q[i].id < t.id
    ensures Ordered(Added(q, t))
  {
    var k, r := Place(q, t.deadline), Added(q, t);
    forall i, j | 0 <= i < j < |r| ensures Before(r[i], r[j]) {
      if i < j == k { assert i == k - 1 || Before(q[i], q[k - 1]); }
    }
  }

  // ---- the scheduler as a state machine

  datatype Shot = Shot(timer: Timer, time: int)

  /** The list, the timers workers have taken off it, the callbacks made, all timers ever
      scheduled, and the clock. */
  datatype State = State(queue: seq<Timer>, taken: seq<Timer>, fired: seq<Shot>, history: seq<Timer>, now: int)

  datatype Event =
    | Schedule(usec: int)   // sched_timer
    | Take                  // one locked round of sched_yielded that finds a due timer
    | Fire(k: nat)          // the worker holding taken[k] makes the callback
    | Tick(passed: nat)     // time passes

  ghost predicate Enabled(s: State, e: Event) {
    match e
    case Take => s.queue != [] && s.queue[0].deadline <= s.now
    case Fire(k) => k < |s.taken|
    case _ => true
  }

  ghost function Next(s: State, e: Event): (s': State)
    requires Enabled(s, e)
  {
    match e
    case Schedule(usec) =>
      var t := Timer(|s.history|, s.now + usec);
      s.(queue := Added(s.queue, t), history := s.history + [t])
    case Take => s.(queue := s.queue[1..], taken := s.taken + [s.queue[0]])
    case Fire(k) => s.(taken := Removed(s.taken, k), fired := s.fired + [Shot(s.taken[k], s.now)])
    case Tick(passed) => s.(now := s.now + passed)
  }

  ghost function Fired(shots: seq<Shot>): (ts: seq<Timer>) {
    seq(|shots|, i requires 0 <= i < |shots| => shots[i].timer)
  }

  /** Sorted; every timer scheduled is in exactly one place, once; nothing due later than now has
      left the queue. */
  ghost predicate Inv(s: State) {
    Sane(s) && Conserved(s)
  }

  ghost predicate Conserved(s: State) {
    multiset(s.queue) + multiset(s.taken) + multiset(Fired(s.fired)) == multiset(s.history)
  }

  ghost predicate Sane(s: State) {
    && Ordered(s.queue)
    && (forall i | 0 <= i < |s.history| :: s.history[i].id == i)
    && (forall i | 0 <= i < |s.queue| :: s.queue[i].id < |s.history|)
    && (forall i | 0 <= i < |s.taken| :: s.taken[i].deadline <= s.now)
    && (forall i | 0 <= i < |s.fired| :: s.fired[i].timer.deadline <= s.fired[i].time <= s.now)
  }

  lemma ScheduleConserves(s: State, usec: int)
    requires Conserved(s)
    ensures Conserved(Next(s, Schedule(usec)))
  {
    var t := Timer(|s.history|, s.now + usec);
    InsertedContents(s.queue, Place(s.queue, t.deadline), t);
    assert multiset(s.history + [t]) == multiset(s.history) + multiset{t};
  }

  lemma ScheduleSane(s: State, usec: int)
    requires Sane(s)
    ensures Sane(Next(s, Schedule(usec)))
  {
    AddedOrdered(s.queue, Timer(|s.history|, s.now + usec));
  }

  lemma InvTake(s: State)
    requires Inv(s) && Enabled(s, Take)
    ensures Inv(Next(s, Take))
  {
    assert s.queue == [s.queue[0]] + s.queue[1..];
  }

  lemma InvFire(s: State, k: nat)
    requires Inv(s) && k < |s.taken|
    ensures Inv(Next(s, Fire(k)))
  {
    RemovedContents(s.taken, k);
    assert Fired(Next(s, Fire(k)).fired) == Fired(s.fired) + [s.taken[k]];
  }

  lemma InvNext(s: State, e: Event)
    requires Inv(s) && Enabled(s, e)
    ensures Inv(Next(s, e))
  {
    match e {
      case Schedule(usec) => ScheduleConserves(s, usec); ScheduleSane(s, usec);
      case Take => InvTake(s);
      case Fire(k) => InvFire(s, k);
      case Tick(_) =>
    }
  }

  // ---- whole runs

  ghost predicate Runs(s: State, es: seq<Event>)
    decreases |es|
  {
    es != [] ==> Enabled(s, es[0]) && Runs(Next(s, es[0]), es[1..])
  }

  ghost function Final(s: State, es: seq<Event>): (s': State)
    requires Runs(s, es)
    decreases |es|
  {
    if es == [] then s else Final(Next(s, es[0]), es[1..])
  }

  lemma {:induction false} RunInv(s: State, es: seq<Event>)
    requires Inv(s) && Runs(s, es)
    ensures Inv(Final(s, es))
    decreases |es|
  {
    if es != [] {
      InvNext(s, es[0]);
      RunInv(Next(s, es[0]), es[1..]);
    }
  }

  lemma OnceEach(s: State, t: Timer)
    requires Inv(s)
    ensures multiset(s.history)[t] <= 1
  {
    var h := s.history;
    if multiset(h)[t] > 0 {
      assert t in h;
      var i :| 0 <= i < |h| && h[i] == t;
      RemovedContents(h, i);
      assert t !in Removed(h, i);
    }
  }

  /** In every interleaving: no callback before its deadline, none twice, none for a timer that
      is still waiting; and when all workers are idle and the queue is empty every timer has had
      its callback. */
  lemma FiresExactlyOnce(s: State, es: seq<Event>, i: nat, j: nat)
    requires Inv(s) && Runs(s, es) && i < |Final(s, es).fired|
    ensures var f := Final(s, es);
            && f.fired[i].timer.deadline <= f.fired[i].time
            && (i < j < |f.fired| ==> f.fired[i].timer != f.fired[j].timer)
            && f.fired[i].timer !in f.queue && f.fired[i].timer !in f.taken
            && (f.queue == [] && f.taken == [] ==> multiset(Fired(f.fired)) == multiset(f.history))
  {
    RunInv(s, es);
    var f := Final(s, es);
    var ts, t := Fired(f.fired), f.fired[i].timer;
    OnceEach(f, t);
    RemovedContents(ts, i);
    assert multiset(f.queue)[t] + multiset(f.taken)[t] + multiset(ts)[t] <= 1;
    if i < j < |f.fired| { assert Removed(ts, i)[j - 1] == ts[j]; assert ts[j] in multiset(Removed(ts, i)); }
  }

  // ---- what was asked for and when, by the events of the run alone

  /** How much time passes in the events. */
  ghost function Elapsed(es: seq<Event>): (n: nat) {
    if es == [] then 0 else (if es[0].Tick? then es[0].passed else 0) + Elapsed(es[1..])
  }

  /** How many timers are scheduled in the events. */
  ghost function Schedules(es: seq<Event>): (n: nat) {
    if es == [] then 0 else (if es[0].Schedule? then 1 else 0) + Schedules(es[1..])
  }

  ghost function Callbacks(es: seq<Event>): (n: nat) {
    if es == [] then 0 else (if es[0].Fire? then 1 else 0) + Callbacks(es[1..])
  }

  lemma FirstOf(es: seq<Event>, i: nat)
    requires 0 < i <= |es|
    ensures es[..i][0] == es[0] && es[..i][1..] == es[1..][..i - 1]
  {
  }

  lemma {:induction false} PrefixRuns(s: State, es: seq<Event>, i: nat)
    requires Runs(s, es) && i <= |es|
    ensures Runs(s, es[..i])
    decreases |es|
  {
    if i > 0 {
      FirstOf(es, i);
      PrefixRuns(Next(s, es[0]), es[1..], i - 1);
    }
  }

  /** The clock and the number of timers and callbacks at the end of a run. */
  lemma {:induction false} RunCounts(s: State, es: seq<Event>)
    requires Runs(s, es)
    ensures var f := Final(s, es);
            && f.now == s.now + Elapsed(es) && |f.history| == |s.history| + Schedules(es)
            && |f.fired| == |s.fired| + Callbacks(es) && s.history <= f.history && s.fired <= f.fired
    decreases |es|
  {
    if es != [] { RunCounts(Next(s, es[0]), es[1..]); }
  }

  /** The timer that event i schedules is due at the time of the event plus what it asks for. */
  lemma {:induction false} DueAsAsked(s: State, es: seq<Event>, i: nat)
    requires Runs(s, es) && i < |es| && es[i].Schedule?
    ensures var f, k := Final(s, es), |s.history| + Schedules(es[..i]);
            k < |f.history| && f.history[k] == Timer(k, s.now + Elapsed(es[..i]) + es[i].usec)
    decreases |es|
  {
    var s' := Next(s, es[0]);
    RunCounts(s', es[1..]);
    if i > 0 {
      FirstOf(es, i);
      DueAsAsked(s', es[1..], i - 1);
    } else {
      assert Final(s, es).history[|s.history|] == s'.history[|s.history|];
    }
  }

  lemma {:induction false} SchedulesGrow(es: seq<Event>, i: nat, j: nat)
    requires i <= j <= |es|
    ensures Schedules(es[..i]) <= Schedules(es[..j])
    decreases |es|
  {
    if i > 0 {
      FirstOf(es, i);
      FirstOf(es, j);
      SchedulesGrow(es[1..], i - 1, j - 1);
    }
  }

  /** A timer a worker holds stands in the history under its number. */
  lemma TakenIsKnown(s: State, k: nat)
    requires Inv(s) && k < |s.taken|
    ensures s.taken[k].id < |s.history| && s.history[s.taken[k].id] == s.taken[k]
  {
    assert s.taken[k] in multiset(s.taken) && s.taken[k] in multiset(s.history);
    var m :| 0 <= m < |s.history| && s.history[m] == s.taken[k];
  }

  lemma TakenIsDue(s: State, k: nat, deadline: int)
    requires Inv(s) && k < |s.taken| && s.taken[k].id < |s.history|
    requires s.history[s.taken[k].id].deadline == deadline
    ensures deadline <= s.now
  {
    TakenIsKnown(s, k);
  }

  /** When a worker holds the timer that event i scheduled, its time has come. */
  lemma HeldIsDue(s: State, es: seq<Event>, i: nat, k: nat)
    requires Inv(s) && Runs(s, es) && i < |es| && es[i].Schedule? && k < |Final(s, es).taken|
    requires Final(s, es).taken[k].id == |s.history| + Schedules(es[..i])
    ensures Elapsed(es[..i]) + es[i].usec <= Elapsed(es)
  {
    RunInv(s, es);
    RunCounts(s, es);
    DueAsAsked(s, es, i);
    TakenIsDue(Final(s, es), k, s.now + Elapsed(es[..i]) + es[i].usec);
  }

  lemma HeldIsScheduled(s: State, es: seq<Event>, n: nat, k: nat)
    requires Inv(s) && Runs(s, es) && k < |Final(s, es).taken| && Final(s, es).taken[k].id == |s.history| + n
    ensures n < Schedules(es)
  {
    RunInv(s, es);
    RunCounts(s, es);
    TakenIsKnown(Final(s, es), k);
  }

  /** If event i asks for a callback in usec and event f makes the callback of that very timer, then at
      least usec has passed between the two, in every interleaving.  `before` is the run up to f. */
  lemma NeverEarly(s: State, es: seq<Event>, i: nat, f: nat, before: seq<Event>)
    requires Inv(s) && Runs(s, es) && i < |es| && es[i].Schedule? && f < |es| && es[f].Fire?
    requires before == es[..f] && Runs(s, before) && es[f].k < |Final(s, before).taken|
    requires Final(s, before).taken[es[f].k].id == |s.history| + Schedules(es[..i])
    ensures i < f && Elapsed(es[..i]) + es[i].usec <= Elapsed(before)
  {
    HeldIsScheduled(s, before, Schedules(es[..i]), es[f].k);
    if f <= i { SchedulesGrow(es, f, i); }
    assert before[..i] == es[..i];
    HeldIsDue(s, before, i, es[f].k);
  }

  /** The callback that event f makes is recorded with its timer and the time of the event. */
  lemma {:induction false} ShotsAreRecorded(s: State, es: seq<Event>, f: nat)
    requires Runs(s, es) && f < |es| && es[f].Fire? && Runs(s, es[..f]) && es[f].k < |Final(s, es[..f]).taken|
    ensures var shots, n := Final(s, es).fired, |s.fired| + Callbacks(es[..f]);
            n < |shots| && shots[n] == Shot(Final(s, es[..f]).taken[es[f].k], s.now + Elapsed(es[..f]))
    decreases |es|
  {
    var s' := Next(s, es[0]);
    RunCounts(s', es[1..]);
    if f > 0 {
      FirstOf(es, f);
      ShotsAreRecorded(s', es[1..], f - 1);
    } else {
      assert Final(s, es).fired[|s.fired|] == s'.fired[|s.fired|];
    }
  }

  /** A worker that finds nothing to take leaves nothing due behind. */
  lemma DrainStopsWhenNoneDue(s: State)
    requires Inv(s) && !Enabled(s, Take)
    ensures forall i | 0 <= i < |s.queue| :: s.now < s.queue[i].deadline
  {
    forall i | 0 <= i < |s.queue| ensures s.now < s.queue[i].deadline {
      if i > 0 { assert Before(s.queue[0], s.queue[i]); }
    }
  }

  /** Two timers scheduled for the same instant leave the queue in the order they came. */
  lemma FifoAmongEquals(s: State, i: nat, j: nat)
    requires Inv(s) && i < |s.queue| && j < |s.queue|
    requires s.queue[i].deadline == s.queue[j].deadline && s.queue[i].id < s.queue[j].id
    ensures i < j
  {
    assert !Before(s.queue[j], s.queue[i]);
  }
}
