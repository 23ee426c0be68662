/** What the scheduler promises over every run: no stale completion, no lost job, the module quota,
    the wake-up time and the delivery discipline. */
module SchedulerRuns {
  import opened Prelude
  import opened Text
  import opened SchedulerModel
  import opened SchedulerInvariant

  // ----- A completion never deletes a newer job ----------------------------------------------

  /** However a run interleaves cancels, replacements and duplicate deliveries, a completion either
      matches exactly the version it was sent for or is harmless: the stored job is due strictly later. */
  lemma NoStaleCompletion(table: map<Key, Job>, clock: int, es: seq<Event>, t: Job)
    requires KeysMatch(table) && clock <= I64_MAX
    requires Runnable(RestoreStep(table, clock), es)
    requires t in Exec(RestoreStep(table, clock), es).outstanding
    ensures var jobs := Exec(RestoreStep(table, clock), es).jobs;
      KeyOf(t) !in jobs || jobs[KeyOf(t)] == t || t.dueAt < jobs[KeyOf(t)].dueAt
  {
    RestoredStateIsGood(table, clock);
    RunKeepsInv(RestoreStep(table, clock), es);
  }

  function SampleRequest(dueAt: int): ScheduleSet {
    ScheduleSet("i", "s", "c", None, dueAt, "")
  }

  lemma SampleRequestIsAccepted(jobs: map<Key, Job>, dueAt: int, now: int)
    requires jobs == map[] && 0 <= now < dueAt <= 1000
    ensures ValidateSet("m", SampleRequest(dueAt), jobs, now).None?
  {
    assert !IsSpace("s"[0]) && !IsSpace("c"[0]);
    assert Utf8Len("i") == 1 by { assert "i"[1..] == []; }
    assert JobsOf(jobs, "m") == {};
  }

  // ----- No accepted job is lost --------------------------------------------------------------

  /** After every run, with any database failures, a crash restores exactly the jobs in memory. */
  lemma CrashLosesNothing(table: map<Key, Job>, clock: int, es: seq<Event>)
    requires KeysMatch(table) && clock <= I64_MAX
    requires Runnable(RestoreStep(table, clock), es)
    ensures var s := Exec(RestoreStep(table, clock), es); s.table == s.jobs && Step(s, Crash).jobs == s.jobs
  {
    RestoredStateIsGood(table, clock);
    RunKeepsInv(RestoreStep(table, clock), es);
  }

  /** The three ways in which a job version may leave. */
  predicate Discharges(s: State, e: Event, v: Job) {
    match e
    case Cancel(key, dbUp) => key == KeyOf(v) && dbUp
    case SetJob(m, r, nowCheck, _, dbUp) =>
      (m, r.id) == KeyOf(v) && dbUp && ValidateSet(m, r, s.jobs, nowCheck).None?
    case Complete(job, succeeded, _, _) => job == v && succeeded
    case Finish(_, _) => false
    case Deliver(_, _) => false
    case Crash => false
  }

  predicate Discharged(s: State, es: seq<Event>, v: Job)
    decreases |es|
  {
    es != [] && (Discharges(s, es[0], v) || Discharged(Step(s, es[0]), es[1..], v))
  }

  predicate Holds(s: State, v: Job) {
    KeyOf(v) in s.jobs && s.jobs[KeyOf(v)] == v && KeyOf(v) !in s.completed
  }

  lemma OnlyDischargeRemoves(s: State, e: Event, v: Job)
    requires Mirrored(s) && Holds(s, v) && !Discharges(s, e, v)
    ensures Holds(Step(s, e), v)
  {
  }

  /** A job version leaves memory and table only through a successful cancel, an accepted replacement
      or a successful completion of that very version. */
  lemma {:induction false} NoAcceptedJobLost(s: State, es: seq<Event>, v: Job)
    requires Inv(s) && Runnable(s, es) && Holds(s, v)
    ensures Discharged(s, es, v) || (Holds(Exec(s, es), v) && Exec(s, es).table == Exec(s, es).jobs)
    decreases |es|
  {
    if es != [] && !Discharges(s, es[0], v) {
      OnlyDischargeRemoves(s, es[0], v);
      StepKeepsInv(s, es[0]);
      NoAcceptedJobLost(Step(s, es[0]), es[1..], v);
    }
  }

  /** An accepted request is held, in memory and in the table, from that moment on. */
  lemma AcceptedJobIsHeld(s: State, m: string, r: ScheduleSet, nowCheck: int, nowCreate: int)
    requires Inv(s) && ValidateSet(m, r, s.jobs, nowCheck).None?
    ensures var s' := SetStep(s, m, r, nowCheck, nowCreate, true);
      Holds(s', MakeJob(m, r, nowCreate)) && s'.table == s'.jobs
  {
  }

  // ----- The module quota ---------------------------------------------------------------------

  lemma SubsetQuota(jobs: map<Key, Job>, jobs': map<Key, Job>)
    requires QuotaKept(jobs)
    requires forall k :: k in jobs' ==> k in jobs && jobs'[k] == jobs[k]
    ensures QuotaKept(jobs')
  {
    forall m ensures |JobsOf(jobs', m)| <= MAX_JOBS_PER_MODULE {
      SubsetIsSmaller(JobsOf(jobs', m), JobsOf(jobs, m));
    }
  }

  lemma AddingKeepsQuota(jobs: map<Key, Job>, key: Key, job: Job)
    requires KeysMatch(jobs) && QuotaKept(jobs) && KeyOf(job) == key
    requires key in jobs || |JobsOf(jobs, key.0)| < MAX_JOBS_PER_MODULE
    ensures QuotaKept(jobs[key := job])
  {
    var jobs' := jobs[key := job];
    forall n ensures |JobsOf(jobs', n)| <= MAX_JOBS_PER_MODULE {
      if n == key.0 {
        assert JobsOf(jobs', n) == JobsOf(jobs, n) + {key};
      } else {
        assert JobsOf(jobs', n) == JobsOf(jobs, n);
      }
    }
  }

  lemma SetKeepsQuota(s: State, m: string, r: ScheduleSet, nowCheck: int, nowCreate: int, dbUp: bool)
    requires KeysMatch(s.jobs) && QuotaKept(s.jobs)
    ensures QuotaKept(SetStep(s, m, r, nowCheck, nowCreate, dbUp).jobs)
  {
    if ValidateSet(m, r, s.jobs, nowCheck).None? && dbUp {
      AddingKeepsQuota(s.jobs, (m, r.id), MakeJob(m, r, nowCreate));
    }
  }

  lemma StepKeepsQuota(s: State, e: Event)
    requires Inv(s) && QuotaKept(s.jobs)
    ensures QuotaKept(Step(s, e).jobs)
  {
    if e.SetJob? {
      SetKeepsQuota(s, e.m, e.request, e.nowCheck, e.nowCreate, e.dbUp);
    } else {
      SubsetQuota(s.jobs, Step(s, e).jobs);
    }
  }

  /** No module ever holds more than 128 jobs unless the restored table already did. */
  lemma {:induction false} QuotaOverRuns(s: State, es: seq<Event>)
    requires Inv(s) && QuotaKept(s.jobs) && Runnable(s, es)
    ensures QuotaKept(Exec(s, es).jobs)
    decreases |es|
  {
    if es != [] {
      StepKeepsInv(s, es[0]);
      StepKeepsQuota(s, es[0]);
      QuotaOverRuns(Step(s, es[0]), es[1..]);
    }
  }

  // ----- The loop neither spins nor oversleeps ------------------------------------------------

  function Idle(s: State): set<Key> {
    s.jobs.Keys - s.inFlight
  }

  function WakeTime(s: State, k: Key): int
    requires k in s.jobs
  {
    if k in s.retryAfter then s.retryAfter[k] else s.jobs[k].dueAt
  }

  /** The wait computed by the loop: exact up to a minute, never past the earliest wake time. */
  ghost predicate IsWait(s: State, now: int, wait: int) {
    && 0 <= wait <= MAX_WAIT_SECONDS
    && (forall k :: k in Idle(s) ==> wait == 0 || now + wait <= WakeTime(s, k))
    && (wait < MAX_WAIT_SECONDS ==> exists k :: k in Idle(s) && WakeTime(s, k) <= now + wait)
  }

  function Pass(s: State, nowFinish: int, dbDown: set<Key>, nowDeliver: int, refused: set<Key>): State {
    DeliverStep(FinishStep(s, nowFinish, dbDown), nowDeliver, refused)
  }

  lemma CleanUpLeavesLaterRetries(s: State, now: int, dbDown: set<Key>, k: Key)
    requires s.clock <= now < I64_MAX
    requires k in FinishStep(s, now, dbDown).completed
    ensures k in FinishStep(s, now, dbDown).retryAfter && now < FinishStep(s, now, dbDown).retryAfter[k]
  {
  }

  lemma DeliveryLeavesNothingDue(s: State, now: int, refused: set<Key>, k: Key)
    requires RetriesHonest(s) && s.clock <= now < I64_MAX
    requires k in Idle(DeliverStep(s, now, refused)) && k !in s.completed
    ensures now < WakeTime(DeliverStep(s, now, refused), k)
  {
  }

  /** After one pass of the loop every job that is not in flight wakes strictly after the clock reading
      that decided about it. */
  lemma PassLeavesNothingDue(s: State, nowFinish: int, dbDown: set<Key>, nowDeliver: int, refused: set<Key>, k: Key)
    requires Inv(s) && s.clock <= nowFinish <= nowDeliver < I64_MAX
    requires k in Idle(Pass(s, nowFinish, dbDown, nowDeliver, refused))
    ensures var s' := Pass(s, nowFinish, dbDown, nowDeliver, refused);
      && nowFinish < WakeTime(s', k)
      && (k !in s'.completed ==> nowDeliver < WakeTime(s', k))
  {
    var mid := FinishStep(s, nowFinish, dbDown);
    StepKeepsInv(s, Finish(nowFinish, dbDown));
    if k in mid.completed {
      CleanUpLeavesLaterRetries(s, nowFinish, dbDown, k);
    } else {
      DeliveryLeavesNothingDue(mid, nowDeliver, refused, k);
    }
  }

  /** The pass reads the clock three times. The wait is zero exactly when some job wakes by the last reading,
      and such a job was not yet due at the reading that decided about it; with one reading throughout there
      is none. A positive wait ends no later than the earliest wake time. */
  lemma NeitherSpinsNorOversleeps(s: State, nowFinish: int, dbDown: set<Key>, nowDeliver: int, refused: set<Key>,
                                  now: int, wait: int)
    requires Inv(s) && s.clock <= nowFinish <= nowDeliver <= now < I64_MAX
    requires IsWait(Pass(s, nowFinish, dbDown, nowDeliver, refused), now, wait)
    ensures var s' := Pass(s, nowFinish, dbDown, nowDeliver, refused);
      && (wait == 0 <==> exists k :: k in Idle(s') && WakeTime(s', k) <= now)
      && (forall k :: k in Idle(s') && WakeTime(s', k) <= now ==>
            if k in s'.completed then nowFinish < WakeTime(s', k) else nowDeliver < WakeTime(s', k))
      && (wait > 0 ==> forall k :: k in Idle(s') ==> now + wait <= WakeTime(s', k))
    ensures nowFinish == now ==> wait > 0
  {
    var s' := Pass(s, nowFinish, dbDown, nowDeliver, refused);
    forall k | k in Idle(s')
      ensures nowFinish < WakeTime(s', k) && (k !in s'.completed ==> nowDeliver < WakeTime(s', k))
    {
      PassLeavesNothingDue(s, nowFinish, dbDown, nowDeliver, refused, k);
    }
  }

  // ----- Delivery discipline ------------------------------------------------------------------

  /** The keys in flight are exactly those of the outstanding completions, one completion each. */
  ghost predicate Disciplined(s: State) {
    && s.inFlight == (set t | t in s.outstanding :: KeyOf(t))
    && (forall t :: s.outstanding[t] <= 1)
    && (forall t, u :: t in s.outstanding && u in s.outstanding && KeyOf(t) == KeyOf(u) ==> t == u)
  }

  predicate CancelsInFlight(s: State, e: Event) {
    e.Cancel? && e.dbUp && e.key in s.inFlight
  }

  lemma CancelInFlightBreaksDiscipline(s: State, e: Event)
    requires Disciplined(s) && CancelsInFlight(s, e)
    ensures !Disciplined(Step(s, e))
  {
    var t :| t in s.outstanding && KeyOf(t) == e.key;
    assert t in Step(s, e).outstanding;
  }

  lemma CompleteKeepsDiscipline(s: State, job: Job, succeeded: bool, now: int, dbUp: bool)
    requires Disciplined(s) && job in s.outstanding
    ensures Disciplined(CompleteStep(s, job, succeeded, now, dbUp))
  {
    OneTokenLess(s, CompleteStep(s, job, succeeded, now, dbUp), job);
  }

  lemma OneTokenLess(s: State, s': State, job: Job)
    requires Disciplined(s) && job in s.outstanding
    requires s'.outstanding == s.outstanding - multiset{job} && s'.inFlight == s.inFlight - {KeyOf(job)}
    ensures Disciplined(s')
  {
    assert forall t :: t in s'.outstanding <==> t in s.outstanding && t != job;
  }

  lemma DeliverKeepsDiscipline(s: State, now: int, refused: set<Key>)
    requires Disciplined(s) && KeysMatch(s.jobs)
    ensures Disciplined(DeliverStep(s, now, refused))
  {
    var s', sent := DeliverStep(s, now, refused), Sent(s, now, refused);
    forall t | t in sent ensures KeyOf(t) in Due(s, now) - refused && s.jobs[KeyOf(t)] == t && t !in s.outstanding {
    }
    assert forall t :: t in s'.outstanding <==> t in s.outstanding || t in sent;
    forall k | k in Due(s, now) - refused ensures k in (set t | t in s'.outstanding :: KeyOf(t)) {
      assert s.jobs[k] in sent;
    }
  }

  /** One step keeps the discipline exactly when it is not a successful cancel of a key in flight. */
  lemma StepKeepsDiscipline(s: State, e: Event)
    requires Inv(s) && Enabled(s, e) && Disciplined(s)
    ensures Disciplined(Step(s, e)) <==> !CancelsInFlight(s, e)
  {
    if CancelsInFlight(s, e) {
      CancelInFlightBreaksDiscipline(s, e);
    } else {
      match e
      case SetJob(_, _, _, _, _) =>
      case Cancel(key, _) => assert s.inFlight - {key} == s.inFlight || !e.dbUp;
      case Complete(job, succeeded, now, dbUp) => CompleteKeepsDiscipline(s, job, succeeded, now, dbUp);
      case Finish(_, _) =>
      case Deliver(now, refused) => DeliverKeepsDiscipline(s, now, refused);
      case Crash =>
    }
  }

  ghost predicate AlwaysDisciplined(s: State, es: seq<Event>)
    decreases |es|
  {
    Disciplined(s) && (es != [] ==> AlwaysDisciplined(Step(s, es[0]), es[1..]))
  }

  predicate NeverCancelsInFlight(s: State, es: seq<Event>)
    decreases |es|
  {
    es != [] ==> !CancelsInFlight(s, es[0]) && NeverCancelsInFlight(Step(s, es[0]), es[1..])
  }

  /** Over whole runs: the discipline holds throughout if and only if no cancel hits a key in flight. */
  lemma {:induction false} DisciplineOverRuns(s: State, es: seq<Event>)
    requires Inv(s) && Disciplined(s) && Runnable(s, es)
    ensures AlwaysDisciplined(s, es) <==> NeverCancelsInFlight(s, es)
    decreases |es|
  {
    if es != [] {
      StepKeepsDiscipline(s, es[0]);
      StepKeepsInv(s, es[0]);
      if !CancelsInFlight(s, es[0]) {
        DisciplineOverRuns(Step(s, es[0]), es[1..]);
      }
    }
  }

  /** With the sample job in flight, cancelling it and scheduling it again lets the stale completion clear the
      mark, so that the new version is handed out twice. */
  lemma CancelThenSetSendsTwice() returns (es: seq<Event>)
    ensures var prior := MakeJob("m", SampleRequest(20), 10);
      var s := Holding(map[("m", "i") := prior], {("m", "i")}, multiset{prior}, 20);
      Runnable(s, es) && Exec(s, es).outstanding[MakeJob("m", SampleRequest(25), 20)] == 2
  {
    var k, prior := ("m", "i"), MakeJob("m", SampleRequest(20), 10);
    var v := MakeJob("m", SampleRequest(25), 20);
    var s := Holding(map[k := prior], {k}, multiset{prior}, 20);
    var s1 := Holding(map[], {}, multiset{prior}, 20);
    var s2 := Holding(map[k := v], {}, multiset{prior}, 20);
    var tail := [Deliver(25, {}), Complete(prior, true, 25, true), Deliver(25, {})];
    SecondCopyIsSent(prior, v, k);
    var again := SetJob("m", SampleRequest(25), 20, 20, true);
    SetOne(s1, 25, 20);
    RunOne(s1, again, tail);
    assert Step(s, Cancel(k, true)) == s1;
    RunOne(s, Cancel(k, true), [again] + tail);
    es := [Cancel(k, true)] + ([again] + tail);
  }

  lemma SecondCopyIsSent(prior: Job, v: Job, k: Key)
    requires KeyOf(prior) == KeyOf(v) == k && prior != v && v.dueAt == 25
    ensures var s2 := Holding(map[k := v], {}, multiset{prior}, 20);
      var tail := [Deliver(25, {}), Complete(prior, true, 25, true), Deliver(25, {})];
      Runnable(s2, tail) && Exec(s2, tail).outstanding[v] == 2
  {
    StaleClearsMark(prior, v, k);
    DeliverOne(Holding(map[k := v], {}, multiset{prior}, 20), k, 25);
    var tail := [Complete(prior, true, 25, true), Deliver(25, {})];
    RunOne(Holding(map[k := v], {}, multiset{prior}, 20), Deliver(25, {}), tail);
    assert multiset{prior} + multiset{v} == multiset{prior, v};
    assert [Deliver(25, {})] + tail == [Deliver(25, {}), Complete(prior, true, 25, true), Deliver(25, {})];
  }

  lemma StaleClearsMark(prior: Job, v: Job, k: Key)
    requires KeyOf(prior) == KeyOf(v) == k && prior != v && v.dueAt == 25
    ensures var s3 := Holding(map[k := v], {k}, multiset{prior, v}, 25);
      var tail := [Complete(prior, true, 25, true), Deliver(25, {})];
      Runnable(s3, tail) && Exec(s3, tail).outstanding[v] == 2
  {
    var s3 := Holding(map[k := v], {k}, multiset{prior, v}, 25);
    var s4 := Holding(map[k := v], {}, multiset{v}, 25);
    StaleOne(s3, prior, 25);
    assert multiset{prior, v} - multiset{prior} == multiset{v} && {k} - {k} == {};
    assert CompleteStep(s3, prior, true, 25, true) == s4;
    RunOne(s3, Complete(prior, true, 25, true), [Deliver(25, {})]);
    DeliversAgain(v, k);
  }

  lemma DeliversAgain(v: Job, k: Key)
    requires KeyOf(v) == k && v.dueAt == 25
    ensures var s4 := Holding(map[k := v], {}, multiset{v}, 25);
      Runnable(s4, [Deliver(25, {})]) && Exec(s4, [Deliver(25, {})]).outstanding[v] == 2
  {
    var s4 := Holding(map[k := v], {}, multiset{v}, 25);
    DeliverOne(s4, k, 25);
    RunOne(s4, Deliver(25, {}), []);
  }

  function Holding(jobs: map<Key, Job>, inFlight: set<Key>, outstanding: multiset<Job>, clock: int): State {
    State(jobs, map[], inFlight, {}, jobs, outstanding, clock)
  }

  lemma SetOne(s: State, dueAt: int, now: int)
    requires s.jobs == s.table == map[] && s.retryAfter == map[] && s.completed == {} && 0 <= now < dueAt <= 1000
    ensures var v := MakeJob("m", SampleRequest(dueAt), now);
      SetStep(s, "m", SampleRequest(dueAt), now, now, true) ==
      Holding(map[("m", "i") := v], s.inFlight, s.outstanding, now)
  {
    SampleRequestIsAccepted(s.jobs, dueAt, now);
  }

  lemma StaleOne(s: State, prior: Job, now: int)
    requires KeyOf(prior) in s.jobs && s.jobs[KeyOf(prior)] != prior
    ensures CompleteStep(s, prior, true, now, true) ==
      s.(inFlight := s.inFlight - {KeyOf(prior)}, outstanding := s.outstanding - multiset{prior}, clock := now)
  {
  }

  lemma DeliverOne(s: State, k: Key, now: int)
    requires s.jobs.Keys == {k} && s.retryAfter == map[] && s.inFlight == {} && s.completed == {}
    requires s.jobs[k].dueAt <= now
    ensures DeliverStep(s, now, {}) ==
      s.(inFlight := {k}, outstanding := s.outstanding + multiset{s.jobs[k]}, clock := now)
  {
    assert Due(s, now) - {} == {k};
    assert Sent(s, now, {}) == {s.jobs[k]};
  }

  lemma RunOne(s: State, e: Event, rest: seq<Event>)
    ensures Exec(s, [e] + rest) == Exec(Step(s, e), rest)
    ensures Runnable(s, [e] + rest) <==> Enabled(s, e) && Runnable(Step(s, e), rest)
  {
    assert ([e] + rest)[1..] == rest;
  }

  // ----- No delivery is early -----------------------------------------------------------------

  /** Every delivery handed out in the run, with the clock reading that decided about it. */
  function Deliveries(s: State, es: seq<Event>): set<(Job, int)>
    decreases |es|
  {
    if es == [] then {}
    else
      (if es[0].Deliver? then set t | t in Sent(s, es[0].now, es[0].refused) :: (t, es[0].now) else {})
      + Deliveries(Step(s, es[0]), es[1..])
  }

  predicate Accepts(s: State, e: Event, v: Job) {
    && e.SetJob? && e.dbUp && ValidateSet(e.m, e.request, s.jobs, e.nowCheck).None?
    && MakeJob(e.m, e.request, e.nowCreate) == v
  }

  predicate AcceptedIn(s: State, es: seq<Event>, v: Job)
    decreases |es|
  {
    es != [] && (Accepts(s, es[0], v) || AcceptedIn(Step(s, es[0]), es[1..], v))
  }

  predicate IsStored(jobs: map<Key, Job>, v: Job) {
    KeyOf(v) in jobs && jobs[KeyOf(v)] == v
  }

  lemma StoredComesFrom(s: State, e: Event, v: Job)
    requires Mirrored(s) && IsStored(Step(s, e).jobs, v)
    ensures IsStored(s.jobs, v) || Accepts(s, e, v)
  {
  }

  /** Whatever a run hands out was stored before or accepted during the run, and is due. */
  lemma {:induction false} DeliveriesAreDue(s: State, es: seq<Event>, v: Job, now: int)
    requires Inv(s) && Runnable(s, es) && (v, now) in Deliveries(s, es)
    ensures v.dueAt <= now && s.clock <= now && (IsStored(s.jobs, v) || AcceptedIn(s, es, v))
    decreases |es|
  {
    var s' := Step(s, es[0]);
    if (v, now) in Deliveries(s', es[1..]) {
      StepKeepsInv(s, es[0]);
      StepKeepsClock(s, es[0]);
      DeliveriesAreDue(s', es[1..], v, now);
      if IsStored(s'.jobs, v) {
        StoredComesFrom(s, es[0], v);
      }
    }
  }

  /** From a restored table, over any run: a delivery is of a restored job or of one accepted in the run, and
      never comes before its due time. */
  lemma NoEarlyDelivery(table: map<Key, Job>, clock: int, es: seq<Event>, v: Job, now: int)
    requires KeysMatch(table) && clock <= I64_MAX && Runnable(RestoreStep(table, clock), es)
    requires (v, now) in Deliveries(RestoreStep(table, clock), es)
    ensures v.dueAt <= now
    ensures IsStored(table, v) || AcceptedIn(RestoreStep(table, clock), es, v)
  {
    RestoredStateIsGood(table, clock);
    DeliveriesAreDue(RestoreStep(table, clock), es, v, now);
  }
}
