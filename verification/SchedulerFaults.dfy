/** What the scheduler's promises are worth when the clock is set back, when the process crashes during the
    pause after a rejection, and when the table cannot be read at start. */
module SchedulerFaults {
  import opened Prelude
  import opened Text
  import opened SchedulerModel
  import opened SchedulerInvariant
  import opened SchedulerRuns

  // ----- A clock set back -----------------------------------------------------------------------

  /** The request asks for the very fields of a job. */
  predicate Repeats(m: string, r: ScheduleSet, t: Job) {
    && m == t.moduleName && r.id == t.id && r.server == t.server && r.channel == t.channel
    && r.ownerProfile == t.ownerProfile && r.dueAt == t.dueAt && r.payload == t.payload
  }

  /** At whatever clock readings: a job accepted while delivery `t` of the same key is outstanding is deleted by
      the completion of `t` exactly if its request repeats `t` and it gets `t`'s creation time. */
  lemma StaleCompletionDeletesIff(s: State, t: Job, m: string, r: ScheduleSet, nowCheck: int, nowCreate: int, now: int)
    requires t in s.outstanding && (m, r.id) == KeyOf(t) && ValidateSet(m, r, s.jobs, nowCheck).None?
    ensures var accepted := SetStep(s, m, r, nowCheck, nowCreate, true);
      KeyOf(t) !in CompleteStep(accepted, t, true, now, true).table <==> Repeats(m, r, t) && nowCreate == t.createdAt
  {
    var accepted := SetStep(s, m, r, nowCheck, nowCreate, true);
    assert accepted.jobs[KeyOf(t)] == MakeJob(m, r, nowCreate);
    assert MakeJob(m, r, nowCreate) == t <==> Repeats(m, r, t) && nowCreate == t.createdAt;
  }

  /** A request that repeats an outstanding delivery is only accepted at a reading before the latest one. */
  lemma RepetitionNeedsAnEarlierReading(s: State, t: Job, m: string, r: ScheduleSet, nowCheck: int)
    requires TokensWereDue(s) && t in s.outstanding && Repeats(m, r, t)
    requires ValidateSet(m, r, s.jobs, nowCheck).None?
    ensures nowCheck < t.dueAt <= s.clock
  {
  }

  const SAMPLE_KEY: Key := ("m", "i")

  function SampleJob(dueAt: int, createdAt: int): Job {
    MakeJob("m", SampleRequest(dueAt), createdAt)
  }

  function SetSample(dueAt: int, now: int): Event {
    SetJob("m", SampleRequest(dueAt), now, now, true)
  }

  /** The sample job is accepted at 10 and handed out at 20. */
  function InFlightAt20(): State {
    Holding(map[SAMPLE_KEY := SampleJob(20, 10)], {SAMPLE_KEY}, multiset{SampleJob(20, 10)}, 20)
  }

  lemma AcceptedAndDelivered(rest: seq<Event>)
    ensures Exec(RestoreStep(map[], 0), [SetSample(20, 10)] + ([Deliver(20, {})] + rest)) == Exec(InFlightAt20(), rest)
    ensures Runnable(InFlightAt20(), rest) ==>
      Runnable(RestoreStep(map[], 0), [SetSample(20, 10)] + ([Deliver(20, {})] + rest))
  {
    var s0, s1 := RestoreStep(map[], 0), Holding(map[SAMPLE_KEY := SampleJob(20, 10)], {}, multiset{}, 10);
    SampleStored();
    SampleHandedOut();
    RunOne(s0, SetSample(20, 10), [Deliver(20, {})] + rest);
    RunOne(s1, Deliver(20, {}), rest);
  }

  lemma SampleStored()
    ensures Step(RestoreStep(map[], 0), SetSample(20, 10))
      == Holding(map[SAMPLE_KEY := SampleJob(20, 10)], {}, multiset{}, 10)
    ensures Enabled(RestoreStep(map[], 0), SetSample(20, 10))
  {
    SetOne(RestoreStep(map[], 0), 20, 10);
  }

  lemma SampleHandedOut()
    ensures Step(Holding(map[SAMPLE_KEY := SampleJob(20, 10)], {}, multiset{}, 10), Deliver(20, {})) == InFlightAt20()
    ensures Enabled(Holding(map[SAMPLE_KEY := SampleJob(20, 10)], {}, multiset{}, 10), Deliver(20, {}))
  {
    DeliverOne(Holding(map[SAMPLE_KEY := SampleJob(20, 10)], {}, multiset{}, 10), SAMPLE_KEY, 20);
  }

  lemma CancelledAndIdle()
    ensures Runnable(InFlightAt20(), [Cancel(SAMPLE_KEY, true)] + [Finish(30, {})])
    ensures Exec(InFlightAt20(), [Cancel(SAMPLE_KEY, true)] + [Finish(30, {})])
         == Holding(map[], {}, multiset{SampleJob(20, 10)}, 30)
  {
    var s3 := Holding(map[], {}, multiset{SampleJob(20, 10)}, 20);
    assert CancelStep(InFlightAt20(), SAMPLE_KEY, true) == s3;
    RunOne(InFlightAt20(), Cancel(SAMPLE_KEY, true), [Finish(30, {})]);
    assert Ready(s3, 30) == {};
    RunOne(s3, Finish(30, {}), []);
  }

  lemma AcceptedAgainAndDeleted(s: State)
    requires s == Holding(map[], {}, multiset{SampleJob(20, 10)}, 30)
    ensures ValidateSet("m", SampleRequest(20), s.jobs, 10).None?
    ensures SetStep(s, "m", SampleRequest(20), 10, 10, true).table == map[SAMPLE_KEY := SampleJob(20, 10)]
    ensures CompleteStep(SetStep(s, "m", SampleRequest(20), 10, 10, true), SampleJob(20, 10), true, 10, true).table
      == map[]
  {
    SampleRequestIsAccepted(s.jobs, 20, 10);
    SetOne(s, 20, 10);
  }

  /** From an empty table: accepted at 10, delivered at 20, cancelled, and the clock reaches 30. Set back to 10,
      the same request is accepted again, and the outstanding completion deletes the new job. */
  lemma ClockSetBackLosesAJob() returns (es: seq<Event>)
    ensures Runnable(RestoreStep(map[], 0), es)
    ensures var s, prior := Exec(RestoreStep(map[], 0), es), SampleJob(20, 10);
      && s.clock == 30 && prior in s.outstanding && s.table == map[]
      && ValidateSet("m", SampleRequest(20), s.jobs, 10).None?
      && SetStep(s, "m", SampleRequest(20), 10, 10, true).table == map[SAMPLE_KEY := prior]
      && CompleteStep(SetStep(s, "m", SampleRequest(20), 10, 10, true), prior, true, 10, true).table == map[]
  {
    var tail := [Cancel(SAMPLE_KEY, true)] + [Finish(30, {})];
    es := [SetSample(20, 10)] + ([Deliver(20, {})] + tail);
    AcceptedAndDelivered(tail);
    CancelledAndIdle();
    AcceptedAgainAndDeleted(Exec(RestoreStep(map[], 0), es));
  }

  // ----- Cancelling in flight ---------------------------------------------------------------------

  /** From an empty table: a job in flight is cancelled and scheduled again, and the new version is outstanding
      twice. */
  lemma CancelInFlightDeliversTwice() returns (es: seq<Event>)
    ensures Runnable(RestoreStep(map[], 0), es)
    ensures Exec(RestoreStep(map[], 0), es).outstanding[SampleJob(25, 20)] == 2
  {
    var tail := CancelThenSetSendsTwice();
    es := [SetSample(20, 10)] + ([Deliver(20, {})] + tail);
    AcceptedAndDelivered(tail);
  }

  // ----- The pause after a rejection --------------------------------------------------------------

  /** Version `v`, if still stored, must wait until `until`. */
  ghost predicate Waits(s: State, v: Job, until: int) {
    IsStored(s.jobs, v) ==> KeyOf(v) in s.retryAfter && until <= s.retryAfter[KeyOf(v)]
  }

  predicate SendsEarly(s: State, e: Event, v: Job, until: int) {
    e.Deliver? && e.now < until && v in Sent(s, e.now, e.refused)
  }

  predicate NeverSendsEarly(s: State, es: seq<Event>, v: Job, until: int)
    decreases |es|
  {
    es != [] ==> !SendsEarly(s, es[0], v, until) && NeverSendsEarly(Step(s, es[0]), es[1..], v, until)
  }

  predicate CrashesHolding(s: State, e: Event, v: Job) {
    e.Crash? && IsStored(s.table, v)
  }

  lemma CompleteKeepsWaiting(s: State, job: Job, succeeded: bool, now: int, dbUp: bool, v: Job, until: int)
    requires Waits(s, v, until) && until <= SaturatingAdd(now, ABSENT_RETRY_SECONDS)
    ensures Waits(CompleteStep(s, job, succeeded, now, dbUp), v, until)
  {
  }

  lemma SetKeepsWaiting(s: State, m: string, r: ScheduleSet, nowCheck: int, nowCreate: int, dbUp: bool, v: Job,
                        until: int)
    requires Waits(s, v, until) && v.dueAt <= s.clock <= nowCheck
    ensures Waits(SetStep(s, m, r, nowCheck, nowCreate, dbUp), v, until)
  {
  }

  /** One step keeps the pause exactly when it is not a crash that finds the version stored. */
  lemma StepKeepsWaiting(s: State, e: Event, v: Job, until: int)
    requires Enabled(s, e) && v.dueAt <= s.clock
    requires Waits(s, v, until) && until <= SaturatingAdd(s.clock, ABSENT_RETRY_SECONDS)
    ensures Waits(Step(s, e), v, until) <==> !CrashesHolding(s, e, v)
  {
    match e
    case Complete(job, succeeded, now, dbUp) => CompleteKeepsWaiting(s, job, succeeded, now, dbUp, v, until);
    case SetJob(m, r, nowCheck, nowCreate, dbUp) => SetKeepsWaiting(s, m, r, nowCheck, nowCreate, dbUp, v, until);
    case Cancel(_, _) =>
    case Finish(_, _) =>
    case Deliver(_, _) =>
    case Crash =>
  }

  /** A delivery pass at this point could hand `v` out before `until`. */
  ghost predicate CouldSendEarly(s: State, v: Job, until: int) {
    exists now :: s.clock <= now <= I64_MAX && SendsEarly(s, Deliver(now, {}), v, until)
  }

  lemma WaitingIsNotSent(s: State, v: Job, until: int)
    requires KeysMatch(s.jobs) && (Waits(s, v, until) || until <= s.clock)
    ensures !CouldSendEarly(s, v, until)
  {
    forall now | s.clock <= now ensures !SendsEarly(s, Deliver(now, {}), v, until) {
    }
  }

  /** After a crash a stored version that is due goes out with the first pass. */
  lemma CrashForgetsThePause(s: State, v: Job, now: int)
    requires IsStored(s.table, v) && v.dueAt <= s.clock <= now
    ensures v in Sent(Step(s, Crash), now, {})
  {
    var s' := Step(s, Crash);
    assert KeyOf(v) in Due(s', now);
    assert s'.jobs[KeyOf(v)] == v;
  }

  ghost predicate NeverCouldSendEarly(s: State, es: seq<Event>, v: Job, until: int)
    decreases |es|
  {
    !CouldSendEarly(s, v, until) && (es != [] ==> NeverCouldSendEarly(Step(s, es[0]), es[1..], v, until))
  }

  /** No crash before `until` finds the version stored. */
  predicate NeverCrashesInPause(s: State, es: seq<Event>, v: Job, until: int)
    decreases |es|
  {
    es != [] ==>
      && !(s.clock < until && CrashesHolding(s, es[0], v))
      && NeverCrashesInPause(Step(s, es[0]), es[1..], v, until)
  }

  /** Over whole runs: no pass could hand the version out before `until` if and only if no crash within the
      pause finds it stored. */
  lemma {:induction false} PauseHoldsIff(s: State, es: seq<Event>, v: Job, until: int)
    requires Inv(s) && Runnable(s, es) && v.dueAt <= s.clock
    requires (Waits(s, v, until) && until <= SaturatingAdd(s.clock, ABSENT_RETRY_SECONDS)) || until <= s.clock
    ensures NeverCouldSendEarly(s, es, v, until) <==> NeverCrashesInPause(s, es, v, until)
    decreases |es|
  {
    WaitingIsNotSent(s, v, until);
    if es != [] {
      var s' := Step(s, es[0]);
      StepKeepsInv(s, es[0]);
      StepKeepsClock(s, es[0]);
      if s.clock < until && CrashesHolding(s, es[0], v) {
        CrashInPauseSends(s, v, until);
      } else {
        PauseGoesOn(s, es[0], v, until);
        PauseHoldsIff(s', es[1..], v, until);
      }
    }
  }

  lemma CrashInPauseSends(s: State, v: Job, until: int)
    requires IsStored(s.table, v) && v.dueAt <= s.clock < until && s.clock <= I64_MAX
    ensures CouldSendEarly(Step(s, Crash), v, until)
  {
    CrashForgetsThePause(s, v, s.clock);
    assert SendsEarly(Step(s, Crash), Deliver(s.clock, {}), v, until);
  }

  lemma PauseGoesOn(s: State, e: Event, v: Job, until: int)
    requires Enabled(s, e) && s.clock <= I64_MAX && v.dueAt <= s.clock
    requires (Waits(s, v, until) && until <= SaturatingAdd(s.clock, ABSENT_RETRY_SECONDS)) || until <= s.clock
    requires !(s.clock < until && CrashesHolding(s, e, v))
    ensures var s' := Step(s, e);
      (Waits(s', v, until) && until <= SaturatingAdd(s'.clock, ABSENT_RETRY_SECONDS)) || until <= s'.clock
  {
    StepKeepsClock(s, e);
    if s.clock < until {
      StepKeepsWaiting(s, e, v, until);
    }
  }

  lemma {:induction false} CannotMeansDoesNot(s: State, es: seq<Event>, v: Job, until: int)
    requires Runnable(s, es) && NeverCouldSendEarly(s, es, v, until)
    ensures NeverSendsEarly(s, es, v, until)
    decreases |es|
  {
    if es != [] {
      if SendsEarly(s, es[0], v, until) {
        assert SendsEarly(s, Deliver(es[0].now, {}), v, until);
      }
      CannotMeansDoesNot(Step(s, es[0]), es[1..], v, until);
    }
  }

  lemma RejectedWaits(s: State, v: Job, now: int, dbUp: bool)
    requires TokensWereDue(s) && v in s.outstanding && s.clock <= now
    ensures var s' := CompleteStep(s, v, false, now, dbUp);
      Waits(s', v, SaturatingAdd(now, ABSENT_RETRY_SECONDS)) && s'.clock == now && v.dueAt <= now
  {
  }

  /** A rejected version cannot be sent again within 30 seconds, at any point of any run, if and only if no
      crash within these 30 seconds finds it stored. */
  lemma RejectedIsNotRedelivered(s: State, v: Job, now: int, dbUp: bool, es: seq<Event>)
    requires Inv(s) && Enabled(s, Complete(v, false, now, dbUp))
    requires Runnable(Step(s, Complete(v, false, now, dbUp)), es)
    ensures var s', until := Step(s, Complete(v, false, now, dbUp)), SaturatingAdd(now, ABSENT_RETRY_SECONDS);
      && (NeverCouldSendEarly(s', es, v, until) <==> NeverCrashesInPause(s', es, v, until))
      && (NeverCrashesInPause(s', es, v, until) ==> NeverSendsEarly(s', es, v, until))
  {
    var s', until := Step(s, Complete(v, false, now, dbUp)), SaturatingAdd(now, ABSENT_RETRY_SECONDS);
    StepKeepsInv(s, Complete(v, false, now, dbUp));
    RejectedWaits(s, v, now, dbUp);
    PauseHoldsIff(s', es, v, until);
    if NeverCrashesInPause(s', es, v, until) {
      CannotMeansDoesNot(s', es, v, until);
    }
  }

  const REJECTION := Complete(SampleJob(20, 10), false, 20, true)

  lemma RejectedAndCrashed()
    ensures Runnable(InFlightAt20(), [REJECTION] + [Crash])
    ensures SampleJob(20, 10) in Sent(Exec(InFlightAt20(), [REJECTION] + [Crash]), 21, {})
  {
    var s := Step(InFlightAt20(), REJECTION);
    assert s.table == map[SAMPLE_KEY := SampleJob(20, 10)] && s.clock == 20;
    RunOne(InFlightAt20(), REJECTION, [Crash]);
    RunOne(s, Crash, []);
    CrashForgetsThePause(s, SampleJob(20, 10), 21);
  }

  /** From an empty table: accepted at 10, delivered and rejected at 20, crash, and sent again at 21. */
  lemma CrashBreaksThePause() returns (es: seq<Event>)
    ensures es == [SetSample(20, 10)] + ([Deliver(20, {})] + ([REJECTION] + [Crash]))
    ensures Runnable(RestoreStep(map[], 0), es)
    ensures SendsEarly(Exec(RestoreStep(map[], 0), es), Deliver(21, {}), SampleJob(20, 10), 50)
  {
    es := [SetSample(20, 10)] + ([Deliver(20, {})] + ([REJECTION] + [Crash]));
    AcceptedAndDelivered([REJECTION] + [Crash]);
    RejectedAndCrashed();
  }

  // ----- A table that cannot be read at start -------------------------------------------------------

  /** Memory is empty, the rows stay. */
  function FailedLoad(table: map<Key, Job>, clock: int): State {
    RestoreStep(table, clock).(jobs := map[])
  }

  predicate NoCrash(es: seq<Event>) {
    forall i :: 0 <= i < |es| ==> !es[i].Crash?
  }

  ghost predicate SameMemory(s: State, u: State) {
    s.(table := map[]) == u.(table := map[])
  }

  lemma StepIgnoresTable(s: State, u: State, e: Event)
    requires SameMemory(s, u) && !e.Crash?
    ensures SameMemory(Step(s, e), Step(u, e)) && (Enabled(s, e) <==> Enabled(u, e))
  {
    assert u == s.(table := u.table);
    match e
    case SetJob(m, r, nowCheck, nowCreate, dbUp) => SetIgnoresTable(s, u, m, r, nowCheck, nowCreate, dbUp);
    case Cancel(_, _) =>
    case Complete(job, succeeded, now, dbUp) => CompleteIgnoresTable(s, u, job, succeeded, now, dbUp);
    case Finish(now, dbDown) => FinishIgnoresTable(s, u, now, dbDown);
    case Deliver(now, refused) => DeliverIgnoresTable(s, u, now, refused);
  }

  lemma SetIgnoresTable(s: State, u: State, m: string, r: ScheduleSet, nowCheck: int, nowCreate: int, dbUp: bool)
    requires u == s.(table := u.table)
    ensures SameMemory(SetStep(s, m, r, nowCheck, nowCreate, dbUp), SetStep(u, m, r, nowCheck, nowCreate, dbUp))
  {
  }

  lemma CompleteIgnoresTable(s: State, u: State, job: Job, succeeded: bool, now: int, dbUp: bool)
    requires u == s.(table := u.table)
    ensures SameMemory(CompleteStep(s, job, succeeded, now, dbUp), CompleteStep(u, job, succeeded, now, dbUp))
  {
  }

  lemma FinishIgnoresTable(s: State, u: State, now: int, dbDown: set<Key>)
    requires u == s.(table := u.table)
    ensures SameMemory(FinishStep(s, now, dbDown), FinishStep(u, now, dbDown))
  {
    assert Ready(s, now) == Ready(u, now);
  }

  lemma DeliverIgnoresTable(s: State, u: State, now: int, refused: set<Key>)
    requires u == s.(table := u.table)
    ensures SameMemory(DeliverStep(s, now, refused), DeliverStep(u, now, refused))
  {
    assert Due(s, now) == Due(u, now);
    assert JobsAt(s, Due(s, now) - refused) == JobsAt(u, Due(u, now) - refused);
  }

  /** Up to the next restart memory evolves as from an empty table, so every promise about memory (stale
      completions, quota, waiting, discipline, due times) survives a failed load. */
  lemma {:induction false} RunIgnoresTable(s: State, u: State, es: seq<Event>)
    requires SameMemory(s, u) && NoCrash(es)
    ensures SameMemory(Exec(s, es), Exec(u, es)) && (Runnable(s, es) <==> Runnable(u, es))
    decreases |es|
  {
    if es != [] {
      StepIgnoresTable(s, u, es[0]);
      RunIgnoresTable(Step(s, es[0]), Step(u, es[0]), es[1..]);
    }
  }

  lemma MemoryAfterFailedLoad(table: map<Key, Job>, clock: int, es: seq<Event>)
    requires clock <= I64_MAX && NoCrash(es) && Runnable(FailedLoad(table, clock), es)
    ensures Runnable(RestoreStep(map[], clock), es)
    ensures SameMemory(Exec(FailedLoad(table, clock), es), Exec(RestoreStep(map[], clock), es))
    ensures Inv(Exec(RestoreStep(map[], clock), es)) && QuotaKept(Exec(FailedLoad(table, clock), es).jobs)
  {
    RunIgnoresTable(FailedLoad(table, clock), RestoreStep(map[], clock), es);
    RestoredStateIsGood(map[], clock);
    RunKeepsInv(RestoreStep(map[], clock), es);
    assert QuotaKept(map[]) by {
      forall m ensures |JobsOf(map[], m)| <= MAX_JOBS_PER_MODULE {
        assert JobsOf(map[], m) == {};
      }
    }
    QuotaOverRuns(RestoreStep(map[], clock), es);
  }

  /** Everything in memory is in the table. */
  ghost predicate Backed(s: State) {
    forall k :: k in s.jobs ==> k in s.table && s.table[k] == s.jobs[k]
  }

  predicate Touches(s: State, e: Event, key: Key) {
    || (e.Cancel? && e.dbUp && e.key == key)
    || (e.SetJob? && e.dbUp && (e.m, e.request.id) == key && ValidateSet(e.m, e.request, s.jobs, e.nowCheck).None?)
  }

  predicate Touched(s: State, es: seq<Event>, key: Key)
    decreases |es|
  {
    es != [] && (Touches(s, es[0], key) || Touched(Step(s, es[0]), es[1..], key))
  }

  lemma StepKeepsBacked(s: State, e: Event)
    requires Backed(s) && !e.Crash?
    ensures Backed(Step(s, e))
  {
  }

  lemma StepKeepsRow(s: State, e: Event, key: Key)
    requires key in s.table && key !in s.jobs && !e.Crash? && !Touches(s, e, key)
    ensures key in Step(s, e).table && Step(s, e).table[key] == s.table[key] && key !in Step(s, e).jobs
  {
  }

  /** A row that memory does not know stays until its key is cancelled or set again, and a restart that can
      read the table brings it back together with everything in memory. */
  lemma {:induction false} RowsOutliveAFailedLoad(s: State, es: seq<Event>, key: Key)
    requires Backed(s) && NoCrash(es) && key in s.table && key !in s.jobs && !Touched(s, es, key)
    ensures Backed(Exec(s, es)) && key in Exec(s, es).table && Exec(s, es).table[key] == s.table[key]
    ensures key in Step(Exec(s, es), Crash).jobs && Step(Exec(s, es), Crash).jobs[key] == s.table[key]
    ensures forall k :: k in Exec(s, es).jobs ==>
      k in Step(Exec(s, es), Crash).jobs && Step(Exec(s, es), Crash).jobs[k] == Exec(s, es).jobs[k]
    decreases |es|
  {
    if es != [] {
      StepKeepsBacked(s, es[0]);
      StepKeepsRow(s, es[0], key);
      RowsOutliveAFailedLoad(Step(s, es[0]), es[1..], key);
    }
  }
}
