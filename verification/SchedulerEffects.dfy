/** What each request does to the jobs and, above all, what it does for them: an accepted job is delivered, a
    cancelled or completed one is not, and a rejected one goes out again when its pause is over. */
module SchedulerEffects {
  import opened Prelude
  import opened Text
  import opened SchedulerModel
  import opened SchedulerInvariant
  import opened SchedulerRuns

  // ----- Requests concern their own key -------------------------------------------------------

  /** The scheduler and its table treat this key alike in both states. */
  ghost predicate SameAt(s: State, s': State, k: Key) {
    && (k in s'.jobs <==> k in s.jobs) && (k in s.jobs ==> s'.jobs[k] == s.jobs[k])
    && (k in s'.table <==> k in s.table) && (k in s.table ==> s'.table[k] == s.table[k])
    && (k in s'.retryAfter <==> k in s.retryAfter) && (k in s.retryAfter ==> s'.retryAfter[k] == s.retryAfter[k])
    && (k in s'.inFlight <==> k in s.inFlight) && (k in s'.completed <==> k in s.completed)
  }

  ghost predicate Unheard(s: State, k: Key) {
    k !in s.jobs && k !in s.table && k !in s.retryAfter && k !in s.inFlight && k !in s.completed
  }

  /** A cancel with the table up leaves no trace of its key, in flight or not, and touches nothing else; with the
      table down it changes nothing. */
  lemma CancelMeans(s: State, key: Key)
    ensures Unheard(CancelStep(s, key, true), key)
    ensures forall k :: k != key ==> SameAt(s, CancelStep(s, key, true), k)
    ensures CancelStep(s, key, true).outstanding == s.outstanding && CancelStep(s, key, true).clock == s.clock
    ensures CancelStep(s, key, false) == s
  {
  }

  predicate AcceptsKey(s: State, e: Event, key: Key) {
    e.SetJob? && e.dbUp && (e.m, e.request.id) == key && ValidateSet(e.m, e.request, s.jobs, e.nowCheck).None?
  }

  predicate NeverAcceptsKey(s: State, es: seq<Event>, key: Key)
    decreases |es|
  {
    es != [] ==> !AcceptsKey(s, es[0], key) && NeverAcceptsKey(Step(s, es[0]), es[1..], key)
  }

  /** A key without a job stays so, and nothing is delivered under it, until a request for it is accepted. */
  lemma {:induction false} AbsentStaysAbsent(s: State, es: seq<Event>, key: Key)
    requires Inv(s) && Runnable(s, es) && key !in s.jobs && NeverAcceptsKey(s, es, key)
    ensures key !in Exec(s, es).jobs && key !in Exec(s, es).table
    ensures forall v, now :: (v, now) in Deliveries(s, es) ==> KeyOf(v) != key
    decreases |es|
  {
    if es != [] {
      StepKeepsInv(s, es[0]);
      AbsentAfterStep(s, es[0], key);
      AbsentStaysAbsent(Step(s, es[0]), es[1..], key);
    }
  }

  lemma AbsentAfterStep(s: State, e: Event, key: Key)
    requires Inv(s) && key !in s.jobs && !AcceptsKey(s, e, key)
    ensures key !in Step(s, e).jobs
    ensures e.Deliver? ==> forall v :: v in Sent(s, e.now, e.refused) ==> KeyOf(v) != key
  {
  }

  /** A cancelled job is never delivered: after the cancel no delivery is of that key until a request for the key
      is accepted. */
  lemma CancelledIsNotDelivered(s: State, key: Key, es: seq<Event>, v: Job, now: int)
    requires Inv(s) && Runnable(CancelStep(s, key, true), es) && NeverAcceptsKey(CancelStep(s, key, true), es, key)
    requires (v, now) in Deliveries(CancelStep(s, key, true), es)
    ensures KeyOf(v) != key
  {
    StepKeepsInv(s, Cancel(key, true));
    AbsentStaysAbsent(CancelStep(s, key, true), es, key);
  }

  /** A request concerns its own key; an accepted one leaves no pause and no mark of an earlier version. */
  lemma SetMeans(s: State, m: string, r: ScheduleSet, nowCheck: int, nowCreate: int, dbUp: bool)
    ensures var s' := SetStep(s, m, r, nowCheck, nowCreate, dbUp);
      && (forall k :: k != (m, r.id) || !AcceptsKey(s, SetJob(m, r, nowCheck, nowCreate, dbUp), (m, r.id)) ==>
            SameAt(s, s', k))
      && s'.outstanding == s.outstanding && s'.inFlight == s.inFlight
  {
  }

  // ----- Which requests are accepted ----------------------------------------------------------

  /** At most 160 bytes of id and 2048 of payload, a place, and a due time within the next 366 days. */
  ghost predicate WellFormed(r: ScheduleSet, now: int) {
    && 1 <= Utf8Len(r.id) <= 160 && Utf8Len(r.payload) <= 2048
    && (exists i :: 0 <= i < |r.server| && !IsSpace(r.server[i]))
    && (exists i :: 0 <= i < |r.channel| && !IsSpace(r.channel[i]))
    && now < r.dueAt <= I64_MAX && r.dueAt - now <= 31_622_400
  }

  /** A request stores its job exactly if it is well-formed and, unless the module has more than 128 jobs already,
      would not give it more than that; so a replacement is accepted at a full quota. */
  lemma StoredIffWellFormedAndFits(s: State, m: string, r: ScheduleSet, nowCheck: int, nowCreate: int)
    requires KeysMatch(s.jobs) && 0 <= nowCheck <= I64_MAX && r.dueAt <= I64_MAX
    ensures var stored := s.jobs[(m, r.id) := MakeJob(m, r, nowCreate)];
      SetStep(s, m, r, nowCheck, nowCreate, true).jobs ==
      if WellFormed(r, nowCheck) && (|JobsOf(stored, m)| <= 128 || |JobsOf(stored, m)| <= |JobsOf(s.jobs, m)|)
      then stored else s.jobs
  {
    JobsOfStored(s.jobs, m, r, nowCreate);
    AcceptedIff(s.jobs, m, r, nowCheck);
  }

  lemma JobsOfStored(jobs: map<Key, Job>, m: string, r: ScheduleSet, at: int)
    requires KeysMatch(jobs)
    ensures |JobsOf(jobs[(m, r.id) := MakeJob(m, r, at)], m)|
      == |JobsOf(jobs, m)| + if (m, r.id) in jobs then 0 else 1
  {
    var stored := jobs[(m, r.id) := MakeJob(m, r, at)];
    if (m, r.id) in jobs {
      assert KeyOf(jobs[(m, r.id)]) == (m, r.id);
      assert JobsOf(stored, m) == JobsOf(jobs, m);
    } else {
      assert JobsOf(stored, m) == JobsOf(jobs, m) + {(m, r.id)};
    }
  }

  lemma AcceptedIff(jobs: map<Key, Job>, m: string, r: ScheduleSet, now: int)
    requires 0 <= now <= I64_MAX && r.dueAt <= I64_MAX
    ensures ValidateSet(m, r, jobs, now).None? <==>
      WellFormed(r, now) && ((m, r.id) in jobs || |JobsOf(jobs, m)| < 128)
  {
    EmptyHasNoBytes(r.id);
  }

  lemma EmptyHasNoBytes(s: string)
    ensures s == [] <==> Utf8Len(s) == 0
  {
  }

  // ----- An accepted job is delivered ---------------------------------------------------------

  /** The queue refuses the key, or the module rejects this version: the job waits 30 seconds more. */
  predicate PutsOff(e: Event, v: Job) {
    || (e.Deliver? && KeyOf(v) in e.refused)
    || (e.Complete? && e.job == v && !e.succeeded)
  }

  predicate PutOff(es: seq<Event>, v: Job) {
    exists i :: 0 <= i < |es| && PutsOff(es[i], v)
  }

  ghost predicate IsDelivered(s: State, es: seq<Event>, v: Job) {
    exists now :: (v, now) in Deliveries(s, es)
  }

  /** Waiting for its time, with nothing else in the way. */
  ghost predicate Waits(s: State, v: Job, time: int) {
    Holds(s, v) && KeyOf(v) !in s.inFlight && WakeTime(s, KeyOf(v)) <= time
  }

  lemma WaitsUnlessSent(s: State, e: Event, v: Job, time: int)
    requires Inv(s) && Enabled(s, e) && Waits(s, v, time) && v.dueAt <= time
    requires !Discharges(s, e, v) && !PutsOff(e, v)
    ensures Waits(Step(s, e), v, time) || (e.Deliver? && v in Sent(s, e.now, e.refused))
  {
    OnlyDischargeRemoves(s, e, v);
    if e.Deliver? {
      PassSendsWhatWaits(s, v, time, e.now, e.refused);
    } else {
      StillWaits(s, e, v, time);
    }
  }

  lemma StillWaits(s: State, e: Event, v: Job, time: int)
    requires Waits(s, v, time) && v.dueAt <= time && Holds(Step(s, e), v) && !e.Deliver?
    requires !PutsOff(e, v) && !Discharges(s, e, v)
    ensures Waits(Step(s, e), v, time)
  {
  }

  lemma PassSendsWhatWaits(s: State, v: Job, time: int, now: int, refused: set<Key>)
    requires RetriesHonest(s) && Waits(s, v, time) && KeyOf(v) !in refused
    ensures time <= now ==> v in Sent(s, now, refused)
    ensures v in Sent(s, now, refused) || Waits(DeliverStep(s, now, refused), v, time)
  {
    if KeyOf(v) in Due(s, now) {
      assert s.jobs[KeyOf(v)] in Sent(s, now, refused);
    }
  }

  /** A pass of the loop at or after this time. */
  ghost predicate HasPass(es: seq<Event>, time: int) {
    exists i :: 0 <= i < |es| && es[i].Deliver? && time <= es[i].now
  }

  lemma PassComesLater(es: seq<Event>, time: int)
    requires HasPass(es, time) && !(es[0].Deliver? && time <= es[0].now)
    ensures HasPass(es[1..], time)
  {
    var i :| 0 <= i < |es| && es[i].Deliver? && time <= es[i].now;
    assert es[1..][i - 1] == es[i];
  }

  lemma DeliveredNowOrLater(s: State, es: seq<Event>, v: Job)
    requires es != []
    ensures es[0].Deliver? && v in Sent(s, es[0].now, es[0].refused) ==> IsDelivered(s, es, v)
    ensures IsDelivered(Step(s, es[0]), es[1..], v) ==> IsDelivered(s, es, v)
  {
    if es[0].Deliver? && v in Sent(s, es[0].now, es[0].refused) {
      assert (v, es[0].now) in Deliveries(s, es);
    }
    if IsDelivered(Step(s, es[0]), es[1..], v) {
      var now :| (v, now) in Deliveries(Step(s, es[0]), es[1..]);
      assert (v, now) in Deliveries(s, es);
    }
  }

  /** Whatever else happens, a job that waits is delivered by the first pass of the loop at or after its time,
      unless it is discharged or put off before. */
  lemma {:induction false} WaitingIsDelivered(s: State, es: seq<Event>, v: Job, time: int)
    requires Inv(s) && Runnable(s, es) && Waits(s, v, time) && HasPass(es, time)
    requires !Discharged(s, es, v) && !PutOff(es, v)
    ensures IsDelivered(s, es, v)
    decreases |es|
  {
    WaitIsNotBeforeDue(s, v);
    assert !PutsOff(es[0], v);
    DeliveredNowOrLater(s, es, v);
    if es[0].Deliver? && time <= es[0].now {
      PassSendsWhatWaits(s, v, time, es[0].now, es[0].refused);
    } else {
      WaitsUnlessSent(s, es[0], v, time);
      if Waits(Step(s, es[0]), v, time) {
        StepKeepsInv(s, es[0]);
        PassComesLater(es, time);
        StillNotPutOff(es, v);
        WaitingIsDelivered(Step(s, es[0]), es[1..], v, time);
      }
    }
  }

  lemma StillNotPutOff(es: seq<Event>, v: Job)
    requires es != [] && !PutOff(es, v)
    ensures !PutOff(es[1..], v)
  {
    forall i | 0 <= i < |es[1..]| ensures !PutsOff(es[1..][i], v) {
      assert es[1..][i] == es[i + 1];
    }
  }

  lemma WaitIsNotBeforeDue(s: State, v: Job)
    requires RetriesHonest(s) && Holds(s, v)
    ensures v.dueAt <= WakeTime(s, KeyOf(v))
  {
  }

  /** An accepted job is delivered by the first pass at or after its due time, unless it is cancelled or replaced
      before, or the queue refuses it. */
  lemma AcceptedIsDelivered(s: State, m: string, r: ScheduleSet, nowCheck: int, nowCreate: int, es: seq<Event>)
    requires Inv(s) && s.clock <= nowCheck <= nowCreate <= I64_MAX && ValidateSet(m, r, s.jobs, nowCheck).None?
    requires (m, r.id) !in s.inFlight
    requires Runnable(SetStep(s, m, r, nowCheck, nowCreate, true), es)
    requires HasPass(es, r.dueAt)
    requires var v := MakeJob(m, r, nowCreate);
      !Discharged(SetStep(s, m, r, nowCheck, nowCreate, true), es, v) && !PutOff(es, v)
    ensures IsDelivered(SetStep(s, m, r, nowCheck, nowCreate, true), es, MakeJob(m, r, nowCreate))
  {
    StepKeepsInv(s, SetJob(m, r, nowCheck, nowCreate, true));
    WaitingIsDelivered(SetStep(s, m, r, nowCheck, nowCreate, true), es, MakeJob(m, r, nowCreate), r.dueAt);
  }

  lemma RejectedWaits(s: State, v: Job, now: int, dbUp: bool)
    requires Holds(s, v)
    ensures Waits(CompleteStep(s, v, false, now, dbUp), v, SaturatingAdd(now, 30))
  {
  }

  /** A rejected job goes out again with the first pass 30 seconds later. */
  lemma RejectedGoesOutAgain(s: State, v: Job, now: int, dbUp: bool, es: seq<Event>)
    requires Inv(s) && Holds(s, v) && v in s.outstanding && s.clock <= now <= I64_MAX
    requires Runnable(CompleteStep(s, v, false, now, dbUp), es)
    requires HasPass(es, SaturatingAdd(now, 30))
    requires !Discharged(CompleteStep(s, v, false, now, dbUp), es, v) && !PutOff(es, v)
    ensures IsDelivered(CompleteStep(s, v, false, now, dbUp), es, v)
  {
    StepKeepsInv(s, Complete(v, false, now, dbUp));
    RejectedWaits(s, v, now, dbUp);
    WaitingIsDelivered(CompleteStep(s, v, false, now, dbUp), es, v, SaturatingAdd(now, 30));
  }

  lemma RefusedWaits(s: State, v: Job, now: int, refused: set<Key>)
    requires Holds(s, v) && KeyOf(v) in Due(s, now) && KeyOf(v) in refused
    ensures Waits(DeliverStep(s, now, refused), v, SaturatingAdd(now, 30))
  {
  }

  /** So does one that the delivery queue has refused. */
  lemma RefusedGoesOutAgain(s: State, v: Job, now: int, refused: set<Key>, es: seq<Event>)
    requires Inv(s) && Waits(s, v, now) && KeyOf(v) in refused && s.clock <= now <= I64_MAX
    requires Runnable(DeliverStep(s, now, refused), es)
    requires HasPass(es, SaturatingAdd(now, 30))
    requires !Discharged(DeliverStep(s, now, refused), es, v) && !PutOff(es, v)
    ensures IsDelivered(DeliverStep(s, now, refused), es, v)
  {
    StepKeepsInv(s, Deliver(now, refused));
    WaitIsNotBeforeDue(s, v);
    RefusedWaits(s, v, now, refused);
    WaitingIsDelivered(DeliverStep(s, now, refused), es, v, SaturatingAdd(now, 30));
  }

  /** After a crash a stored job goes out with the first pass at or after its due time, in flight or not. */
  lemma CrashedIsDelivered(s: State, v: Job, es: seq<Event>)
    requires Inv(s) && IsStored(s.table, v) && Runnable(Step(s, Crash), es)
    requires HasPass(es, v.dueAt)
    requires !Discharged(Step(s, Crash), es, v) && !PutOff(es, v)
    ensures IsDelivered(Step(s, Crash), es, v)
  {
    StepKeepsInv(s, Crash);
    WaitingIsDelivered(Step(s, Crash), es, v, v.dueAt);
  }

  // ----- A completed job is not delivered again -----------------------------------------------

  /** This version is gone or, the table having failed, marked to be cleaned up. */
  ghost predicate IsDone(s: State, v: Job) {
    IsStored(s.jobs, v) ==> KeyOf(v) in s.completed
  }

  /** A crash finds a version that is done still stored. */
  predicate ForgetsMark(s: State, e: Event, v: Job) {
    e.Crash? && IsStored(s.table, v)
  }

  lemma StepKeepsDone(s: State, e: Event, v: Job)
    requires Inv(s) && Enabled(s, e) && IsDone(s, v) && !Accepts(s, e, v)
    ensures IsDone(Step(s, e), v) <==> !ForgetsMark(s, e, v)
    ensures e.Deliver? ==> v !in Sent(s, e.now, e.refused)
  {
  }

  predicate NeverReturns(s: State, es: seq<Event>, v: Job)
    decreases |es|
  {
    es != [] ==> !Accepts(s, es[0], v) && !ForgetsMark(s, es[0], v) && NeverReturns(Step(s, es[0]), es[1..], v)
  }

  lemma {:induction false} DoneIsNotDelivered(s: State, es: seq<Event>, v: Job)
    requires Inv(s) && Runnable(s, es) && IsDone(s, v) && NeverReturns(s, es, v)
    ensures !IsDelivered(s, es, v)
    decreases |es|
  {
    if es != [] {
      StepKeepsInv(s, es[0]);
      StepKeepsDone(s, es[0], v);
      DoneIsNotDelivered(Step(s, es[0]), es[1..], v);
    }
  }

  /** A successful completion, whether or not the table can be written, ends the deliveries of its version until
      an equal one is accepted or a crash finds it still stored. */
  lemma CompletedIsNotDelivered(s: State, v: Job, now: int, dbUp: bool, es: seq<Event>)
    requires Inv(s) && v in s.outstanding && s.clock <= now <= I64_MAX
    requires Runnable(CompleteStep(s, v, true, now, dbUp), es)
    requires NeverReturns(CompleteStep(s, v, true, now, dbUp), es, v)
    ensures !IsDelivered(CompleteStep(s, v, true, now, dbUp), es, v)
    ensures dbUp ==> !IsStored(CompleteStep(s, v, true, now, dbUp).table, v)
  {
    StepKeepsInv(s, Complete(v, true, now, dbUp));
    DoneIsNotDelivered(CompleteStep(s, v, true, now, dbUp), es, v);
  }

  /** The first clean-up with the table up, 30 seconds later, deletes what a failed completion left behind. */
  lemma CleanUpDeletes(s: State, v: Job, now: int, later: int)
    requires Inv(s) && Holds(s, v) && v in s.outstanding && s.clock <= now && SaturatingAdd(now, 30) <= later <= I64_MAX
    ensures var s' := CompleteStep(s, v, true, now, false);
      var s'' := FinishStep(s', later, {});
      && IsStored(s'.table, v) && KeyOf(v) in s'.completed
      && KeyOf(v) !in s''.jobs && KeyOf(v) !in s''.table && KeyOf(v) !in s''.completed && KeyOf(v) !in s''.retryAfter
  {
    var s' := CompleteStep(s, v, true, now, false);
    assert KeyOf(v) in Ready(s', later);
  }

  /** Completions and passes of the loop leave the other keys alone. */
  lemma CompletionConcernsItsKey(s: State, job: Job, succeeded: bool, now: int, dbUp: bool, k: Key)
    requires k != KeyOf(job)
    ensures SameAt(s, CompleteStep(s, job, succeeded, now, dbUp), k)
  {
  }

  lemma CleanUpConcernsTheReady(s: State, now: int, dbDown: set<Key>, k: Key)
    requires k !in Ready(s, now)
    ensures SameAt(s, FinishStep(s, now, dbDown), k)
  {
  }

  lemma DeliveryConcernsTheDue(s: State, now: int, refused: set<Key>, k: Key)
    requires k !in Due(s, now)
    ensures SameAt(s, DeliverStep(s, now, refused), k)
  {
  }
}
