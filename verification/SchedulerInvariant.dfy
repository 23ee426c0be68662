/** Every step of the scheduler keeps its invariant, one conjunct at a time. */
module SchedulerInvariant {
  import opened Prelude
  import opened SchedulerModel

  lemma RestoredStateIsGood(table: map<Key, Job>, clock: int)
    requires KeysMatch(table) && clock <= I64_MAX
    ensures Inv(RestoreStep(table, clock))
  {
  }

  lemma StepMirrors(s: State, e: Event)
    requires Mirrored(s)
    ensures Mirrored(Step(s, e))
  {
  }

  lemma StepKeepsKeys(s: State, e: Event)
    requires KeysMatch(s.jobs) && KeysMatch(s.table)
    ensures KeysMatch(Step(s, e).jobs)
  {
  }

  lemma StepKeepsNotBoth(s: State, e: Event)
    requires NotBoth(s)
    ensures NotBoth(Step(s, e))
  {
  }

  /** Reporting a delivery back leaves fewer completions and no new version of any job. */
  lemma CompleteShrinks(s: State, job: Job, succeeded: bool, now: int, dbUp: bool)
    requires s.clock <= now
    ensures var s' := CompleteStep(s, job, succeeded, now, dbUp);
      && s'.clock == now
      && (forall t :: t in s'.outstanding ==> t in s.outstanding)
      && (forall k :: k in s'.jobs ==> k in s.jobs && s'.jobs[k] == s.jobs[k])
  {
    var rest := s.outstanding - multiset{job};
    forall t | t in rest ensures t in s.outstanding {
    }
  }

  /** A job due in the future cannot be mistaken for anything already delivered. */
  lemma FutureJobKeepsTokens(s: State, s': State, key: Key, job: Job)
    requires TokensWereDue(s) && NoAliasing(s) && s.clock <= s'.clock && s.clock < job.dueAt
    requires s'.outstanding == s.outstanding && s'.jobs == s.jobs[key := job]
    ensures TokensWereDue(s') && NoAliasing(s')
  {
  }

  lemma FewerJobsKeepTokens(s: State, s': State)
    requires TokensWereDue(s) && NoAliasing(s) && s.clock <= s'.clock
    requires forall t :: t in s'.outstanding ==> t in s.outstanding
    requires forall k :: k in s'.jobs ==> k in s.jobs && s'.jobs[k] == s.jobs[k]
    ensures TokensWereDue(s') && NoAliasing(s')
  {
  }

  lemma DeliverKeepsTokens(s: State, now: int, refused: set<Key>)
    requires s.clock <= now && TokensWereDue(s) && NoAliasing(s) && KeysMatch(s.jobs)
    ensures var s' := DeliverStep(s, now, refused); TokensWereDue(s') && NoAliasing(s')
  {
    var s', sent := DeliverStep(s, now, refused), Sent(s, now, refused);
    forall t | t in sent ensures KeyOf(t) in s.jobs && s.jobs[KeyOf(t)] == t && t.dueAt <= now {
    }
    forall t | t in s'.outstanding ensures t in s.outstanding || t in sent {
    }
  }

  lemma AcceptedIsFuture(m: string, r: ScheduleSet, jobs: map<Key, Job>, now: int)
    requires ValidateSet(m, r, jobs, now).None?
    ensures now < r.dueAt
  {
  }

  lemma SetKeepsTokens(s: State, m: string, r: ScheduleSet, nowCheck: int, nowCreate: int, dbUp: bool)
    requires s.clock <= nowCheck <= nowCreate && TokensWereDue(s) && NoAliasing(s)
    ensures TokensWereDue(SetStep(s, m, r, nowCheck, nowCreate, dbUp))
    ensures NoAliasing(SetStep(s, m, r, nowCheck, nowCreate, dbUp))
  {
    var s' := SetStep(s, m, r, nowCheck, nowCreate, dbUp);
    if ValidateSet(m, r, s.jobs, nowCheck).Some? || !dbUp {
      SameJobsKeepTokens(s, s');
    } else {
      AcceptedIsFuture(m, r, s.jobs, nowCheck);
      FutureJobKeepsTokens(s, s', (m, r.id), MakeJob(m, r, nowCreate));
    }
  }

  lemma SameJobsKeepTokens(s: State, s': State)
    requires TokensWereDue(s) && NoAliasing(s) && s.clock <= s'.clock
    requires s'.outstanding == s.outstanding && s'.jobs == s.jobs
    ensures TokensWereDue(s') && NoAliasing(s')
  {
  }

  lemma CompleteKeepsTokens(s: State, job: Job, succeeded: bool, now: int, dbUp: bool)
    requires s.clock <= now && TokensWereDue(s) && NoAliasing(s)
    ensures var s' := CompleteStep(s, job, succeeded, now, dbUp); TokensWereDue(s') && NoAliasing(s')
  {
    CompleteShrinks(s, job, succeeded, now, dbUp);
    FewerJobsKeepTokens(s, CompleteStep(s, job, succeeded, now, dbUp));
  }

  lemma StepKeepsTokens(s: State, e: Event)
    requires Enabled(s, e) && TokensWereDue(s) && NoAliasing(s) && KeysMatch(s.jobs)
    ensures TokensWereDue(Step(s, e)) && NoAliasing(Step(s, e))
  {
    match e
    case SetJob(m, r, nowCheck, nowCreate, dbUp) => SetKeepsTokens(s, m, r, nowCheck, nowCreate, dbUp);
    case Complete(job, succeeded, now, dbUp) => CompleteKeepsTokens(s, job, succeeded, now, dbUp);
    case Deliver(now, refused) => DeliverKeepsTokens(s, now, refused);
    case Cancel(_, _) => FewerJobsKeepTokens(s, Step(s, e));
    case Finish(_, _) => FewerJobsKeepTokens(s, Step(s, e));
    case Crash =>
  }

  lemma CompleteKeepsCompleted(s: State, job: Job, succeeded: bool, now: int, dbUp: bool)
    requires CompletedWereDue(s) && job.dueAt <= s.clock <= now
    ensures CompletedWereDue(CompleteStep(s, job, succeeded, now, dbUp))
  {
  }

  lemma StepKeepsCompleted(s: State, e: Event)
    requires Enabled(s, e) && CompletedWereDue(s) && TokensWereDue(s)
    ensures CompletedWereDue(Step(s, e))
  {
    if e.Complete? {
      CompleteKeepsCompleted(s, e.job, e.succeeded, e.now, e.dbUp);
    }
  }

  lemma SetKeepsRetries(s: State, m: string, r: ScheduleSet, nowCheck: int, nowCreate: int, dbUp: bool)
    requires RetriesHonest(s) && s.clock <= nowCheck <= nowCreate
    ensures RetriesHonest(SetStep(s, m, r, nowCheck, nowCreate, dbUp))
  {
  }

  lemma CompleteKeepsRetries(s: State, job: Job, succeeded: bool, now: int, dbUp: bool)
    requires RetriesHonest(s) && job.dueAt <= s.clock <= now <= I64_MAX
    ensures RetriesHonest(CompleteStep(s, job, succeeded, now, dbUp))
  {
  }

  lemma FinishKeepsRetries(s: State, now: int, dbDown: set<Key>)
    requires RetriesHonest(s) && CompletedWereDue(s) && s.clock <= now <= I64_MAX
    ensures RetriesHonest(FinishStep(s, now, dbDown))
  {
  }

  lemma DeliverKeepsRetries(s: State, now: int, refused: set<Key>)
    requires RetriesHonest(s) && s.clock <= now <= I64_MAX
    ensures RetriesHonest(DeliverStep(s, now, refused))
  {
  }

  lemma StepKeepsRetries(s: State, e: Event)
    requires Enabled(s, e) && RetriesHonest(s) && CompletedWereDue(s) && TokensWereDue(s)
    ensures RetriesHonest(Step(s, e))
  {
    match e
    case SetJob(m, r, nowCheck, nowCreate, dbUp) => SetKeepsRetries(s, m, r, nowCheck, nowCreate, dbUp);
    case Cancel(_, _) =>
    case Complete(job, succeeded, now, dbUp) => CompleteKeepsRetries(s, job, succeeded, now, dbUp);
    case Finish(now, dbDown) => FinishKeepsRetries(s, now, dbDown);
    case Deliver(now, refused) => DeliverKeepsRetries(s, now, refused);
    case Crash =>
  }

  lemma StepKeepsClock(s: State, e: Event)
    requires Enabled(s, e) && s.clock <= I64_MAX
    ensures s.clock <= Step(s, e).clock <= I64_MAX
  {
  }

  lemma InvFromParts(s: State)
    requires KeysMatch(s.jobs) && Mirrored(s) && NotBoth(s) && s.clock <= I64_MAX
    requires TokensWereDue(s) && NoAliasing(s) && CompletedWereDue(s) && RetriesHonest(s)
    ensures Inv(s)
  {
  }

  lemma StepKeepsInv(s: State, e: Event)
    requires Inv(s) && Enabled(s, e)
    ensures Inv(Step(s, e))
  {
    StepMirrors(s, e);
    StepKeepsKeys(s, e);
    StepKeepsNotBoth(s, e);
    StepKeepsClock(s, e);
    StepKeepsTokens(s, e);
    StepKeepsCompleted(s, e);
    StepKeepsRetries(s, e);
    InvFromParts(Step(s, e));
  }

  lemma {:induction false} RunKeepsInv(s: State, es: seq<Event>)
    requires Inv(s) && Runnable(s, es)
    ensures Inv(Exec(s, es))
    decreases |es|
  {
    if es != [] {
      StepKeepsInv(s, es[0]);
      RunKeepsInv(Step(s, es[0]), es[1..]);
    }
  }
}
