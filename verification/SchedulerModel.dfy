/** The durable scheduler as a state machine: what each request, each pass of the loop and a crash do
    to the in-memory collections, to the job table and to the completions still outstanding.
    Clock readings, database failures and refusals by the delivery queue are inputs of the events. */
module SchedulerModel {
  import opened Prelude
  import opened Text

  const MAX_JOBS_PER_MODULE := 128
  const MAX_PAYLOAD_BYTES := 2048
  const MAX_ID_BYTES := 160
  const MAX_HORIZON_SECONDS := 366 * 24 * 60 * 60
  const ABSENT_RETRY_SECONDS := 30
  const MAX_WAIT_SECONDS := 60

  /** Module name and job id. */
  type Key = (string, string)

  datatype Job = Job(
    moduleName: string, id: string, server: string, channel: string,
    ownerProfile: Option<string>, dueAt: int, payload: string, createdAt: int)

  datatype ScheduleSet = ScheduleSet(
    id: string, server: string, channel: string, ownerProfile: Option<string>, dueAt: int, payload: string)

  datatype SetError = BadId | MissingPlace | PayloadTooLong | BadDueTime | QuotaReached

  /** `outstanding` holds the deliveries handed to the environment and not yet reported back;
      `clock` is the latest reading of the wall clock. */
  datatype State = State(
    jobs: map<Key, Job>, retryAfter: map<Key, int>, inFlight: set<Key>, completed: set<Key>,
    table: map<Key, Job>, outstanding: multiset<Job>, clock: int)

  function KeyOf(job: Job): Key {
    (job.moduleName, job.id)
  }

  function MakeJob(m: string, r: ScheduleSet, createdAt: int): Job {
    Job(m, r.id, r.server, r.channel, r.ownerProfile, r.dueAt, r.payload, createdAt)
  }

  function JobsOf(jobs: map<Key, Job>, m: string): set<Key> {
    set k | k in jobs && jobs[k].moduleName == m
  }

  function ValidateSet(m: string, r: ScheduleSet, jobs: map<Key, Job>, now: int): Option<SetError> {
    if r.id == [] || Utf8Len(r.id) > MAX_ID_BYTES then Some(BadId)
    else if IsBlank(r.server) || IsBlank(r.channel) then Some(MissingPlace)
    else if Utf8Len(r.payload) > MAX_PAYLOAD_BYTES then Some(PayloadTooLong)
    else if r.dueAt <= now || r.dueAt > SaturatingAdd(now, MAX_HORIZON_SECONDS) then Some(BadDueTime)
    else if (m, r.id) !in jobs && |JobsOf(jobs, m)| >= MAX_JOBS_PER_MODULE then Some(QuotaReached)
    else None
  }

  // ----- Steps ------------------------------------------------------------------------------

  function RestoreStep(table: map<Key, Job>, clock: int): State {
    State(table, map[], {}, {}, table, multiset{}, clock)
  }

  function SetStep(s: State, m: string, r: ScheduleSet, nowCheck: int, nowCreate: int, dbUp: bool): State {
    if ValidateSet(m, r, s.jobs, nowCheck).Some? then s.(clock := nowCheck)
    else if !dbUp then s.(clock := nowCreate)
    else
      var job, key := MakeJob(m, r, nowCreate), (m, r.id);
      s.(jobs := s.jobs[key := job], table := s.table[key := job],
         retryAfter := s.retryAfter - {key}, completed := s.completed - {key}, clock := nowCreate)
  }

  function CancelStep(s: State, key: Key, dbUp: bool): State {
    if !dbUp then s
    else s.(jobs := s.jobs - {key}, table := s.table - {key}, retryAfter := s.retryAfter - {key},
            inFlight := s.inFlight - {key}, completed := s.completed - {key})
  }

  function CompleteStep(s: State, job: Job, succeeded: bool, now: int, dbUp: bool): State {
    var key := KeyOf(job);
    var s1 := s.(inFlight := s.inFlight - {key}, outstanding := s.outstanding - multiset{job}, clock := now);
    if key !in s.jobs || s.jobs[key] != job then s1
    else if succeeded && dbUp then
      s1.(jobs := s.jobs - {key}, table := s.table - {key}, retryAfter := s.retryAfter - {key})
    else
      s1.(completed := if succeeded then s.completed + {key} else s.completed,
          retryAfter := s.retryAfter[key := SaturatingAdd(now, ABSENT_RETRY_SECONDS)])
  }

  /** Completed jobs whose deferred clean-up is due. */
  function Ready(s: State, now: int): set<Key> {
    set k | k in s.completed && (k !in s.retryAfter || s.retryAfter[k] <= now)
  }

  /** Clean-up of the completed jobs in `done`; the delete fails for the keys in `dbDown`. */
  function FinishSome(s: State, now: int, dbDown: set<Key>, done: set<Key>): State {
    var stuck := done * s.jobs.Keys * dbDown;
    var gone := done - stuck;
    s.(jobs := s.jobs - gone, table := s.table - (gone * s.jobs.Keys), completed := s.completed - gone,
       retryAfter := (s.retryAfter - gone) + (map k | k in stuck :: SaturatingAdd(now, ABSENT_RETRY_SECONDS)),
       clock := now)
  }

  function FinishStep(s: State, now: int, dbDown: set<Key>): State {
    FinishSome(s, now, dbDown, Ready(s, now))
  }

  function Due(s: State, now: int): set<Key> {
    set k | k in s.jobs && k !in s.inFlight && k !in s.completed && s.jobs[k].dueAt <= now
            && (k !in s.retryAfter || s.retryAfter[k] <= now)
  }

  function JobsAt(s: State, keys: set<Key>): set<Job> {
    set k | k in keys && k in s.jobs :: s.jobs[k]
  }

  /** Delivery of the due jobs in `done`; the queue refuses the keys in `refused`. */
  function DeliverSome(s: State, now: int, refused: set<Key>, done: set<Key>): State {
    s.(inFlight := s.inFlight + (done - refused),
       retryAfter := s.retryAfter + (map k | k in done * refused :: SaturatingAdd(now, ABSENT_RETRY_SECONDS)),
       outstanding := s.outstanding + multiset(JobsAt(s, done - refused)),
       clock := now)
  }

  function Sent(s: State, now: int, refused: set<Key>): set<Job> {
    JobsAt(s, Due(s, now) - refused)
  }

  function DeliverStep(s: State, now: int, refused: set<Key>): State {
    DeliverSome(s, now, refused, Due(s, now))
  }

  /** The order in which due jobs are handed out. */
  predicate NoLaterThan(a: Job, b: Job) {
    a.dueAt < b.dueAt || (a.dueAt == b.dueAt && a.createdAt <= b.createdAt)
  }

  datatype Event =
    | SetJob(m: string, request: ScheduleSet, nowCheck: int, nowCreate: int, dbUp: bool)
    | Cancel(key: Key, dbUp: bool)
    | Complete(job: Job, succeeded: bool, now: int, dbUp: bool)
    | Finish(now: int, dbDown: set<Key>)
    | Deliver(now: int, refused: set<Key>)
    | Crash

  function Step(s: State, e: Event): State {
    match e
    case SetJob(m, r, nowCheck, nowCreate, dbUp) => SetStep(s, m, r, nowCheck, nowCreate, dbUp)
    case Cancel(key, dbUp) => CancelStep(s, key, dbUp)
    case Complete(job, succeeded, now, dbUp) => CompleteStep(s, job, succeeded, now, dbUp)
    case Finish(now, dbDown) => FinishStep(s, now, dbDown)
    case Deliver(now, refused) => DeliverStep(s, now, refused)
    case Crash => RestoreStep(s.table, s.clock)
  }

  /** The wall clock never runs backwards, stays within 64 bits, and a completion is reported at most
      once per delivery. */
  predicate Enabled(s: State, e: Event) {
    match e
    case SetJob(_, _, nowCheck, nowCreate, _) => s.clock <= nowCheck <= nowCreate <= I64_MAX
    case Cancel(_, _) => true
    case Complete(job, _, now, _) => job in s.outstanding && s.clock <= now <= I64_MAX
    case Finish(now, _) => s.clock <= now <= I64_MAX
    case Deliver(now, _) => s.clock <= now <= I64_MAX
    case Crash => true
  }

  // ----- Runs -------------------------------------------------------------------------------

  function Exec(s: State, es: seq<Event>): State
    decreases |es|
  {
    if es == [] then s else Exec(Step(s, es[0]), es[1..])
  }

  predicate Runnable(s: State, es: seq<Event>)
    decreases |es|
  {
    es == [] || (Enabled(s, es[0]) && Runnable(Step(s, es[0]), es[1..]))
  }

  // ----- Invariant --------------------------------------------------------------------------

  ghost predicate KeysMatch(jobs: map<Key, Job>) {
    forall k :: k in jobs ==> KeyOf(jobs[k]) == k
  }

  /** An outstanding delivery can only ever match the version that was delivered: whatever now sits
      under its key is that version or is due strictly later. */
  ghost predicate NoAliasing(s: State) {
    forall t :: t in s.outstanding && KeyOf(t) in s.jobs ==>
      s.jobs[KeyOf(t)] == t || t.dueAt < s.jobs[KeyOf(t)].dueAt
  }

  /** The job table is exactly the in-memory map. */
  ghost predicate Mirrored(s: State) {
    s.jobs == s.table
  }

  ghost predicate NotBoth(s: State) {
    s.completed !! s.inFlight
  }

  /** Every outstanding delivery was due when it was sent. */
  ghost predicate TokensWereDue(s: State) {
    forall t :: t in s.outstanding ==> t.dueAt <= s.clock
  }

  ghost predicate CompletedWereDue(s: State) {
    forall k :: k in s.completed && k in s.jobs ==> s.jobs[k].dueAt <= s.clock
  }

  /** A retry time is kept only for a stored job that is already due, and never precedes its due time. */
  ghost predicate RetriesHonest(s: State) {
    && s.retryAfter.Keys <= s.jobs.Keys
    && (forall k :: k in s.retryAfter ==> s.jobs[k].dueAt <= s.clock && s.jobs[k].dueAt <= s.retryAfter[k])
  }

  ghost predicate Inv(s: State) {
    && KeysMatch(s.jobs)
    && Mirrored(s)
    && NotBoth(s)
    && s.clock <= I64_MAX
    && TokensWereDue(s)
    && NoAliasing(s)
    && CompletedWereDue(s)
    && RetriesHonest(s)
  }

  ghost predicate QuotaKept(jobs: map<Key, Job>) {
    forall m :: |JobsOf(jobs, m)| <= MAX_JOBS_PER_MODULE
  }
}
