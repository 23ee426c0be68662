/** The scheduler's own code: the loop's collections updated in place, each handler proved equal to the
    step of `SchedulerModel` it stands for. Clock readings, database failures and refusals by the
    delivery queue arrive as parameters. */
module Scheduler {
  import opened Prelude
  import opened SchedulerModel
  import opened SchedulerRuns
  import Effects = SchedulerEffects

  /** The persistent job table. A call with `up` false fails and changes nothing. */
  class JobTable {
    var rows: map<Key, Job>

    constructor (rows: map<Key, Job>)
      ensures this.rows == rows
    {
      this.rows := rows;
    }

    method Load(up: bool) returns (r: Option<seq<Job>>)
      requires KeysMatch(rows)
      ensures r.Some? <==> up
      ensures r.Some? ==> forall job :: job in r.value <==> KeyOf(job) in rows && rows[KeyOf(job)] == job
    {
      if !up {
        return None;
      }
      var list: seq<Job>, left := [], rows.Keys;
      while left != {}
        invariant left <= rows.Keys
        invariant forall job :: job in list <==> KeyOf(job) in rows.Keys - left && rows[KeyOf(job)] == job
        decreases left
      {
        var k :| k in left;
        list, left := list + [rows[k]], left - {k};
      }
      return Some(list);
    }

    method Save(job: Job, up: bool) returns (ok: bool)
      modifies this
      ensures ok == up
      ensures rows == if up then old(rows)[KeyOf(job) := job] else old(rows)
    {
      if up {
        rows := rows[KeyOf(job) := job];
      }
      ok := up;
    }

    method Delete(key: Key, up: bool) returns (removed: Option<bool>)
      modifies this
      ensures removed == if up then Some(key in old(rows)) else None
      ensures rows == if up then old(rows) - {key} else old(rows)
    {
      if !up {
        return None;
      }
      removed := Some(key in rows);
      rows := rows - {key};
    }
  }

  datatype SetReply = Accepted | Invalid(error: SetError) | StoreFailed

  class Scheduler {
    const db: JobTable
    var jobs: map<Key, Job>
    var retryAfter: map<Key, int>
    var inFlight: set<Key>
    var completed: set<Key>
    ghost var outstanding: multiset<Job>
    ghost var clock: int

    ghost function View(): State
      reads this, db
    {
      State(jobs, retryAfter, inFlight, completed, db.rows, outstanding, clock)
    }

    /** Start-up: the stored jobs, or none at all when the table cannot be read. */
    constructor Restore(db: JobTable, up: bool, ghost now: int)
      requires KeysMatch(db.rows)
      ensures this.db == db
      ensures up ==> View() == RestoreStep(db.rows, now)
      ensures !up ==> View() == RestoreStep(db.rows, now).(jobs := map[])
    {
      this.db := db;
      var loaded := db.Load(up);
      var restored: map<Key, Job> := map[];
      var list := loaded.GetOr([]);
      for i := 0 to |list|
        invariant restored == map job | job in list[..i] :: KeyOf(job) := job
        invariant forall k :: k in restored ==> KeyOf(restored[k]) == k && restored[k] in list
      {
        assert list[..i + 1] == list[..i] + [list[i]];
        restored := restored[KeyOf(list[i]) := list[i]];
      }
      jobs, retryAfter, inFlight, completed := restored, map[], {}, {};
      outstanding, clock := multiset{}, now;
      new;
      assert list[..|list|] == list;
    }

    method HandleSet(m: string, r: ScheduleSet, nowCheck: int, nowCreate: int, dbUp: bool) returns (reply: SetReply)
      modifies this, db
      ensures View() == SetStep(old(View()), m, r, nowCheck, nowCreate, dbUp)
      ensures reply == match ValidateSet(m, r, old(jobs), nowCheck)
                       case Some(error) => Invalid(error)
                       case None => if dbUp then Accepted else StoreFailed
    {
      clock := nowCheck;
      var invalid := ValidateSet(m, r, jobs, nowCheck);
      if invalid.Some? {
        return Invalid(invalid.value);
      }
      clock := nowCreate;
      var job := MakeJob(m, r, nowCreate);
      var saved := db.Save(job, dbUp);
      if !saved {
        return StoreFailed;
      }
      var key := (m, job.id);
      retryAfter := retryAfter - {key};
      completed := completed - {key};
      jobs := jobs[key := job];
      return Accepted;
    }

    /** The reply says whether the table had the job; none when the table could not be written. */
    method HandleCancel(m: string, id: string, dbUp: bool) returns (removed: Option<bool>)
      modifies this, db
      ensures View() == CancelStep(old(View()), (m, id), dbUp)
      ensures removed == if dbUp then Some((m, id) in old(db.rows)) else None
      ensures dbUp ==> Effects.Unheard(View(), (m, id))
    {
      var key := (m, id);
      removed := db.Delete(key, dbUp);
      if removed.Some? {
        jobs := jobs - {key};
        retryAfter := retryAfter - {key};
        inFlight := inFlight - {key};
        completed := completed - {key};
      }
    }

    method HandleComplete(job: Job, succeeded: bool, now: int, dbUp: bool)
      modifies this, db
      ensures View() == CompleteStep(old(View()), job, succeeded, now, dbUp)
    {
      var key := KeyOf(job);
      outstanding, clock := outstanding - multiset{job}, now;
      inFlight := inFlight - {key};
      if key !in jobs || jobs[key] != job {
        return;
      }
      if !succeeded {
        retryAfter := retryAfter[key := SaturatingAdd(now, ABSENT_RETRY_SECONDS)];
        return;
      }
      Discharge(key, now, dbUp);
    }

    /** Deletes a completed job, or leaves it to the deferred clean-up when the table fails. */
    method Discharge(key: Key, now: int, dbUp: bool)
      modifies this, db
      ensures var s := old(View());
        View() == if dbUp then s.(jobs := s.jobs - {key}, table := s.table - {key}, retryAfter := s.retryAfter - {key})
                  else s.(completed := s.completed + {key},
                          retryAfter := s.retryAfter[key := SaturatingAdd(now, ABSENT_RETRY_SECONDS)])
    {
      var removed := db.Delete(key, dbUp);
      if removed.Some? {
        jobs := jobs - {key};
        retryAfter := retryAfter - {key};
      } else {
        completed := completed + {key};
        retryAfter := retryAfter[key := SaturatingAdd(now, ABSENT_RETRY_SECONDS)];
      }
    }

    /** One entry of the clean-up list. */
    method CleanUp(key: Key, now: int, dbUp: bool)
      requires KeysMatch(jobs)
      modifies this, db
      ensures View() == CleanUpStep(old(View()), key, now, dbUp)
      ensures KeysMatch(jobs)
    {
      if key !in jobs {
        completed := completed - {key};
        retryAfter := retryAfter - {key};
        return;
      }
      var removed := db.Delete(KeyOf(jobs[key]), dbUp);
      if removed.Some? {
        jobs := jobs - {key};
        completed := completed - {key};
        retryAfter := retryAfter - {key};
      } else {
        retryAfter := retryAfter[key := SaturatingAdd(now, ABSENT_RETRY_SECONDS)];
      }
    }

    method FinishCompleted(now: int, dbDown: set<Key>)
      requires KeysMatch(jobs)
      modifies this, db
      ensures View() == FinishStep(old(View()), now, dbDown)
      ensures KeysMatch(jobs)
    {
      ghost var s := View();
      clock := now;
      var left := set k | k in completed && (k !in retryAfter || retryAfter[k] <= now);
      ghost var done: set<Key> := {};
      FinishNone(s, now, dbDown);
      while left != {}
        invariant done + left == Ready(s, now) && done !! left
        invariant KeysMatch(jobs)
        invariant View() == FinishSome(s, now, dbDown, done)
        decreases left
      {
        var key :| key in left;
        FinishOneMore(s, now, dbDown, done, key);
        CleanUp(key, now, key !in dbDown);
        left := left - {key};
        done := done + {key};
      }
      assert done == Ready(s, now);
    }

    /** One attempt to hand a job to the delivery queue. */
    method Offer(job: Job, now: int, refused: bool)
      modifies this
      ensures View() == OfferStep(old(View()), job, now, refused)
      ensures jobs == old(jobs)
    {
      if !refused {
        inFlight := inFlight + {KeyOf(job)};
        outstanding := outstanding + multiset{job};
      } else {
        retryAfter := retryAfter[KeyOf(job) := SaturatingAdd(now, ABSENT_RETRY_SECONDS)];
      }
    }

    method OfferNext(ghost s: State, order: seq<Job>, n: nat, now: int, refused: set<Key>)
      requires AreStored(s.jobs, order) && n < |order| && View() == DeliverSome(s, now, refused, KeysOf(order[..n]))
      modifies this
      ensures View() == DeliverSome(s, now, refused, KeysOf(order[..n + 1])) && jobs == old(jobs)
    {
      DeliverNext(s, now, refused, order, n);
      Offer(order[n], now, KeyOf(order[n]) in refused);
    }

    method OfferAll(order: seq<Job>, now: int, refused: set<Key>) returns (sent: seq<Job>)
      requires AreStored(jobs, order)
      modifies this
      ensures View() == DeliverSome(old(View()), now, refused, KeysOf(order))
      ensures sent == Taken(order, refused)
    {
      ghost var s := View();
      sent, clock := [], now;
      DeliverNone(s, now, refused);
      for n := 0 to |order|
        invariant jobs == s.jobs
        invariant View() == DeliverSome(s, now, refused, KeysOf(order[..n]))
        invariant sent == Taken(order[..n], refused)
      {
        TakenStep(order, n, refused);
        OfferNext(s, order, n, now, refused);
        if KeyOf(order[n]) !in refused {
          sent := sent + [order[n]];
        }
      }
      assert order[..|order|] == order;
    }

    /** Deliveries go out in order of due time, then of creation. */
    method DeliverDue(now: int, refused: set<Key>) returns (sent: seq<Job>)
      requires KeysMatch(jobs)
      modifies this
      ensures View() == DeliverStep(old(View()), now, refused)
      ensures forall job :: job in sent <==> job in Sent(old(View()), now, refused)
      ensures InOrder(sent)
    {
      var due := set k | k in jobs && k !in inFlight && k !in completed && jobs[k].dueAt <= now
                         && (k !in retryAfter || retryAfter[k] <= now);
      var order := SortDue(jobs, due);
      TakenKeepsOrder(order, refused);
      assert KeysOf(order) == Due(View(), now) by {
        forall k | k in due ensures k in KeysOf(order) {
          assert jobs[k] in order;
        }
      }
      sent := OfferAll(order, now, refused);
    }

    /** Seconds until the next job that is not in flight wants attention, at most a minute. */
    method NextWait(now: int) returns (wait: int)
      ensures IsWait(View(), now, wait)
    {
      wait := MAX_WAIT_SECONDS;
      var left := jobs.Keys - inFlight;
      while left != {}
        invariant left <= Idle(View()) && 0 <= wait <= MAX_WAIT_SECONDS
        invariant forall k :: k in Idle(View()) - left ==> wait == 0 || now + wait <= WakeTime(View(), k)
        invariant wait < MAX_WAIT_SECONDS ==> exists k :: k in Idle(View()) && WakeTime(View(), k) <= now + wait
        decreases left
      {
        var k :| k in left;
        left := left - {k};
        var wake := if k in retryAfter then retryAfter[k] else jobs[k].dueAt;
        assert wake == WakeTime(View(), k);
        if wake - now < wait {
          wait := if wake < now then 0 else wake - now;
        }
      }
    }

    /** One turn of the loop up to the point where it waits for the next request. */
    method Turn(nowFinish: int, dbDown: set<Key>, nowDeliver: int, refused: set<Key>, now: int)
      returns (sent: seq<Job>, wait: int)
      requires KeysMatch(jobs)
      modifies this, db
      ensures View() == Pass(old(View()), nowFinish, dbDown, nowDeliver, refused)
      ensures IsWait(View(), now, wait)
    {
      FinishCompleted(nowFinish, dbDown);
      sent := DeliverDue(nowDeliver, refused);
      wait := NextWait(now);
    }
  }

  method SortDue(jobs: map<Key, Job>, due: set<Key>) returns (order: seq<Job>)
    requires due <= jobs.Keys && KeysMatch(jobs)
    ensures forall job :: job in order <==> KeyOf(job) in due && jobs[KeyOf(job)] == job
    ensures InOrder(order)
  {
    order := [];
    var left := due;
    while left != {}
      invariant left <= due
      invariant forall job :: job in order <==> KeyOf(job) in due - left && jobs[KeyOf(job)] == job
      invariant InOrder(order)
      invariant forall i, k :: 0 <= i < |order| && k in left ==> NoLaterThan(order[i], jobs[k])
      decreases left
    {
      EarliestExists(jobs, left);
      var first :| first in left && forall k :: k in left ==> NoLaterThan(jobs[first], jobs[k]);
      order, left := order + [jobs[first]], left - {first};
    }
  }

  function KeysOf(order: seq<Job>): set<Key> {
    set job | job in order :: KeyOf(job)
  }

  lemma KeysOfGrows(order: seq<Job>, job: Job)
    ensures KeysOf(order + [job]) == KeysOf(order) + {KeyOf(job)}
  {
    assert forall other :: other in order + [job] <==> other in order || other == job;
  }

  lemma StoredStep(jobs: map<Key, Job>, order: seq<Job>, n: nat)
    requires AreStored(jobs, order) && n < |order|
    ensures KeyOf(order[n]) !in KeysOf(order[..n])
    ensures KeysOf(order[..n + 1]) == KeysOf(order[..n]) + {KeyOf(order[n])}
  {
    assert order[..n + 1] == order[..n] + [order[n]];
    KeysOfGrows(order[..n], order[n]);
  }

  lemma TakenStep(order: seq<Job>, n: nat, refused: set<Key>)
    requires n < |order|
    ensures Taken(order[..n + 1], refused)
         == Taken(order[..n], refused) + if KeyOf(order[n]) in refused then [] else [order[n]]
  {
    assert order[..n + 1] == order[..n] + [order[n]];
  }

  lemma DeliverNext(s: State, now: int, refused: set<Key>, order: seq<Job>, n: nat)
    requires AreStored(s.jobs, order) && n < |order|
    ensures DeliverSome(s, now, refused, KeysOf(order[..n + 1]))
         == OfferStep(DeliverSome(s, now, refused, KeysOf(order[..n])), order[n], now, KeyOf(order[n]) in refused)
  {
    StoredStep(s.jobs, order, n);
    DeliverOneMore(s, now, refused, KeysOf(order[..n]), order[n]);
  }

  ghost predicate AreStored(jobs: map<Key, Job>, order: seq<Job>) {
    && KeysMatch(jobs)
    && (forall i :: 0 <= i < |order| ==> KeyOf(order[i]) in jobs && jobs[KeyOf(order[i])] == order[i])
    && (forall i, j :: 0 <= i < j < |order| ==> order[i] != order[j])
  }

  /** The jobs of a list that the queue accepts. */
  function Taken(order: seq<Job>, refused: set<Key>): seq<Job> {
    if order == [] then []
    else
      var rest, last := order[..|order| - 1], order[|order| - 1];
      Taken(rest, refused) + if KeyOf(last) in refused then [] else [last]
  }

  /** A list of distinct jobs in delivery order. */
  ghost predicate InOrder(list: seq<Job>) {
    forall i, j :: 0 <= i < j < |list| ==> list[i] != list[j] && NoLaterThan(list[i], list[j])
  }

  lemma {:induction false} TakenKeepsOrder(order: seq<Job>, refused: set<Key>)
    requires InOrder(order)
    ensures forall job :: job in Taken(order, refused) <==> job in order && KeyOf(job) !in refused
    ensures InOrder(Taken(order, refused))
  {
    if order != [] {
      var rest, last := order[..|order| - 1], order[|order| - 1];
      TakenKeepsOrder(rest, refused);
      assert order == rest + [last];
      forall job | job in rest ensures job != last && NoLaterThan(job, last) {
        var i :| 0 <= i < |rest| && rest[i] == job;
        assert order[i] == job && order[|rest|] == last;
      }
      var before := Taken(rest, refused);
      assert forall i :: 0 <= i < |before| ==> before[i] in rest;
    }
  }

  ghost function OfferStep(s: State, job: Job, now: int, refused: bool): State {
    if refused then s.(retryAfter := s.retryAfter[KeyOf(job) := SaturatingAdd(now, ABSENT_RETRY_SECONDS)])
    else s.(inFlight := s.inFlight + {KeyOf(job)}, outstanding := s.outstanding + multiset{job})
  }

  lemma {:induction false} EarliestExists(jobs: map<Key, Job>, keys: set<Key>)
    requires keys != {} && keys <= jobs.Keys
    ensures exists k :: k in keys && forall other :: other in keys ==> NoLaterThan(jobs[k], jobs[other])
  {
    var k :| k in keys;
    if keys != {k} {
      EarliestExists(jobs, keys - {k});
      var first :| first in keys - {k} && forall other :: other in keys - {k} ==> NoLaterThan(jobs[first], jobs[other]);
      var best := if NoLaterThan(jobs[k], jobs[first]) then k else first;
      assert forall other :: other in keys ==> other == k || other in keys - {k};
      assert forall other :: other in keys ==> NoLaterThan(jobs[best], jobs[other]);
    }
  }

  lemma DeliverNone(s: State, now: int, refused: set<Key>)
    ensures DeliverSome(s, now, refused, {}) == s.(clock := now)
    ensures JobsAt(s, {} - refused) == {}
  {
  }

  lemma DeliverOneMore(s: State, now: int, refused: set<Key>, done: set<Key>, job: Job)
    requires KeysMatch(s.jobs) && KeyOf(job) in s.jobs && s.jobs[KeyOf(job)] == job && KeyOf(job) !in done
    ensures DeliverSome(s, now, refused, done + {KeyOf(job)})
         == OfferStep(DeliverSome(s, now, refused, done), job, now, KeyOf(job) in refused)
  {
    if KeyOf(job) in refused {
      RefusedOneMore(s, now, refused, done, job);
    } else {
      SentOneMore(s, now, refused, done, job);
    }
  }

  lemma RefusedOneMore(s: State, now: int, refused: set<Key>, done: set<Key>, job: Job)
    requires KeyOf(job) in refused
    ensures DeliverSome(s, now, refused, done + {KeyOf(job)})
      == OfferStep(DeliverSome(s, now, refused, done), job, now, true)
  {
    assert done + {KeyOf(job)} - refused == done - refused;
    assert (done + {KeyOf(job)}) * refused == done * refused + {KeyOf(job)};
  }

  lemma SentOneMore(s: State, now: int, refused: set<Key>, done: set<Key>, job: Job)
    requires KeysMatch(s.jobs) && KeyOf(job) in s.jobs && s.jobs[KeyOf(job)] == job && KeyOf(job) !in done
    requires KeyOf(job) !in refused
    ensures DeliverSome(s, now, refused, done + {KeyOf(job)})
      == OfferStep(DeliverSome(s, now, refused, done), job, now, false)
  {
    assert done + {KeyOf(job)} - refused == (done - refused) + {KeyOf(job)};
    assert (done + {KeyOf(job)}) * refused == done * refused;
    OneMoreJob(s, done - refused, job);
  }

  lemma OneMoreJob(s: State, keys: set<Key>, job: Job)
    requires KeysMatch(s.jobs) && KeyOf(job) in s.jobs && s.jobs[KeyOf(job)] == job && KeyOf(job) !in keys
    ensures multiset(JobsAt(s, keys + {KeyOf(job)})) == multiset(JobsAt(s, keys)) + multiset{job}
  {
    assert job !in JobsAt(s, keys);
    assert JobsAt(s, keys + {KeyOf(job)}) == JobsAt(s, keys) + {job};
  }

  ghost function CleanUpStep(s: State, key: Key, now: int, dbUp: bool): State {
    if key !in s.jobs then s.(completed := s.completed - {key}, retryAfter := s.retryAfter - {key})
    else if !dbUp then s.(retryAfter := s.retryAfter[key := SaturatingAdd(now, ABSENT_RETRY_SECONDS)])
    else s.(jobs := s.jobs - {key}, table := s.table - {key}, completed := s.completed - {key},
            retryAfter := s.retryAfter - {key})
  }

  lemma FinishNone(s: State, now: int, dbDown: set<Key>)
    ensures FinishSome(s, now, dbDown, {}) == s.(clock := now)
  {
  }

  lemma FinishOneMore(s: State, now: int, dbDown: set<Key>, done: set<Key>, k: Key)
    requires k !in done
    ensures FinishSome(s, now, dbDown, done + {k})
         == CleanUpStep(FinishSome(s, now, dbDown, done), k, now, k !in dbDown)
  {
    if k in s.jobs && k in dbDown {
      FinishOneStuck(s, now, dbDown, done, k);
    } else {
      FinishOneGone(s, now, dbDown, done, k);
    }
  }

  lemma FinishOneStuck(s: State, now: int, dbDown: set<Key>, done: set<Key>, k: Key)
    requires k !in done && k in s.jobs && k in dbDown
    ensures var d, d' := FinishSome(s, now, dbDown, done), FinishSome(s, now, dbDown, done + {k});
      k in d.jobs && d' == d.(retryAfter := d.retryAfter[k := SaturatingAdd(now, ABSENT_RETRY_SECONDS)])
  {
    var stuck := done * s.jobs.Keys * dbDown;
    assert (done + {k}) * s.jobs.Keys * dbDown == stuck + {k};
    assert (done + {k}) - (stuck + {k}) == done - stuck;
  }

  lemma FinishOneGone(s: State, now: int, dbDown: set<Key>, done: set<Key>, k: Key)
    requires k !in done && (k !in s.jobs || k !in dbDown)
    ensures var d, d' := FinishSome(s, now, dbDown, done), FinishSome(s, now, dbDown, done + {k});
      && (k in d.jobs <==> k in s.jobs)
      && d' == d.(jobs := d.jobs - {k}, table := if k in s.jobs then d.table - {k} else d.table,
                  completed := d.completed - {k}, retryAfter := d.retryAfter - {k})
  {
    var stuck := done * s.jobs.Keys * dbDown;
    assert (done + {k}) * s.jobs.Keys * dbDown == stuck;
    assert (done + {k}) - stuck == (done - stuck) + {k};
    assert ((done - stuck) + {k}) * s.jobs.Keys
        == if k in s.jobs then (done - stuck) * s.jobs.Keys + {k} else (done - stuck) * s.jobs.Keys;
  }
}
