/** The economy's key-value rows as one transaction changes them. */
module Economy {
  import opened Prelude
  import opened Text
  import opened EconomyModel
  import Runs = EconomyRuns
  import StableSort

  ghost predicate InTimeOrder(kv: Kv, keys: seq<string>) {
    forall i, j :: 0 <= i < j < |keys| ==> Earlier(kv, keys[i], keys[j])
  }

  ghost predicate InKeyOrder(keys: seq<string>) {
    forall i, j :: 0 <= i < j < |keys| ==> Less(keys[i], keys[j])
  }

  /** A stable sort by time of rows listed in key order. */
  method SortByTime(kv: Kv, keys: seq<string>) returns (order: seq<string>)
    requires InKeyOrder(keys)
    ensures Elements(order) == Elements(keys) && |order| == |keys|
    ensures InTimeOrder(kv, order)
  {
    ghost var before := (a, b) => Earlier(kv, a, b);
    forall a, b, c | before(a, b) && before(b, c) ensures before(a, c) {
      Runs.EarlierTransitive(kv, a, b, c);
    }
    order := StableSort.Sort(keys, (a, b) => At(kv, a) < At(kv, b), before);
    assert |order| == |multiset(order)| == |keys|;
    forall k ensures k in order <==> k in keys {
      assert k in multiset(order) <==> k in multiset(keys);
    }
    forall i, j | 0 <= i < j < |order| ensures Earlier(kv, order[i], order[j]) {
      assert before(order[i], order[j]);
    }
  }

  /** In a time-ordered listing the number of later rows is the number of places that follow. */
  lemma LaterByPosition(kv: Kv, order: seq<string>, i: nat)
    requires InTimeOrder(kv, order) && i < |order|
    ensures |Later(kv, Elements(order), order[i])| == |order| - 1 - i
  {
    forall a, b | 0 <= a < b < |order| ensures order[a] != order[b] {
      assert Earlier(kv, order[a], order[b]);
      Runs.EarlierIrreflexive(kv, order[a]);
    }
    forall o ensures o in Later(kv, Elements(order), order[i]) <==> o in Elements(order[i + 1..]) {
      if o in Later(kv, Elements(order), order[i]) {
        var j :| 0 <= j < |order| && order[j] == o;
        Runs.EarlierIrreflexive(kv, order[i]);
        assert j < i ==> Earlier(kv, order[j], order[i]);
        if j < i {
          Runs.EarlierTransitive(kv, order[i], order[j], order[i]);
        }
        assert o == order[i + 1..][j - i - 1];
      }
      if o in Elements(order[i + 1..]) {
        var j :| 0 <= j < |order[i + 1..]| && order[i + 1..][j] == o;
        assert order[i + 1 + j] == o;
      }
    }
    assert Later(kv, Elements(order), order[i]) == Elements(order[i + 1..]);
    var tail := order[i + 1..];
    forall a, b | 0 <= a < b < |tail| ensures tail[a] != tail[b] {
      assert tail[a] == order[i + 1 + a] && tail[b] == order[i + 1 + b];
    }
    StableSort.DistinctCount(tail);
    assert Elements(tail) == set x | x in tail;
  }

  /** Dropping the front of the time-ordered listing down to the last 200 is what `Prune` says. */
  lemma FrontIsStale(kv: Kv, prefix: string, order: seq<string>)
    requires InTimeOrder(kv, order) && Elements(order) == Listed(kv, prefix) && |order| > LEDGER_KEPT
    ensures kv - Elements(order[..|order| - LEDGER_KEPT]) == Prune(kv, prefix)
  {
    var front := order[..|order| - LEDGER_KEPT];
    forall k ensures k in Elements(front) <==> IsStale(kv, prefix, k) {
      if k in Elements(front) {
        var i :| 0 <= i < |front| && front[i] == k;
        LaterByPosition(kv, order, i);
        assert order[i] == k && k in Elements(order);
      }
      if IsStale(kv, prefix, k) {
        assert k in Elements(order);
        var i :| 0 <= i < |order| && order[i] == k;
        LaterByPosition(kv, order, i);
        assert front[i] == k;
      }
    }
  }

  class EconomyStore {
    var kv: Kv

    /** Rows found by a prefix scan, in key order. */
    method ListPrefix(prefix: string) returns (keys: seq<string>)
      ensures Elements(keys) == Listed(kv, prefix) && |keys| == |Listed(kv, prefix)| && InKeyOrder(keys)
    {
      keys := InOrder(Listed(kv, prefix));
      forall i, j | 0 <= i < j < |keys| ensures keys[i] != keys[j] {
        LessIrreflexive(keys[i]);
      }
      assert Elements(keys) == Listed(kv, prefix);
      StableSort.DistinctCount(keys);
    }

    method PruneLedger(server: string, profileId: string)
      modifies this
      ensures kv == Prune(old(kv), LedgerPrefix(server, profileId))
    {
      var prefix := LedgerPrefix(server, profileId);
      var keys := ListPrefix(prefix);
      if |keys| <= LEDGER_KEPT {
        Runs.NothingStale(kv, prefix);
        return;
      }
      var order := SortByTime(kv, keys);
      FrontIsStale(kv, prefix, order);
      for n := 0 to |order| - LEDGER_KEPT
        invariant kv == old(kv) - Elements(order[..n])
      {
        assert order[..n + 1] == order[..n] + [order[n]];
        assert Elements(order[..n + 1]) == Elements(order[..n]) + {order[n]};
        kv := kv - {order[n]};
      }
    }

    /** The new balance, the new ledger row and the pruning. */
    method Write(r: Request, spend: bool, next: U64, at: int)
      modifies this
      ensures kv == Prune(Written(old(kv), r, spend, next, at), LedgerPrefix(r.server, r.profileId))
    {
      kv := kv[BalanceKey(r.server, r.profileId) := Balance(next)];
      kv := kv[LedgerKey(r.server, r.profileId, r.eventId) := Ledger(r.amount, spend, r.reason, Some(at))];
      PruneLedger(r.server, r.profileId);
    }

    /** One award or spend, and what its answer says of the tables. */
    method Change(known: bool, r: Request, spend: bool, at: int) returns (response: Result<Response, ChangeError>)
      modifies this
      ensures response == ResponseTo(Judge(old(kv), known, r, spend))
      ensures kv == ChangeStep(old(kv), known, r, spend, at)
      ensures Runs.Answers(old(kv), kv, known, r, spend, at, response)
    {
      Runs.AnswerMeans(kv, known, r, spend, at);
      response := Transact(known, r, spend, at);
    }

    /** The transaction; a refusal rolls back. */
    method Transact(known: bool, r: Request, spend: bool, at: int) returns (response: Result<Response, ChangeError>)
      modifies this
      ensures response == ResponseTo(Judge(old(kv), known, r, spend))
      ensures kv == ChangeStep(old(kv), known, r, spend, at)
    {
      if !ValidRequest(r) {
        return Err(InvalidRequest);
      }
      if !known {
        return Err(UnknownProfile);
      }
      var balance := BalanceOf(kv, r.server, r.profileId);
      if LedgerKey(r.server, r.profileId, r.eventId) in kv {
        return if balance.None? then Err(MalformedBalance) else Ok(Response(balance.value, true, true));
      }
      if balance.None? {
        return Err(MalformedBalance);
      }
      if spend && balance.value < r.amount {
        return Ok(Response(balance.value, false, false));
      }
      if !spend && balance.value + r.amount > U64_MAX {
        return Err(BalanceOverflow);
      }
      var next: U64 := if spend then balance.value - r.amount else balance.value + r.amount;
      Write(r, spend, next, at);
      return Ok(Response(next, true, false));
    }
  }
}
