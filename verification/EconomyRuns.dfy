/** What the economy promises over runs: conserved balances, a bounded ledger and a
    replay window. */
module EconomyRuns {
  import opened Prelude
  import opened Text
  import opened EconomyModel
  import opened EconomyKeys

  /** Every request for an existing profile carries an id without colons, as the ids that the host issues. */
  ghost predicate AllIssued(es: seq<Event>) {
    forall i :: 0 <= i < |es| && es[i].known ==> ColonFree(es[i].r.profileId)
  }

  /** The request is this person's own, or its network's label does not nest with this person's. */
  predicate KeepsApart(e: Event, server: string, profileId: string) {
    e.known ==>
      && ColonFree(e.r.profileId)
      && (|| IsFor(e, server, profileId)
          || (!Nested(server, profileId, e.r.server) && !Nested(e.r.server, e.r.profileId, server)))
  }

  ghost predicate AllApart(es: seq<Event>, server: string, profileId: string) {
    forall i :: 0 <= i < |es| ==> KeepsApart(es[i], server, profileId)
  }

  // ----- Conservation -------------------------------------------------------------------------

  /** Balance rows hold numbers. */
  ghost predicate WellFormed(kv: Kv) {
    forall s, p :: BalanceKey(s, p) in kv ==> kv[BalanceKey(s, p)].Balance?
  }

  function Gain(kv: Kv, e: Event, server: string, profileId: string): int {
    if !Applies(kv, e) || !IsFor(e, server, profileId) then 0
    else if e.spend then 0 - e.r.amount
    else e.r.amount
  }

  /** Applied awards of one person minus applied spends. */
  function Net(kv: Kv, es: seq<Event>, server: string, profileId: string): int
    decreases |es|
  {
    if es == [] then 0 else Gain(kv, es[0], server, profileId) + Net(Step(kv, es[0]), es[1..], server, profileId)
  }

  lemma WrittenBalances(kv: Kv, r: Request, spend: bool, next: U64, at: int, s: string, p: string)
    ensures var kv', k := Prune(Written(kv, r, spend, next, at), LedgerPrefix(r.server, r.profileId)), BalanceKey(s, p);
      if k == BalanceKey(r.server, r.profileId) then k in kv' && kv'[k] == Balance(next)
      else (k in kv' <==> k in kv) && (k in kv' ==> kv'[k] == kv[k])
  {
    BalanceIsNoLedgerRow(r.server, r.profileId, s, p);
    BalanceIsNoLedgerRow(r.server, r.profileId, r.server, r.profileId);
    assert LedgerPrefix(r.server, r.profileId) <= LedgerKey(r.server, r.profileId, r.eventId);
  }

  // ----- The answer to a change ---------------------------------------------------------------

  /** A place, an amount, an event id of at most 256 bytes without spaces or control characters, and a reason of at
      most 128 bytes on one line. */
  ghost predicate IsSound(r: Request) {
    && (exists i :: 0 <= i < |r.server| && !IsSpace(r.server[i]))
    && (exists i :: 0 <= i < |r.profileId| && !IsSpace(r.profileId[i]))
    && r.amount > 0 && r.eventId != "" && Utf8Len(r.eventId) <= 256 && Utf8Len(r.reason) <= 128
    && (forall c :: c in r.eventId ==> !IsControl(c) && !IsSpace(c))
    && '\r' !in r.reason && '\n' !in r.reason
  }

  /** The stored balance is a number, absent meaning zero. */
  predicate HasBalance(kv: Kv, server: string, profileId: string, amount: nat) {
    var k := BalanceKey(server, profileId);
    if k in kv then kv[k].Balance? && kv[k].amount == amount else amount == 0
  }

  predicate IsMalformed(kv: Kv, server: string, profileId: string) {
    BalanceKey(server, profileId) in kv && !kv[BalanceKey(server, profileId)].Balance?
  }

  /** What a change does with a balance of `was`, read from the tables before and after it. */
  ghost predicate AnswersFrom(kv: Kv, kv': Kv, r: Request, spend: bool, was: nat, a: Response) {
    var isKnown := LedgerKey(r.server, r.profileId, r.eventId) in kv;
    && HasBalance(kv', r.server, r.profileId, a.balance)
    && (a.duplicate <==> isKnown)
    && (!a.applied <==> !isKnown && spend && was < r.amount)
    && (if a.applied && !a.duplicate then a.balance == (if spend then was - r.amount else was + r.amount)
        else kv' == kv && a.balance == was)
  }

  /** What the caller is told, against the tables before and after the change. */
  ghost predicate Answers(kv: Kv, kv': Kv, known: bool, r: Request, spend: bool, at: int,
                          response: Result<Response, ChangeError>)
  {
    var row := LedgerKey(r.server, r.profileId, r.eventId);
    && (response == Err(InvalidRequest) <==> !IsSound(r))
    && (response == Err(UnknownProfile) <==> IsSound(r) && !known)
    && (response == Err(MalformedBalance) <==> IsSound(r) && known && IsMalformed(kv, r.server, r.profileId))
    && (response == Err(BalanceOverflow) <==>
          && IsSound(r) && known && row !in kv && !spend
          && exists was: nat :: HasBalance(kv, r.server, r.profileId, was) && was + r.amount > U64_MAX)
    && (response.Err? ==> kv' == kv)
    && (response.Ok? ==> exists was ::
          HasBalance(kv, r.server, r.profileId, was) && AnswersFrom(kv, kv', r, spend, was, response.value))
    && (forall k :: k in kv' && (k !in kv || kv'[k] != kv[k]) ==>
          k == BalanceKey(r.server, r.profileId) || (k == row && kv'[k] == Ledger(r.amount, spend, r.reason, Some(at))))
  }

  lemma SoundIsValid(r: Request)
    ensures ValidRequest(r) <==> IsSound(r)
  {
    if IsSound(r) {
      assert r.eventId[0] in r.eventId;
      assert !IsSpace(r.eventId[0]);
    }
  }

  lemma FreshAnswers(kv: Kv, r: Request, spend: bool, at: int, next: U64)
    requires Judge(kv, true, r, spend) == Fresh(next)
    ensures AnswersFrom(kv, ChangeStep(kv, true, r, spend, at), r, spend,
                        BalanceOf(kv, r.server, r.profileId).value, Response(next, true, false))
  {
    WrittenBalances(kv, r, spend, next, at, r.server, r.profileId);
  }

  lemma OnlyTwoRowsChange(kv: Kv, known: bool, r: Request, spend: bool, at: int)
    ensures var kv' := ChangeStep(kv, known, r, spend, at);
      forall k :: k in kv' && (k !in kv || kv'[k] != kv[k]) ==>
        || k == BalanceKey(r.server, r.profileId)
        || (k == LedgerKey(r.server, r.profileId, r.eventId) && kv'[k] == Ledger(r.amount, spend, r.reason, Some(at)))
  {
  }

  /** An answer reports the balance left behind. A change is a duplicate exactly if its ledger row is there, does not
      apply exactly if it is a new spend that the balance does not cover, and otherwise moves the balance by its
      amount; every answer but that last one leaves the table as it was. */
  lemma AnswerMeans(kv: Kv, known: bool, r: Request, spend: bool, at: int)
    ensures Answers(kv, ChangeStep(kv, known, r, spend, at), known, r, spend, at,
                    ResponseTo(Judge(kv, known, r, spend)))
  {
    SoundIsValid(r);
    OnlyTwoRowsChange(kv, known, r, spend, at);
    var balance := BalanceOf(kv, r.server, r.profileId);
    if balance.Some? {
      assert HasBalance(kv, r.server, r.profileId, balance.value);
    }
    match Judge(kv, known, r, spend)
    case Fresh(next) => FreshAnswers(kv, r, spend, at, next);
    case Replay(was) => assert AnswersFrom(kv, kv, r, spend, was, Response(was, true, true));
    case TooPoor(was) => assert AnswersFrom(kv, kv, r, spend, was, Response(was, false, false));
    case Refused(_) =>
  }

  // ----- Conservation over runs ---------------------------------------------------------------

  lemma StepKeepsWellFormed(kv: Kv, e: Event)
    requires WellFormed(kv)
    ensures WellFormed(Step(kv, e))
  {
    if Applies(kv, e) {
      forall s, p | BalanceKey(s, p) in Step(kv, e) ensures Step(kv, e)[BalanceKey(s, p)].Balance? {
        WrittenBalances(kv, e.r, e.spend, Judge(kv, e.known, e.r, e.spend).next, e.at, s, p);
      }
    }
  }

  lemma StepConserves(kv: Kv, e: Event, server: string, profileId: string)
    requires WellFormed(kv) && ColonFree(profileId) && (e.known ==> ColonFree(e.r.profileId))
    ensures WellFormed(Step(kv, e))
    ensures BalanceOf(kv, server, profileId).Some? && BalanceOf(Step(kv, e), server, profileId).Some?
    ensures BalanceOf(Step(kv, e), server, profileId).value
         == BalanceOf(kv, server, profileId).value + Gain(kv, e, server, profileId)
  {
    StepKeepsWellFormed(kv, e);
    if Applies(kv, e) {
      WrittenBalances(kv, e.r, e.spend, Judge(kv, e.known, e.r, e.spend).next, e.at, server, profileId);
      if BalanceKey(e.r.server, e.r.profileId) == BalanceKey(server, profileId) {
        BalanceKeysApart(e.r.server, e.r.profileId, server, profileId);
      }
    }
  }

  /** Over every run a balance is what it was plus the applied awards minus the
      applied spends; being an unsigned 64-bit number it never under- or overflows. */
  lemma {:induction false} BalanceIsConserved(kv: Kv, es: seq<Event>, server: string, profileId: string)
    requires WellFormed(kv) && ColonFree(profileId) && AllIssued(es)
    ensures WellFormed(Exec(kv, es))
    ensures BalanceOf(kv, server, profileId).Some? && BalanceOf(Exec(kv, es), server, profileId).Some?
    ensures BalanceOf(Exec(kv, es), server, profileId).value
         == BalanceOf(kv, server, profileId).value + Net(kv, es, server, profileId)
    decreases |es|
  {
    if es != [] {
      StepConserves(kv, es[0], server, profileId);
      BalanceIsConserved(Step(kv, es[0]), es[1..], server, profileId);
    }
  }

  // ----- What a prefix scan sees --------------------------------------------------------------

  lemma {:induction false} LessAfterPrefix(p: string, a: string, b: string)
    ensures Less(p + a, p + b) <==> Less(a, b)
  {
    if p == [] {
      assert p + a == a && p + b == b;
    } else {
      assert (p + a)[1..] == p[1..] + a && (p + b)[1..] == p[1..] + b;
      LessAfterPrefix(p[1..], a, b);
    }
  }

  /** A row whose event id starts with U+10FFFF lies outside its own prefix scan. */
  predicate Escapes(prefix: string, k: string) {
    prefix <= k && |k| > |prefix| && k[|prefix|] == LAST_CHAR
  }

  /** The scan sees exactly the keys with the prefix, except those that escape it. */
  lemma ScanSees(kv: Kv, prefix: string, k: string)
    ensures k in Listed(kv, prefix) <==> k in kv && prefix <= k && !Escapes(prefix, k)
  {
    if prefix <= k {
      var rest := k[|prefix|..];
      assert k == prefix + rest;
      LessAfterPrefix(prefix, rest, [LAST_CHAR]);
      LessAfterPrefix(prefix, rest, []);
      assert prefix + [] == prefix;
      assert rest != [] && rest[0] != LAST_CHAR ==> rest[0] as int < LAST_CHAR as int;
    }
  }

  // ----- Pruning keeps the latest -------------------------------------------------------------

  lemma EarlierTransitive(kv: Kv, a: string, b: string, c: string)
    requires Earlier(kv, a, b) && Earlier(kv, b, c)
    ensures Earlier(kv, a, c)
  {
    if At(kv, a) == At(kv, b) && At(kv, b) == At(kv, c) {
      LessTransitive(a, b, c);
    }
  }

  lemma EarlierIrreflexive(kv: Kv, a: string)
    ensures !Earlier(kv, a, a)
  {
    LessIrreflexive(a);
  }

  lemma {:induction false} EarliestExists(kv: Kv, keys: set<string>)
    requires keys != {}
    ensures exists a :: a in keys && forall b :: b in keys ==> a == b || Earlier(kv, a, b)
  {
    var x :| x in keys;
    if keys != {x} {
      EarliestExists(kv, keys - {x});
      var first :| first in keys - {x} && forall b :: b in keys - {x} ==> first == b || Earlier(kv, first, b);
      LessTotal(x, first);
      var best := if Earlier(kv, x, first) then x else first;
      forall b | b in keys ensures best == b || Earlier(kv, best, b) {
        if b != x && best == x && b != first {
          EarlierTransitive(kv, x, first, b);
        }
      }
    }
  }

  function Recent(kv: Kv, keys: set<string>, n: nat): set<string> {
    set k | k in keys && |Later(kv, keys, k)| < n
  }

  lemma FewAreLater(kv: Kv, keys: set<string>, k: string)
    requires k in keys
    ensures |Later(kv, keys, k)| < |keys|
  {
    EarlierIrreflexive(kv, k);
    assert Later(kv, keys, k) <= keys - {k};
    SubsetIsSmaller(Later(kv, keys, k), keys - {k});
  }

  /** Keeping the rows with fewer than `n` later ones keeps exactly `n` of them, or all. */
  lemma {:induction false} RecentCount(kv: Kv, keys: set<string>, n: nat)
    ensures |Recent(kv, keys, n)| == Min(n, |keys|)
    decreases |keys|
  {
    if |keys| <= n {
      forall k | k in keys ensures k in Recent(kv, keys, n) {
        FewAreLater(kv, keys, k);
      }
      assert Recent(kv, keys, n) == keys;
    } else {
      EarliestExists(kv, keys);
      var first :| first in keys && forall b :: b in keys ==> first == b || Earlier(kv, first, b);
      var rest := keys - {first};
      EarlierIrreflexive(kv, first);
      assert Later(kv, keys, first) == rest;
      forall k | k in rest ensures Later(kv, keys, k) == Later(kv, rest, k) {
        if Earlier(kv, k, first) {
          EarlierTransitive(kv, first, k, first);
        }
      }
      assert Recent(kv, keys, n) == Recent(kv, rest, n);
      RecentCount(kv, rest, n);
    }
  }

  lemma PruneMeans(kv: Kv, prefix: string)
    ensures Listed(Prune(kv, prefix), prefix) == Recent(kv, Listed(kv, prefix), LEDGER_KEPT)
    ensures |Listed(Prune(kv, prefix), prefix)| == Min(LEDGER_KEPT, |Listed(kv, prefix)|)
  {
    RecentCount(kv, Listed(kv, prefix), LEDGER_KEPT);
  }

  // ----- The ledger's size --------------------------------------------------------------------

  function Owned(kv: Kv, prefix: string): set<string> {
    set k | k in kv && prefix <= k
  }

  function Escaped(kv: Kv, prefix: string): set<string> {
    set k | k in kv && Escapes(prefix, k)
  }

  lemma OwnedSplits(kv: Kv, prefix: string)
    ensures |Owned(kv, prefix)| == |Listed(kv, prefix)| + |Escaped(kv, prefix)|
  {
    forall k ensures k in Owned(kv, prefix) <==> k in Listed(kv, prefix) + Escaped(kv, prefix) {
      ScanSees(kv, prefix, k);
    }
    forall k | k in Listed(kv, prefix) ensures k !in Escaped(kv, prefix) {
      ScanSees(kv, prefix, k);
    }
    assert Owned(kv, prefix) == Listed(kv, prefix) + Escaped(kv, prefix);
  }

  /** The exact size of a person's ledger after an applied change: the scanned rows, up to 200 of them, and
      every row that escapes the scan. */
  lemma LedgerSizeAfterChange(kv: Kv, e: Event)
    requires Applies(kv, e)
    ensures var prefix := LedgerPrefix(e.r.server, e.r.profileId);
      var kv', written := Step(kv, e), Written(kv, e.r, e.spend, Judge(kv, e.known, e.r, e.spend).next, e.at);
      && |Listed(kv', prefix)| == Min(LEDGER_KEPT, |Listed(written, prefix)|)
      && Escaped(kv', prefix) == Escaped(written, prefix)
      && |Owned(kv', prefix)| == Min(LEDGER_KEPT, |Listed(written, prefix)|) + |Escaped(written, prefix)|
  {
    var prefix := LedgerPrefix(e.r.server, e.r.profileId);
    var kv', written := Step(kv, e), Written(kv, e.r, e.spend, Judge(kv, e.known, e.r, e.spend).next, e.at);
    PruneMeans(written, prefix);
    OwnedSplits(kv', prefix);
    forall k ensures k in Escaped(kv', prefix) <==> k in Escaped(written, prefix) {
      ScanSees(written, prefix, k);
    }
  }

  predicate PlainEvent(e: Event) {
    !(e.r.eventId != "" && e.r.eventId[0] == LAST_CHAR)
  }

  lemma {:induction false} LedgerStaysBounded(kv: Kv, es: seq<Event>, server: string, profileId: string)
    requires ColonFree(profileId) && AllApart(es, server, profileId) && forall i :: 0 <= i < |es| ==> PlainEvent(es[i])
    requires Escaped(kv, LedgerPrefix(server, profileId)) == {}
    requires |Owned(kv, LedgerPrefix(server, profileId))| <= LEDGER_KEPT
    ensures Escaped(Exec(kv, es), LedgerPrefix(server, profileId)) == {}
    ensures |Owned(Exec(kv, es), LedgerPrefix(server, profileId))| <= LEDGER_KEPT
    decreases |es|
  {
    if es != [] {
      PlainStepStaysBounded(kv, es[0], server, profileId);
      LedgerStaysBounded(Step(kv, es[0]), es[1..], server, profileId);
    }
  }

  lemma PlainStepStaysBounded(kv: Kv, e: Event, server: string, profileId: string)
    requires ColonFree(profileId) && KeepsApart(e, server, profileId) && PlainEvent(e)
    requires Escaped(kv, LedgerPrefix(server, profileId)) == {}
    requires |Owned(kv, LedgerPrefix(server, profileId))| <= LEDGER_KEPT
    ensures Escaped(Step(kv, e), LedgerPrefix(server, profileId)) == {}
    ensures |Owned(Step(kv, e), LedgerPrefix(server, profileId))| <= LEDGER_KEPT
  {
    var prefix := LedgerPrefix(server, profileId);
    if Applies(kv, e) {
      var written := Written(kv, e.r, e.spend, Judge(kv, e.known, e.r, e.spend).next, e.at);
      BalanceIsNoLedgerRow(server, profileId, e.r.server, e.r.profileId);
      if IsFor(e, server, profileId) {
        NewKeyEscapesIff(e.r);
        assert Escaped(written, prefix) == {};
        LedgerSizeAfterChange(kv, e);
      } else {
        OtherRowsStay(kv, e, server, profileId);
        assert Owned(Step(kv, e), prefix) == Owned(kv, prefix);
        assert Escaped(Step(kv, e), prefix) == Escaped(kv, prefix);
      }
    }
  }

  lemma NewKeyEscapesIff(r: Request)
    ensures Escapes(LedgerPrefix(r.server, r.profileId), LedgerKey(r.server, r.profileId, r.eventId))
      <==> r.eventId != "" && r.eventId[0] == LAST_CHAR
  {
    var prefix, key := LedgerPrefix(r.server, r.profileId), LedgerKey(r.server, r.profileId, r.eventId);
    assert prefix <= key && |key| == |prefix| + |r.eventId|;
    assert r.eventId != "" ==> key[|prefix|] == r.eventId[0];
  }

  /** Another person's request leaves this person's ledger alone. */
  lemma OtherRowsStay(kv: Kv, e: Event, server: string, profileId: string)
    requires ColonFree(profileId) && KeepsApart(e, server, profileId)
    requires Applies(kv, e) ==> !IsFor(e, server, profileId)
    ensures forall k :: LedgerPrefix(server, profileId) <= k ==>
      (k in Step(kv, e) <==> k in kv) && (k in kv ==> Step(kv, e)[k] == kv[k])
  {
    if Applies(kv, e) {
      forall k | LedgerPrefix(server, profileId) <= k
        ensures (k in Step(kv, e) <==> k in kv) && (k in kv ==> Step(kv, e)[k] == kv[k])
      {
        BalanceIsNoLedgerRow(server, profileId, e.r.server, e.r.profileId);
        if k == LedgerKey(e.r.server, e.r.profileId, e.r.eventId) {
          LedgerKeysApart(server, profileId, e.r.server, e.r.profileId, e.r.eventId);
        }
        if LedgerPrefix(e.r.server, e.r.profileId) <= k {
          var eventId := k[|LedgerPrefix(server, profileId)|..];
          assert k == LedgerKey(server, profileId, eventId);
          LedgerKeysApart(e.r.server, e.r.profileId, server, profileId, eventId);
        }
      }
    }
  }

  // ----- Rows that are never pruned -----------------------------------------------------------

  lemma {:induction false} EscapedRowsStay(kv: Kv, es: seq<Event>, server: string, profileId: string, k: string)
    requires ColonFree(profileId) && AllApart(es, server, profileId)
    requires k in Escaped(kv, LedgerPrefix(server, profileId))
    ensures k in Escaped(Exec(kv, es), LedgerPrefix(server, profileId))
    decreases |es|
  {
    if es != [] {
      var prefix := LedgerPrefix(server, profileId);
      if Applies(kv, es[0]) && IsFor(es[0], server, profileId) {
        ScanSees(Written(kv, es[0].r, es[0].spend, Judge(kv, es[0].known, es[0].r, es[0].spend).next, es[0].at),
          prefix, k);
      } else {
        OtherRowsStay(kv, es[0], server, profileId);
      }
      EscapedRowsStay(Step(kv, es[0]), es[1..], server, profileId, k);
    }
  }

  function Repeat(c: char, n: nat): string {
    seq(n, _ => c)
  }

  function PileId(c: char, n: nat): string {
    [c] + Repeat('a', n)
  }

  function PileKey(c: char, n: nat): string {
    LedgerKey("net", "alice", PileId(c, n))
  }

  function PileAward(c: char, n: nat): Event {
    Event(true, Request("net", "alice", 1, PileId(c, n), ""), false, 5)
  }

  /** `n` awards of one brass each within one second, with ids that all start with `c`. */
  function PileAwards(c: char, n: nat): seq<Event> {
    if n == 0 then [] else PileAwards(c, n - 1) + [PileAward(c, n - 1)]
  }

  lemma {:induction false} ExecSplits(kv: Kv, es: seq<Event>, fs: seq<Event>)
    ensures Exec(kv, es + fs) == Exec(Exec(kv, es), fs)
    decreases |es|
  {
    if es == [] {
      assert es + fs == fs;
    } else {
      assert (es + fs)[1..] == es[1..] + fs;
      ExecSplits(Step(kv, es[0]), es[1..], fs);
    }
  }

  lemma PileIdIsValid(c: char, n: nat)
    requires n < 252 && !IsControl(c) && !IsSpace(c)
    ensures ValidRequest(PileAward(c, n).r)
  {
    AsciiBytes(Repeat('a', n));
    assert PileId(c, n)[1..] == Repeat('a', n);
    assert !IsSpace("net"[0]) && !IsSpace("alice"[0]) && !IsSpace(PileId(c, n)[0]);
  }

  lemma PileKeysDiffer(c: char, i: nat, j: nat)
    requires i != j
    ensures PileKey(c, i) != PileKey(c, j)
  {
    assert |PileKey(c, i)| != |PileKey(c, j)|;
  }

  ghost predicate Pile(kv: Kv, c: char, n: nat) {
    && BalanceOf(kv, "net", "alice") == Some(n)
    && (forall k :: k in Owned(kv, LedgerPrefix("net", "alice")) <==> exists i :: 0 <= i < n && k == PileKey(c, i))
    && (forall k :: k in Owned(kv, LedgerPrefix("net", "alice")) ==> At(kv, k) == 5)
  }

  lemma {:induction false} PileCount(keys: set<string>, c: char, n: nat)
    requires forall k :: k in keys <==> exists i :: 0 <= i < n && k == PileKey(c, i)
    ensures |keys| == n
  {
    if n == 0 {
      assert keys == {};
    } else {
      var last := PileKey(c, n - 1);
      forall i | 0 <= i < n - 1 ensures PileKey(c, i) != last {
        PileKeysDiffer(c, i, n - 1);
      }
      PileCount(keys - {last}, c, n - 1);
    }
  }

  lemma WrittenPile(kv: Kv, c: char, n: nat)
    requires n <= 250 && Pile(kv, c, n)
    ensures Pile(Written(kv, PileAward(c, n).r, false, n + 1, 5), c, n + 1)
  {
    BalanceIsNoLedgerRow("net", "alice", "net", "alice");
    var prefix, key := LedgerPrefix("net", "alice"), PileKey(c, n);
    assert prefix <= key;
    assert Owned(Written(kv, PileAward(c, n).r, false, n + 1, 5), prefix) == Owned(kv, prefix) + {key};
  }

  /** Nothing is pruned while the scan sees at most 200 rows. */
  lemma NothingStale(kv: Kv, prefix: string)
    requires |Listed(kv, prefix)| <= LEDGER_KEPT
    ensures Prune(kv, prefix) == kv
  {
    forall k | k in Listed(kv, prefix) ensures !IsStale(kv, prefix, k) {
      FewAreLater(kv, Listed(kv, prefix), k);
    }
  }

  lemma PileStays(kv: Kv, c: char, n: nat)
    requires Pile(kv, c, n) && (c == LAST_CHAR || n <= LEDGER_KEPT)
    ensures Prune(kv, LedgerPrefix("net", "alice")) == kv
  {
    var prefix := LedgerPrefix("net", "alice");
    forall k | k in Listed(kv, prefix) ensures k in Owned(kv, prefix) && c != LAST_CHAR {
      ScanSees(kv, prefix, k);
      assert k in Owned(kv, prefix);
      var i :| 0 <= i < n && k == PileKey(c, i);
      NewKeyEscapesIff(PileAward(c, i).r);
    }
    if c == LAST_CHAR {
      assert Listed(kv, prefix) == {};
    } else {
      PileCount(Owned(kv, prefix), c, n);
      SubsetIsSmaller(Listed(kv, prefix), Owned(kv, prefix));
    }
    NothingStale(kv, prefix);
  }

  lemma OneMoreInPile(kv: Kv, c: char, n: nat)
    requires n < 250 && !IsControl(c) && !IsSpace(c) && Pile(kv, c, n) && (c == LAST_CHAR || n < LEDGER_KEPT)
    ensures Pile(Step(kv, PileAward(c, n)), c, n + 1)
  {
    PileIdIsValid(c, n);
    forall i | 0 <= i < n ensures PileKey(c, i) != PileKey(c, n) {
      PileKeysDiffer(c, i, n);
    }
    assert PileKey(c, n) !in Owned(kv, LedgerPrefix("net", "alice"));
    assert Judge(kv, true, PileAward(c, n).r, false) == Fresh(n + 1);
    WrittenPile(kv, c, n);
    PileStays(Written(kv, PileAward(c, n).r, false, n + 1, 5), c, n + 1);
  }

  lemma {:induction false} AwardsPileUp(c: char, n: nat)
    requires n <= 250 && !IsControl(c) && !IsSpace(c) && (c == LAST_CHAR || n <= LEDGER_KEPT)
    ensures Pile(Exec(map[], PileAwards(c, n)), c, n)
  {
    if n > 0 {
      AwardsPileUp(c, n - 1);
      ExecSplits(map[], PileAwards(c, n - 1), [PileAward(c, n - 1)]);
      assert Exec(Exec(map[], PileAwards(c, n - 1)), [PileAward(c, n - 1)])
          == Step(Exec(map[], PileAwards(c, n - 1)), PileAward(c, n - 1));
      OneMoreInPile(Exec(map[], PileAwards(c, n - 1)), c, n - 1);
    }
  }

  /** The bound fails for event ids that start with U+10FFFF: all 250 rows of 250 awards are kept. */
  lemma LedgerCanOutgrowItsBound()
    ensures |Owned(Exec(map[], PileAwards(LAST_CHAR, 250)), LedgerPrefix("net", "alice"))| == 250
  {
    AwardsPileUp(LAST_CHAR, 250);
    PileCount(Owned(Exec(map[], PileAwards(LAST_CHAR, 250)), LedgerPrefix("net", "alice")), LAST_CHAR, 250);
  }

  // ----- The replay window --------------------------------------------------------------------

  /** Scanned rows of one person that are later than `k`. */
  function Newer(kv: Kv, server: string, profileId: string, k: string): set<string> {
    Later(kv, Listed(kv, LedgerPrefix(server, profileId)), k)
  }

  predicate IsRow(kv: Kv, server: string, profileId: string, k: string) {
    k in Listed(kv, LedgerPrefix(server, profileId))
  }

  /** No scanned row of the person is stamped after `t`. */
  ghost predicate NoneAfter(kv: Kv, server: string, profileId: string, t: int) {
    forall k :: IsRow(kv, server, profileId, k) ==> At(kv, k) <= t
  }

  /** The clock moves on from `t` before every request. */
  predicate Ticking(t: int, es: seq<Event>)
    decreases |es|
  {
    es == [] || (t < es[0].at && Ticking(es[0].at, es[1..]))
  }

  /** An applied change of this person whose row the scan sees. */
  predicate Pushes(kv: Kv, e: Event, server: string, profileId: string) {
    Applies(kv, e) && IsFor(e, server, profileId) && e.r.eventId[0] != LAST_CHAR
  }

  function PushCount(kv: Kv, es: seq<Event>, server: string, profileId: string): nat
    decreases |es|
  {
    if es == [] then 0
    else
      (if Pushes(kv, es[0], server, profileId) then 1 else 0)
      + PushCount(Step(kv, es[0]), es[1..], server, profileId)
  }

  lemma PruneKeepsAge(kv: Kv, prefix: string, k: string)
    requires k in Listed(kv, prefix)
    ensures k in Prune(kv, prefix) <==> |Later(kv, Listed(kv, prefix), k)| < LEDGER_KEPT
    ensures k in Prune(kv, prefix) ==>
      Later(Prune(kv, prefix), Listed(Prune(kv, prefix), prefix), k) == Later(kv, Listed(kv, prefix), k)
  {
    if k in Prune(kv, prefix) {
      forall o | o in Later(kv, Listed(kv, prefix), k) ensures o in Prune(kv, prefix) {
        forall x | x in Later(kv, Listed(kv, prefix), o) ensures x in Later(kv, Listed(kv, prefix), k) {
          EarlierTransitive(kv, k, o, x);
        }
        SubsetIsSmaller(Later(kv, Listed(kv, prefix), o), Later(kv, Listed(kv, prefix), k));
      }
      PruneMeans(kv, prefix);
    }
  }

  /** Before pruning, a change adds to the later rows at most its own. */
  lemma WrittenAges(kv: Kv, e: Event, server: string, profileId: string, t: int)
    requires Applies(kv, e) && IsFor(e, server, profileId) && NoneAfter(kv, server, profileId, t) && t < e.at
    ensures var written := Written(kv, e.r, e.spend, Judge(kv, e.known, e.r, e.spend).next, e.at);
      var key := LedgerKey(server, profileId, e.r.eventId);
      && key !in kv
      && (IsRow(written, server, profileId, key) <==> Pushes(kv, e, server, profileId))
      && (forall k :: k != key ==> (IsRow(written, server, profileId, k) <==> IsRow(kv, server, profileId, k)))
      && (forall k :: IsRow(kv, server, profileId, k) ==>
            Newer(written, server, profileId, k)
            == Newer(kv, server, profileId, k) + if Pushes(kv, e, server, profileId) then {key} else {})
      && NoneAfter(written, server, profileId, e.at)
  {
    var prefix, key := LedgerPrefix(server, profileId), LedgerKey(server, profileId, e.r.eventId);
    var written := Written(kv, e.r, e.spend, Judge(kv, e.known, e.r, e.spend).next, e.at);
    assert e.r.eventId != "";
    NewKeyEscapesIff(e.r);
    ScanSees(written, prefix, key);
    BalanceIsNoLedgerRow(server, profileId, server, profileId);
    assert forall k :: k != key && prefix <= k ==> (k in written <==> k in kv) && At(written, k) == At(kv, k);
    assert At(written, key) == e.at;
  }

  lemma StepAges(kv: Kv, e: Event, server: string, profileId: string, t: int, k: string)
    requires ColonFree(profileId) && KeepsApart(e, server, profileId)
    requires NoneAfter(kv, server, profileId, t) && t < e.at
    requires IsRow(kv, server, profileId, k) && |Newer(kv, server, profileId, k)| < LEDGER_KEPT
    ensures NoneAfter(Step(kv, e), server, profileId, e.at)
    ensures var age := |Newer(kv, server, profileId, k)| + if Pushes(kv, e, server, profileId) then 1 else 0;
      && (IsRow(Step(kv, e), server, profileId, k) <==> age < LEDGER_KEPT)
      && (age < LEDGER_KEPT ==> |Newer(Step(kv, e), server, profileId, k)| == age)
  {
    if Applies(kv, e) && IsFor(e, server, profileId) {
      OwnStepAges(kv, e, server, profileId, t, k);
    } else {
      OtherStepAges(kv, e, server, profileId);
    }
  }

  lemma OwnStepAges(kv: Kv, e: Event, server: string, profileId: string, t: int, k: string)
    requires Applies(kv, e) && IsFor(e, server, profileId) && NoneAfter(kv, server, profileId, t) && t < e.at
    requires IsRow(kv, server, profileId, k)
    ensures NoneAfter(Step(kv, e), server, profileId, e.at)
    ensures var age := |Newer(kv, server, profileId, k)| + if Pushes(kv, e, server, profileId) then 1 else 0;
      && (IsRow(Step(kv, e), server, profileId, k) <==> age < LEDGER_KEPT)
      && (age < LEDGER_KEPT ==> |Newer(Step(kv, e), server, profileId, k)| == age)
  {
    var prefix := LedgerPrefix(server, profileId);
    var written := Written(kv, e.r, e.spend, Judge(kv, e.known, e.r, e.spend).next, e.at);
    WrittenAges(kv, e, server, profileId, t);
    PruneKeepsAge(written, prefix, k);
    PruneMeans(written, prefix);
    assert LedgerKey(server, profileId, e.r.eventId) !in Newer(kv, server, profileId, k);
    assert IsRow(written, server, profileId, k);
    forall o | IsRow(Step(kv, e), server, profileId, o) ensures At(Step(kv, e), o) <= e.at {
      assert IsRow(written, server, profileId, o);
    }
  }

  lemma OtherStepAges(kv: Kv, e: Event, server: string, profileId: string)
    requires ColonFree(profileId) && KeepsApart(e, server, profileId)
    requires Applies(kv, e) ==> !IsFor(e, server, profileId)
    ensures Listed(Step(kv, e), LedgerPrefix(server, profileId)) == Listed(kv, LedgerPrefix(server, profileId))
    ensures forall k :: IsRow(kv, server, profileId, k) ==> At(Step(kv, e), k) == At(kv, k)
    ensures forall k :: IsRow(kv, server, profileId, k) ==>
      Newer(Step(kv, e), server, profileId, k) == Newer(kv, server, profileId, k)
  {
    OtherRowsStay(kv, e, server, profileId);
  }

  predicate NeverRequests(es: seq<Event>, k: string) {
    forall i :: 0 <= i < |es| ==> LedgerKey(es[i].r.server, es[i].r.profileId, es[i].r.eventId) != k
  }

  /** With a clock that moves on, a row is still there while fewer than 200 rows have been pushed on top of
      it; once there are 200 it is gone, until the event itself comes again. */
  lemma {:induction false} RowSurvivesIff(kv: Kv, es: seq<Event>, server: string, profileId: string, t: int, k: string)
    requires ColonFree(profileId) && AllApart(es, server, profileId)
    requires NoneAfter(kv, server, profileId, t) && Ticking(t, es)
    requires IsRow(kv, server, profileId, k) && |Newer(kv, server, profileId, k)| < LEDGER_KEPT
    ensures |Newer(kv, server, profileId, k)| + PushCount(kv, es, server, profileId) < LEDGER_KEPT ==> k in Exec(kv, es)
    ensures NeverRequests(es, k) ==>
      (|Newer(kv, server, profileId, k)| + PushCount(kv, es, server, profileId) >= LEDGER_KEPT ==> k !in Exec(kv, es))
    decreases |es|
  {
    if es != [] {
      var kv' := Step(kv, es[0]);
      StepAges(kv, es[0], server, profileId, t, k);
      ScanSees(kv, LedgerPrefix(server, profileId), k);
      ScanSees(kv', LedgerPrefix(server, profileId), k);
      if k in kv' {
        RowSurvivesIff(kv', es[1..], server, profileId, es[0].at, k);
      } else if NeverRequests(es, k) {
        GoneStaysGone(kv', es[1..], server, profileId, k);
      }
    }
  }

  lemma {:induction false} GoneStaysGone(kv: Kv, es: seq<Event>, server: string, profileId: string, k: string)
    requires k !in kv && LedgerPrefix(server, profileId) <= k && NeverRequests(es, k)
    ensures k !in Exec(kv, es)
    decreases |es|
  {
    if es != [] {
      BalanceIsNoLedgerRow(server, profileId, es[0].r.server, es[0].r.profileId);
      GoneStaysGone(Step(kv, es[0]), es[1..], server, profileId, k);
    }
  }

  /** With a clock that moves on, an applied event that the scan sees is recognised through the next 199
      changes of the same person, repetitions in between included; after the 200th it is forgotten, so that
      an event that was not repeated in between would apply again. */
  lemma ReplayWindow(kv: Kv, e: Event, t: int, es: seq<Event>, again: Request, spend: bool)
    requires WellFormed(kv) && Pushes(kv, e, e.r.server, e.r.profileId)
    requires ColonFree(e.r.profileId) && AllApart(es, e.r.server, e.r.profileId)
    requires NoneAfter(kv, e.r.server, e.r.profileId, t) && t < e.at && Ticking(e.at, es)
    requires ValidRequest(again) && again.server == e.r.server && again.profileId == e.r.profileId
    requires again.eventId == e.r.eventId
    ensures PushCount(Step(kv, e), es, e.r.server, e.r.profileId) <= 199 ==>
      Judge(Exec(Step(kv, e), es), true, again, spend).Replay?
    ensures NeverRequests(es, LedgerKey(e.r.server, e.r.profileId, e.r.eventId)) ==>
      PushCount(Step(kv, e), es, e.r.server, e.r.profileId) >= 200 ==>
      !Judge(Exec(Step(kv, e), es), true, again, spend).Replay?
  {
    NewRowIsLatest(kv, e, t);
    RowSurvivesIff(Step(kv, e), es, e.r.server, e.r.profileId, e.at, LedgerKey(e.r.server, e.r.profileId, e.r.eventId));
    StepKeepsWellFormed(kv, e);
    assert AllIssued(es);
    BalanceIsConserved(Step(kv, e), es, e.r.server, e.r.profileId);
  }

  lemma NewRowIsLatest(kv: Kv, e: Event, t: int)
    requires Pushes(kv, e, e.r.server, e.r.profileId) && NoneAfter(kv, e.r.server, e.r.profileId, t) && t < e.at
    ensures var key := LedgerKey(e.r.server, e.r.profileId, e.r.eventId);
      IsRow(Step(kv, e), e.r.server, e.r.profileId, key) && Newer(Step(kv, e), e.r.server, e.r.profileId, key) == {}
    ensures NoneAfter(Step(kv, e), e.r.server, e.r.profileId, e.at)
  {
    var server, profileId := e.r.server, e.r.profileId;
    var prefix, key := LedgerPrefix(server, profileId), LedgerKey(server, profileId, e.r.eventId);
    var written := Written(kv, e.r, e.spend, Judge(kv, e.known, e.r, e.spend).next, e.at);
    WrittenAges(kv, e, server, profileId, t);
    EarlierIrreflexive(written, key);
    assert At(written, key) == e.at;
    BalanceIsNoLedgerRow(server, profileId, server, profileId);
    forall k | IsRow(kv, server, profileId, k) ensures At(written, k) == At(kv, k) {
    }
    assert Newer(written, server, profileId, key) == {};
    PruneKeepsAge(written, prefix, key);
    PruneMeans(written, prefix);
    forall k | IsRow(Step(kv, e), server, profileId, k) ensures At(Step(kv, e), k) <= e.at {
      assert IsRow(written, server, profileId, k);
    }
  }

  /** A change is remembered by the table it leaves behind exactly if fewer than 200 of the scanned rows come
      after it in time and key order. */
  lemma FreshRowRememberedIff(kv: Kv, e: Event)
    requires Applies(kv, e)
    ensures var written := Written(kv, e.r, e.spend, Judge(kv, e.known, e.r, e.spend).next, e.at);
      var key := LedgerKey(e.r.server, e.r.profileId, e.r.eventId);
      key in Step(kv, e) <==>
        (e.r.eventId[0] == LAST_CHAR || |Newer(written, e.r.server, e.r.profileId, key)| < LEDGER_KEPT)
  {
    var prefix, key := LedgerPrefix(e.r.server, e.r.profileId), LedgerKey(e.r.server, e.r.profileId, e.r.eventId);
    var written := Written(kv, e.r, e.spend, Judge(kv, e.known, e.r, e.spend).next, e.at);
    assert e.r.eventId != "";
    NewKeyEscapesIff(e.r);
    ScanSees(written, prefix, key);
    if IsRow(written, e.r.server, e.r.profileId, key) {
      PruneKeepsAge(written, prefix, key);
    }
  }

  const TIED := Event(true, Request("net", "alice", 1, "A", ""), false, 5)

  /** Within one second the key decides: after 200 awards a 201st with a smaller id is applied and forgotten
      at once, so it applies again. */
  lemma TiedEventAppliesTwice()
    ensures var kv := Exec(map[], PileAwards('b', 200));
      Applies(kv, TIED) && Applies(Step(kv, TIED), TIED)
  {
    AwardsPileUp('b', 200);
    var kv := Exec(map[], PileAwards('b', 200));
    TiedIsNew(kv);
    TiedApplies(kv, 200);
    TiedIsForgotten(kv);
    var prefix := LedgerPrefix("net", "alice");
    WrittenBalances(kv, TIED.r, false, 201, 5, "net", "alice");
    TiedApplies(Step(kv, TIED), 201);
  }

  lemma TiedApplies(kv: Kv, n: nat)
    requires BalanceOf(kv, "net", "alice") == Some(n) && n < 1000 && LedgerKey("net", "alice", "A") !in kv
    ensures Judge(kv, true, TIED.r, false) == Fresh(n + 1)
  {
    assert !IsSpace("net"[0]) && !IsSpace("alice"[0]) && !IsSpace("A"[0]);
    assert Utf8Len("A") == 1 by {
      assert "A"[1..] == "";
    }
  }

  lemma TiedIsNew(kv: Kv)
    requires Pile(kv, 'b', 200)
    ensures LedgerKey("net", "alice", "A") !in kv
  {
    var prefix, key := LedgerPrefix("net", "alice"), LedgerKey("net", "alice", "A");
    assert prefix <= key;
    forall i | 0 <= i < 200 ensures key != PileKey('b', i) {
      assert key[|prefix|] == 'A';
      assert PileKey('b', i)[|prefix|] == 'b';
    }
    assert key !in Owned(kv, prefix);
  }

  lemma TiedIsForgotten(kv: Kv)
    requires Pile(kv, 'b', 200) && Judge(kv, true, TIED.r, false) == Fresh(201)
    ensures LedgerKey("net", "alice", "A") !in Step(kv, TIED)
  {
    var prefix, key := LedgerPrefix("net", "alice"), LedgerKey("net", "alice", "A");
    var written := Written(kv, TIED.r, false, 201, 5);
    BalanceIsNoLedgerRow("net", "alice", "net", "alice");
    forall k | k in Owned(kv, prefix) ensures k in Newer(written, "net", "alice", key) {
      var i :| 0 <= i < 200 && k == PileKey('b', i);
      NewKeyEscapesIff(PileAward('b', i).r);
      ScanSees(written, prefix, k);
      LessAfterPrefix(prefix, "A", PileId('b', i));
    }
    PileCount(Owned(kv, prefix), 'b', 200);
    SubsetIsSmaller(Owned(kv, prefix), Newer(written, "net", "alice", key));
    FreshRowRememberedIff(kv, TIED);
  }
}
