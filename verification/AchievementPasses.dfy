/** What each pass over a manifest does to the tables, row by row. */
module AchievementPasses {
  import opened Prelude
  import opened AchievementModel

  // ----- Framing ------------------------------------------------------------------------------

  ghost predicate SameRows<V(!new)>(a: map<Row, V>, b: map<Row, V>, who: Who) {
    forall r: Row :: r.who == who ==> (r in a <==> r in b) && (r in a ==> a[r] == b[r])
  }

  /** Nothing of this profile differs between two states. */
  ghost predicate SameFor(s: State, s': State, who: Who) {
    && (who in s.profiles <==> who in s'.profiles)
    && (who in s.profiles ==> s.profiles[who] == s'.profiles[who])
    && SameRows(s.stats, s'.stats, who) && SameRows(s.unlocks, s'.unlocks, who)
    && SameRows(s.prestige, s'.prestige, who)
    && SameRows(s.backfills, s'.backfills, who) && SameRows(s.dedup, s'.dedup, who)
  }

  lemma SameForTransitive(a: State, b: State, c: State, who: Who)
    requires SameFor(a, b, who) && SameFor(b, c, who)
    ensures SameFor(a, c, who)
  {
  }

  lemma SameForStats(s: State, s': State, who: Who)
    requires SameRows(s.stats, s'.stats, who)
    ensures forall m, stat :: StatOf(s', who, m, stat) == StatOf(s, who, m, stat)
  {
    forall m, stat ensures StatOf(s', who, m, stat) == StatOf(s, who, m, stat) {
      assert Row(who, m, stat).who == who;
    }
  }

  lemma SameStatsSameExplained(s: State, s': State, cs: seq<Catalog>, row: Row)
    requires forall m, stat :: StatOf(s', row.who, m, stat) == StatOf(s, row.who, m, stat)
    ensures IsExplained(s', cs, row) <==> IsExplained(s, cs, row)
  {
    forall i, j | 0 <= i < |cs| ensures Reached(s', row.who, cs[i], j) <==> Reached(s, row.who, cs[i], j) {
    }
    if IsExplained(s, cs, row) {
      var i, j :| 0 <= i < |cs| && cs[i].moduleName == row.m && Reached(s, row.who, cs[i], j)
        && cs[i].manifest.achievements[j].id == row.item;
      assert Reached(s', row.who, cs[i], j);
    }
    if IsExplained(s', cs, row) {
      var i, j :| 0 <= i < |cs| && cs[i].moduleName == row.m && Reached(s', row.who, cs[i], j)
        && cs[i].manifest.achievements[j].id == row.item;
      assert Reached(s, row.who, cs[i], j);
    }
  }

  lemma SameUnlocksSameComplete(s: State, s': State, who: Who, cs: seq<Catalog>)
    requires ValidCatalogs(cs)
    requires forall r: Row :: r.who == who && r.m != "meta" ==> (r in s.unlocks <==> r in s'.unlocks)
    ensures Complete(s', who, cs) <==> Complete(s, who, cs)
  {
  }

  lemma SameForGood(s: State, s': State, cs: seq<Catalog>, who: Who)
    requires ValidCatalogs(cs) && SameFor(s, s', who) && Good(s, cs, who)
    ensures Good(s', cs, who)
  {
    SameForStats(s, s', who);
    forall row: Row | row.who == who && row.m != "meta" ensures row in s'.unlocks <==> IsExplained(s', cs, row) {
      SameStatsSameExplained(s, s', cs, row);
    }
    forall c | c in cs ensures RanksOf(s', who, c) {
      assert RanksOf(s, who, c);
      forall m, id ensures RankOf(s', who, m, id) == RankOf(s, who, m, id) {
        assert Row(who, m, id).who == who;
      }
    }
    SameUnlocksSameComplete(s, s', who, cs);
  }

  /** Good depends on a profile's rows outside the collection milestones, its badge and its flags. */
  lemma CollectionKeepsGood(s: State, s': State, cs: seq<Catalog>, who: Who)
    requires ValidCatalogs(cs) && Good(s, cs, who) && s' == s.(unlocks := s'.unlocks)
    requires forall r: Row :: r.who == who && r.m != "meta" ==> (r in s'.unlocks <==> r in s.unlocks)
    requires OptOutHonoured(s', who) && BadgeEarned(s', cs, who)
    ensures Good(s', cs, who)
  {
    forall row: Row | row.who == who && row.m != "meta" ensures row in s'.unlocks <==> IsExplained(s', cs, row) {
      SameStatsSameExplained(s, s', cs, row);
    }
    forall c | c in cs ensures RanksOf(s', who, c) {
      assert RanksOf(s, who, c);
    }
  }

  // ----- The unlock passes --------------------------------------------------------------------

  predicate ReachedIn(s: State, who: Who, m: string, items: seq<Achievement>, j: int) {
    0 <= j < |items| && StatOf(s, who, m, items[j].stat) >= items[j].threshold
  }

  /** Adds exactly the rows of the achievements reached, and touches nothing else. */
  lemma {:induction false} UnlockPassMeans(s: State, who: Who, m: string, items: seq<Achievement>, now: int)
    ensures UnlockPass(s, who, m, items, now) == s.(unlocks := UnlockPass(s, who, m, items, now).unlocks)
    ensures forall r :: r in s.unlocks ==>
      r in UnlockPass(s, who, m, items, now).unlocks && UnlockPass(s, who, m, items, now).unlocks[r] == s.unlocks[r]
    ensures forall r :: r in UnlockPass(s, who, m, items, now).unlocks ==>
      r in s.unlocks || (exists j :: ReachedIn(s, who, m, items, j) && r == Row(who, m, items[j].id))
    ensures forall j :: ReachedIn(s, who, m, items, j) ==>
      Row(who, m, items[j].id) in UnlockPass(s, who, m, items, now).unlocks
  {
    if items != [] {
      var rest, a := items[..|items| - 1], items[|items| - 1];
      UnlockPassMeans(s, who, m, rest, now);
      var before := UnlockPass(s, who, m, rest, now);
      assert StatOf(before, who, m, a.stat) == StatOf(s, who, m, a.stat);
      assert ReachedIn(s, who, m, items, |rest|) <==> StatOf(s, who, m, a.stat) >= a.threshold;
      forall j | ReachedIn(s, who, m, items, j) && j < |rest| ensures ReachedIn(s, who, m, rest, j) {
        assert rest[j] == items[j];
      }
      forall j | ReachedIn(s, who, m, rest, j) ensures ReachedIn(s, who, m, items, j) {
        assert rest[j] == items[j];
      }
    }
  }

  /** The backfill's own inserts add only rows of achievements that the stored value reaches. */
  lemma {:induction false} UnlockReachedMeans(s: State, who: Who, m: string, items: seq<Achievement>, stat: string,
                                              value: nat, now: int)
    requires StatOf(s, who, m, stat) >= value
    ensures UnlockReached(s, who, m, items, stat, value, now)
         == s.(unlocks := UnlockReached(s, who, m, items, stat, value, now).unlocks)
    ensures forall r :: r in s.unlocks ==>
      r in UnlockReached(s, who, m, items, stat, value, now).unlocks
      && UnlockReached(s, who, m, items, stat, value, now).unlocks[r] == s.unlocks[r]
    ensures forall r :: r in UnlockReached(s, who, m, items, stat, value, now).unlocks ==>
      r in s.unlocks || (exists j :: ReachedIn(s, who, m, items, j) && r == Row(who, m, items[j].id))
  {
    if items != [] {
      var rest, a := items[..|items| - 1], items[|items| - 1];
      UnlockReachedMeans(s, who, m, rest, stat, value, now);
      assert a.stat == stat && a.threshold <= value ==> ReachedIn(s, who, m, items, |rest|);
      forall j | ReachedIn(s, who, m, rest, j) ensures ReachedIn(s, who, m, items, j) {
        assert rest[j] == items[j];
      }
    }
  }

  // ----- The prestige pass --------------------------------------------------------------------

  /** A rank counts the thresholds `first`, `first + every`, `first + 2 * every`, ... that the value reaches. */
  lemma RankMeans(p: Prestige, value: nat)
    requires p.every > 0
    ensures Rank(p, value) == 0 <==> value < p.firstThreshold
    ensures Rank(p, value) > 0 ==>
      p.firstThreshold + (Rank(p, value) - 1) * p.every <= value < p.firstThreshold + Rank(p, value) * p.every
  {
    if value >= p.firstThreshold {
      var over := value - p.firstThreshold;
      assert over == over / p.every * p.every + over % p.every;
      assert Rank(p, value) * p.every == over / p.every * p.every + p.every;
    }
  }

  lemma RankMonotone(p: Prestige, a: nat, b: nat)
    requires a <= b
    ensures Rank(p, a) <= Rank(p, b)
  {
    if p.every > 0 && p.firstThreshold <= a {
      DivideMonotone(a - p.firstThreshold, b - p.firstThreshold, p.every);
    }
  }

  lemma DivideMonotone(a: nat, b: nat, d: nat)
    requires a <= b && d > 0
    ensures a / d <= b / d
  {
    var q, p := a / d, b / d;
    assert a == q * d + a % d && b == p * d + b % d;
    if p + 1 <= q {
      MultiplyMonotone(p + 1, q, d);
    }
  }

  lemma MultiplyMonotone(x: nat, y: nat, d: nat)
    requires x <= y
    ensures x * d <= y * d
  {
    assert y * d == x * d + (y - x) * d && (y - x) * d >= 0;
  }

  ghost predicate DistinctPrestige(items: seq<Prestige>) {
    forall i, j :: 0 <= i < j < |items| ==> items[i].id != items[j].id
  }

  ghost predicate Raises(s: State, who: Who, m: string, items: seq<Prestige>, r: Row) {
    && r.who == who && r.m == m
    && exists p :: p in items && p.id == r.item && Rank(p, StatOf(s, who, m, p.stat)) > RankOf(s, who, m, p.id)
  }

  function PrestigeOne(s: State, who: Who, m: string, p: Prestige): State {
    var rank := Rank(p, StatOf(s, who, m, p.stat));
    if rank > RankOf(s, who, m, p.id) then s.(prestige := s.prestige[Row(who, m, p.id) := rank]) else s
  }

  /** Only ranks change, and only those that some formula raises. */
  ghost predicate OnlyRaised(s: State, s': State, who: Who, m: string, items: seq<Prestige>) {
    && s' == s.(prestige := s'.prestige)
    && (forall r :: r in s.prestige ==> r in s'.prestige)
    && (forall r :: r in s'.prestige && !Raises(s, who, m, items, r) ==>
      r in s.prestige && s'.prestige[r] == s.prestige[r])
  }

  lemma {:induction false} PrestigePassRows(s: State, who: Who, m: string, items: seq<Prestige>)
    requires DistinctPrestige(items)
    ensures OnlyRaised(s, PrestigePass(s, who, m, items), who, m, items)
  {
    if items != [] {
      var rest, p := items[..|items| - 1], items[|items| - 1];
      PrestigePassRows(s, who, m, rest);
      NotRaisedBefore(s, who, m, items);
      OneMoreRaised(s, PrestigePass(s, who, m, rest), who, m, items);
      assert PrestigePass(s, who, m, items) == PrestigeOne(PrestigePass(s, who, m, rest), who, m, p);
    }
  }

  lemma RaisesMore(s: State, who: Who, m: string, items: seq<Prestige>, r: Row)
    requires items != [] && Raises(s, who, m, items[..|items| - 1], r)
    ensures Raises(s, who, m, items, r)
  {
    assert items == items[..|items| - 1] + [items[|items| - 1]];
  }

  lemma RankUntouched(s: State, before: State, who: Who, m: string, items: seq<Prestige>, p: Prestige)
    requires OnlyRaised(s, before, who, m, items) && !Raises(s, who, m, items, Row(who, m, p.id))
    ensures RankOf(before, who, m, p.id) == RankOf(s, who, m, p.id)
    ensures StatOf(before, who, m, p.stat) == StatOf(s, who, m, p.stat)
  {
  }

  lemma OneMoreRaised(s: State, before: State, who: Who, m: string, items: seq<Prestige>)
    requires items != [] && OnlyRaised(s, before, who, m, items[..|items| - 1])
    requires !Raises(s, who, m, items[..|items| - 1], Row(who, m, items[|items| - 1].id))
    ensures OnlyRaised(s, PrestigeOne(before, who, m, items[|items| - 1]), who, m, items)
  {
    var rest, p := items[..|items| - 1], items[|items| - 1];
    var s', row := PrestigeOne(before, who, m, p), Row(who, m, p.id);
    RankUntouched(s, before, who, m, rest, p);
    assert p in items && Row(who, m, p.id).item == p.id;
    assert s' != before ==> Raises(s, who, m, items, row);
    forall r | r in s'.prestige && !Raises(s, who, m, items, r)
      ensures r in s.prestige && s'.prestige[r] == s.prestige[r]
    {
      if Raises(s, who, m, rest, r) {
        RaisesMore(s, who, m, items, r);
      }
    }
  }

  lemma RankAfterOne(s: State, who: Who, m: string, p: Prestige, id: string)
    ensures RankOf(PrestigeOne(s, who, m, p), who, m, id)
         == if id == p.id then Max(RankOf(s, who, m, id), Rank(p, StatOf(s, who, m, p.stat))) else RankOf(s, who, m, id)
  {
  }

  lemma NotRaisedBefore(s: State, who: Who, m: string, items: seq<Prestige>)
    requires DistinctPrestige(items) && items != []
    ensures !Raises(s, who, m, items[..|items| - 1], Row(who, m, items[|items| - 1].id))
  {
    var rest := items[..|items| - 1];
    forall q | q in rest ensures q.id != items[|rest|].id {
      var i :| 0 <= i < |rest| && rest[i] == q;
      assert items[i] == q;
    }
  }

  /** Every rank of the list is raised to the closed formula. */
  lemma {:induction false} PrestigePassRanks(s: State, who: Who, m: string, items: seq<Prestige>, q: Prestige)
    requires DistinctPrestige(items) && q in items
    ensures RankOf(PrestigePass(s, who, m, items), who, m, q.id)
         == Max(RankOf(s, who, m, q.id), Rank(q, StatOf(s, who, m, q.stat)))
  {
    var rest, p := items[..|items| - 1], items[|items| - 1];
    assert items == rest + [p];
    PrestigePassRows(s, who, m, rest);
    var before := PrestigePass(s, who, m, rest);
    NotRaisedBefore(s, who, m, items);
    RankUntouched(s, before, who, m, rest, p);
    assert PrestigePass(s, who, m, items) == PrestigeOne(before, who, m, p);
    RankAfterOne(before, who, m, p, q.id);
    if q in rest {
      PrestigePassRanks(s, who, m, rest, q);
      var i :| 0 <= i < |rest| && rest[i] == q;
      assert items[i].id != items[|rest|].id;
    }
  }

  // ----- Milestones ---------------------------------------------------------------------------

  lemma {:induction false} MilestonePassMeans(s: State, who: Who, size: nat, milestones: seq<(string, nat)>, now: int)
    ensures MilestonePass(s, who, size, milestones, now)
         == s.(unlocks := MilestonePass(s, who, size, milestones, now).unlocks)
    ensures forall r :: r in s.unlocks ==>
      r in MilestonePass(s, who, size, milestones, now).unlocks
      && MilestonePass(s, who, size, milestones, now).unlocks[r] == s.unlocks[r]
    ensures forall r :: r in MilestonePass(s, who, size, milestones, now).unlocks ==>
      r in s.unlocks || (exists k ::
        0 <= k < |milestones| && size >= milestones[k].1 && r == Row(who, "meta", milestones[k].0))
    ensures forall k :: 0 <= k < |milestones| && size >= milestones[k].1 ==>
      Row(who, "meta", milestones[k].0) in MilestonePass(s, who, size, milestones, now).unlocks
  {
    if milestones != [] {
      var rest := milestones[..|milestones| - 1];
      MilestonePassMeans(s, who, size, rest, now);
      assert milestones == rest + [milestones[|rest|]];
    }
  }

  /** No row but the collection rows of one profile changes. */
  ghost predicate OnlyCollection(s: State, s': State, who: Who) {
    && s' == s.(unlocks := s'.unlocks)
    && (forall r: Row :: r.m != "meta" || r.who != who ==>
          (r in s'.unlocks <==> r in s.unlocks) && (r in s.unlocks ==> s'.unlocks[r] == s.unlocks[r]))
  }

  /** What a failing query hides can only make a collection look less complete than it is. */
  lemma SeenCompleteIff(s: State, who: Who, cs: seq<Catalog>, lost: set<Row>)
    ensures Complete(Seen(s, lost), who, cs) <==> Complete(s, who, cs) && !MissesRequired(who, cs, lost)
  {
    if Complete(s, who, cs) && !Complete(Seen(s, lost), who, cs) {
      var i, j :| 0 <= i < |cs| && 0 <= j < |cs[i].manifest.achievements| && IsRequired(cs, i, j)
        && Row(who, cs[i].moduleName, cs[i].manifest.achievements[j].id) !in Seen(s, lost).unlocks;
    }
  }

  /** Held exactly by a complete collection. */
  ghost predicate BadgeSettled(s: State, cs: seq<Catalog>, who: Who) {
    Row(who, "meta", WHOLE) in s.unlocks <==> Complete(s, who, cs)
  }

  /** The collection rows change and no others; exactly the milestones that the count reaches are granted, and those
      held are kept; and the badge is settled exactly unless the query for a required achievement of a complete
      collection fails. */
  lemma MetaStepMeans(s: State, who: Who, cs: seq<Catalog>, now: int, lost: Reads)
    requires ValidCatalogs(cs)
    ensures OnlyCollection(s, MetaStep(s, who, cs, now, lost), who)
    ensures Complete(MetaStep(s, who, cs, now, lost), who, cs) <==> Complete(s, who, cs)
    ensures Row(who, "meta", WHOLE) in MetaStep(s, who, cs, now, lost).unlocks
      <==> Complete(s, who, cs) && !MissesRequired(who, cs, lost.required)
    ensures forall r: Row :: r.who == who && r.m == "meta" && r.item != WHOLE ==>
      (r in MetaStep(s, who, cs, now, lost).unlocks
       <==> r in s.unlocks || ReachesMilestone(CollectionSize(Seen(s, lost.counted), who, cs), r.item))
  {
    var size := CollectionSize(Seen(s, lost.counted), who, cs);
    var s1 := MilestonePass(s, who, size, MILESTONES, now);
    MilestonesOnly(s, who, size, now);
    MilestonesExactly(s, who, size, now);
    SameUnlocksSameComplete(s, s1, who, cs);
    BadgeSettles(s1, who, cs, now, lost);
    OnlyCollectionTransitive(s, s1, MetaStep(s, who, cs, now, lost), who);
  }

  /** Ten, twenty-five and fifty achievements of the loaded catalogues. */
  predicate ReachesMilestone(size: nat, item: string) {
    || (item == "modest_mantelpiece" && size >= 10)
    || (item == "cabinet_curiosities" && size >= 25)
    || (item == "distinguished_collection" && size >= 50)
  }

  lemma MilestonesExactly(s: State, who: Who, size: nat, now: int)
    ensures forall r: Row :: r.who == who && r.m == "meta" && r.item != WHOLE ==>
      (r in MilestonePass(s, who, size, MILESTONES, now).unlocks
       <==> r in s.unlocks || ReachesMilestone(size, r.item))
  {
    MilestonePassMeans(s, who, size, MILESTONES, now);
    assert MILESTONES[0] == ("modest_mantelpiece", 10) && MILESTONES[1] == ("cabinet_curiosities", 25);
    assert MILESTONES[2] == ("distinguished_collection", 50);
    forall r: Row | r.who == who && r.m == "meta" && r.item != WHOLE && ReachesMilestone(size, r.item)
      ensures r in MilestonePass(s, who, size, MILESTONES, now).unlocks
    {
      var k := if r.item == "modest_mantelpiece" then 0 else if r.item == "cabinet_curiosities" then 1 else 2;
      assert r == Row(who, "meta", MILESTONES[k].0);
    }
  }

  lemma OnlyCollectionTransitive(a: State, b: State, c: State, who: Who)
    requires OnlyCollection(a, b, who) && OnlyCollection(b, c, who)
    ensures OnlyCollection(a, c, who)
  {
  }

  lemma MilestonesOnly(s: State, who: Who, size: nat, now: int)
    ensures OnlyCollection(s, MilestonePass(s, who, size, MILESTONES, now), who)
    ensures forall k :: 0 <= k < |MILESTONES| && size >= MILESTONES[k].1 ==>
      Row(who, "meta", MILESTONES[k].0) in MilestonePass(s, who, size, MILESTONES, now).unlocks
      && MILESTONES[k].0 != WHOLE
  {
    MilestonePassMeans(s, who, size, MILESTONES, now);
  }

  lemma BadgeFrame(s: State, who: Who, cs: seq<Catalog>, now: int, lost: Reads)
    ensures OnlyCollection(s, SettleBadge(s, who, cs, now, lost), who)
    ensures forall r :: r != Row(who, "meta", WHOLE) ==>
      (r in s.unlocks <==> r in SettleBadge(s, who, cs, now, lost).unlocks)
    ensures Row(who, "meta", WHOLE) in SettleBadge(s, who, cs, now, lost).unlocks
      <==> Complete(s, who, cs) && !MissesRequired(who, cs, lost.required)
  {
    SeenCompleteIff(s, who, cs, lost.required);
  }

  lemma BadgeSettles(s: State, who: Who, cs: seq<Catalog>, now: int, lost: Reads)
    requires ValidCatalogs(cs)
    ensures OnlyCollection(s, SettleBadge(s, who, cs, now, lost), who)
    ensures Complete(SettleBadge(s, who, cs, now, lost), who, cs) <==> Complete(s, who, cs)
    ensures Row(who, "meta", WHOLE) in SettleBadge(s, who, cs, now, lost).unlocks
      <==> Complete(s, who, cs) && !MissesRequired(who, cs, lost.required)
    ensures forall r :: r != Row(who, "meta", WHOLE) ==>
      (r in s.unlocks <==> r in SettleBadge(s, who, cs, now, lost).unlocks)
  {
    BadgeFrame(s, who, cs, now, lost);
    SameUnlocksSameComplete(s, SettleBadge(s, who, cs, now, lost), who, cs);
  }
}
