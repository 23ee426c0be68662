/** Over every interleaving of awards, backfills, reconciliations, opt-outs and erasures the derived
    tables agree with the counters, and an opt-out is honoured. */
module AchievementRuns {
  import opened Prelude
  import opened Text
  import opened AchievementModel
  import opened AchievementPasses

  // ----- A module whose counters have run ahead -----------------------------------------------

  /** Counters of module `m` may have grown past what its rows and ranks say; everything else is exact. */
  ghost predicate Behind(s: State, cs: seq<Catalog>, who: Who, m: string) {
    && (forall row: Row :: row.who == who && row.m != "meta" && row in s.unlocks ==> IsExplained(s, cs, row))
    && (forall row: Row :: row.who == who && row.m != "meta" && row.m != m && IsExplained(s, cs, row) ==>
      row in s.unlocks)
    && (forall c :: c in cs && c.moduleName != m ==> RanksOf(s, who, c))
    && (forall c, p :: c in cs && c.moduleName == m && p in c.manifest.prestige ==>
          RankOf(s, who, m, p.id) <= Rank(p, StatOf(s, who, m, p.stat)))
    && BadgeEarned(s, cs, who)
  }

  lemma GoodIsBehind(s: State, cs: seq<Catalog>, who: Who, m: string)
    requires Good(s, cs, who)
    ensures Behind(s, cs, who, m)
  {
    forall c, p | c in cs && c.moduleName == m && p in c.manifest.prestige
      ensures RankOf(s, who, m, p.id) <= Rank(p, StatOf(s, who, m, p.stat))
    {
      assert RanksOf(s, who, c);
    }
  }

  lemma MoreUnlocksKeepComplete(s: State, s': State, cs: seq<Catalog>, who: Who)
    requires forall r :: r in s.unlocks ==> r in s'.unlocks
    ensures Complete(s, who, cs) ==> Complete(s', who, cs)
  {
  }

  lemma SameCatalog(cs: seq<Catalog>, c: Catalog, i: nat)
    requires ValidCatalogs(cs) && c in cs && i < |cs| && cs[i].moduleName == c.moduleName
    ensures cs[i] == c
  {
    var j :| 0 <= j < |cs| && cs[j] == c;
    assert i == j;
  }

  lemma NewRowIsExplained(s: State, cs: seq<Catalog>, who: Who, c: Catalog, j: int)
    requires c in cs && Reached(s, who, c, j)
    ensures IsExplained(s, cs, Row(who, c.moduleName, c.manifest.achievements[j].id))
  {
    var i :| 0 <= i < |cs| && cs[i] == c;
    assert Reached(s, who, cs[i], j);
  }

  lemma ExplainedIsReached(s: State, cs: seq<Catalog>, c: Catalog, row: Row) returns (j: int)
    requires ValidCatalogs(cs) && c in cs && IsExplained(s, cs, row) && row.m == c.moduleName
    ensures Reached(s, row.who, c, j) && c.manifest.achievements[j].id == row.item
  {
    var i;
    i, j :| 0 <= i < |cs| && cs[i].moduleName == row.m && Reached(s, row.who, cs[i], j)
      && cs[i].manifest.achievements[j].id == row.item;
    SameCatalog(cs, c, i);
  }

  /** Reconciling a module that is behind makes its rows exact. */
  lemma ReconcileUnlocks(s: State, cs: seq<Catalog>, who: Who, c: Catalog, now: int)
    requires ValidCatalogs(cs) && c in cs && Behind(s, cs, who, c.moduleName)
    ensures var s' := ReconcileModule(s, who, c, now);
      UnlocksExact(s', cs, who) && BadgeEarned(s', cs, who) && s'.stats == s.stats
  {
    var s' := ReconcileModule(s, who, c, now);
    ReconcileTables(s, who, c, now);
    MoreUnlocksKeepComplete(s, s', cs, who);
    ReconcileKeepsBadge(s, who, c, now);
    forall row: Row | row.who == who && row.m != "meta" ensures row in s'.unlocks <==> IsExplained(s', cs, row) {
      SameStatsSameExplained(s, s', cs, row);
      ReconcileRow(s, cs, c, now, row);
    }
  }

  /** The prestige pass touches neither unlocks nor counters. */
  lemma ReconcileTables(s: State, who: Who, c: Catalog, now: int)
    requires DistinctPrestige(c.manifest.prestige)
    ensures var s' := ReconcileModule(s, who, c, now);
      var s1 := UnlockPass(s, who, c.moduleName, c.manifest.achievements, now);
      s'.unlocks == s1.unlocks && s'.stats == s.stats && forall r :: r in s.unlocks ==> r in s'.unlocks
  {
    UnlockPassMeans(s, who, c.moduleName, c.manifest.achievements, now);
    PrestigePassRows(UnlockPass(s, who, c.moduleName, c.manifest.achievements, now), who, c.moduleName,
      c.manifest.prestige);
  }

  lemma ReconcileKeepsBadge(s: State, who: Who, c: Catalog, now: int)
    requires c.moduleName != "meta"
    ensures forall r: Row ::
      r.m == "meta" && r in UnlockPass(s, who, c.moduleName, c.manifest.achievements, now).unlocks ==> r in s.unlocks
  {
    UnlockPassMeans(s, who, c.moduleName, c.manifest.achievements, now);
  }

  lemma ReconcileRow(s: State, cs: seq<Catalog>, c: Catalog, now: int, row: Row)
    requires ValidCatalogs(cs) && c in cs && Behind(s, cs, row.who, c.moduleName) && row.m != "meta"
    ensures row in UnlockPass(s, row.who, c.moduleName, c.manifest.achievements, now).unlocks <==>
      IsExplained(s, cs, row)
  {
    var who, m, items := row.who, c.moduleName, c.manifest.achievements;
    var s1 := UnlockPass(s, who, m, items, now);
    UnlockPassMeans(s, who, m, items, now);
    if row in s1.unlocks && row !in s.unlocks {
      var j :| ReachedIn(s, who, m, items, j) && row == Row(who, m, items[j].id);
      NewRowIsExplained(s, cs, who, c, j);
    }
    if IsExplained(s, cs, row) && row.m == m {
      var j := ExplainedIsReached(s, cs, c, row);
      assert ReachedIn(s, who, m, items, j);
    }
  }

  lemma ReconcileRanks(s: State, cs: seq<Catalog>, who: Who, c: Catalog, now: int)
    requires ValidCatalogs(cs) && c in cs && Behind(s, cs, who, c.moduleName)
    ensures RanksExact(ReconcileModule(s, who, c, now), cs, who)
  {
    var s' := ReconcileModule(s, who, c, now);
    forall d | d in cs ensures RanksOf(s', who, d) {
      if d.moduleName == c.moduleName {
        var i :| 0 <= i < |cs| && cs[i] == d;
        SameCatalog(cs, c, i);
        forall p | p in c.manifest.prestige
          ensures RankOf(s', who, c.moduleName, p.id) == Rank(p, StatOf(s', who, c.moduleName, p.stat))
        {
          OwnRank(s, cs, who, c, now, p);
        }
      } else {
        assert RanksOf(s, who, d);
        OtherRanks(s, who, c, now, d);
      }
    }
  }

  lemma OwnRank(s: State, cs: seq<Catalog>, who: Who, c: Catalog, now: int, p: Prestige)
    requires DistinctPrestige(c.manifest.prestige) && p in c.manifest.prestige
    requires RankOf(s, who, c.moduleName, p.id) <= Rank(p, StatOf(s, who, c.moduleName, p.stat))
    ensures var s' := ReconcileModule(s, who, c, now);
      RankOf(s', who, c.moduleName, p.id) == Rank(p, StatOf(s', who, c.moduleName, p.stat))
  {
    var s1 := UnlockPass(s, who, c.moduleName, c.manifest.achievements, now);
    UnlockPassMeans(s, who, c.moduleName, c.manifest.achievements, now);
    PrestigePassRows(s1, who, c.moduleName, c.manifest.prestige);
    PrestigePassRanks(s1, who, c.moduleName, c.manifest.prestige, p);
  }

  lemma OtherRanks(s: State, who: Who, c: Catalog, now: int, d: Catalog)
    requires DistinctPrestige(c.manifest.prestige) && d.moduleName != c.moduleName && RanksOf(s, who, d)
    ensures RanksOf(ReconcileModule(s, who, c, now), who, d)
  {
    var s1 := UnlockPass(s, who, c.moduleName, c.manifest.achievements, now);
    UnlockPassMeans(s, who, c.moduleName, c.manifest.achievements, now);
    PrestigePassRows(s1, who, c.moduleName, c.manifest.prestige);
  }

  /** Reconciling touches only this profile's rows, and none of its flags or markers. */
  lemma ReconcileFrame(s: State, who: Who, c: Catalog, now: int, other: Who)
    requires DistinctPrestige(c.manifest.prestige)
    ensures var s' := ReconcileModule(s, who, c, now);
      && s' == s.(unlocks := s'.unlocks, prestige := s'.prestige)
      && (other != who ==> SameFor(s, s', other))
  {
    var s1 := UnlockPass(s, who, c.moduleName, c.manifest.achievements, now);
    UnlockPassMeans(s, who, c.moduleName, c.manifest.achievements, now);
    PrestigePassRows(s1, who, c.moduleName, c.manifest.prestige);
  }

  lemma ReconcileRestores(s: State, cs: seq<Catalog>, who: Who, c: Catalog, now: int)
    requires ValidCatalogs(cs) && c in cs && Behind(s, cs, who, c.moduleName) && TakesPart(s, who)
    requires OptOutHonoured(s, who)
    ensures Good(ReconcileModule(s, who, c, now), cs, who) && TakesPart(ReconcileModule(s, who, c, now), who)
  {
    ReconcileUnlocks(s, cs, who, c, now);
    ReconcileRanks(s, cs, who, c, now);
    ReconcileFrame(s, who, c, now, who);
  }

  lemma MetaKeepsGood(s: State, cs: seq<Catalog>, who: Who, now: int, lost: Reads, other: Who)
    requires ValidCatalogs(cs) && Good(s, cs, who) && TakesPart(s, who)
    ensures Good(MetaStep(s, who, cs, now, lost), cs, who)
    ensures other != who ==> SameFor(s, MetaStep(s, who, cs, now, lost), other)
  {
    MetaStepMeans(s, who, cs, now, lost);
    CollectionKeepsGood(s, MetaStep(s, who, cs, now, lost), cs, who);
  }

  // ----- Award --------------------------------------------------------------------------------

  lemma AddedStat(s: State, who: Who, m: string, increments: seq<Increment>, other: Who, n: string, stat: string)
    ensures StatOf(AddStats(s, who, m, increments), other, n, stat)
         == StatOf(s, other, n, stat) + if other == who && n == m then Total(increments, stat) else 0
  {
    if stat !in Incremented(increments) {
      NotIncremented(increments, stat);
    }
  }

  lemma {:induction false} NotIncremented(increments: seq<Increment>, stat: string)
    requires stat !in Incremented(increments)
    ensures Total(increments, stat) == 0
  {
    if increments != [] {
      var rest, last := increments[..|increments| - 1], increments[|increments| - 1];
      assert last.stat in Incremented(increments);
      forall i | 0 <= i < |rest| ensures rest[i].stat in Incremented(increments) {
        assert rest[i] == increments[i];
      }
      NotIncremented(rest, stat);
    }
  }

  /** Counters that only grow leave every explanation standing. */
  lemma GrownStaysExplained(s: State, s': State, cs: seq<Catalog>, row: Row)
    requires forall m, stat :: StatOf(s, row.who, m, stat) <= StatOf(s', row.who, m, stat)
    ensures IsExplained(s, cs, row) ==> IsExplained(s', cs, row)
  {
    if IsExplained(s, cs, row) {
      var i, j :| 0 <= i < |cs| && cs[i].moduleName == row.m && Reached(s, row.who, cs[i], j)
        && cs[i].manifest.achievements[j].id == row.item;
      assert Reached(s', row.who, cs[i], j);
    }
  }

  lemma UngrownNotExplained(s: State, s': State, cs: seq<Catalog>, row: Row)
    requires forall stat :: StatOf(s, row.who, row.m, stat) == StatOf(s', row.who, row.m, stat)
    ensures IsExplained(s', cs, row) ==> IsExplained(s, cs, row)
  {
    if IsExplained(s', cs, row) {
      var i, j :| 0 <= i < |cs| && cs[i].moduleName == row.m && Reached(s', row.who, cs[i], j)
        && cs[i].manifest.achievements[j].id == row.item;
      assert Reached(s, row.who, cs[i], j);
    }
  }

  /** Growth of one module's counters puts that module, at most, behind. */
  lemma GrowthPutsBehind(s: State, s': State, cs: seq<Catalog>, who: Who, m: string)
    requires Behind(s, cs, who, m) && s'.unlocks == s.unlocks && s'.prestige == s.prestige
    requires forall n, stat :: StatOf(s, who, n, stat) <= StatOf(s', who, n, stat)
    requires forall n, stat :: n != m ==> StatOf(s, who, n, stat) == StatOf(s', who, n, stat)
    ensures Behind(s', cs, who, m)
  {
    forall row: Row | row.who == who && row.m != "meta" && row in s'.unlocks ensures IsExplained(s', cs, row) {
      GrownStaysExplained(s, s', cs, row);
    }
    forall row: Row | row.who == who && row.m != "meta" && row.m != m && IsExplained(s', cs, row)
      ensures row in s'.unlocks
    {
      UngrownNotExplained(s, s', cs, row);
    }
    forall c | c in cs && c.moduleName != m ensures RanksOf(s', who, c) {
      assert RanksOf(s, who, c);
    }
    forall c, p | c in cs && c.moduleName == m && p in c.manifest.prestige
      ensures RankOf(s', who, m, p.id) <= Rank(p, StatOf(s', who, m, p.stat))
    {
      RankMonotone(p, StatOf(s, who, m, p.stat), StatOf(s', who, m, p.stat));
    }
    MoreUnlocksKeepComplete(s, s', cs, who);
  }

  ghost function BeforeReconcile(s: State, c: Catalog, who: Who, increments: seq<Increment>, dedupId: Option<string>,
                                 now: int): State {
    var s1 := if dedupId.Some? then s.(dedup := s.dedup[Row(who, c.moduleName, dedupId.value) := now]) else s;
    AddStats(s1, who, c.moduleName, increments)
  }

  lemma CountersBehind(s: State, cs: seq<Catalog>, c: Catalog, who: Who, increments: seq<Increment>,
                       dedupId: Option<string>, now: int)
    requires ValidCatalogs(cs) && c in cs && Good(s, cs, who) && TakesPart(s, who)
    ensures var s2 := BeforeReconcile(s, c, who, increments, dedupId, now);
      Behind(s2, cs, who, c.moduleName) && TakesPart(s2, who) && OptOutHonoured(s2, who)
  {
    var s1 := if dedupId.Some? then s.(dedup := s.dedup[Row(who, c.moduleName, dedupId.value) := now]) else s;
    var s2 := AddStats(s1, who, c.moduleName, increments);
    GoodIsBehind(s, cs, who, c.moduleName);
    forall n, stat ensures StatOf(s2, who, n, stat)
      == StatOf(s, who, n, stat) + if n == c.moduleName then Total(increments, stat) else 0
    {
      AddedStat(s1, who, c.moduleName, increments, who, n, stat);
    }
    GrowthPutsBehind(s, s2, cs, who, c.moduleName);
  }

  /** A well-formed request for a profile that takes part, not seen before, whose counters still fit 63 bits. Whether
      the profile is closed to backfills makes no difference. */
  ghost predicate IsLive(s: State, c: Catalog, who: Who, increments: seq<Increment>, dedupId: Option<string>) {
    && who in s.profiles && !s.profiles[who].optOut && who.0 != "" && who.1 != ""
    && 1 <= |increments| <= 32
    && (forall i :: 0 <= i < |increments| ==>
          && increments[i].amount > 0
          && (exists j :: 0 <= j < |c.manifest.stats| && c.manifest.stats[j].id == increments[i].stat)
          && StatOf(s, who, c.moduleName, increments[i].stat) + Total(increments, increments[i].stat)
             <= 0x7FFF_FFFF_FFFF_FFFF)
    && (dedupId.Some? ==> 1 <= Utf8Len(dedupId.value) <= 200 && Row(who, c.moduleName, dedupId.value) !in s.dedup)
  }

  /** An award applies exactly if it is live. */
  lemma AppliesIffLive(s: State, c: Catalog, who: Who, increments: seq<Increment>, dedupId: Option<string>)
    ensures JudgeAward(s, c, who, increments, dedupId) == Applied <==> IsLive(s, c, who, increments, dedupId)
  {
    if dedupId.Some? {
      OnlyEmptyHasNoBytes(dedupId.value);
    }
    if IncrementsValid(c.manifest, increments) && !Overflows(s, who, c.moduleName, increments) {
      forall i | 0 <= i < |increments|
        ensures StatOf(s, who, c.moduleName, increments[i].stat) + Total(increments, increments[i].stat) <= I64_MAX
      {
      }
    }
  }

  lemma OnlyEmptyHasNoBytes(s: string)
    ensures s == "" <==> Utf8Len(s) == 0
  {
  }

  /** A profile that has opted out is passed over in silence, and a repetition is answered as one; a request that
      takes effect in none of these ways is an error. */
  lemma OutcomeMeans(s: State, c: Catalog, who: Who, increments: seq<Increment>, dedupId: Option<string>)
    requires who.0 != "" && who.1 != "" && increments != [] && IncrementsValid(c.manifest, increments)
    ensures var outcome := JudgeAward(s, c, who, increments, dedupId);
      && (outcome == Rejected(UnknownProfile) <==> who !in s.profiles)
      && (outcome == Suppressed <==> who in s.profiles && s.profiles[who].optOut)
      && (outcome == Duplicate <==>
            && TakesPart(s, who) && dedupId.Some? && 1 <= Utf8Len(dedupId.value) <= 200
            && Row(who, c.moduleName, dedupId.value) in s.dedup)
  {
    if dedupId.Some? {
      OnlyEmptyHasNoBytes(dedupId.value);
    }
  }

  /** The totals are sums: of one increment its amount, of two lists the sum of both. */
  lemma {:induction false} TotalIsAdditive(a: seq<Increment>, b: seq<Increment>, stat: string)
    ensures Total(a + b, stat) == Total(a, stat) + Total(b, stat)
    ensures |a| == 1 ==> Total(a, stat) == if a[0].stat == stat then a[0].amount else 0
  {
    if b == [] {
      assert a + b == a;
    } else {
      TotalIsAdditive(a, b[..|b| - 1], stat);
      assert (a + b)[..|a + b| - 1] == a + b[..|b| - 1];
    }
  }

  lemma AwardKeepsGood(s: State, cs: seq<Catalog>, c: Catalog, who: Who, increments: seq<Increment>,
                       dedupId: Option<string>, now: int, lost: Reads)
    requires ValidCatalogs(cs) && c in cs && Good(s, cs, who) && JudgeAward(s, c, who, increments, dedupId) == Applied
    ensures Good(AwardStep(s, cs, c, who, increments, dedupId, now, lost), cs, who)
  {
    CountersBehind(s, cs, c, who, increments, dedupId, now);
    var s2 := BeforeReconcile(s, c, who, increments, dedupId, now);
    ReconcileRestores(s2, cs, who, c, now);
    MetaKeepsGood(ReconcileModule(s2, who, c, now), cs, who, now, lost, who);
  }

  lemma AwardFrame(s: State, cs: seq<Catalog>, c: Catalog, who: Who, increments: seq<Increment>,
                   dedupId: Option<string>, now: int, lost: Reads, other: Who)
    requires ValidCatalogs(cs) && c in cs && other != who
    ensures SameFor(s, AwardStep(s, cs, c, who, increments, dedupId, now, lost), other)
  {
    if JudgeAward(s, c, who, increments, dedupId) == Applied {
      var s2 := BeforeReconcile(s, c, who, increments, dedupId, now);
      assert SameFor(s, s2, other);
      ReconcileFrame(s2, who, c, now, other);
      MetaStepMeans(ReconcileModule(s2, who, c, now), who, cs, now, lost);
    }
  }

  /** After every applied award the completion badge is held exactly by a complete collection, unless the query
      for one of its required achievements failed. */
  lemma AwardSettlesBadge(s: State, cs: seq<Catalog>, c: Catalog, who: Who, increments: seq<Increment>,
                          dedupId: Option<string>, now: int, lost: Reads)
    requires ValidCatalogs(cs) && JudgeAward(s, c, who, increments, dedupId) == Applied
    ensures var s' := AwardStep(s, cs, c, who, increments, dedupId, now, lost);
      BadgeSettled(s', cs, who) <==> !(Complete(s', who, cs) && MissesRequired(who, cs, lost.required))
  {
    MetaStepMeans(ReconcileModule(BeforeReconcile(s, c, who, increments, dedupId, now), who, c, now), who, cs, now,
      lost);
  }

  /** An applied award adds its increments to this profile's counters and to nothing else. */
  lemma AwardAddsToStats(s: State, cs: seq<Catalog>, c: Catalog, who: Who, increments: seq<Increment>,
                         dedupId: Option<string>, now: int, lost: Reads, other: Who, n: string, stat: string)
    requires ValidCatalogs(cs) && c in cs && JudgeAward(s, c, who, increments, dedupId) == Applied
    ensures StatOf(AwardStep(s, cs, c, who, increments, dedupId, now, lost), other, n, stat)
         == StatOf(s, other, n, stat) + if other == who && n == c.moduleName then Total(increments, stat) else 0
  {
    var s1 := if dedupId.Some? then s.(dedup := s.dedup[Row(who, c.moduleName, dedupId.value) := now]) else s;
    var s2 := AddStats(s1, who, c.moduleName, increments);
    AddedStat(s1, who, c.moduleName, increments, other, n, stat);
    ReconcileFrame(s2, who, c, now, other);
    MetaStepMeans(ReconcileModule(s2, who, c, now), who, cs, now, lost);
  }
}
