/** Every writer keeps every profile's rows exact, so every run does; what an opt-out promises over runs. */
module AchievementSafety {
  import opened Prelude
  import opened AchievementModel
  import opened AchievementPasses
  import opened AchievementRuns

  // ----- Backfill -----------------------------------------------------------------------------

  lemma SameForBehind(s: State, s': State, cs: seq<Catalog>, who: Who, m: string)
    requires ValidCatalogs(cs) && SameFor(s, s', who) && Behind(s, cs, who, m)
    ensures Behind(s', cs, who, m)
  {
    SameForStats(s, s', who);
    forall row: Row | row.who == who ensures IsExplained(s', cs, row) <==> IsExplained(s, cs, row) {
      SameStatsSameExplained(s, s', cs, row);
    }
    forall m, id ensures RankOf(s', who, m, id) == RankOf(s, who, m, id) {
      assert Row(who, m, id).who == who;
    }
    forall c | c in cs && c.moduleName != m ensures RanksOf(s', who, c) {
      assert RanksOf(s, who, c);
    }
    SameUnlocksSameComplete(s, s', who, cs);
  }

  /** Adding rows whose counters have reached their thresholds leaves the module, at most, behind. */
  lemma ExplainedRowsStayBehind(s: State, s': State, cs: seq<Catalog>, who: Who, m: string)
    requires Behind(s, cs, who, m) && s' == s.(unlocks := s'.unlocks)
    requires forall r :: r in s.unlocks ==> r in s'.unlocks
    requires forall r :: r in s'.unlocks && r !in s.unlocks ==> r.m == m && m != "meta" && IsExplained(s, cs, r)
    ensures Behind(s', cs, who, m)
  {
    forall row: Row | row.who == who ensures IsExplained(s', cs, row) <==> IsExplained(s, cs, row) {
      SameStatsSameExplained(s, s', cs, row);
    }
    forall c | c in cs && c.moduleName != m ensures RanksOf(s', who, c) {
      assert RanksOf(s, who, c);
    }
    MoreUnlocksKeepComplete(s, s', cs, who);
  }

  function Raised(s: State, who: Who, m: string, stat: string, value: nat): State {
    s.(stats := s.stats[Row(who, m, stat) := Max(StatOf(s, who, m, stat), value)])
  }

  lemma BackfillOneBehind(s: State, cs: seq<Catalog>, server: string, c: Catalog, v: SetMax, now: int)
    requires ValidCatalogs(cs) && c in cs && Eligible(s, (server, v.profileId))
    requires Behind(s, cs, (server, v.profileId), c.moduleName) && OptOutHonoured(s, (server, v.profileId))
    ensures Behind(BackfillOne(s, server, c, v, now), cs, (server, v.profileId), c.moduleName)
    ensures OptOutHonoured(BackfillOne(s, server, c, v, now), (server, v.profileId))
  {
    var who, m, items := (server, v.profileId), c.moduleName, c.manifest.achievements;
    var s1 := Raised(s, who, m, v.stat, v.value);
    GrowthPutsBehind(s, s1, cs, who, m);
    var s2 := UnlockReached(s1, who, m, items, v.stat, v.value, now);
    UnlockReachedMeans(s1, who, m, items, v.stat, v.value, now);
    forall r | r in s2.unlocks && r !in s1.unlocks ensures r.m == m && IsExplained(s1, cs, r) {
      var j :| ReachedIn(s1, who, m, items, j) && r == Row(who, m, items[j].id);
      NewRowIsExplained(s1, cs, who, c, j);
    }
    ExplainedRowsStayBehind(s1, s2, cs, who, m);
    MarkerIsIrrelevant(s2, BackfillOne(s, server, c, v, now), cs, who, m);
  }

  lemma MarkerIsIrrelevant(s: State, s': State, cs: seq<Catalog>, who: Who, m: string)
    requires Behind(s, cs, who, m) && s' == s.(backfills := s'.backfills)
    ensures Behind(s', cs, who, m)
  {
    GrowthPutsBehind(s, s', cs, who, m);
  }

  /** One backfilled value touches its own profile only, and only if that profile is eligible. */
  lemma BackfillOneFrame(s: State, server: string, c: Catalog, v: SetMax, now: int, other: Who)
    ensures BackfillOne(s, server, c, v, now).profiles == s.profiles
    ensures BackfillOne(s, server, c, v, now).dedup == s.dedup
    ensures other != (server, v.profileId) || !Eligible(s, other) ==>
      SameFor(s, BackfillOne(s, server, c, v, now), other)
  {
    var who, m := (server, v.profileId), c.moduleName;
    if Eligible(s, who) {
      var s1 := Raised(s, who, m, v.stat, v.value);
      UnlockReachedMeans(s1, who, m, c.manifest.achievements, v.stat, v.value, now);
    }
  }

  lemma {:induction false} BackfillValuesBehind(s: State, cs: seq<Catalog>, server: string, c: Catalog,
                                                values: seq<SetMax>, now: int, who: Who)
    requires ValidCatalogs(cs) && c in cs && Behind(s, cs, who, c.moduleName) && OptOutHonoured(s, who)
    ensures Behind(BackfillValues(s, server, c, values, now), cs, who, c.moduleName)
    ensures OptOutHonoured(BackfillValues(s, server, c, values, now), who)
    ensures BackfillValues(s, server, c, values, now).profiles == s.profiles
  {
    if values != [] {
      var rest, v := values[..|values| - 1], values[|values| - 1];
      BackfillValuesBehind(s, cs, server, c, rest, now, who);
      var before := BackfillValues(s, server, c, rest, now);
      BackfillOneFrame(before, server, c, v, now, who);
      if who == (server, v.profileId) && Eligible(before, who) {
        BackfillOneBehind(before, cs, server, c, v, now);
      } else {
        SameForBehind(before, BackfillOne(before, server, c, v, now), cs, who, c.moduleName);
      }
    }
  }

  lemma {:induction false} BackfillValuesFrame(s: State, server: string, c: Catalog, values: seq<SetMax>, now: int,
                                               who: Who)
    requires who !in Touched(s, server, values)
    ensures SameFor(s, BackfillValues(s, server, c, values, now), who)
    ensures BackfillValues(s, server, c, values, now).profiles == s.profiles
  {
    if values != [] {
      var rest, v := values[..|values| - 1], values[|values| - 1];
      forall i | 0 <= i < |rest| && Eligible(s, (server, rest[i].profileId))
        ensures (server, rest[i].profileId) in Touched(s, server, values)
      {
        assert values[i] == rest[i];
      }
      BackfillValuesFrame(s, server, c, rest, now, who);
      var before := BackfillValues(s, server, c, rest, now);
      assert who == (server, v.profileId) ==> !Eligible(s, who);
      BackfillOneFrame(before, server, c, v, now, who);
      SameForTransitive(s, before, BackfillOne(before, server, c, v, now), who);
    }
  }

  /** Reconciling a list of profiles makes each of them exact and leaves the others alone. */
  lemma {:induction false} ReconcileAllRestores(s: State, cs: seq<Catalog>, order: seq<Who>, c: Catalog, now: int,
                                                who: Who)
    requires ValidCatalogs(cs) && c in cs
    requires Behind(s, cs, who, c.moduleName) && OptOutHonoured(s, who) && (who in order ==> TakesPart(s, who))
    ensures ReconcileAll(s, order, c, now).profiles == s.profiles
    ensures who in order ==> Good(ReconcileAll(s, order, c, now), cs, who)
    ensures who !in order ==> SameFor(s, ReconcileAll(s, order, c, now), who)
  {
    if order != [] {
      var rest, last := order[..|order| - 1], order[|order| - 1];
      assert order == rest + [last];
      ReconcileAllRestores(s, cs, rest, c, now, who);
      var before := ReconcileAll(s, rest, c, now);
      ReconcileFrame(before, last, c, now, who);
      if who != last {
        if who in rest {
          SameForGood(before, ReconcileModule(before, last, c, now), cs, who);
        }
      } else {
        if who in rest {
          GoodIsBehind(before, cs, who, c.moduleName);
        } else {
          SameForBehind(s, before, cs, who, c.moduleName);
        }
        ReconcileRestores(before, cs, who, c, now);
      }
    }
  }

  lemma BackfillKeepsGood(s: State, cs: seq<Catalog>, server: string, c: Catalog, values: seq<SetMax>, order: seq<Who>,
                          now: int, who: Who)
    requires ValidCatalogs(cs) && c in cs && Lists(order, Touched(s, server, values)) && Good(s, cs, who)
    ensures Good(BackfillStep(s, server, c, values, order, now), cs, who)
    ensures BackfillStep(s, server, c, values, order, now).profiles == s.profiles
    ensures who !in Touched(s, server, values) ==> SameFor(s, BackfillStep(s, server, c, values, order, now), who)
  {
    if BackfillValid(s, server, c.manifest, values) {
      GoodIsBehind(s, cs, who, c.moduleName);
      BackfillValuesBehind(s, cs, server, c, values, now, who);
      var s1 := BackfillValues(s, server, c, values, now);
      ReconcileAllRestores(s1, cs, order, c, now, who);
      if who !in order {
        BackfillValuesFrame(s, server, c, values, now, who);
        SameForTransitive(s, s1, ReconcileAll(s1, order, c, now), who);
        SameForGood(s, ReconcileAll(s1, order, c, now), cs, who);
      }
    }
  }

  /** An applied backfill raises each eligible counter to at least every value sent for it. */
  lemma {:induction false} BackfillRaises(s: State, server: string, c: Catalog, values: seq<SetMax>, now: int, i: nat)
    requires i < |values| && Eligible(s, (server, values[i].profileId))
    ensures StatOf(BackfillValues(s, server, c, values, now), (server, values[i].profileId), c.moduleName,
      values[i].stat) >= values[i].value
    ensures BackfillValues(s, server, c, values, now).profiles == s.profiles
  {
    var rest, v := values[..|values| - 1], values[|values| - 1];
    var before, who := BackfillValues(s, server, c, rest, now), (server, values[i].profileId);
    if i < |rest| {
      assert rest[i] == values[i];
      BackfillRaises(s, server, c, rest, now, i);
      BackfillOneGrows(before, server, c, v, now, who, values[i].stat);
    } else {
      BackfillKeepsProfiles(s, server, c, rest, now);
      BackfillOneGrows(before, server, c, v, now, who, v.stat);
    }
  }

  lemma {:induction false} BackfillKeepsProfiles(s: State, server: string, c: Catalog, values: seq<SetMax>, now: int)
    ensures BackfillValues(s, server, c, values, now).profiles == s.profiles
    ensures BackfillValues(s, server, c, values, now).dedup == s.dedup
  {
    if values != [] {
      BackfillKeepsProfiles(s, server, c, values[..|values| - 1], now);
      BackfillOneFrame(BackfillValues(s, server, c, values[..|values| - 1], now), server, c, values[|values| - 1],
        now, ("", ""));
    }
  }

  lemma BackfillOneGrows(s: State, server: string, c: Catalog, v: SetMax, now: int, who: Who, stat: string)
    ensures BackfillOne(s, server, c, v, now).profiles == s.profiles
    ensures StatOf(BackfillOne(s, server, c, v, now), who, c.moduleName, stat) >= StatOf(s, who, c.moduleName, stat)
    ensures Eligible(s, who) && who == (server, v.profileId) && stat == v.stat ==>
      StatOf(BackfillOne(s, server, c, v, now), who, c.moduleName, stat) >= v.value
  {
    var own, m := (server, v.profileId), c.moduleName;
    if Eligible(s, own) {
      var s1 := Raised(s, own, m, v.stat, v.value);
      UnlockReachedMeans(s1, own, m, c.manifest.achievements, v.stat, v.value, now);
    }
  }

  // ----- Catalogue reconciliation -------------------------------------------------------------

  lemma {:induction false} NothingToUnlock(s: State, who: Who, m: string, items: seq<Achievement>, now: int)
    requires NoRows(s, who) && forall i :: 0 <= i < |items| ==> items[i].threshold > 0
    ensures UnlockPass(s, who, m, items, now) == s
    ensures CountUnlocked(s, who, m, items) == 0
  {
    if items != [] {
      NothingToUnlock(s, who, m, items[..|items| - 1], now);
      assert Row(who, m, items[|items| - 1].stat).who == who && Row(who, m, items[|items| - 1].id).who == who;
    }
  }

  lemma {:induction false} NothingToRank(s: State, who: Who, m: string, items: seq<Prestige>)
    requires NoRows(s, who) && forall i :: 0 <= i < |items| ==> items[i].firstThreshold > 0
    ensures PrestigePass(s, who, m, items) == s
  {
    if items != [] {
      NothingToRank(s, who, m, items[..|items| - 1]);
      assert Row(who, m, items[|items| - 1].stat).who == who;
    }
  }

  lemma {:induction false} NothingToCollect(s: State, who: Who, cs: seq<Catalog>, now: int)
    requires NoRows(s, who) && ValidCatalogs(cs)
    ensures ReconcileModules(s, who, cs, now) == s
    ensures CollectionSize(s, who, cs) == 0
  {
    if cs != [] {
      var c := cs[|cs| - 1];
      NothingToCollect(s, who, cs[..|cs| - 1], now);
      NothingToUnlock(s, who, c.moduleName, c.manifest.achievements, now);
      NothingToRank(s, who, c.moduleName, c.manifest.prestige);
    }
  }

  /** Thresholds above zero make the catalogue pass a no-op for a profile without rows. */
  lemma CatalogPassIgnoresTheEmpty(s: State, who: Who, cs: seq<Catalog>, now: int, lost: Reads)
    requires NoRows(s, who) && ValidCatalogs(cs)
    ensures ReconcileProfile(s, who, cs, now, lost) == s
  {
    NothingToCollect(s, who, cs, now);
    MetaIgnoresTheEmpty(s, who, cs, now, lost);
  }

  lemma MetaIgnoresTheEmpty(s: State, who: Who, cs: seq<Catalog>, now: int, lost: Reads)
    requires NoRows(s, who) && ValidCatalogs(cs)
    ensures MetaStep(s, who, cs, now, lost) == s
  {
    NothingSeenToCollect(s, who, cs, now, lost.counted);
    MilestonesNeedSome(s, who, MILESTONES, now);
    NoBadgeToDrop(s, who, cs, now, lost);
  }

  lemma NothingSeenToCollect(s: State, who: Who, cs: seq<Catalog>, now: int, lost: set<Row>)
    requires NoRows(s, who) && ValidCatalogs(cs)
    ensures CollectionSize(Seen(s, lost), who, cs) == 0
  {
    SeenHasNoRows(s, who, lost);
    NothingToCollect(Seen(s, lost), who, cs, now);
  }

  lemma SeenHasNoRows(s: State, who: Who, lost: set<Row>)
    requires NoRows(s, who)
    ensures NoRows(Seen(s, lost), who)
  {
  }

  lemma NoBadgeToDrop(s: State, who: Who, cs: seq<Catalog>, now: int, lost: Reads)
    requires NoRows(s, who)
    ensures SettleBadge(s, who, cs, now, lost) == s
  {
    NothingIsIncomplete(Seen(s, lost.required), who, cs);
    assert Row(who, "meta", WHOLE).who == who;
    assert s.unlocks - {Row(who, "meta", WHOLE)} == s.unlocks;
  }

  lemma NothingIsIncomplete(s: State, who: Who, cs: seq<Catalog>)
    requires NoRows(s, who)
    ensures !Complete(s, who, cs)
  {
    if SomethingRequired(cs) {
      var i, j :| 0 <= i < |cs| && 0 <= j < |cs[i].manifest.achievements| && IsRequired(cs, i, j);
      assert Row(who, cs[i].moduleName, cs[i].manifest.achievements[j].id).who == who;
    }
  }

  lemma {:induction false} MilestonesNeedSome(s: State, who: Who, milestones: seq<(string, nat)>, now: int)
    requires forall k :: 0 <= k < |milestones| ==> milestones[k].1 > 0
    ensures MilestonePass(s, who, 0, milestones, now) == s
  {
    if milestones != [] {
      MilestonesNeedSome(s, who, milestones[..|milestones| - 1], now);
    }
  }

  lemma {:induction false} ReconcileModulesKeepGood(s: State, cs: seq<Catalog>, done: seq<Catalog>, who: Who, now: int,
                                                    other: Who)
    requires ValidCatalogs(cs) && done <= cs && Good(s, cs, who) && TakesPart(s, who)
    ensures Good(ReconcileModules(s, who, done, now), cs, who)
    ensures ReconcileModules(s, who, done, now).profiles == s.profiles
    ensures other != who ==> SameFor(s, ReconcileModules(s, who, done, now), other)
  {
    if done != [] {
      var rest, c := done[..|done| - 1], done[|done| - 1];
      ReconcileModulesKeepGood(s, cs, rest, who, now, other);
      var before := ReconcileModules(s, who, rest, now);
      assert c == cs[|rest|];
      GoodIsBehind(before, cs, who, c.moduleName);
      ReconcileRestores(before, cs, who, c, now);
      ReconcileFrame(before, who, c, now, other);
    }
  }

  /** Reconciling one profile keeps everyone exact, and settles that profile's badge. */
  lemma ReconcileProfileKeepsGood(s: State, cs: seq<Catalog>, who: Who, now: int, lost: Reads, other: Who)
    requires ValidCatalogs(cs) && Good(s, cs, who) && Good(s, cs, other)
    ensures Good(ReconcileProfile(s, who, cs, now, lost), cs, other)
    ensures ReconcileProfile(s, who, cs, now, lost).profiles == s.profiles
    ensures other != who ==> SameFor(s, ReconcileProfile(s, who, cs, now, lost), other)
    ensures SettledUnlessMissed(ReconcileProfile(s, who, cs, now, lost), cs, who, lost)
  {
    MetaStepMeans(ReconcileModules(s, who, cs, now), who, cs, now, lost);
    if TakesPart(s, who) {
      ReconcileModulesKeepGood(s, cs, cs, who, now, other);
      MetaKeepsGood(ReconcileModules(s, who, cs, now), cs, who, now, lost, other);
      if other != who {
        SameForTransitive(s, ReconcileModules(s, who, cs, now), ReconcileProfile(s, who, cs, now, lost), other);
        SameForGood(s, ReconcileProfile(s, who, cs, now, lost), cs, other);
      }
    } else {
      CatalogPassIgnoresTheEmpty(s, who, cs, now, lost);
    }
  }

  ghost predicate SettledUnlessMissed(s: State, cs: seq<Catalog>, who: Who, lost: Reads) {
    BadgeSettled(s, cs, who) <==> !(Complete(s, who, cs) && MissesRequired(who, cs, lost.required))
  }

  lemma {:induction false} CatalogKeepsInv(s: State, cs: seq<Catalog>, order: seq<Who>, now: int, lost: Reads)
    requires ValidCatalogs(cs) && Inv(s, cs)
    ensures Inv(CatalogStep(s, order, cs, now, lost), cs)
    ensures CatalogStep(s, order, cs, now, lost).profiles == s.profiles
  {
    if order != [] {
      var rest, last := order[..|order| - 1], order[|order| - 1];
      CatalogKeepsInv(s, cs, rest, now, lost);
      var before := CatalogStep(s, rest, cs, now, lost);
      forall who ensures Good(ReconcileProfile(before, last, cs, now, lost), cs, who) {
        assert Good(before, cs, last) && Good(before, cs, who);
        ReconcileProfileKeepsGood(before, cs, last, now, lost, who);
      }
      ReconcileProfileKeepsGood(before, cs, last, now, lost, last);
    }
  }

  /** After a catalogue pass the completion badge of every profile visited is held exactly by a complete
      collection, unless the query for one of its required achievements failed. */
  lemma {:induction false} CatalogSettlesBadges(s: State, cs: seq<Catalog>, order: seq<Who>, now: int, lost: Reads,
                                                who: Who)
    requires ValidCatalogs(cs) && Inv(s, cs) && who in order
    ensures SettledUnlessMissed(CatalogStep(s, order, cs, now, lost), cs, who, lost)
  {
    var rest, last := order[..|order| - 1], order[|order| - 1];
    assert order == rest + [last];
    CatalogKeepsInv(s, cs, rest, now, lost);
    var before := CatalogStep(s, rest, cs, now, lost);
    assert Good(before, cs, last) && Good(before, cs, who);
    ReconcileProfileKeepsGood(before, cs, last, now, lost, who);
    if who != last {
      CatalogSettlesBadges(s, cs, rest, now, lost, who);
      SameUnlocksSameComplete(before, CatalogStep(s, order, cs, now, lost), who, cs);
      assert Row(who, "meta", WHOLE).who == who;
    }
  }

  /** A catalogue pass changes no counter and forgets no event. */
  lemma {:induction false} CatalogKeepsStats(s: State, cs: seq<Catalog>, order: seq<Who>, now: int, lost: Reads)
    requires ValidCatalogs(cs)
    ensures CatalogStep(s, order, cs, now, lost).stats == s.stats
    ensures CatalogStep(s, order, cs, now, lost).dedup == s.dedup
    ensures CatalogStep(s, order, cs, now, lost).profiles == s.profiles
  {
    if order != [] {
      var before, who := CatalogStep(s, order[..|order| - 1], cs, now, lost), order[|order| - 1];
      CatalogKeepsStats(s, cs, order[..|order| - 1], now, lost);
      ReconcileModulesKeepStats(before, cs, cs, who, now);
      MetaStepMeans(ReconcileModules(before, who, cs, now), who, cs, now, lost);
    }
  }

  lemma {:induction false} ReconcileModulesKeepStats(s: State, cs: seq<Catalog>, done: seq<Catalog>, who: Who, now: int)
    requires ValidCatalogs(cs) && done <= cs
    ensures ReconcileModules(s, who, done, now).stats == s.stats && ReconcileModules(s, who, done, now).dedup == s.dedup
    ensures ReconcileModules(s, who, done, now).profiles == s.profiles
  {
    if done != [] {
      var rest := done[..|done| - 1];
      ReconcileModulesKeepStats(s, cs, rest, who, now);
      assert done[|rest|] == cs[|rest|];
      ReconcileKeepsStats(ReconcileModules(s, who, rest, now), who, done[|rest|], now);
    }
  }

  lemma ReconcileKeepsStats(s: State, who: Who, c: Catalog, now: int)
    requires ValidManifest(c.manifest)
    ensures var s' := ReconcileModule(s, who, c, now);
      s'.stats == s.stats && s'.dedup == s.dedup && s'.profiles == s.profiles
  {
    ReconcileFrame(s, who, c, now, who);
  }

  // ----- The other writers --------------------------------------------------------------------

  /** Without rows everything is exact. */
  lemma EmptyIsGood(s: State, cs: seq<Catalog>, who: Who)
    requires ValidCatalogs(cs) && NoRows(s, who)
    requires who in s.profiles && s.profiles[who].optOut ==> s.profiles[who].blocked && !s.profiles[who].isPublic
    ensures Good(s, cs, who)
  {
    forall m, stat ensures StatOf(s, who, m, stat) == 0 && RankOf(s, who, m, stat) == 0 {
      assert Row(who, m, stat).who == who;
    }
    assert forall row: Row :: row.who == who ==> !IsExplained(s, cs, row);
    forall c | c in cs ensures RanksOf(s, who, c) {
    }
    assert Row(who, "meta", WHOLE).who == who;
  }

  lemma DeletedRows(s: State, who: Who, other: Who)
    ensures NoRows(DeleteRows(s, who), who)
    ensures other != who ==> SameFor(s, DeleteRows(s, who), other)
  {
  }

  lemma FlagsKeepGood(s: State, s': State, cs: seq<Catalog>, who: Who)
    requires ValidCatalogs(cs) && Good(s, cs, who) && s' == s.(profiles := s'.profiles)
    requires OptOutHonoured(s', who)
    ensures Good(s', cs, who)
  {
    forall row: Row | row.who == who && row.m != "meta" ensures row in s'.unlocks <==> IsExplained(s', cs, row) {
      SameStatsSameExplained(s, s', cs, row);
    }
    forall c | c in cs ensures RanksOf(s', who, c) {
      assert RanksOf(s, who, c);
    }
  }

  /** Opting out wipes the profile's rows, closes it to backfills and takes it out of the gallery; opting
      in only lifts the flag. Nobody else is touched. */
  lemma OptOutMeans(s: State, target: Who, optOut: bool, who: Who)
    requires target in s.profiles
    ensures who != target ==> SameFor(s, OptOutStep(s, target, optOut), who)
    ensures optOut ==> NoRows(OptOutStep(s, target, optOut), target)
    ensures !optOut ==> OptOutStep(s, target, optOut) == s.(profiles := OptOutStep(s, target, optOut).profiles)
    ensures target in OptOutStep(s, target, optOut).profiles
    ensures var was, now := s.profiles[target], OptOutStep(s, target, optOut).profiles[target];
      && now.optOut == optOut && now.blocked == (was.blocked || optOut) && now.isPublic == (was.isPublic && !optOut)
  {
    var f := s.profiles[target];
    var s1 := s.(profiles := s.profiles[target := Flags(optOut, f.blocked || optOut, f.isPublic && !optOut)]);
    assert who != target ==> SameFor(s, s1, who);
    DeletedRows(s1, target, who);
  }

  lemma OptOutKeepsGood(s: State, cs: seq<Catalog>, target: Who, optOut: bool, who: Who)
    requires ValidCatalogs(cs) && Good(s, cs, who)
    ensures Good(OptOutStep(s, target, optOut), cs, who)
  {
    if target in s.profiles {
      OptOutMeans(s, target, optOut, who);
      if who != target {
        SameForGood(s, OptOutStep(s, target, optOut), cs, who);
      } else if optOut {
        EmptyIsGood(OptOutStep(s, target, optOut), cs, who);
      } else {
        FlagsKeepGood(s, OptOutStep(s, target, optOut), cs, who);
      }
    }
  }

  /** Reading a summary changes nothing, unless the badge is held and the query for a required achievement
      fails: then the badge is deleted. */
  lemma ReadChangesNothingIff(s: State, cs: seq<Catalog>, who: Who, lost: set<Row>)
    requires BadgeEarned(s, cs, who)
    ensures ReadStep(s, who, cs, lost) == s <==>
      !(Row(who, "meta", WHOLE) in s.unlocks && MissesRequired(who, cs, lost))
    ensures Row(who, "meta", WHOLE) in ReadStep(s, who, cs, lost).unlocks
      <==> Row(who, "meta", WHOLE) in s.unlocks && !MissesRequired(who, cs, lost)
  {
    SeenCompleteIff(s, who, cs, lost);
    if Row(who, "meta", WHOLE) !in s.unlocks {
      assert s.unlocks - {Row(who, "meta", WHOLE)} == s.unlocks;
    }
  }

  /** A badge deleted early leaves everything else exact. */
  lemma ReadKeepsGood(s: State, cs: seq<Catalog>, target: Who, lost: set<Row>, who: Who)
    requires ValidCatalogs(cs) && Good(s, cs, who)
    ensures Good(ReadStep(s, target, cs, lost), cs, who)
  {
    var s' := ReadStep(s, target, cs, lost);
    SeenCompleteIff(s, target, cs, lost);
    assert forall r :: r in s'.unlocks ==> r in s.unlocks;
    SameUnlocksSameComplete(s, s', who, cs);
    CollectionKeepsGood(s, s', cs, who);
  }

  // ----- The invariant ------------------------------------------------------------------------

  lemma NewProfileKeepsGood(s: State, cs: seq<Catalog>, target: Who, who: Who)
    requires ValidCatalogs(cs) && Good(s, cs, who)
    ensures Good(NewProfileStep(s, target), cs, who)
  {
    FlagsKeepGood(s, NewProfileStep(s, target), cs, who);
  }

  lemma AnyAwardKeepsGood(s: State, cs: seq<Catalog>, c: Catalog, target: Who, increments: seq<Increment>,
                          dedupId: Option<string>, now: int, lost: Reads, who: Who)
    requires ValidCatalogs(cs) && c in cs && Good(s, cs, who)
    ensures Good(AwardStep(s, cs, c, target, increments, dedupId, now, lost), cs, who)
  {
    if target != who {
      AwardFrame(s, cs, c, target, increments, dedupId, now, lost, who);
      SameForGood(s, AwardStep(s, cs, c, target, increments, dedupId, now, lost), cs, who);
    } else if JudgeAward(s, c, who, increments, dedupId) == Applied {
      AwardKeepsGood(s, cs, c, who, increments, dedupId, now, lost);
    }
  }

  lemma EraseKeepsGood(s: State, cs: seq<Catalog>, target: Who, who: Who)
    requires ValidCatalogs(cs) && Good(s, cs, who)
    ensures Good(EraseStep(s, target), cs, who)
  {
    var s1 := s.(profiles := s.profiles - {target});
    DeletedRows(s1, target, who);
    if target == who {
      EmptyIsGood(EraseStep(s, target), cs, who);
    } else {
      SameForTransitive(s, s1, EraseStep(s, target), who);
      SameForGood(s, EraseStep(s, target), cs, who);
    }
  }

  lemma GoodOf(s: State, cs: seq<Catalog>, who: Who)
    requires Inv(s, cs)
    ensures Good(s, cs, who)
  {
  }

  lemma PublishKeepsGood(s: State, cs: seq<Catalog>, target: Who, isPublic: bool, who: Who)
    requires ValidCatalogs(cs) && Good(s, cs, who)
    ensures Good(PublicStep(s, target, isPublic), cs, who)
  {
    FlagsKeepGood(s, PublicStep(s, target, isPublic), cs, who);
  }

  lemma CatalogKeepsGood(s: State, cs: seq<Catalog>, order: seq<Who>, now: int, lost: Reads, who: Who)
    requires ValidCatalogs(cs) && Inv(s, cs)
    ensures Good(CatalogStep(s, order, cs, now, lost), cs, who)
  {
    CatalogKeepsInv(s, cs, order, now, lost);
  }

  lemma StepKeepsGood(s: State, cs: seq<Catalog>, e: Event, who: Who)
    requires ValidCatalogs(cs) && Inv(s, cs) && Enabled(s, cs, e)
    ensures Good(Step(s, cs, e), cs, who)
  {
    GoodOf(s, cs, who);
    match e
    case NewProfile(target) =>
      NewProfileKeepsGood(s, cs, target, who);
    case Award(c, target, increments, dedupId, now, lost) =>
      AnyAwardKeepsGood(s, cs, c, target, increments, dedupId, now, lost, who);
    case Backfill(server, c, values, order, now) =>
      BackfillKeepsGood(s, cs, server, c, values, order, now, who);
    case Reconcile(order, now, lost) =>
      CatalogKeepsGood(s, cs, order, now, lost, who);
    case OptOut(target, optOut) =>
      OptOutKeepsGood(s, cs, target, optOut, who);
    case Publish(target, isPublic) =>
      PublishKeepsGood(s, cs, target, isPublic, who);
    case Read(target, unread) =>
      ReadKeepsGood(s, cs, target, unread, who);
    case Erase(target) =>
      EraseKeepsGood(s, cs, target, who);
  }

  lemma {:induction false} RunKeepsInv(s: State, cs: seq<Catalog>, es: seq<Event>)
    requires ValidCatalogs(cs) && Inv(s, cs) && Runnable(s, cs, es)
    ensures Inv(Exec(s, cs, es), cs)
    decreases |es|
  {
    if es != [] {
      var s' := Step(s, cs, es[0]);
      forall who ensures Good(s', cs, who) {
        StepKeepsGood(s, cs, es[0], who);
      }
      RunKeepsInv(s', cs, es[1..]);
    }
  }

  const EMPTY := State(map[], map[], map[], map[], map[], map[])

  lemma EmptyStoreIsGood(cs: seq<Catalog>)
    requires ValidCatalogs(cs)
    ensures Inv(EMPTY, cs)
  {
    forall who ensures Good(EMPTY, cs, who) {
      EmptyIsGood(EMPTY, cs, who);
    }
  }

  // ----- What holds in every reachable state ---------------------------------------------------

  /** In every reachable state a row of a loaded achievement exists exactly when the counter has reached the
      threshold, and every rank is the closed formula on its counter. */
  lemma DerivedTablesAreExact(cs: seq<Catalog>, es: seq<Event>, who: Who, i: nat, j: nat, k: nat)
    requires ValidCatalogs(cs) && Runnable(EMPTY, cs, es)
    requires i < |cs| && j < |cs[i].manifest.achievements|
    ensures var s, c := Exec(EMPTY, cs, es), cs[i];
      var a := c.manifest.achievements[j];
      && (Row(who, c.moduleName, a.id) in s.unlocks <==> StatOf(s, who, c.moduleName, a.stat) >= a.threshold)
      && (k < |c.manifest.prestige| ==>
            var p := c.manifest.prestige[k];
            RankOf(s, who, c.moduleName, p.id) == Rank(p, StatOf(s, who, c.moduleName, p.stat)))
  {
    EmptyStoreIsGood(cs);
    RunKeepsInv(EMPTY, cs, es);
    var s, c := Exec(EMPTY, cs, es), cs[i];
    assert Good(s, cs, who);
    assert c in cs && RanksOf(s, who, c);
    RowIffReached(s, cs, who, i, j);
    if k < |c.manifest.prestige| {
      assert c.manifest.prestige[k] in c.manifest.prestige;
    }
  }

  lemma RowIffReached(s: State, cs: seq<Catalog>, who: Who, i: nat, j: nat)
    requires ValidCatalogs(cs) && UnlocksExact(s, cs, who) && i < |cs| && j < |cs[i].manifest.achievements|
    ensures Row(who, cs[i].moduleName, cs[i].manifest.achievements[j].id) in s.unlocks <==> Reached(s, who, cs[i], j)
  {
    var c := cs[i];
    var row := Row(who, c.moduleName, c.manifest.achievements[j].id);
    if Reached(s, who, c, j) {
      NewRowIsExplained(s, cs, who, c, j);
    }
    if row in s.unlocks {
      var j' := ExplainedIsReached(s, cs, c, row);
      assert j' == j;
    }
  }

  function CountReached(s: State, who: Who, m: string, items: seq<Achievement>): nat {
    if items == [] then 0
    else
      var a := items[|items| - 1];
      CountReached(s, who, m, items[..|items| - 1]) + (if StatOf(s, who, m, a.stat) >= a.threshold then 1 else 0)
  }

  /** What a summary counts as earned, from the counters of the loaded catalogues. */
  function SummaryEarned(s: State, who: Who, cs: seq<Catalog>): nat {
    if cs == [] then 0
    else
      var c := cs[|cs| - 1];
      SummaryEarned(s, who, cs[..|cs| - 1]) + CountReached(s, who, c.moduleName, c.manifest.achievements)
  }

  lemma {:induction false} CountsAgree(s: State, cs: seq<Catalog>, who: Who, i: nat, items: seq<Achievement>)
    requires ValidCatalogs(cs) && UnlocksExact(s, cs, who) && i < |cs| && items <= cs[i].manifest.achievements
    ensures CountReached(s, who, cs[i].moduleName, items) == CountUnlocked(s, who, cs[i].moduleName, items)
  {
    if items != [] {
      var rest := items[..|items| - 1];
      CountsAgree(s, cs, who, i, rest);
      RowIffReached(s, cs, who, i, |rest|);
      assert items[|rest|] == cs[i].manifest.achievements[|rest|];
    }
  }

  /** A summary counts from the counters, the collection milestones count rows: the two numbers agree. */
  lemma {:induction false} SummaryAgreesWithRows(s: State, cs: seq<Catalog>, who: Who, done: seq<Catalog>)
    requires ValidCatalogs(cs) && Good(s, cs, who) && done <= cs
    ensures SummaryEarned(s, who, done) == CollectionSize(s, who, done)
  {
    if done != [] {
      SummaryAgreesWithRows(s, cs, who, done[..|done| - 1]);
      assert done[|done| - 1] == cs[|done| - 1];
      CountsAgree(s, cs, who, |done| - 1, cs[|done| - 1].manifest.achievements);
    }
  }

  /** In every reachable state an opted-out or erased profile has no row in any of the five tables; an
      opted-out one is not public and is closed to backfills. */
  lemma OptOutIsHonoured(cs: seq<Catalog>, es: seq<Event>, who: Who)
    requires ValidCatalogs(cs) && Runnable(EMPTY, cs, es)
    ensures OptOutHonoured(Exec(EMPTY, cs, es), who)
  {
    EmptyStoreIsGood(cs);
    RunKeepsInv(EMPTY, cs, es);
    assert Good(Exec(EMPTY, cs, es), cs, who);
  }

  // ----- After a reset ------------------------------------------------------------------------

  /** This event starts the profile's counters over. */
  predicate Resets(e: Event, who: Who) {
    (e.OptOut? && e.who == who && e.optOut) || (e.Erase? && e.who == who)
  }

  /** What this event adds to a counter when it is a live award. */
  ghost function Earns(s: State, e: Event, who: Who, m: string, stat: string): nat {
    if e.Award? && e.who == who && e.c.moduleName == m && IsLive(s, e.c, e.who, e.increments, e.dedupId)
    then Total(e.increments, stat) else 0
  }

  ghost function Earned(s: State, cs: seq<Catalog>, es: seq<Event>, who: Who, m: string, stat: string): nat
    decreases |es|
  {
    if es == [] then 0
    else Earns(s, es[0], who, m, stat) + Earned(Step(s, cs, es[0]), cs, es[1..], who, m, stat)
  }

  predicate IsBlocked(s: State, who: Who) {
    who in s.profiles && s.profiles[who].blocked
  }

  lemma StepOfABlockedProfile(s: State, cs: seq<Catalog>, e: Event, who: Who, m: string, stat: string)
    requires ValidCatalogs(cs) && Inv(s, cs) && Enabled(s, cs, e) && IsBlocked(s, who) && !Resets(e, who)
    ensures IsBlocked(Step(s, cs, e), who)
    ensures StatOf(Step(s, cs, e), who, m, stat) == StatOf(s, who, m, stat) + Earns(s, e, who, m, stat)
  {
    assert Good(s, cs, who);
    match e
    case Award(_, _, _, _, _, _) =>
      AwardEarns(s, cs, e, who, m, stat);
    case Backfill(server, c, values, order, now) =>
      BackfillKeepsGood(s, cs, server, c, values, order, now, who);
      SameForStats(s, Step(s, cs, e), who);
    case Reconcile(order, now, lost) =>
      CatalogKeepsStats(s, cs, order, now, lost);
    case Read(_, _) =>
    case OptOut(target, optOut) =>
      if target in s.profiles {
        OptOutMeans(s, target, optOut, who);
        SameStatsAfterOptOut(s, target, optOut, who);
      }
    case Erase(target) =>
      DeletedRows(s.(profiles := s.profiles - {target}), target, who);
      SameForStats(s, EraseStep(s, target), who);
    case NewProfile(_) =>
    case Publish(_, _) =>
  }

  lemma SameStatsAfterOptOut(s: State, target: Who, optOut: bool, who: Who)
    requires target in s.profiles && (who != target || !optOut)
    ensures forall m, stat :: StatOf(OptOutStep(s, target, optOut), who, m, stat) == StatOf(s, who, m, stat)
  {
    OptOutMeans(s, target, optOut, who);
    if who != target {
      SameForStats(s, OptOutStep(s, target, optOut), who);
    }
  }

  lemma AwardEarns(s: State, cs: seq<Catalog>, e: Event, who: Who, m: string, stat: string)
    requires ValidCatalogs(cs) && Enabled(s, cs, e) && e.Award?
    ensures Step(s, cs, e).profiles == s.profiles
    ensures StatOf(Step(s, cs, e), who, m, stat) == StatOf(s, who, m, stat) + Earns(s, e, who, m, stat)
  {
    AppliesIffLive(s, e.c, e.who, e.increments, e.dedupId);
    if IsLive(s, e.c, e.who, e.increments, e.dedupId) {
      AwardAddsToStats(s, cs, e.c, e.who, e.increments, e.dedupId, e.now, e.lost, who, m, stat);
      AwardKeepsProfiles(s, cs, e.c, e.who, e.increments, e.dedupId, e.now, e.lost);
    }
  }

  lemma AwardKeepsProfiles(s: State, cs: seq<Catalog>, c: Catalog, who: Who, increments: seq<Increment>,
                           dedupId: Option<string>, now: int, lost: Reads)
    requires ValidCatalogs(cs) && c in cs && JudgeAward(s, c, who, increments, dedupId) == Applied
    ensures AwardStep(s, cs, c, who, increments, dedupId, now, lost).profiles == s.profiles
  {
    var s2 := BeforeReconcile(s, c, who, increments, dedupId, now);
    ReconcileFrame(s2, who, c, now, who);
    MetaStepMeans(ReconcileModule(s2, who, c, now), who, cs, now, lost);
  }

  /** Until its next reset a closed profile's counters grow by exactly the live awards that applied,
      whatever backfills and reconciliations come in between. */
  lemma {:induction false} OnlyLiveAwardsCount(s: State, cs: seq<Catalog>, es: seq<Event>, who: Who, m: string,
                                               stat: string)
    requires ValidCatalogs(cs) && Inv(s, cs) && Runnable(s, cs, es) && IsBlocked(s, who)
    requires forall i :: 0 <= i < |es| ==> !Resets(es[i], who)
    ensures StatOf(Exec(s, cs, es), who, m, stat) == StatOf(s, who, m, stat) + Earned(s, cs, es, who, m, stat)
    ensures IsBlocked(Exec(s, cs, es), who)
    decreases |es|
  {
    if es != [] {
      var s' := Step(s, cs, es[0]);
      StepOfABlockedProfile(s, cs, es[0], who, m, stat);
      forall w ensures Good(s', cs, w) {
        StepKeepsGood(s, cs, es[0], w);
      }
      OnlyLiveAwardsCount(s', cs, es[1..], who, m, stat);
    }
  }

  /** After an opt-out, and however often the profile opts back in, every counter is the sum of the live
      awards applied since. */
  lemma CountersSinceOptOut(s: State, cs: seq<Catalog>, es: seq<Event>, who: Who, m: string, stat: string)
    requires ValidCatalogs(cs) && Inv(s, cs) && who in s.profiles
    requires Runnable(OptOutStep(s, who, true), cs, es)
    requires forall i :: 0 <= i < |es| ==> !Resets(es[i], who)
    ensures StatOf(Exec(OptOutStep(s, who, true), cs, es), who, m, stat)
         == Earned(OptOutStep(s, who, true), cs, es, who, m, stat)
  {
    var s1 := OptOutStep(s, who, true);
    forall w ensures Good(s1, cs, w) {
      assert Good(s, cs, w);
      OptOutKeepsGood(s, cs, who, true, w);
    }
    OnlyLiveAwardsCount(s1, cs, es, who, m, stat);
    assert Row(who, m, stat) !in s1.stats;
  }

  // ----- Idempotent awards ----------------------------------------------------------------------

  lemma AwardRemembers(s: State, cs: seq<Catalog>, c: Catalog, who: Who, increments: seq<Increment>,
                       dedupId: Option<string>, now: int, lost: Reads)
    requires ValidCatalogs(cs) && c in cs && JudgeAward(s, c, who, increments, dedupId) == Applied
    ensures AwardStep(s, cs, c, who, increments, dedupId, now, lost).dedup
      == if dedupId.Some? then s.dedup[Row(who, c.moduleName, dedupId.value) := now] else s.dedup
  {
    var s2 := BeforeReconcile(s, c, who, increments, dedupId, now);
    ReconcileFrame(s2, who, c, now, who);
    MetaStepMeans(ReconcileModule(s2, who, c, now), who, cs, now, lost);
  }

  lemma {:induction false} ReconcileAllKeepsDedup(s: State, cs: seq<Catalog>, order: seq<Who>, c: Catalog, now: int)
    requires ValidCatalogs(cs) && c in cs
    ensures ReconcileAll(s, order, c, now).dedup == s.dedup
  {
    if order != [] {
      ReconcileAllKeepsDedup(s, cs, order[..|order| - 1], c, now);
      ReconcileFrame(ReconcileAll(s, order[..|order| - 1], c, now), order[|order| - 1], c, now, ("", ""));
    }
  }

  lemma StepKeepsEvent(s: State, cs: seq<Catalog>, e: Event, row: Row)
    requires ValidCatalogs(cs) && Enabled(s, cs, e) && row in s.dedup && !Resets(e, row.who)
    ensures row in Step(s, cs, e).dedup
  {
    match e
    case Award(c, who, increments, dedupId, now, lost) =>
      if JudgeAward(s, c, who, increments, dedupId) == Applied {
        AwardRemembers(s, cs, c, who, increments, dedupId, now, lost);
      }
    case Backfill(server, c, values, order, now) =>
      BackfillKeepsProfiles(s, server, c, values, now);
      ReconcileAllKeepsDedup(BackfillValues(s, server, c, values, now), cs, order, c, now);
    case Reconcile(order, now, lost) =>
      CatalogKeepsStats(s, cs, order, now, lost);
    case NewProfile(_) =>
    case OptOut(_, _) =>
    case Publish(_, _) =>
    case Read(_, _) =>
    case Erase(_) =>
  }

  lemma {:induction false} RunKeepsEvent(s: State, cs: seq<Catalog>, es: seq<Event>, row: Row)
    requires ValidCatalogs(cs) && Runnable(s, cs, es) && row in s.dedup
    requires forall i :: 0 <= i < |es| ==> !Resets(es[i], row.who)
    ensures row in Exec(s, cs, es).dedup
    decreases |es|
  {
    if es != [] {
      StepKeepsEvent(s, cs, es[0], row);
      RunKeepsEvent(Step(s, cs, es[0]), cs, es[1..], row);
    }
  }

  /** An event that was applied once is never applied again before the profile's next reset, whatever
      increments a repetition carries. */
  lemma EventCountsOnce(s: State, cs: seq<Catalog>, c: Catalog, who: Who, first: seq<Increment>, again: seq<Increment>,
                        id: string, now: int, lost: Reads, es: seq<Event>, later: int, lost': Reads)
    requires ValidCatalogs(cs) && c in cs && IsLive(s, c, who, first, Some(id))
    requires Runnable(AwardStep(s, cs, c, who, first, Some(id), now, lost), cs, es)
    requires forall i :: 0 <= i < |es| ==> !Resets(es[i], who)
    ensures var s' := Exec(AwardStep(s, cs, c, who, first, Some(id), now, lost), cs, es);
      AwardStep(s', cs, c, who, again, Some(id), later, lost') == s'
  {
    AppliesIffLive(s, c, who, first, Some(id));
    AwardRemembers(s, cs, c, who, first, Some(id), now, lost);
    RememberedIsNotApplied(AwardStep(s, cs, c, who, first, Some(id), now, lost), cs, es, c, who, again, id);
  }

  lemma RememberedIsNotApplied(s: State, cs: seq<Catalog>, es: seq<Event>, c: Catalog, who: Who, again: seq<Increment>,
                               id: string)
    requires ValidCatalogs(cs) && Runnable(s, cs, es) && Row(who, c.moduleName, id) in s.dedup
    requires forall i :: 0 <= i < |es| ==> !Resets(es[i], who)
    ensures JudgeAward(Exec(s, cs, es), c, who, again, Some(id)) != Applied
  {
    RunKeepsEvent(s, cs, es, Row(who, c.moduleName, id));
    assert IsDuplicate(Exec(s, cs, es), who, c.moduleName, Some(id));
  }
}
