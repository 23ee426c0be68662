/** What awards, backfills, erasures and the gallery flag do to each table, stated from the request and the rows
    alone, and that every stored counter fits its column. */
module AchievementEffects {
  import opened Prelude
  import opened AchievementModel
  import opened AchievementPasses
  import opened AchievementRuns
  import opened AchievementSafety

  // ----- Awards -------------------------------------------------------------------------------

  /** A live award adds its totals to the profile's counters of this module, remembers its event and changes no
      other counter, event, flag or marker; any other award changes nothing at all. */
  lemma AwardMeans(s: State, cs: seq<Catalog>, c: Catalog, who: Who, increments: seq<Increment>,
                   dedupId: Option<string>, now: int, lost: Reads)
    requires ValidCatalogs(cs) && c in cs
    ensures var s' := AwardStep(s, cs, c, who, increments, dedupId, now, lost);
      if IsLive(s, c, who, increments, dedupId) then
        && (forall other, m, stat ::
              StatOf(s', other, m, stat) == StatOf(s, other, m, stat)
              + if other == who && m == c.moduleName then Total(increments, stat) else 0)
        && s'.dedup == (if dedupId.Some? then s.dedup[Row(who, c.moduleName, dedupId.value) := now] else s.dedup)
        && s'.profiles == s.profiles && s'.backfills == s.backfills
      else s' == s
  {
    AppliesIffLive(s, c, who, increments, dedupId);
    if IsLive(s, c, who, increments, dedupId) {
      var s' := AwardStep(s, cs, c, who, increments, dedupId, now, lost);
      forall other, m, stat
        ensures StatOf(s', other, m, stat) == StatOf(s, other, m, stat)
          + if other == who && m == c.moduleName then Total(increments, stat) else 0
      {
        AwardAddsToStats(s, cs, c, who, increments, dedupId, now, lost, other, m, stat);
      }
      AwardRemembers(s, cs, c, who, increments, dedupId, now, lost);
      AwardKeepsProfiles(s, cs, c, who, increments, dedupId, now, lost);
      AwardKeepsMarkers(s, cs, c, who, increments, dedupId, now, lost);
    }
  }

  lemma AwardKeepsMarkers(s: State, cs: seq<Catalog>, c: Catalog, who: Who, increments: seq<Increment>,
                          dedupId: Option<string>, now: int, lost: Reads)
    requires ValidCatalogs(cs) && c in cs && JudgeAward(s, c, who, increments, dedupId) == Applied
    ensures AwardStep(s, cs, c, who, increments, dedupId, now, lost).backfills == s.backfills
  {
    var s2 := BeforeReconcile(s, c, who, increments, dedupId, now);
    ReconcileFrame(s2, who, c, now, who);
    MetaStepMeans(ReconcileModule(s2, who, c, now), who, cs, now, lost);
  }

  // ----- Backfills ----------------------------------------------------------------------------

  /** A value for this counter among those sent. */
  predicate Sends(values: seq<SetMax>, i: int, profileId: string, stat: string) {
    0 <= i < |values| && values[i].profileId == profileId && values[i].stat == stat
  }

  /** The largest of a counter's old value and the values sent for it. */
  ghost predicate IsLargest(r: nat, was: nat, values: seq<SetMax>, profileId: string, stat: string) {
    && was <= r && (forall i :: Sends(values, i, profileId, stat) ==> values[i].value <= r)
    && (r == was || exists i :: Sends(values, i, profileId, stat) && values[i].value == r)
  }

  lemma BackfillOneStat(s: State, server: string, c: Catalog, v: SetMax, now: int, who: Who, m: string, stat: string)
    ensures StatOf(BackfillOne(s, server, c, v, now), who, m, stat)
      == if Eligible(s, who) && who == (server, v.profileId) && m == c.moduleName && stat == v.stat
         then Max(StatOf(s, who, m, stat), v.value)
         else StatOf(s, who, m, stat)
  {
    var own := (server, v.profileId);
    if Eligible(s, own) {
      var s1 := Raised(s, own, c.moduleName, v.stat, v.value);
      UnlockReachedMeans(s1, own, c.moduleName, c.manifest.achievements, v.stat, v.value, now);
    }
  }

  lemma OneMoreSent(was: nat, before: nat, values: seq<SetMax>, profileId: string, stat: string)
    requires values != [] && IsLargest(before, was, values[..|values| - 1], profileId, stat)
    ensures var v := values[|values| - 1];
      IsLargest(if v.profileId == profileId && v.stat == stat then Max(before, v.value) else before, was, values,
                profileId, stat)
  {
    var rest, v := values[..|values| - 1], values[|values| - 1];
    forall i | Sends(values, i, profileId, stat) && i < |rest| ensures values[i].value <= before {
      assert Sends(rest, i, profileId, stat);
    }
    if before != was {
      var i :| Sends(rest, i, profileId, stat) && rest[i].value == before;
      assert Sends(values, i, profileId, stat);
    }
    if v.profileId == profileId && v.stat == stat {
      assert Sends(values, |rest|, profileId, stat);
    }
  }

  lemma {:induction false} BackfillValuesStat(s: State, server: string, c: Catalog, values: seq<SetMax>, now: int,
                                              who: Who, m: string, stat: string)
    ensures var r := StatOf(BackfillValues(s, server, c, values, now), who, m, stat);
      if Eligible(s, who) && who.0 == server && m == c.moduleName
      then IsLargest(r, StatOf(s, who, m, stat), values, who.1, stat)
      else r == StatOf(s, who, m, stat)
  {
    if values != [] {
      var rest, v := values[..|values| - 1], values[|values| - 1];
      var before := BackfillValues(s, server, c, rest, now);
      BackfillValuesStat(s, server, c, rest, now, who, m, stat);
      BackfillKeepsProfiles(s, server, c, rest, now);
      BackfillOneStat(before, server, c, v, now, who, m, stat);
      if Eligible(s, who) && who.0 == server && m == c.moduleName {
        OneMoreSent(StatOf(s, who, m, stat), StatOf(before, who, m, stat), values, who.1, stat);
      }
    }
  }

  lemma {:induction false} ReconcileAllFrame(s: State, order: seq<Who>, c: Catalog, now: int)
    requires ValidManifest(c.manifest)
    ensures var s' := ReconcileAll(s, order, c, now);
      s'.stats == s.stats && s'.backfills == s.backfills && s'.profiles == s.profiles && s'.dedup == s.dedup
  {
    if order != [] {
      ReconcileAllFrame(s, order[..|order| - 1], c, now);
      ReconcileTouchesTwoTables(ReconcileAll(s, order[..|order| - 1], c, now), order[|order| - 1], c, now);
    }
  }

  lemma ReconcileTouchesTwoTables(s: State, who: Who, c: Catalog, now: int)
    requires ValidManifest(c.manifest)
    ensures var s' := ReconcileModule(s, who, c, now); s' == s.(unlocks := s'.unlocks, prestige := s'.prestige)
  {
    UnlockPassMeans(s, who, c.moduleName, c.manifest.achievements, now);
    PrestigePassRows(UnlockPass(s, who, c.moduleName, c.manifest.achievements, now), who, c.moduleName,
      c.manifest.prestige);
  }

  /** At most 100000 values, each for a declared stat of a profile of the network, and each fitting its column. */
  ghost predicate Acceptable(s: State, server: string, m: Manifest, values: seq<SetMax>) {
    && |values| <= 100_000
    && (forall i :: 0 <= i < |values| ==>
          && values[i].profileId != "" && (server, values[i].profileId) in s.profiles
          && (exists j :: 0 <= j < |m.stats| && m.stats[j].id == values[i].stat)
          && values[i].value <= 0x7FFF_FFFF_FFFF_FFFF)
  }

  /** An acceptable backfill makes each counter of the module, for each profile of the network that takes part and
      is not closed to backfills, exactly the largest of its old value and the values sent for it. Every other
      counter, and every counter when the batch is refused, stays as it was. */
  lemma BackfillIsSetMax(s: State, server: string, c: Catalog, values: seq<SetMax>, order: seq<Who>, now: int,
                         who: Who, m: string, stat: string)
    requires ValidManifest(c.manifest)
    ensures var r := StatOf(BackfillStep(s, server, c, values, order, now), who, m, stat);
      if Acceptable(s, server, c.manifest, values) && TakesPart(s, who) && !s.profiles[who].blocked
         && who.0 == server && m == c.moduleName
      then IsLargest(r, StatOf(s, who, m, stat), values, who.1, stat)
      else r == StatOf(s, who, m, stat)
  {
    if BackfillValid(s, server, c.manifest, values) {
      BackfillValuesStat(s, server, c, values, now, who, m, stat);
      ReconcileAllFrame(BackfillValues(s, server, c, values, now), order, c, now);
    }
  }

  function MarkerOf(s: State, who: Who, m: string): nat {
    if Row(who, m, "") in s.backfills then s.backfills[Row(who, m, "")] else 0
  }

  lemma BackfillOneMarks(s: State, server: string, c: Catalog, v: SetMax, now: int, who: Who, m: string)
    ensures MarkerOf(BackfillOne(s, server, c, v, now), who, m)
      == if Eligible(s, who) && who == (server, v.profileId) && m == c.moduleName
         then Max(MarkerOf(s, who, m), c.manifest.catalogVersion)
         else MarkerOf(s, who, m)
  {
    var own := (server, v.profileId);
    if Eligible(s, own) {
      var s1 := Raised(s, own, c.moduleName, v.stat, v.value);
      UnlockReachedMeans(s1, own, c.moduleName, c.manifest.achievements, v.stat, v.value, now);
    }
  }

  lemma {:induction false} BackfillValuesMark(s: State, server: string, c: Catalog, values: seq<SetMax>, now: int,
                                              who: Who, m: string)
    ensures MarkerOf(BackfillValues(s, server, c, values, now), who, m)
      == if who in Touched(s, server, values) && m == c.moduleName
         then Max(MarkerOf(s, who, m), c.manifest.catalogVersion)
         else MarkerOf(s, who, m)
  {
    if values != [] {
      var rest, v := values[..|values| - 1], values[|values| - 1];
      BackfillValuesMark(s, server, c, rest, now, who, m);
      BackfillKeepsProfiles(s, server, c, rest, now);
      BackfillOneMarks(BackfillValues(s, server, c, rest, now), server, c, v, now, who, m);
      OneMoreTouched(s, server, values, who);
    }
  }

  lemma OneMoreTouched(s: State, server: string, values: seq<SetMax>, who: Who)
    requires values != []
    ensures var v := values[|values| - 1];
      who in Touched(s, server, values)
      <==> who in Touched(s, server, values[..|values| - 1]) || (Eligible(s, who) && who == (server, v.profileId))
  {
    var rest := values[..|values| - 1];
    if who in Touched(s, server, rest) {
      var i :| 0 <= i < |rest| && who == (server, rest[i].profileId);
      assert values[i] == rest[i];
    }
    if who in Touched(s, server, values) {
      var i :| 0 <= i < |values| && who == (server, values[i].profileId);
      if i < |rest| {
        assert who == (server, rest[i].profileId);
      }
    }
  }

  /** It marks each profile it touches with the catalogue's version, never an older one. */
  lemma BackfillMarks(s: State, server: string, c: Catalog, values: seq<SetMax>, order: seq<Who>, now: int,
                      who: Who, m: string)
    requires ValidManifest(c.manifest) && Acceptable(s, server, c.manifest, values)
    ensures MarkerOf(BackfillStep(s, server, c, values, order, now), who, m)
      == if who in Touched(s, server, values) && m == c.moduleName
         then Max(MarkerOf(s, who, m), c.manifest.catalogVersion)
         else MarkerOf(s, who, m)
  {
    BackfillValuesMark(s, server, c, values, now, who, m);
    ReconcileAllFrame(BackfillValues(s, server, c, values, now), order, c, now);
  }

  // ----- Every counter fits its column ----------------------------------------------------------

  ghost predicate Fits(s: State) {
    forall who, m, stat :: StatOf(s, who, m, stat) <= 0x7FFF_FFFF_FFFF_FFFF
  }

  lemma AwardFits(s: State, cs: seq<Catalog>, e: Event)
    requires ValidCatalogs(cs) && Enabled(s, cs, e) && e.Award? && Fits(s)
    ensures Fits(Step(s, cs, e))
  {
    AwardMeans(s, cs, e.c, e.who, e.increments, e.dedupId, e.now, e.lost);
    if IsLive(s, e.c, e.who, e.increments, e.dedupId) {
      forall who, m, stat ensures StatOf(Step(s, cs, e), who, m, stat) <= 0x7FFF_FFFF_FFFF_FFFF {
        if stat !in Incremented(e.increments) {
          NothingToAdd(e.increments, stat);
        }
      }
    }
  }

  lemma {:induction false} NothingToAdd(increments: seq<Increment>, stat: string)
    requires stat !in Incremented(increments)
    ensures Total(increments, stat) == 0
  {
    if increments != [] {
      var rest := increments[..|increments| - 1];
      assert increments[|rest|].stat in Incremented(increments);
      forall i | 0 <= i < |rest| ensures rest[i].stat in Incremented(increments) {
        assert rest[i] == increments[i];
      }
      NothingToAdd(rest, stat);
    }
  }

  lemma BackfillFits(s: State, cs: seq<Catalog>, e: Event)
    requires ValidCatalogs(cs) && Enabled(s, cs, e) && e.Backfill? && Fits(s)
    ensures Fits(Step(s, cs, e))
  {
    forall who, m, stat ensures StatOf(Step(s, cs, e), who, m, stat) <= 0x7FFF_FFFF_FFFF_FFFF {
      var i :| 0 <= i < |cs| && cs[i] == e.c;
      BackfillIsSetMax(s, e.server, e.c, e.values, e.order, e.now, who, m, stat);
    }
  }

  lemma FewerFit(s: State, s': State)
    requires Fits(s) && forall r :: r in s'.stats ==> r in s.stats && s'.stats[r] == s.stats[r]
    ensures Fits(s')
  {
    forall who, m, stat ensures StatOf(s', who, m, stat) <= 0x7FFF_FFFF_FFFF_FFFF {
      assert StatOf(s, who, m, stat) <= 0x7FFF_FFFF_FFFF_FFFF;
    }
  }

  lemma StepFits(s: State, cs: seq<Catalog>, e: Event)
    requires ValidCatalogs(cs) && Enabled(s, cs, e) && Fits(s)
    ensures Fits(Step(s, cs, e))
  {
    match e
    case Award(_, _, _, _, _, _) => AwardFits(s, cs, e);
    case Backfill(_, _, _, _, _) => BackfillFits(s, cs, e);
    case Reconcile(order, now, lost) =>
      CatalogKeepsStats(s, cs, order, now, lost);
      FewerFit(s, Step(s, cs, e));
    case NewProfile(_) => FewerFit(s, Step(s, cs, e));
    case OptOut(_, _) => FewerFit(s, Step(s, cs, e));
    case Publish(_, _) => FewerFit(s, Step(s, cs, e));
    case Read(_, _) => FewerFit(s, Step(s, cs, e));
    case Erase(_) => FewerFit(s, Step(s, cs, e));
  }

  /** Over every run no counter outgrows a signed 64-bit column. */
  lemma {:induction false} CountersFit(s: State, cs: seq<Catalog>, es: seq<Event>)
    requires ValidCatalogs(cs) && Runnable(s, cs, es) && Fits(s)
    ensures Fits(Exec(s, cs, es))
    decreases |es|
  {
    if es != [] {
      StepFits(s, cs, es[0]);
      CountersFit(Step(s, cs, es[0]), cs, es[1..]);
    }
  }

  // ----- When an achievement was unlocked -------------------------------------------------------

  /** What is there now was there before with the same time, or carries this one. */
  ghost predicate Stamped(s: State, s': State, now: int) {
    forall r :: r in s'.unlocks ==> (r in s.unlocks && s'.unlocks[r] == s.unlocks[r]) || s'.unlocks[r] == now
  }

  lemma {:induction false} UnlockPassStamps(s: State, who: Who, m: string, items: seq<Achievement>, now: int)
    ensures Stamped(s, UnlockPass(s, who, m, items, now), now)
  {
    if items != [] {
      UnlockPassStamps(s, who, m, items[..|items| - 1], now);
    }
  }

  lemma ReconcileStamps(s: State, who: Who, c: Catalog, now: int)
    requires ValidManifest(c.manifest)
    ensures Stamped(s, ReconcileModule(s, who, c, now), now)
  {
    UnlockPassStamps(s, who, c.moduleName, c.manifest.achievements, now);
    PrestigePassRows(UnlockPass(s, who, c.moduleName, c.manifest.achievements, now), who, c.moduleName,
      c.manifest.prestige);
  }

  lemma {:induction false} MilestonesStamp(s: State, who: Who, size: nat, milestones: seq<(string, nat)>, now: int)
    ensures Stamped(s, MilestonePass(s, who, size, milestones, now), now)
  {
    if milestones != [] {
      MilestonesStamp(s, who, size, milestones[..|milestones| - 1], now);
    }
  }

  lemma MetaStamps(s: State, who: Who, cs: seq<Catalog>, now: int, lost: Reads)
    ensures Stamped(s, MetaStep(s, who, cs, now, lost), now)
  {
    var size := CollectionSize(Seen(s, lost.counted), who, cs);
    MilestonesStamp(s, who, size, MILESTONES, now);
  }

  lemma {:induction false} ReconcileModulesStamp(s: State, who: Who, cs: seq<Catalog>, now: int)
    requires forall i :: 0 <= i < |cs| ==> ValidManifest(cs[i].manifest)
    ensures Stamped(s, ReconcileModules(s, who, cs, now), now)
  {
    if cs != [] {
      var rest := cs[..|cs| - 1];
      ReconcileModulesStamp(s, who, rest, now);
      ReconcileStamps(ReconcileModules(s, who, rest, now), who, cs[|cs| - 1], now);
    }
  }

  lemma {:induction false} CatalogStamps(s: State, order: seq<Who>, cs: seq<Catalog>, now: int, lost: Reads)
    requires ValidCatalogs(cs)
    ensures Stamped(s, CatalogStep(s, order, cs, now, lost), now)
  {
    if order != [] {
      var rest, who := order[..|order| - 1], order[|order| - 1];
      CatalogStamps(s, rest, cs, now, lost);
      var before := CatalogStep(s, rest, cs, now, lost);
      ReconcileModulesStamp(before, who, cs, now);
      MetaStamps(ReconcileModules(before, who, cs, now), who, cs, now, lost);
    }
  }

  lemma {:induction false} ReachedStamps(s: State, who: Who, m: string, items: seq<Achievement>, stat: string,
                                         value: nat, now: int)
    ensures Stamped(s, UnlockReached(s, who, m, items, stat, value, now), now)
  {
    if items != [] {
      ReachedStamps(s, who, m, items[..|items| - 1], stat, value, now);
    }
  }

  lemma {:induction false} BackfillValuesStamp(s: State, server: string, c: Catalog, values: seq<SetMax>, now: int)
    ensures Stamped(s, BackfillValues(s, server, c, values, now), now)
  {
    if values != [] {
      var rest, v := values[..|values| - 1], values[|values| - 1];
      BackfillValuesStamp(s, server, c, rest, now);
      var before, who := BackfillValues(s, server, c, rest, now), (server, v.profileId);
      ReachedStamps(Raised(before, who, c.moduleName, v.stat, v.value), who, c.moduleName, c.manifest.achievements,
        v.stat, v.value, now);
    }
  }

  lemma {:induction false} ReconcileAllStamps(s: State, order: seq<Who>, c: Catalog, now: int)
    requires ValidManifest(c.manifest)
    ensures Stamped(s, ReconcileAll(s, order, c, now), now)
  {
    if order != [] {
      ReconcileAllStamps(s, order[..|order| - 1], c, now);
      ReconcileStamps(ReconcileAll(s, order[..|order| - 1], c, now), order[|order| - 1], c, now);
    }
  }

  /** The time of an event that can unlock something. */
  function TimeOf(e: Event): Option<int> {
    match e
    case Award(_, _, _, _, now, _) => Some(now)
    case Backfill(_, _, _, _, now) => Some(now)
    case Reconcile(_, now, _) => Some(now)
    case _ => None
  }

  /** An unlock carries the time of the event that made it, and no later event changes that. */
  lemma UnlockTimesStay(s: State, cs: seq<Catalog>, e: Event)
    requires ValidCatalogs(cs) && Enabled(s, cs, e)
    ensures forall r :: r in Step(s, cs, e).unlocks ==>
      || (r in s.unlocks && Step(s, cs, e).unlocks[r] == s.unlocks[r])
      || Some(Step(s, cs, e).unlocks[r]) == TimeOf(e)
  {
    match e
    case Award(c, who, increments, dedupId, now, lost) =>
      AwardStamps(s, cs, c, who, increments, dedupId, now, lost);
    case Backfill(server, c, values, order, now) =>
      BackfillStamps(s, cs, server, c, values, order, now);
    case Reconcile(order, now, lost) =>
      CatalogStamps(s, order, cs, now, lost);
    case _ =>
  }

  lemma BackfillStamps(s: State, cs: seq<Catalog>, server: string, c: Catalog, values: seq<SetMax>, order: seq<Who>,
                       now: int)
    requires ValidCatalogs(cs) && c in cs
    ensures Stamped(s, BackfillStep(s, server, c, values, order, now), now)
  {
    var i :| 0 <= i < |cs| && cs[i] == c;
    BackfillValuesStamp(s, server, c, values, now);
    ReconcileAllStamps(BackfillValues(s, server, c, values, now), order, c, now);
  }

  lemma AwardStamps(s: State, cs: seq<Catalog>, c: Catalog, who: Who, increments: seq<Increment>,
                    dedupId: Option<string>, now: int, lost: Reads)
    requires ValidCatalogs(cs) && c in cs
    ensures Stamped(s, AwardStep(s, cs, c, who, increments, dedupId, now, lost), now)
  {
    var i :| 0 <= i < |cs| && cs[i] == c;
    var s2 := BeforeReconcile(s, c, who, increments, dedupId, now);
    ReconcileStamps(s2, who, c, now);
    MetaStamps(ReconcileModule(s2, who, c, now), who, cs, now, lost);
  }

  // ----- Flags and erasure ----------------------------------------------------------------------

  /** An erasure removes the profile and its rows, and leaves everybody else alone. */
  lemma ErasureMeans(s: State, target: Who, who: Who)
    ensures target !in EraseStep(s, target).profiles && NoRows(EraseStep(s, target), target)
    ensures who != target ==> SameFor(s, EraseStep(s, target), who)
  {
    var s1 := s.(profiles := s.profiles - {target});
    DeletedRows(s1, target, who);
    assert who != target ==> SameFor(s, s1, who);
  }

  /** Only a profile that takes part can enter or leave the gallery, and nothing else changes with that. */
  lemma PublicMeans(s: State, target: Who, isPublic: bool)
    ensures if target in s.profiles && !s.profiles[target].optOut
            then PublicStep(s, target, isPublic)
                 == s.(profiles := s.profiles[target := Flags(false, s.profiles[target].blocked, isPublic)])
            else PublicStep(s, target, isPublic) == s
  {
  }

  /** A new profile takes part, is open to backfills and is not in the gallery; one that exists stays as it is. */
  lemma NewProfileMeans(s: State, target: Who)
    ensures var s' := NewProfileStep(s, target);
      && s' == s.(profiles := s'.profiles) && s'.profiles.Keys == s.profiles.Keys + {target}
      && (forall who :: who in s.profiles ==> s'.profiles[who] == s.profiles[who])
      && (target !in s.profiles ==> Eligible(s', target) && !s'.profiles[target].isPublic)
  {
  }
}
