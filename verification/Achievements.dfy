/** The achievement tables as they are updated row by row, inside transactions. */
module Achievements {
  import opened Prelude
  import opened Text
  import opened AchievementModel
  import Runs = AchievementRuns

  // ----- Manifest validation ------------------------------------------------------------------

  /** The achievements up to `n` pass every check of `ValidManifest` that concerns them alone. */
  predicate AchievementsValid(m: Manifest, n: int) {
    && n <= |m.achievements|
    && (forall i :: 0 <= i < n ==>
          AchievementValid(m, m.achievements[i]))
    && (forall i, j :: 0 <= i < j < n ==>
          m.achievements[i].id != m.achievements[j].id
          && (|| m.achievements[i].stat != m.achievements[j].stat
              || m.achievements[i].threshold != m.achievements[j].threshold))
  }

  predicate PrestigeValid(m: Manifest, n: int) {
    && n <= |m.prestige|
    && (forall i :: 0 <= i < n ==>
          var p := m.prestige[i];
          IsItemId(p.id) && !IsBlank(p.name) && p.firstThreshold > 0 && p.every > 0 && KnownStat(m, p.stat))
    && (forall i, j :: 0 <= i < j < n ==> m.prestige[i].id != m.prestige[j].id)
    && (forall i, j :: 0 <= i < |m.achievements| && 0 <= j < n ==> m.achievements[i].id != m.prestige[j].id)
  }

  method ValidateStats(m: Manifest) returns (ok: bool)
    ensures ok <==>
      && (forall i :: 0 <= i < |m.stats| ==> IsItemId(m.stats[i].id) && !IsBlank(m.stats[i].description))
      && (forall i, j :: 0 <= i < j < |m.stats| ==> m.stats[i].id != m.stats[j].id)
  {
    var seen: set<string> := {};
    for n := 0 to |m.stats|
      invariant forall id :: id in seen <==> exists i :: 0 <= i < n && m.stats[i].id == id
      invariant forall i :: 0 <= i < n ==> IsItemId(m.stats[i].id) && !IsBlank(m.stats[i].description)
      invariant forall i, j :: 0 <= i < j < n ==> m.stats[i].id != m.stats[j].id
    {
      var stat := m.stats[n];
      if !IsItemId(stat.id) || IsBlank(stat.description) || stat.id in seen {
        return false;
      }
      seen := seen + {stat.id};
    }
    return true;
  }

  predicate AchievementValid(m: Manifest, a: Achievement) {
    IsItemId(a.id) && !IsBlank(a.name) && !IsBlank(a.description) && a.threshold > 0 && KnownStat(m, a.stat)
  }

  ghost function IdsOf(items: seq<Achievement>): set<string> {
    set i | 0 <= i < |items| :: items[i].id
  }

  ghost function MilestonesOf(items: seq<Achievement>): set<(string, nat)> {
    set i | 0 <= i < |items| :: (items[i].stat, items[i].threshold)
  }

  /** The next achievement is fine exactly when it is valid by itself and repeats no id and no milestone. */
  lemma AchievementFits(m: Manifest, n: nat)
    requires n < |m.achievements| && AchievementsValid(m, n)
    ensures var a, before := m.achievements[n], m.achievements[..n];
      AchievementsValid(m, n + 1)
      <==> AchievementValid(m, a) && a.id !in IdsOf(before) && (a.stat, a.threshold) !in MilestonesOf(before)
  {
    NewNames(m.achievements, n);
  }

  lemma NewNames(items: seq<Achievement>, n: nat)
    requires n < |items|
    ensures items[n].id !in IdsOf(items[..n]) <==> forall i :: 0 <= i < n ==> items[i].id != items[n].id
    ensures (items[n].stat, items[n].threshold) !in MilestonesOf(items[..n])
      <==> forall i :: 0 <= i < n ==> (items[i].stat != items[n].stat || items[i].threshold != items[n].threshold)
  {
    var before := items[..n];
    forall i | 0 <= i < n
      ensures items[i].id in IdsOf(before) && (items[i].stat, items[i].threshold) in MilestonesOf(before)
    {
      assert before[i] == items[i];
    }
  }

  lemma OneMore(items: seq<Achievement>, n: nat)
    requires n < |items|
    ensures IdsOf(items[..n + 1]) == IdsOf(items[..n]) + {items[n].id}
    ensures MilestonesOf(items[..n + 1]) == MilestonesOf(items[..n]) + {(items[n].stat, items[n].threshold)}
  {
    var now, before := items[..n + 1], items[..n];
    assert now == before + [items[n]];
    assert now[n] == items[n];
    forall i | 0 <= i < n
      ensures before[i].id in IdsOf(now) && (before[i].stat, before[i].threshold) in MilestonesOf(now)
    {
      assert now[i] == before[i];
    }
  }

  method ValidateAchievements(m: Manifest) returns (ok: bool, ids: set<string>)
    ensures ok <==> AchievementsValid(m, |m.achievements|)
    ensures ok ==> ids == IdsOf(m.achievements)
  {
    ids := {};
    var milestones: set<(string, nat)> := {};
    for n := 0 to |m.achievements|
      invariant ids == IdsOf(m.achievements[..n]) && milestones == MilestonesOf(m.achievements[..n])
      invariant AchievementsValid(m, n)
    {
      AchievementFits(m, n);
      OneMore(m.achievements, n);
      var a := m.achievements[n];
      if !AchievementValid(m, a) || a.id in ids || (a.stat, a.threshold) in milestones {
        return false, ids;
      }
      ids := ids + {a.id};
      milestones := milestones + {(a.stat, a.threshold)};
    }
    assert m.achievements[..|m.achievements|] == m.achievements;
    return true, ids;
  }

  method ValidatePrestige(m: Manifest, ids: set<string>) returns (ok: bool)
    requires ids == IdsOf(m.achievements)
    ensures ok <==> PrestigeValid(m, |m.prestige|)
  {
    var seen := ids;
    for n := 0 to |m.prestige|
      invariant forall id :: id in seen <==> id in ids || exists i :: 0 <= i < n && m.prestige[i].id == id
      invariant PrestigeValid(m, n)
    {
      var p := m.prestige[n];
      if !IsItemId(p.id) || IsBlank(p.name) || p.firstThreshold == 0 || p.every == 0
        || !KnownStat(m, p.stat) || p.id in seen
      {
        return false;
      }
      seen := seen + {p.id};
    }
    return true;
  }

  /** Decides validity of a manifest with one set per kind of name. */
  method ValidateManifest(m: Manifest) returns (ok: bool)
    ensures ok <==> ValidManifest(m)
  {
    if m.version != MANIFEST_VERSION {
      return false;
    }
    var statsOk := ValidateStats(m);
    if !statsOk {
      return false;
    }
    var achievementsOk, ids := ValidateAchievements(m);
    if !achievementsOk {
      return false;
    }
    ok := ValidatePrestige(m, ids);
  }

  // ----- Requests -----------------------------------------------------------------------------

  lemma {:induction false} TotalGrows(increments: seq<Increment>, n: nat, stat: string)
    requires n <= |increments|
    ensures Total(increments[..n], stat) <= Total(increments, stat)
    decreases |increments|
  {
    if n < |increments| {
      var rest := increments[..|increments| - 1];
      TotalGrows(rest, n, stat);
      assert rest[..n] == increments[..n];
    } else {
      assert increments[..n] == increments;
    }
  }

  /** The sums of the first `n` increments, stat by stat. */
  ghost predicate Sums(sums: map<string, nat>, increments: seq<Increment>, n: nat) {
    && n <= |increments|
    && (forall stat :: stat in sums <==> exists i :: 0 <= i < n && increments[i].stat == stat)
    && (forall stat :: Total(increments[..n], stat) == if stat in sums then sums[stat] else 0)
  }

  lemma SumsStep(sums: map<string, nat>, increments: seq<Increment>, n: nat)
    requires n < |increments| && Sums(sums, increments, n)
    ensures var inc := increments[n];
      var value := (if inc.stat in sums then sums[inc.stat] else 0) + inc.amount;
      Sums(sums[inc.stat := value], increments, n + 1) && Total(increments[..n + 1], inc.stat) == value
  {
    assert increments[..n + 1][..n] == increments[..n];
  }

  predicate EveryIncrementValid(m: Manifest, increments: seq<Increment>) {
    forall i :: 0 <= i < |increments| ==>
      increments[i].amount != 0 && KnownStat(m, increments[i].stat) && Total(increments, increments[i].stat) <= U64_MAX
  }

  lemma SumsFinish(m: Manifest, sums: map<string, nat>, increments: seq<Increment>)
    requires Sums(sums, increments, |increments|) && forall stat :: stat in sums ==> sums[stat] <= U64_MAX
    requires forall i :: 0 <= i < |increments| ==> increments[i].amount != 0 && KnownStat(m, increments[i].stat)
    ensures EveryIncrementValid(m, increments) && sums.Keys == Incremented(increments)
    ensures forall stat :: stat in sums ==> sums[stat] == Total(increments, stat)
  {
    assert increments[..|increments|] == increments;
  }

  lemma TooBigStaysTooBig(m: Manifest, increments: seq<Increment>, n: nat)
    requires n < |increments| && Total(increments[..n + 1], increments[n].stat) > U64_MAX
    ensures !EveryIncrementValid(m, increments)
  {
    TotalGrows(increments, n + 1, increments[n].stat);
  }

  /** The first `n` increments are valid and their sums still fit. */
  ghost predicate FitsSoFar(m: Manifest, sums: map<string, nat>, increments: seq<Increment>, n: nat) {
    && Sums(sums, increments, n) && (forall stat :: stat in sums ==> sums[stat] <= U64_MAX)
    && (forall i :: 0 <= i < n ==> increments[i].amount != 0 && KnownStat(m, increments[i].stat))
  }

  lemma FitsOneMore(m: Manifest, sums: map<string, nat>, increments: seq<Increment>, n: nat)
    requires n < |increments| && FitsSoFar(m, sums, increments, n)
    ensures var inc := increments[n];
      var value := (if inc.stat in sums then sums[inc.stat] else 0) + inc.amount;
      if inc.amount == 0 || !KnownStat(m, inc.stat) || value > U64_MAX then !EveryIncrementValid(m, increments)
      else FitsSoFar(m, sums[inc.stat := value], increments, n + 1)
  {
    SumsStep(sums, increments, n);
    if Total(increments[..n + 1], increments[n].stat) > U64_MAX {
      TooBigStaysTooBig(m, increments, n);
    }
  }

  /** Adds up the increments stat by stat, with checked 64-bit additions. */
  method SumIncrements(m: Manifest, increments: seq<Increment>) returns (totals: Option<map<string, nat>>)
    ensures totals.Some? <==> EveryIncrementValid(m, increments)
    ensures totals.Some? ==> totals.value.Keys == Incremented(increments)
    ensures totals.Some? ==> forall stat :: stat in totals.value ==> totals.value[stat] == Total(increments, stat)
  {
    var sums: map<string, nat> := map[];
    for n := 0 to |increments|
      invariant FitsSoFar(m, sums, increments, n)
    {
      var inc := increments[n];
      FitsOneMore(m, sums, increments, n);
      if inc.amount == 0 || !KnownStat(m, inc.stat) {
        return None;
      }
      var value := (if inc.stat in sums then sums[inc.stat] else 0) + inc.amount;
      if value > U64_MAX {
        return None;
      }
      sums := sums[inc.stat := value];
    }
    SumsFinish(m, sums, increments);
    return Some(sums);
  }

  /** The counters with these totals added. */
  function Added(s: State, who: Who, m: string, totals: map<string, nat>): map<Row, nat> {
    s.stats + map stat | stat in totals :: Row(who, m, stat) := StatOf(s, who, m, stat) + totals[stat]
  }

  /** The totals outside `pending` have been added to the counters. */
  ghost predicate AddedExcept(s: State, counters: map<Row, nat>, who: Who, m: string, totals: map<string, nat>,
                              pending: set<string>) {
    && (forall stat :: stat in totals && stat !in pending ==>
          Row(who, m, stat) in counters && counters[Row(who, m, stat)] == StatOf(s, who, m, stat) + totals[stat])
    && (forall r: Row :: !(r.who == who && r.m == m && r.item in totals && r.item !in pending) ==>
          (r in counters <==> r in s.stats) && (r in counters ==> counters[r] == s.stats[r]))
  }

  lemma AddedOneMore(s: State, counters: map<Row, nat>, who: Who, m: string, totals: map<string, nat>,
                     pending: set<string>, stat: string)
    requires AddedExcept(s, counters, who, m, totals, pending) && stat in pending && pending <= totals.Keys
    ensures (if Row(who, m, stat) in counters then counters[Row(who, m, stat)] else 0) == StatOf(s, who, m, stat)
    ensures AddedExcept(s, counters[Row(who, m, stat) := StatOf(s, who, m, stat) + totals[stat]], who, m, totals,
      pending - {stat})
  {
    assert !(stat in totals && stat !in pending);
  }

  lemma AllAdded(s: State, counters: map<Row, nat>, who: Who, m: string, totals: map<string, nat>)
    requires AddedExcept(s, counters, who, m, totals, {})
    ensures counters == Added(s, who, m, totals)
  {
    var added := Added(s, who, m, totals);
    forall r: Row ensures (r in counters <==> r in added) && (r in counters ==> counters[r] == added[r]) {
    }
  }

  // ----- The tables ---------------------------------------------------------------------------

  class AchievementStore {
    var profiles: map<Who, Flags>
    var stats: map<Row, nat>
    var unlocks: map<Row, int>
    var prestige: map<Row, nat>
    var backfills: map<Row, nat>
    var dedup: map<Row, int>

    ghost function View(): State
      reads this
    {
      State(profiles, stats, unlocks, prestige, backfills, dedup)
    }

    function Value(who: Who, m: string, stat: string): (r: nat)
      reads this
      ensures r == StatOf(View(), who, m, stat)
    {
      if Row(who, m, stat) in stats then stats[Row(who, m, stat)] else 0
    }

    method InsertOrIgnoreUnlock(row: Row, now: int)
      modifies this`unlocks
      ensures View() == InsertUnlock(old(View()), row, now)
    {
      if row !in unlocks {
        unlocks := unlocks[row := now];
      }
    }

    // ----- Passes over a manifest -------------------------------------------------------------

    method UnlockAll(who: Who, m: string, items: seq<Achievement>, now: int)
      modifies this`unlocks
      ensures View() == UnlockPass(old(View()), who, m, items, now)
    {
      for n := 0 to |items|
        invariant View() == UnlockPass(old(View()), who, m, items[..n], now)
      {
        assert items[..n + 1][..n] == items[..n];
        if Value(who, m, items[n].stat) >= items[n].threshold {
          InsertOrIgnoreUnlock(Row(who, m, items[n].id), now);
        }
      }
      assert items[..|items|] == items;
    }

    /** An award writes a rank only when it rises. */
    method RaiseRanks(who: Who, m: string, items: seq<Prestige>)
      modifies this`prestige
      ensures View() == PrestigePass(old(View()), who, m, items)
    {
      for n := 0 to |items|
        invariant View() == PrestigePass(old(View()), who, m, items[..n])
      {
        assert items[..n + 1][..n] == items[..n];
        var rank, row := Rank(items[n], Value(who, m, items[n].stat)), Row(who, m, items[n].id);
        if rank > (if row in prestige then prestige[row] else 0) {
          prestige := prestige[row := rank];
        }
      }
      assert items[..|items|] == items;
    }

    /** A reconciliation writes the maximum of the old and the new rank. */
    method MaxRanks(who: Who, m: string, items: seq<Prestige>)
      modifies this`prestige
      ensures View() == PrestigePass(old(View()), who, m, items)
    {
      for n := 0 to |items|
        invariant View() == PrestigePass(old(View()), who, m, items[..n])
      {
        assert items[..n + 1][..n] == items[..n];
        ghost var before := prestige;
        var rank, row := Rank(items[n], Value(who, m, items[n].stat)), Row(who, m, items[n].id);
        if rank > 0 {
          prestige := prestige[row := if row in prestige then Max(prestige[row], rank) else rank];
        }
        assert rank <= RankOf(old(View()).(prestige := before), who, m, items[n].id) ==> prestige == before;
      }
      assert items[..|items|] == items;
    }

    method ReconcileOne(who: Who, c: Catalog, now: int)
      modifies this`unlocks, this`prestige
      ensures View() == ReconcileModule(old(View()), who, c, now)
    {
      UnlockAll(who, c.moduleName, c.manifest.achievements, now);
      MaxRanks(who, c.moduleName, c.manifest.prestige);
    }

    // ----- Collection milestones --------------------------------------------------------------

    /** `SELECT EXISTS(…)` with a failure taken for no. */
    method RowExists(row: Row, lost: set<Row>) returns (found: bool)
      ensures found <==> row in Seen(View(), lost).unlocks
    {
      found := row in unlocks && row !in lost;
    }

    method CountHeld(who: Who, cs: seq<Catalog>, lost: set<Row>) returns (size: nat)
      ensures size == CollectionSize(Seen(View(), lost), who, cs)
    {
      size := 0;
      for n := 0 to |cs|
        invariant size == CollectionSize(Seen(View(), lost), who, cs[..n])
      {
        assert cs[..n + 1][..n] == cs[..n];
        var items, before := cs[n].manifest.achievements, size;
        for k := 0 to |items|
          invariant size == before + CountUnlocked(Seen(View(), lost), who, cs[n].moduleName, items[..k])
        {
          assert items[..k + 1][..k] == items[..k];
          var held := RowExists(Row(who, cs[n].moduleName, items[k].id), lost);
          if held {
            size := size + 1;
          }
        }
        assert items[..|items|] == items;
      }
      assert cs[..|cs|] == cs;
    }

    /** The required rows up to catalogue `n` are all there. */
    ghost predicate HeldUpTo(who: Who, cs: seq<Catalog>, n: nat, lost: set<Row>)
      reads this
    {
      forall i, j :: 0 <= i < n && i < |cs| && 0 <= j < |cs[i].manifest.achievements| && IsRequired(cs, i, j) ==>
        Row(who, cs[i].moduleName, cs[i].manifest.achievements[j].id) in Seen(View(), lost).unlocks
    }

    method IsComplete(who: Who, cs: seq<Catalog>, lost: set<Row>) returns (complete: bool)
      ensures complete <==> Complete(Seen(View(), lost), who, cs)
    {
      var required := false;
      for n := 0 to |cs|
        invariant required <==>
          exists i, j :: 0 <= i < n && 0 <= j < |cs[i].manifest.achievements| && IsRequired(cs, i, j)
        invariant HeldUpTo(who, cs, n, lost)
      {
        var items := cs[n].manifest.achievements;
        for k := 0 to |items|
          invariant required <==>
            || (exists i, j :: 0 <= i < n && 0 <= j < |cs[i].manifest.achievements| && IsRequired(cs, i, j))
            || (exists j :: 0 <= j < k && IsRequired(cs, n, j))
          invariant forall j :: 0 <= j < k && IsRequired(cs, n, j) ==>
            Row(who, cs[n].moduleName, items[j].id) in Seen(View(), lost).unlocks
        {
          if !items[k].optional {
            assert IsRequired(cs, n, k);
            var held := RowExists(Row(who, cs[n].moduleName, items[k].id), lost);
            if !held {
              return false;
            }
            required := true;
          }
        }
      }
      complete := required;
    }

    method GrantMilestones(who: Who, size: nat, now: int)
      modifies this`unlocks
      ensures View() == MilestonePass(old(View()), who, size, MILESTONES, now)
    {
      for n := 0 to |MILESTONES|
        invariant View() == MilestonePass(old(View()), who, size, MILESTONES[..n], now)
      {
        assert MILESTONES[..n + 1][..n] == MILESTONES[..n];
        if size >= MILESTONES[n].1 {
          InsertOrIgnoreUnlock(Row(who, "meta", MILESTONES[n].0), now);
        }
      }
      assert MILESTONES[..|MILESTONES|] == MILESTONES;
    }

    method DropBadge(who: Who)
      modifies this`unlocks
      ensures View() == old(View()).(unlocks := old(View()).unlocks - {Row(who, "meta", WHOLE)})
    {
      unlocks := unlocks - {Row(who, "meta", WHOLE)};
    }

    method ApplyMeta(who: Who, cs: seq<Catalog>, now: int, lost: Reads)
      modifies this`unlocks
      ensures View() == MetaStep(old(View()), who, cs, now, lost)
    {
      var size := CountHeld(who, cs, lost.counted);
      GrantMilestones(who, size, now);
      var complete := IsComplete(who, cs, lost.required);
      if complete {
        InsertOrIgnoreUnlock(Row(who, "meta", WHOLE), now);
      } else {
        DropBadge(who);
      }
    }

    // ----- Award ------------------------------------------------------------------------------

    /** Adds the totals one counter at a time; a counter that would not fit stops the transaction. */
    method AddTotals(who: Who, m: string, totals: map<string, nat>) returns (ok: bool)
      modifies this`stats
      ensures ok <==> forall stat :: stat in totals ==> StatOf(old(View()), who, m, stat) + totals[stat] <= I64_MAX
      ensures ok ==> stats == Added(old(View()), who, m, totals)
    {
      var pending := totals.Keys;
      while pending != {}
        invariant pending <= totals.Keys
        invariant AddedExcept(old(View()), stats, who, m, totals, pending)
        invariant forall stat :: stat in totals && stat !in pending ==>
          StatOf(old(View()), who, m, stat) + totals[stat] <= I64_MAX
        decreases pending
      {
        var stat :| stat in pending;
        AddedOneMore(old(View()), stats, who, m, totals, pending, stat);
        var next := Value(who, m, stat) + totals[stat];
        if next > I64_MAX {
          return false;
        }
        stats := stats[Row(who, m, stat) := next];
        pending := pending - {stat};
      }
      AllAdded(old(View()), stats, who, m, totals);
      return true;
    }

    /** One live award; any error rolls the transaction back. */
    method Award(cs: seq<Catalog>, c: Catalog, who: Who, increments: seq<Increment>, dedupId: Option<string>, now: int,
                 lost: Reads)
      returns (outcome: Option<AwardOutcome>)
      modifies this
      ensures outcome.Some? <==> ValidManifest(c.manifest)
      ensures outcome.Some? ==> outcome.value == JudgeAward(old(View()), c, who, increments, dedupId)
      ensures View()
        == if outcome.Some? then AwardStep(old(View()), cs, c, who, increments, dedupId, now, lost) else old(View())
      ensures outcome == Some(Applied)
        <==> ValidManifest(c.manifest) && Runs.IsLive(old(View()), c, who, increments, dedupId)
    {
      Runs.AppliesIffLive(View(), c, who, increments, dedupId);
      var valid := ValidateManifest(c.manifest);
      if !valid {
        return None;
      }
      if who.0 == "" || who.1 == "" || increments == [] {
        return Some(Rejected(BadRequest));
      }
      if |increments| > MAX_INCREMENTS {
        return Some(Rejected(BadIncrement));
      }
      var totals := SumIncrements(c.manifest, increments);
      if totals.None? {
        return Some(Rejected(BadIncrement));
      }
      if who !in profiles {
        return Some(Rejected(UnknownProfile));
      }
      if profiles[who].optOut {
        return Some(Suppressed);
      }
      var done := Commit(cs, c, who, increments, totals.value, dedupId, now, lost);
      outcome := Some(done);
    }

    /** The part of an award that writes. */
    method Commit(cs: seq<Catalog>, c: Catalog, who: Who, increments: seq<Increment>, totals: map<string, nat>,
                  dedupId: Option<string>, now: int, lost: Reads) returns (outcome: AwardOutcome)
      requires TakesPart(View(), who) && who.0 != "" && who.1 != "" && IncrementsValid(c.manifest, increments)
      requires totals.Keys == Incremented(increments) && forall stat :: stat in totals ==>
        totals[stat] == Total(increments, stat)
      modifies this
      ensures outcome == JudgeAward(old(View()), c, who, increments, dedupId)
      ensures View() == AwardStep(old(View()), cs, c, who, increments, dedupId, now, lost)
    {
      var savedDedup, savedStats := dedup, stats;
      if dedupId.Some? {
        if !DedupValid(dedupId) {
          return Rejected(BadDedupId);
        }
        if Row(who, c.moduleName, dedupId.value) in dedup {
          return Duplicate;
        }
        dedup := dedup[Row(who, c.moduleName, dedupId.value) := now];
      }
      var ok := AddIncrements(who, c.moduleName, increments, totals);
      assert Overflows(old(View()), who, c.moduleName, increments) <==> !ok;
      if !ok {
        dedup, stats := savedDedup, savedStats;
        return Rejected(StatOverflow);
      }
      Derive(cs, c, who, now, lost);
      return Applied;
    }

    method AddIncrements(who: Who, m: string, increments: seq<Increment>, totals: map<string, nat>) returns (ok: bool)
      requires totals.Keys == Incremented(increments) && forall stat :: stat in totals ==>
        totals[stat] == Total(increments, stat)
      modifies this`stats
      ensures ok <==> !Overflows(old(View()), who, m, increments)
      ensures ok ==> View() == AddStats(old(View()), who, m, increments)
    {
      ok := AddTotals(who, m, totals);
      OverflowsMeans(old(View()), who, m, increments);
      SameAdded(old(View()), who, m, increments, totals);
    }

    /** What an award derives from the new counters. */
    method Derive(cs: seq<Catalog>, c: Catalog, who: Who, now: int, lost: Reads)
      modifies this`unlocks, this`prestige
      ensures View() == MetaStep(ReconcileModule(old(View()), who, c, now), who, cs, now, lost)
    {
      UnlockAll(who, c.moduleName, c.manifest.achievements, now);
      RaiseRanks(who, c.moduleName, c.manifest.prestige);
      ApplyMeta(who, cs, now, lost);
    }

    // ----- Backfill ---------------------------------------------------------------------------

    method UnlockHistorical(who: Who, m: string, items: seq<Achievement>, stat: string, value: nat, now: int)
      modifies this`unlocks
      ensures View() == UnlockReached(old(View()), who, m, items, stat, value, now)
    {
      for n := 0 to |items|
        invariant View() == UnlockReached(old(View()), who, m, items[..n], stat, value, now)
      {
        assert items[..n + 1][..n] == items[..n];
        if items[n].stat == stat && items[n].threshold <= value {
          InsertOrIgnoreUnlock(Row(who, m, items[n].id), now);
        }
      }
      assert items[..|items|] == items;
    }

    /** One value of a backfill; passed over unless its profile takes part and is not closed to backfills. */
    method SetMaximum(server: string, c: Catalog, v: SetMax, now: int) returns (written: bool)
      requires (server, v.profileId) in profiles
      modifies this`stats, this`unlocks, this`backfills
      ensures written == Eligible(old(View()), (server, v.profileId))
      ensures View() == BackfillOne(old(View()), server, c, v, now)
    {
      var who, m := (server, v.profileId), c.moduleName;
      if profiles[who].optOut || profiles[who].blocked {
        return false;
      }
      stats := stats[Row(who, m, v.stat) := Max(Value(who, m, v.stat), v.value)];
      UnlockHistorical(who, m, c.manifest.achievements, v.stat, v.value, now);
      var marker := Row(who, m, "");
      backfills := backfills[marker :=
        if marker in backfills then Max(backfills[marker], c.manifest.catalogVersion) else c.manifest.catalogVersion];
      return true;
    }

    /** Writes values until one is malformed; reports the profiles written to. */
    method SetMaxima(server: string, c: Catalog, values: seq<SetMax>, now: int) returns (ok: bool, touched: set<Who>)
      requires |values| <= MAX_BACKFILL
      modifies this`stats, this`unlocks, this`backfills
      ensures ok <==> BackfillValid(old(View()), server, c.manifest, values)
      ensures ok ==> View() == BackfillValues(old(View()), server, c, values, now)
      ensures ok ==> touched == Touched(old(View()), server, values)
    {
      touched := {};
      for n := 0 to |values|
        invariant View() == BackfillValues(old(View()), server, c, values[..n], now)
        invariant touched == Touched(old(View()), server, values[..n])
        invariant BackfillValid(old(View()), server, c.manifest, values[..n])
      {
        BackfillStepwise(old(View()), server, c, values, n, now);
        var v := values[n];
        ValidStepwise(old(View()), server, c.manifest, values, n);
        if v.profileId == "" || !KnownStat(c.manifest, v.stat) || v.value > I64_MAX
          || (server, v.profileId) !in profiles
        {
          return false, {};
        }
        MoreTouched(old(View()), server, values, n);
        var written := SetMaximum(server, c, v, now);
        if written {
          touched := touched + {(server, v.profileId)};
        }
      }
      assert values[..|values|] == values;
      return true, touched;
    }

    method ReconcileTouched(touched: set<Who>, c: Catalog, now: int) returns (ghost order: seq<Who>)
      modifies this`unlocks, this`prestige
      ensures Lists(order, touched)
      ensures View() == ReconcileAll(old(View()), order, c, now)
    {
      var pending := touched;
      order := [];
      while pending != {}
        invariant pending <= touched && Lists(order, touched - pending)
        invariant View() == ReconcileAll(old(View()), order, c, now)
        decreases pending
      {
        var who :| who in pending;
        ReconcileOne(who, c, now);
        assert (order + [who])[..|order|] == order;
        order := order + [who];
        pending := pending - {who};
      }
    }

    method Backfill(server: string, c: Catalog, values: seq<SetMax>, now: int) returns (ok: bool, ghost order: seq<Who>)
      modifies this
      ensures ok <==> ValidManifest(c.manifest) && BackfillValid(old(View()), server, c.manifest, values)
      ensures ok ==> Lists(order, Touched(old(View()), server, values))
      ensures View() == if ok then BackfillStep(old(View()), server, c, values, order, now) else old(View())
    {
      order := [];
      var valid := ValidateManifest(c.manifest);
      if !valid || |values| > MAX_BACKFILL {
        return false, [];
      }
      var savedStats, savedUnlocks, savedBackfills := stats, unlocks, backfills;
      var touched;
      ok, touched := SetMaxima(server, c, values, now);
      if ok {
        order := ReconcileTouched(touched, c, now);
      } else {
        stats, unlocks, backfills := savedStats, savedUnlocks, savedBackfills;
      }
    }

    // ----- Catalogue reconciliation -----------------------------------------------------------

    method ReconcileProfileRows(who: Who, cs: seq<Catalog>, now: int, lost: Reads)
      modifies this`unlocks, this`prestige
      ensures View() == ReconcileProfile(old(View()), who, cs, now, lost)
    {
      for n := 0 to |cs|
        invariant View() == ReconcileModules(old(View()), who, cs[..n], now)
      {
        assert cs[..n + 1][..n] == cs[..n];
        ReconcileOne(who, cs[n], now);
      }
      assert cs[..|cs|] == cs;
      ApplyMeta(who, cs, now, lost);
    }

    method ReconcileCatalogs(cs: seq<Catalog>, now: int, lost: Reads) returns (ok: bool, ghost order: seq<Who>)
      modifies this`unlocks, this`prestige
      ensures ok <==> forall i :: 0 <= i < |cs| ==> ValidManifest(cs[i].manifest)
      ensures ok ==> Lists(order, profiles.Keys)
      ensures View() == if ok then CatalogStep(old(View()), order, cs, now, lost) else old(View())
    {
      order := [];
      for n := 0 to |cs|
        invariant forall i :: 0 <= i < n ==> ValidManifest(cs[i].manifest)
        invariant View() == old(View())
      {
        var valid := ValidateManifest(cs[n].manifest);
        if !valid {
          return false, [];
        }
      }
      var pending := profiles.Keys;
      while pending != {}
        invariant pending <= profiles.Keys && Lists(order, profiles.Keys - pending)
        invariant View() == CatalogStep(old(View()), order, cs, now, lost)
        decreases pending
      {
        var who :| who in pending;
        ReconcileProfileRows(who, cs, now, lost);
        assert (order + [who])[..|order|] == order;
        order := order + [who];
        pending := pending - {who};
      }
      ok := true;
    }

    // ----- Flags, reads and erasure -----------------------------------------------------------

    method DeleteRowsOf(who: Who)
      modifies this`stats, this`unlocks, this`prestige, this`backfills, this`dedup
      ensures View() == DeleteRows(old(View()), who)
    {
      stats := Without(stats, who);
      unlocks := Without(unlocks, who);
      prestige := Without(prestige, who);
      backfills := Without(backfills, who);
      dedup := Without(dedup, who);
    }

    method SetOptOut(who: Who, optOut: bool) returns (ok: bool)
      modifies this
      ensures ok <==> who in old(profiles)
      ensures View() == OptOutStep(old(View()), who, optOut)
    {
      if who !in profiles {
        return false;
      }
      var f := profiles[who];
      profiles := profiles[who := Flags(optOut, f.blocked || optOut, if optOut then false else f.isPublic)];
      if optOut {
        DeleteRowsOf(who);
      }
      ok := true;
    }

    method SetPublic(who: Who, isPublic: bool) returns (ok: bool)
      modifies this`profiles
      ensures ok <==> TakesPart(old(View()), who)
      ensures View() == PublicStep(old(View()), who, isPublic)
    {
      ok := who in profiles && !profiles[who].optOut;
      if ok {
        profiles := profiles[who := profiles[who].(isPublic := isPublic)];
      }
    }

    /** What a summary does to the tables before it reads them. */
    method DropStaleBadge(who: Who, cs: seq<Catalog>, lost: set<Row>)
      modifies this`unlocks
      ensures View() == ReadStep(old(View()), who, cs, lost)
    {
      var complete := IsComplete(who, cs, lost);
      if !complete {
        DropBadge(who);
      }
    }

    method FinishErasure(who: Who)
      modifies this
      ensures View() == EraseStep(old(View()), who)
    {
      DeleteRowsOf(who);
      profiles := profiles - {who};
    }
  }

  lemma OverflowsMeans(s: State, who: Who, m: string, increments: seq<Increment>)
    ensures Overflows(s, who, m, increments) <==>
      !forall stat :: stat in Incremented(increments) ==> StatOf(s, who, m, stat) + Total(increments, stat) <= I64_MAX
  {
    if Overflows(s, who, m, increments) {
      var i :| 0 <= i < |increments|
        && StatOf(s, who, m, increments[i].stat) + Total(increments, increments[i].stat) > I64_MAX;
      assert increments[i].stat in Incremented(increments);
    }
  }

  lemma SameAdded(s: State, who: Who, m: string, increments: seq<Increment>, totals: map<string, nat>)
    requires totals.Keys == Incremented(increments) && forall stat :: stat in totals ==>
      totals[stat] == Total(increments, stat)
    ensures AddStats(s, who, m, increments).stats == Added(s, who, m, totals)
  {
  }

  lemma BackfillStepwise(s: State, server: string, c: Catalog, values: seq<SetMax>, n: nat, now: int)
    requires n < |values|
    ensures BackfillValues(s, server, c, values[..n + 1], now)
         == BackfillOne(BackfillValues(s, server, c, values[..n], now), server, c, values[n], now)
  {
    assert values[..n + 1][..n] == values[..n];
  }

  lemma ValidStepwise(s: State, server: string, m: Manifest, values: seq<SetMax>, n: nat)
    requires n < |values| <= MAX_BACKFILL && BackfillValid(s, server, m, values[..n])
    ensures var v := values[n];
      var fits :=
        v.profileId != "" && KnownStat(m, v.stat) && v.value <= I64_MAX && (server, v.profileId) in s.profiles;
      (fits ==> BackfillValid(s, server, m, values[..n + 1])) && (!fits ==> !BackfillValid(s, server, m, values))
  {
    assert forall i :: 0 <= i < n ==> values[..n][i] == values[..n + 1][i];
  }

  lemma MoreTouched(s: State, server: string, values: seq<SetMax>, n: nat)
    requires n < |values|
    ensures Touched(s, server, values[..n + 1])
         == Touched(s, server, values[..n])
          + if Eligible(s, (server, values[n].profileId)) then {(server, values[n].profileId)} else {}
  {
    var now, before := values[..n + 1], values[..n];
    forall i | 0 <= i < n ensures now[i] == before[i] {
    }
    forall who | who in Touched(s, server, before) ensures who in Touched(s, server, now) {
      var i :| 0 <= i < |before| && Eligible(s, (server, before[i].profileId)) && who == (server, before[i].profileId);
      assert now[i] == before[i];
    }
    if Eligible(s, (server, values[n].profileId)) {
      assert now[n] == values[n];
    }
  }
}
