/** What one failing existence query does to a completion badge. */
module AchievementFaults {
  import opened Prelude
  import opened Text
  import opened AchievementModel
  import opened AchievementPasses
  import opened AchievementRuns
  import opened AchievementSafety

  const SAMPLE := Catalog("quiz",
    Manifest(1, [Stat("won", "Wins")], [Achievement("first", "First", "Win once", "won", 1, false, false)], [], 1))
  const PLAYER: Who := ("net", "player")
  const FIRST_WIN := Row(PLAYER, "quiz", "first")
  const NO_FAILURE := Reads({}, {})

  lemma SampleIsValid()
    ensures ValidCatalogs([SAMPLE])
  {
    assert IsItemId("won") && IsItemId("first");
    assert !IsSpace("Wins"[0]) && !IsSpace("First"[0]) && !IsSpace("Win once"[0]);
    assert SAMPLE.manifest.stats[0].id == "won";
    assert KnownStat(SAMPLE.manifest, "won");
  }

  lemma SampleIsApplied(s: State)
    requires s == NewProfileStep(EMPTY, PLAYER)
    ensures JudgeAward(s, SAMPLE, PLAYER, [Increment("won", 1)], None) == Applied
  {
    var incs := [Increment("won", 1)];
    assert SAMPLE.manifest.stats[0].id == "won";
    assert KnownStat(SAMPLE.manifest, "won");
    assert Total(incs, "won") == 1 by {
      assert incs[..0] == [];
    }
    assert StatOf(s, PLAYER, "quiz", "won") == 0;
  }

  /** A reachable state with a well-earned badge that one failing query deletes while a summary is read. */
  lemma FailedReadDropsTheBadge() returns (es: seq<Event>)
    ensures ValidCatalogs([SAMPLE]) && Runnable(EMPTY, [SAMPLE], es)
    ensures var s := Exec(EMPTY, [SAMPLE], es);
      && Row(PLAYER, "meta", WHOLE) in s.unlocks
      && Complete(ReadStep(s, PLAYER, [SAMPLE], {FIRST_WIN}), PLAYER, [SAMPLE])
      && Row(PLAYER, "meta", WHOLE) !in ReadStep(s, PLAYER, [SAMPLE], {FIRST_WIN}).unlocks
  {
    var cs, incs := [SAMPLE], [Increment("won", 1)];
    var first, second := NewProfile(PLAYER), Award(SAMPLE, PLAYER, incs, None, 0, NO_FAILURE);
    var s1 := NewProfileStep(EMPTY, PLAYER);
    var s2 := AwardStep(s1, cs, SAMPLE, PLAYER, incs, None, 0, NO_FAILURE);
    es := [first] + ([second] + []);
    RunOne(EMPTY, cs, first, [second] + []);
    RunOne(s1, cs, second, []);
    SampleIsValid();
    SampleIsApplied(s1);
    FirstWinCompletes(s1, s2);
    MissedReadDrops(s2);
  }

  lemma MissedReadDrops(s: State)
    requires ValidCatalogs([SAMPLE]) && Complete(s, PLAYER, [SAMPLE]) && BadgeEarned(s, [SAMPLE], PLAYER)
    ensures Complete(ReadStep(s, PLAYER, [SAMPLE], {FIRST_WIN}), PLAYER, [SAMPLE])
    ensures Row(PLAYER, "meta", WHOLE) !in ReadStep(s, PLAYER, [SAMPLE], {FIRST_WIN}).unlocks
  {
    SampleMisses();
    MissedReadOf(s, [SAMPLE], PLAYER, {FIRST_WIN});
  }

  lemma MissedReadOf(s: State, cs: seq<Catalog>, who: Who, lost: set<Row>)
    requires ValidCatalogs(cs) && Complete(s, who, cs) && BadgeEarned(s, cs, who) && MissesRequired(who, cs, lost)
    ensures Complete(ReadStep(s, who, cs, lost), who, cs)
    ensures Row(who, "meta", WHOLE) !in ReadStep(s, who, cs, lost).unlocks
  {
    ReadChangesNothingIff(s, cs, who, lost);
    SameUnlocksSameComplete(s, ReadStep(s, who, cs, lost), who, cs);
  }

  lemma RunOne(s: State, cs: seq<Catalog>, e: Event, rest: seq<Event>)
    ensures Exec(s, cs, [e] + rest) == Exec(Step(s, cs, e), cs, rest)
    ensures Runnable(s, cs, [e] + rest) <==> Enabled(s, cs, e) && Runnable(Step(s, cs, e), cs, rest)
  {
    assert ([e] + rest)[1..] == rest;
  }

  lemma SampleMisses()
    ensures MissesRequired(PLAYER, [SAMPLE], {FIRST_WIN}) && SomethingRequired([SAMPLE])
    ensures !MissesRequired(PLAYER, [SAMPLE], {})
  {
    assert IsRequired([SAMPLE], 0, 0);
  }

  lemma FirstWinCompletes(s1: State, s2: State)
    requires s1 == NewProfileStep(EMPTY, PLAYER)
    requires JudgeAward(s1, SAMPLE, PLAYER, [Increment("won", 1)], None) == Applied
    requires s2 == AwardStep(s1, [SAMPLE], SAMPLE, PLAYER, [Increment("won", 1)], None, 0, NO_FAILURE)
    requires ValidCatalogs([SAMPLE])
    ensures Complete(s2, PLAYER, [SAMPLE]) && Row(PLAYER, "meta", WHOLE) in s2.unlocks
    ensures BadgeEarned(s2, [SAMPLE], PLAYER)
  {
    var cs, incs := [SAMPLE], [Increment("won", 1)];
    assert incs[..0] == [] && Total(incs, "won") == 1;
    EmptyIsGood(s1, cs, PLAYER);
    AwardKeepsGood(s1, cs, SAMPLE, PLAYER, incs, None, 0, NO_FAILURE);
    AwardAddsToStats(s1, cs, SAMPLE, PLAYER, incs, None, 0, NO_FAILURE, PLAYER, "quiz", "won");
    RowIffReached(s2, cs, PLAYER, 0, 0);
    assert FIRST_WIN in s2.unlocks;
    SampleMisses();
    AwardSettlesBadge(s1, cs, SAMPLE, PLAYER, incs, None, 0, NO_FAILURE);
  }
}
