/** The server-wide achievement board: leaders, rarest achievements and recent unlocks. */
module Board {
  import opened Prelude
  import opened Text
  import opened AchievementModel
  import StableSort

  const MAX_LIMIT := 200
  const SECRET_NAME := "Secret"

  /** An unlock row joined with its profile. */
  datatype Unlock = Unlock(server: string, profileId: string, nick: string, optOut: bool, m: string, id: string,
    at: int)

  /** Name and secrecy of every achievement in scope, by module and id. */
  type Names = map<(string, string), (string, bool)>

  datatype Standing = Standing(profileId: string, nick: string, earned: nat, latest: int)
  datatype Leader = Leader(profileId: string, nick: string, earned: nat)
  datatype Rarity = Rarity(m: string, id: string, name: string, holders: nat, secret: bool)
  datatype RecentUnlock = RecentUnlock(profileId: string, nick: string, m: string, id: string, name: string,
    at: int, secret: bool)

  datatype Query =
    | Top(server: string, m: Option<string>, limit: nat)
    | Rare(server: string, m: Option<string>, limit: nat)
    | Unlocks(server: string, since: int, limit: nat)

  datatype Response = Response(
    collectors: nat, available: nat, top: seq<Leader>, rare: seq<Rarity>, unlocks: seq<RecentUnlock>)

  // ----- Scope ------------------------------------------------------------------------------

  function NameAll(names: Names, m: string, items: seq<Achievement>): Names {
    if items == [] then names
    else
      var a := items[|items| - 1];
      NameAll(names, m, items[..|items| - 1])[(m, a.id) := (a.name, a.secret)]
  }

  function NamesIn(cs: seq<Catalog>, wanted: Option<string>): Names {
    if cs == [] then map[]
    else
      var before, c := NamesIn(cs[..|cs| - 1], wanted), cs[|cs| - 1];
      if wanted.None? || Lower(c.moduleName) == Lower(wanted.value)
      then NameAll(before, c.moduleName, c.manifest.achievements) else before
  }

  predicate InScope(u: Unlock, server: string, names: Names) {
    u.server == server && !u.optOut && u.m != "meta" && (u.m, u.id) in names
  }

  function Select(rows: seq<Unlock>, server: string, names: Names): (us: seq<Unlock>)
    ensures forall u :: u in us ==> InScope(u, server, names)
  {
    if rows == [] then []
    else
      Select(rows[..|rows| - 1], server, names)
      + if InScope(rows[|rows| - 1], server, names) then [rows[|rows| - 1]] else []
  }

  // ----- Counting ---------------------------------------------------------------------------

  function Count<K(==)>(keys: seq<K>, k: K): nat {
    if keys == [] then 0 else Count(keys[..|keys| - 1], k) + if keys[|keys| - 1] == k then 1 else 0
  }

  /** The sum of the counts of several keys. */
  function Sum<K(==)>(keys: seq<K>, of: seq<K>): nat {
    if of == [] then 0 else Sum(keys, of[..|of| - 1]) + Count(keys, of[|of| - 1])
  }

  lemma {:induction false} SumGrows<K>(keys: seq<K>, k: K, of: seq<K>)
    requires forall i, j :: 0 <= i < j < |of| ==> of[i] != of[j]
    ensures Sum(keys + [k], of) == Sum(keys, of) + if k in of then 1 else 0
  {
    assert (keys + [k])[..|keys|] == keys;
    if of != [] {
      var rest, last := of[..|of| - 1], of[|of| - 1];
      assert of == rest + [last];
      SumGrows(keys, k, rest);
    }
  }

  lemma {:induction false} NothingCounted<K>(of: seq<K>)
    ensures Sum([], of) == 0
  {
    if of != [] {
      NothingCounted(of[..|of| - 1]);
    }
  }

  /** Counted key by key or all together, the total is the same. */
  lemma {:induction false} DoubleCounting<K>(keys: seq<K>, of: seq<K>)
    requires forall i, j :: 0 <= i < j < |of| ==> of[i] != of[j]
    requires forall k :: k in keys ==> k in of
    ensures Sum(keys, of) == |keys|
  {
    if keys == [] {
      NothingCounted(of);
    } else {
      var rest, last := keys[..|keys| - 1], keys[|keys| - 1];
      assert keys == rest + [last];
      DoubleCounting(rest, of);
      SumGrows(rest, last, of);
    }
  }

  function PeopleOf(us: seq<Unlock>): (r: seq<string>)
    ensures |r| == |us| && forall i {:trigger r[i]} :: 0 <= i < |us| ==> r[i] == us[i].profileId
  {
    seq(|us|, i requires 0 <= i < |us| => us[i].profileId)
  }

  function FeatsOf(us: seq<Unlock>): (r: seq<(string, string)>)
    ensures |r| == |us| && forall i {:trigger r[i]} :: 0 <= i < |us| ==> r[i] == (us[i].m, us[i].id)
  {
    seq(|us|, i requires 0 <= i < |us| => (us[i].m, us[i].id))
  }

  /** Latest unlock of a profile, i64::MIN without one. */
  function Latest(us: seq<Unlock>, p: string): int {
    if us == [] then I64_MIN
    else
      var before, u := Latest(us[..|us| - 1], p), us[|us| - 1];
      if u.profileId == p && before < u.at then u.at else before
  }

  /** The nick on the profile's first row. */
  function NickOf(us: seq<Unlock>, p: string): string {
    if us == [] then ""
    else if p in PeopleOf(us[..|us| - 1]) then NickOf(us[..|us| - 1], p)
    else if us[|us| - 1].profileId == p then us[|us| - 1].nick else ""
  }

  // ----- Top --------------------------------------------------------------------------------

  /** More achievements first; then whoever got there first; then by profile id. */
  predicate RanksAbove(a: Standing, b: Standing) {
    || a.earned > b.earned
    || (a.earned == b.earned && (a.latest < b.latest || (a.latest == b.latest && Less(a.profileId, b.profileId))))
  }

  predicate EarlierLeader(a: Standing, b: Standing) {
    a.earned > b.earned || (a.earned == b.earned && a.latest < b.latest)
  }

  /** Every collector once, each with its own count and latest unlock, in order of rank. */
  ghost predicate IsRanking(list: seq<Standing>, us: seq<Unlock>) {
    && (forall i :: 0 <= i < |list| ==>
          var s := list[i];
          s.profileId in PeopleOf(us) && s.earned == Count(PeopleOf(us), s.profileId)
          && s.latest == Latest(us, s.profileId) && s.nick == NickOf(us, s.profileId))
    && (forall p :: p in PeopleOf(us) ==> exists i :: 0 <= i < |list| && list[i].profileId == p)
    && (forall i, j :: 0 <= i < j < |list| ==> RanksAbove(list[i], list[j]))
  }

  function IdsOf(list: seq<Standing>): (r: seq<string>)
    ensures |r| == |list| && forall i {:trigger r[i]} :: 0 <= i < |list| ==> r[i] == list[i].profileId
  {
    seq(|list|, i requires 0 <= i < |list| => list[i].profileId)
  }

  function TotalEarned(list: seq<Standing>): nat {
    if list == [] then 0 else TotalEarned(list[..|list| - 1]) + list[|list| - 1].earned
  }

  lemma {:induction false} EarnedIsSum(list: seq<Standing>, us: seq<Unlock>)
    requires forall i :: 0 <= i < |list| ==> list[i].earned == Count(PeopleOf(us), list[i].profileId)
    ensures TotalEarned(list) == Sum(PeopleOf(us), IdsOf(list))
  {
    if list != [] {
      EarnedIsSum(list[..|list| - 1], us);
      assert IdsOf(list)[..|list| - 1] == IdsOf(list[..|list| - 1]);
    }
  }

  lemma RankedIdsDiffer(list: seq<Standing>, us: seq<Unlock>)
    requires IsRanking(list, us)
    ensures forall i, j :: 0 <= i < j < |list| ==> list[i].profileId != list[j].profileId
  {
    forall i, j | 0 <= i < j < |list| ensures list[i].profileId != list[j].profileId {
      assert RanksAbove(list[i], list[j]);
      LessIrreflexive(list[i].profileId);
    }
  }

  /** Before truncation there is one leader per collector, and together they earned every row in scope. */
  lemma LeadersEarnEverything(list: seq<Standing>, us: seq<Unlock>)
    requires IsRanking(list, us)
    ensures TotalEarned(list) == |us|
    ensures |list| == |set p | p in PeopleOf(us)|
  {
    EarnedIsSum(list, us);
    LeadersAreCollectors(list, us);
    DoubleCounting(PeopleOf(us), IdsOf(list));
    CollectorsCounted(IdsOf(list), PeopleOf(us));
  }

  lemma CollectorsCounted(ids: seq<string>, people: seq<string>)
    requires forall i, j :: 0 <= i < j < |ids| ==> ids[i] != ids[j]
    requires forall p :: p in ids <==> p in people
    ensures |ids| == |set p | p in people|
  {
    StableSort.DistinctCount(ids);
    assert (set p | p in ids) == (set p | p in people);
  }

  lemma LeadersAreCollectors(list: seq<Standing>, us: seq<Unlock>)
    requires IsRanking(list, us)
    ensures forall p :: p in IdsOf(list) <==> p in PeopleOf(us)
    ensures forall i, j :: 0 <= i < j < |IdsOf(list)| ==> IdsOf(list)[i] != IdsOf(list)[j]
  {
    var ids := IdsOf(list);
    RankedIdsDiffer(list, us);
    forall p | p in PeopleOf(us) ensures p in ids {
      var i :| 0 <= i < |list| && list[i].profileId == p;
      assert ids[i] == p;
    }
    forall p | p in ids ensures p in PeopleOf(us) {
      var i :| 0 <= i < |ids| && ids[i] == p;
    }
  }

  lemma RanksTransitive(a: Standing, b: Standing, c: Standing)
    requires RanksAbove(a, b) && RanksAbove(b, c)
    ensures RanksAbove(a, c)
  {
    if a.earned == b.earned == c.earned && a.latest == b.latest == c.latest {
      LessTransitive(a.profileId, b.profileId, c.profileId);
    }
  }

  /** Tallies rows per profile, the way the map of leaders is filled. */
  method Tally(us: seq<Unlock>) returns (leaders: map<string, Standing>)
    ensures leaders.Keys == set p | p in PeopleOf(us)
    ensures forall p :: p in leaders ==>
      leaders[p] == Standing(p, NickOf(us, p), Count(PeopleOf(us), p), Latest(us, p))
  {
    leaders := map[];
    for n := 0 to |us|
      invariant forall p :: p in leaders <==> p in PeopleOf(us[..n])
      invariant forall p :: p in leaders ==>
        leaders[p] == Standing(p, NickOf(us[..n], p), Count(PeopleOf(us[..n]), p), Latest(us[..n], p))
    {
      TallyStep(us, n);
      var u := us[n];
      var entry := if u.profileId in leaders then leaders[u.profileId] else Standing(u.profileId, u.nick, 0, I64_MIN);
      leaders := leaders[u.profileId :=
        Standing(u.profileId, entry.nick, entry.earned + 1, if entry.latest < u.at then u.at else entry.latest)];
    }
    assert us[..|us|] == us;
  }

  lemma {:induction false} NeverSeen(us: seq<Unlock>, p: string)
    requires p !in PeopleOf(us)
    ensures Latest(us, p) == I64_MIN && Count(PeopleOf(us), p) == 0
  {
    if us != [] {
      var rest := us[..|us| - 1];
      assert PeopleOf(us)[|us| - 1] == us[|us| - 1].profileId;
      assert PeopleOf(us)[..|us| - 1] == PeopleOf(rest);
      NeverSeen(rest, p);
    }
  }

  lemma TallyStep(us: seq<Unlock>, n: nat)
    requires n < |us|
    ensures var now, before, u := us[..n + 1], us[..n], us[n];
      && (forall p :: p in PeopleOf(now) <==> p in PeopleOf(before) || p == u.profileId)
      && (forall p :: Count(PeopleOf(now), p) == Count(PeopleOf(before), p) + if p == u.profileId then 1 else 0)
      && (forall p :: p != u.profileId ==> Latest(now, p) == Latest(before, p))
      && (Latest(now, u.profileId) == if Latest(before, u.profileId) < u.at then u.at else Latest(before, u.profileId))
      && (forall p :: p in PeopleOf(before) ==> NickOf(now, p) == NickOf(before, p))
      && (u.profileId !in PeopleOf(before) ==>
            && NickOf(now, u.profileId) == u.nick && Latest(before, u.profileId) == I64_MIN
            && Count(PeopleOf(before), u.profileId) == 0)
  {
    var now, before, u := us[..n + 1], us[..n], us[n];
    assert now[..n] == before && now[n] == u;
    assert PeopleOf(now) == PeopleOf(before) + [u.profileId];
    assert PeopleOf(now)[..n] == PeopleOf(before);
    if u.profileId !in PeopleOf(before) {
      NeverSeen(before, u.profileId);
    }
  }

  method RankLeaders(us: seq<Unlock>) returns (ranking: seq<Standing>)
    ensures IsRanking(ranking, us)
  {
    var leaders := Tally(us);
    var ids := InOrder(leaders.Keys);
    var list := seq(|ids|, i requires 0 <= i < |ids| && ids[i] in leaders => leaders[ids[i]]);
    LeadersTieOrdered(list, ids, leaders);
    ranking := StableSort.Sort(list, EarlierLeader, RanksAbove);
    SortedIsRanking(ranking, list, ids, leaders, us);
  }

  lemma LeadersTieOrdered(list: seq<Standing>, ids: seq<string>, leaders: map<string, Standing>)
    requires |list| == |ids| && forall i :: 0 <= i < |ids| ==> ids[i] in leaders && list[i] == leaders[ids[i]]
    requires forall p :: p in leaders ==> leaders[p].profileId == p
    requires forall i, j :: 0 <= i < j < |ids| ==> Less(ids[i], ids[j])
    ensures StableSort.Refines(EarlierLeader, RanksAbove) && StableSort.TiesOrdered(list, EarlierLeader, RanksAbove)
  {
    forall a, b, c | RanksAbove(a, b) && RanksAbove(b, c) ensures RanksAbove(a, c) {
      RanksTransitive(a, b, c);
    }
  }

  lemma SortedIsRanking(ranking: seq<Standing>, list: seq<Standing>, ids: seq<string>, leaders: map<string, Standing>,
                        us: seq<Unlock>)
    requires StableSort.Ordered(ranking, RanksAbove) && multiset(ranking) == multiset(list)
    requires |list| == |ids| && forall i :: 0 <= i < |ids| ==> ids[i] in leaders && list[i] == leaders[ids[i]]
    requires forall p :: p in leaders ==> p in ids
    requires leaders.Keys == set p | p in PeopleOf(us)
    requires forall p :: p in leaders ==>
      leaders[p] == Standing(p, NickOf(us, p), Count(PeopleOf(us), p), Latest(us, p))
    ensures IsRanking(ranking, us)
  {
    forall s ensures s in ranking <==> s in list {
      assert s in multiset(ranking) <==> s in multiset(list);
    }
    forall i | 0 <= i < |ranking|
      ensures ranking[i].profileId in leaders && ranking[i] == leaders[ranking[i].profileId]
    {
      assert ranking[i] in list;
    }
    forall p | p in PeopleOf(us) ensures exists i :: 0 <= i < |ranking| && ranking[i].profileId == p {
      assert p in leaders && leaders[p] in list;
      assert leaders[p] in ranking;
    }
  }

  // ----- Rare -------------------------------------------------------------------------------

  predicate PairLess(a: (string, string), b: (string, string)) {
    Less(a.0, b.0) || (a.0 == b.0 && Less(a.1, b.1))
  }

  predicate RarerThan(a: Rarity, b: Rarity) {
    || a.holders < b.holders
    || (a.holders == b.holders && ((!a.secret && b.secret) || (a.secret == b.secret && Less(a.name, b.name))))
  }

  /** Fewer holders first; then open ones before secrets; then by name, module and id. */
  predicate ListsBefore(a: Rarity, b: Rarity) {
    RarerThan(a, b)
    || (a.holders == b.holders && a.secret == b.secret && a.name == b.name && PairLess((a.m, a.id), (b.m, b.id)))
  }

  function DisplayName(names: Names, m: string, id: string): (string, bool)
    requires (m, id) in names
  {
    if names[(m, id)].1 then (SECRET_NAME, true) else (names[(m, id)].0, false)
  }

  function RarityOf(names: Names, us: seq<Unlock>, feat: (string, string)): Rarity
    requires feat in names
  {
    var shown := DisplayName(names, feat.0, feat.1);
    Rarity(feat.0, feat.1, shown.0, Count(FeatsOf(us), feat), shown.1)
  }

  function FeatOf(r: Rarity): (string, string) {
    (r.m, r.id)
  }

  /** Every achievement that somebody holds once, with its number of holders, rarest first. */
  ghost predicate IsRarityList(list: seq<Rarity>, us: seq<Unlock>, names: Names) {
    && (forall i :: 0 <= i < |list| ==>
          FeatOf(list[i]) in FeatsOf(us) && FeatOf(list[i]) in names && list[i] == RarityOf(names, us, FeatOf(list[i])))
    && (forall f :: f in FeatsOf(us) ==> exists i :: 0 <= i < |list| && FeatOf(list[i]) == f)
    && (forall i, j :: 0 <= i < j < |list| ==> ListsBefore(list[i], list[j]))
  }

  function FeatsListed(list: seq<Rarity>): (r: seq<(string, string)>)
    ensures |r| == |list| && forall i {:trigger r[i]} :: 0 <= i < |list| ==> r[i] == FeatOf(list[i])
  {
    seq(|list|, i requires 0 <= i < |list| => FeatOf(list[i]))
  }

  function TotalHolders(list: seq<Rarity>): nat {
    if list == [] then 0 else TotalHolders(list[..|list| - 1]) + list[|list| - 1].holders
  }

  lemma {:induction false} HoldersAreSum(list: seq<Rarity>, us: seq<Unlock>)
    requires forall i :: 0 <= i < |list| ==> list[i].holders == Count(FeatsOf(us), FeatOf(list[i]))
    ensures TotalHolders(list) == Sum(FeatsOf(us), FeatsListed(list))
  {
    if list != [] {
      HoldersAreSum(list[..|list| - 1], us);
      assert FeatsListed(list)[..|list| - 1] == FeatsListed(list[..|list| - 1]);
    }
  }

  lemma ListedFeatsDiffer(list: seq<Rarity>, us: seq<Unlock>, names: Names)
    requires IsRarityList(list, us, names)
    ensures forall i, j :: 0 <= i < j < |list| ==> FeatOf(list[i]) != FeatOf(list[j])
  {
    forall i, j | 0 <= i < j < |list| ensures FeatOf(list[i]) != FeatOf(list[j]) {
      assert ListsBefore(list[i], list[j]);
      LessIrreflexive(list[i].name);
      LessIrreflexive(list[i].m);
      LessIrreflexive(list[i].id);
    }
  }

  /** Before truncation the holders of all achievements add up to the rows in scope: as many as the leaders
      earned together. */
  lemma HoldersCoverEverything(list: seq<Rarity>, us: seq<Unlock>, names: Names)
    requires IsRarityList(list, us, names)
    ensures TotalHolders(list) == |us|
  {
    var feats := FeatsListed(list);
    ListedFeatsDiffer(list, us, names);
    forall f | f in FeatsOf(us) ensures f in feats {
      var i :| 0 <= i < |list| && FeatOf(list[i]) == f;
      assert feats[i] == f;
    }
    HoldersAreSum(list, us);
    DoubleCounting(FeatsOf(us), feats);
  }

  lemma EarnedEqualsHeld(ranking: seq<Standing>, list: seq<Rarity>, us: seq<Unlock>, names: Names)
    requires IsRanking(ranking, us) && IsRarityList(list, us, names)
    ensures TotalEarned(ranking) == TotalHolders(list) == |us|
  {
    LeadersEarnEverything(ranking, us);
    HoldersCoverEverything(list, us, names);
  }

  /** One row per profile and achievement, as the table's primary key has it. */
  ghost predicate OneRowEach(us: seq<Unlock>) {
    forall i, j :: 0 <= i < j < |us| ==> (us[i].profileId, us[i].m, us[i].id) != (us[j].profileId, us[j].m, us[j].id)
  }

  function Holders(us: seq<Unlock>, feat: (string, string)): set<string> {
    set i | 0 <= i < |us| && (us[i].m, us[i].id) == feat :: us[i].profileId
  }

  lemma HoldersGrow(us: seq<Unlock>, feat: (string, string))
    requires us != []
    ensures var rest, u := us[..|us| - 1], us[|us| - 1];
      Holders(us, feat) == Holders(rest, feat) + if (u.m, u.id) == feat then {u.profileId} else {}
  {
    var rest := us[..|us| - 1];
    forall i | 0 <= i < |rest| && (rest[i].m, rest[i].id) == feat ensures rest[i].profileId in Holders(us, feat) {
      assert us[i] == rest[i];
    }
  }

  lemma NewHolder(us: seq<Unlock>, feat: (string, string))
    requires OneRowEach(us) && us != [] && (us[|us| - 1].m, us[|us| - 1].id) == feat
    ensures us[|us| - 1].profileId !in Holders(us[..|us| - 1], feat)
  {
    var rest := us[..|us| - 1];
    forall i | 0 <= i < |rest| && (rest[i].m, rest[i].id) == feat ensures rest[i].profileId != us[|us| - 1].profileId {
      assert us[i] == rest[i];
    }
  }

  /** The number of holders is the number of different profiles that hold the achievement. */
  lemma {:induction false} HoldersArePeople(us: seq<Unlock>, feat: (string, string))
    requires OneRowEach(us)
    ensures Count(FeatsOf(us), feat) == |Holders(us, feat)|
  {
    if us == [] {
      assert Holders(us, feat) == {};
    } else {
      HoldersArePeople(us[..|us| - 1], feat);
      assert FeatsOf(us)[..|us| - 1] == FeatsOf(us[..|us| - 1]);
      HoldersGrow(us, feat);
      if (us[|us| - 1].m, us[|us| - 1].id) == feat {
        NewHolder(us, feat);
      }
    }
  }

  lemma PairLessTransitive(a: (string, string), b: (string, string), c: (string, string))
    requires PairLess(a, b) && PairLess(b, c)
    ensures PairLess(a, c)
  {
    if Less(a.0, b.0) && Less(b.0, c.0) {
      LessTransitive(a.0, b.0, c.0);
    } else if Less(a.1, b.1) && Less(b.1, c.1) {
      LessTransitive(a.1, b.1, c.1);
    }
  }

  lemma ListsTransitive(a: Rarity, b: Rarity, c: Rarity)
    requires ListsBefore(a, b) && ListsBefore(b, c)
    ensures ListsBefore(a, c)
  {
    if Less(a.name, b.name) && Less(b.name, c.name) {
      LessTransitive(a.name, b.name, c.name);
    } else if PairLess(FeatOf(a), FeatOf(b)) && PairLess(FeatOf(b), FeatOf(c)) {
      PairLessTransitive(FeatOf(a), FeatOf(b), FeatOf(c));
    }
  }

  /** The keys of the map of holders, in the map's own order. */
  method FeatsInOrder(feats: set<(string, string)>) returns (r: seq<(string, string)>)
    ensures forall f :: f in r <==> f in feats
    ensures forall i, j :: 0 <= i < j < |r| ==> PairLess(r[i], r[j])
  {
    var list := StableSort.Listing(feats);
    forall a, b, c | PairLess(a, b) && PairLess(b, c) ensures PairLess(a, c) {
      PairLessTransitive(a, b, c);
    }
    forall i, j | 0 <= i < j < |list| ensures PairLess(list[j], list[i]) || PairLess(list[i], list[j]) {
      LessTotal(list[i].0, list[j].0);
      LessTotal(list[i].1, list[j].1);
    }
    r := StableSort.Sort(list, PairLess, PairLess);
    forall f ensures f in r <==> f in list {
      assert f in multiset(r) <==> f in multiset(list);
    }
  }

  method CountHolders(us: seq<Unlock>) returns (holders: map<(string, string), nat>)
    ensures holders.Keys == set f | f in FeatsOf(us)
    ensures forall f :: f in holders ==> holders[f] == Count(FeatsOf(us), f)
  {
    holders := map[];
    for n := 0 to |us|
      invariant forall f :: f in holders <==> f in FeatsOf(us[..n])
      invariant forall f :: Count(FeatsOf(us[..n]), f) == if f in holders then holders[f] else 0
    {
      var f := (us[n].m, us[n].id);
      assert FeatsOf(us[..n + 1]) == FeatsOf(us[..n]) + [f];
      assert FeatsOf(us[..n + 1])[..n] == FeatsOf(us[..n]);
      holders := holders[f := (if f in holders then holders[f] else 0) + 1];
    }
    assert us[..|us|] == us;
  }

  method RankRarities(us: seq<Unlock>, names: Names) returns (list: seq<Rarity>)
    requires forall u :: u in us ==> (u.m, u.id) in names
    ensures IsRarityList(list, us, names)
  {
    var holders := CountHolders(us);
    forall f | f in holders ensures f in names {
      var i :| 0 <= i < |FeatsOf(us)| && FeatsOf(us)[i] == f;
      assert us[i] in us;
    }
    var feats := FeatsInOrder(holders.Keys);
    var unsorted := [];
    for n := 0 to |feats|
      invariant |unsorted| == n
      invariant forall i :: 0 <= i < n ==> feats[i] in names && unsorted[i] == RarityOf(names, us, feats[i])
    {
      var shown := DisplayName(names, feats[n].0, feats[n].1);
      unsorted := unsorted + [Rarity(feats[n].0, feats[n].1, shown.0, holders[feats[n]], shown.1)];
    }
    forall a, b, c | ListsBefore(a, b) && ListsBefore(b, c) ensures ListsBefore(a, c) {
      ListsTransitive(a, b, c);
    }
    RaritiesTieOrdered(unsorted, feats);
    list := StableSort.Sort(unsorted, RarerThan, ListsBefore);
    SortedIsRarityList(list, unsorted, feats, us, names);
  }

  lemma RaritiesTieOrdered(unsorted: seq<Rarity>, feats: seq<(string, string)>)
    requires |unsorted| == |feats| && forall i :: 0 <= i < |feats| ==> FeatOf(unsorted[i]) == feats[i]
    requires forall i, j :: 0 <= i < j < |feats| ==> PairLess(feats[i], feats[j])
    ensures StableSort.TiesOrdered(unsorted, RarerThan, ListsBefore)
  {
    forall i, j | 0 <= i < j < |unsorted|
      ensures RarerThan(unsorted[j], unsorted[i]) || ListsBefore(unsorted[i], unsorted[j])
    {
      assert PairLess(feats[i], feats[j]);
      LessTotal(unsorted[i].name, unsorted[j].name);
    }
  }

  lemma SortedIsRarityList(list: seq<Rarity>, unsorted: seq<Rarity>, feats: seq<(string, string)>, us: seq<Unlock>,
                           names: Names)
    requires StableSort.Ordered(list, ListsBefore) && multiset(list) == multiset(unsorted)
    requires |unsorted| == |feats|
    requires forall i :: 0 <= i < |feats| ==> feats[i] in names && unsorted[i] == RarityOf(names, us, feats[i])
    requires forall f :: f in feats <==> f in FeatsOf(us)
    ensures IsRarityList(list, us, names)
  {
    forall r ensures r in list <==> r in unsorted {
      assert r in multiset(list) <==> r in multiset(unsorted);
    }
    forall i | 0 <= i < |list|
      ensures FeatOf(list[i]) in FeatsOf(us) && FeatOf(list[i]) in names
        && list[i] == RarityOf(names, us, FeatOf(list[i]))
    {
      assert list[i] in unsorted;
      var k :| 0 <= k < |unsorted| && unsorted[k] == list[i];
      assert feats[k] in feats && FeatOf(list[i]) == feats[k];
    }
    forall f | f in FeatsOf(us) ensures exists i :: 0 <= i < |list| && FeatOf(list[i]) == f {
      var k :| 0 <= k < |feats| && feats[k] == f;
      assert unsorted[k] in list;
      var i :| 0 <= i < |list| && list[i] == unsorted[k];
    }
  }

  // ----- Recent unlocks ---------------------------------------------------------------------

  function Since(us: seq<Unlock>, names: Names, since: int): seq<RecentUnlock>
    requires forall u :: u in us ==> (u.m, u.id) in names
  {
    if us == [] then []
    else
      var u := us[|us| - 1];
      Since(us[..|us| - 1], names, since)
      + if u.at >= since then [RecentUnlock(u.profileId, u.nick, u.m, u.id, DisplayName(names, u.m, u.id).0, u.at,
        names[(u.m, u.id)].1)]
        else []
  }

  predicate After(a: RecentUnlock, b: RecentUnlock) {
    a.at > b.at
  }

  predicate NotBefore(a: RecentUnlock, b: RecentUnlock) {
    a.at >= b.at
  }

  // ----- Answers ----------------------------------------------------------------------------

  function Limit(n: nat): nat {
    if n < 1 then 1 else if n > MAX_LIMIT then MAX_LIMIT else n
  }

  function Take<T>(s: seq<T>, n: nat): seq<T> {
    if |s| <= n then s else s[..n]
  }

  function WantedModule(q: Query): Option<string> {
    if q.Unlocks? then None else q.m
  }

  function Leaders(ranking: seq<Standing>): (r: seq<Leader>)
    ensures |r| == |ranking|
    ensures forall i {:trigger r[i]} :: 0 <= i < |r| ==>
      r[i] == Leader(ranking[i].profileId, ranking[i].nick, ranking[i].earned)
  {
    seq(|ranking|, i requires 0 <= i < |ranking| => Leader(ranking[i].profileId, ranking[i].nick, ranking[i].earned))
  }

  method SelectRows(rows: seq<Unlock>, server: string, names: Names) returns (us: seq<Unlock>)
    ensures us == Select(rows, server, names)
  {
    us := [];
    for n := 0 to |rows|
      invariant us == Select(rows[..n], server, names)
    {
      assert rows[..n + 1][..n] == rows[..n];
      if InScope(rows[n], server, names) {
        us := us + [rows[n]];
      }
    }
    assert rows[..|rows|] == rows;
  }

  method Catalogue(cs: seq<Catalog>, wanted: Option<string>) returns (names: Names)
    ensures names == NamesIn(cs, wanted)
  {
    names := map[];
    for n := 0 to |cs|
      invariant names == NamesIn(cs[..n], wanted)
    {
      assert cs[..n + 1][..n] == cs[..n];
      if wanted.None? || Lower(cs[n].moduleName) == Lower(wanted.value) {
        var items, before := cs[n].manifest.achievements, names;
        for k := 0 to |items|
          invariant names == NameAll(before, cs[n].moduleName, items[..k])
        {
          assert items[..k + 1][..k] == items[..k];
          names := names[(cs[n].moduleName, items[k].id) := (items[k].name, items[k].secret)];
        }
        assert items[..|items|] == items;
      }
    }
    assert cs[..|cs|] == cs;
  }

  /** The answer: each list is the front of the fully sorted list, cut at the limit. */
  method Board(rows: seq<Unlock>, cs: seq<Catalog>, q: Query)
    returns (response: Response, ghost us: seq<Unlock>, ghost ranking: seq<Standing>, ghost rarities: seq<Rarity>,
      ghost recent: seq<RecentUnlock>)
    ensures us == Select(rows, q.server, NamesIn(cs, WantedModule(q)))
    ensures response.collectors == |set p | p in PeopleOf(us)| && response.available == |NamesIn(cs, WantedModule(q))|
    ensures q.Top? ==> IsRanking(ranking, us) && response.top == Leaders(Take(ranking, Limit(q.limit)))
    ensures q.Rare? ==>
      IsRarityList(rarities, us, NamesIn(cs, WantedModule(q))) && response.rare == Take(rarities, Limit(q.limit))
    ensures q.Unlocks? ==> StableSort.Ordered(recent, NotBefore) && response.unlocks == Take(recent, Limit(q.limit))
    ensures q.Unlocks? ==> multiset(recent) == multiset(Since(us, NamesIn(cs, WantedModule(q)), q.since))
    ensures (!q.Top? ==> response.top == []) && (!q.Rare? ==> response.rare == [])
    ensures !q.Unlocks? ==> response.unlocks == []
  {
    var names := Catalogue(cs, WantedModule(q));
    var found := SelectRows(rows, q.server, names);
    us, ranking, rarities, recent := found, [], [], [];
    response := Response(|set p | p in PeopleOf(found)|, |names|, [], [], []);
    match q
    case Top(_, _, limit) =>
      var all := RankLeaders(found);
      ranking := all;
      response := response.(top := Leaders(Take(all, Limit(limit))));
    case Rare(_, _, limit) =>
      var all := RankRarities(found, names);
      rarities := all;
      response := response.(rare := Take(all, Limit(limit)));
    case Unlocks(_, since, limit) =>
      var all := StableSort.Sort(Since(found, names, since), After, NotBefore);
      recent := all;
      response := response.(unlocks := Take(all, Limit(limit)));
  }
}
