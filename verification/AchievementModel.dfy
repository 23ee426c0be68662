/** The achievement tables and the writers that change them: live awards, historical backfills, catalogue
    reconciliation, opt-out, the public gallery flag, reads and erasure. Every operation is one
    transaction: it applies in full or not at all. */
module AchievementModel {
  import opened Prelude
  import opened Text

  const MANIFEST_VERSION := 1
  const MAX_INCREMENTS := 32
  const MAX_DEDUP_BYTES := 200
  const MAX_BACKFILL := 100_000

  /** Network and profile id. */
  type Who = (string, string)

  datatype Stat = Stat(id: string, description: string)
  datatype Achievement = Achievement(
    id: string, name: string, description: string, stat: string, threshold: nat, optional: bool, secret: bool)
  datatype Prestige = Prestige(id: string, name: string, stat: string, firstThreshold: nat, every: nat)
  datatype Manifest = Manifest(
    version: nat, stats: seq<Stat>, achievements: seq<Achievement>, prestige: seq<Prestige>, catalogVersion: nat)
  datatype Catalog = Catalog(moduleName: string, manifest: Manifest)

  /** Primary key of the tables: whose row, of which module, for which stat, achievement or event. */
  datatype Row = Row(who: Who, m: string, item: string)

  datatype Flags = Flags(optOut: bool, blocked: bool, isPublic: bool)

  datatype State = State(
    profiles: map<Who, Flags>, stats: map<Row, nat>, unlocks: map<Row, int>, prestige: map<Row, nat>,
    backfills: map<Row, nat>, dedup: map<Row, int>)

  // ----- Manifests --------------------------------------------------------------------------

  predicate IsItemId(id: string) {
    id != "" && forall i :: 0 <= i < |id| ==> 'a' <= id[i] <= 'z' || '0' <= id[i] <= '9' || id[i] == '_'
  }

  predicate KnownStat(m: Manifest, stat: string) {
    exists i :: 0 <= i < |m.stats| && m.stats[i].id == stat
  }

  predicate ValidManifest(m: Manifest) {
    && m.version == MANIFEST_VERSION
    && (forall i :: 0 <= i < |m.stats| ==> IsItemId(m.stats[i].id) && !IsBlank(m.stats[i].description))
    && (forall i, j :: 0 <= i < j < |m.stats| ==> m.stats[i].id != m.stats[j].id)
    && (forall i :: 0 <= i < |m.achievements| ==>
          var a := m.achievements[i];
          IsItemId(a.id) && !IsBlank(a.name) && !IsBlank(a.description) && a.threshold > 0 && KnownStat(m, a.stat))
    && (forall i, j :: 0 <= i < j < |m.achievements| ==>
          m.achievements[i].id != m.achievements[j].id
          && (|| m.achievements[i].stat != m.achievements[j].stat
              || m.achievements[i].threshold != m.achievements[j].threshold))
    && (forall i :: 0 <= i < |m.prestige| ==>
          var p := m.prestige[i];
          IsItemId(p.id) && !IsBlank(p.name) && p.firstThreshold > 0 && p.every > 0 && KnownStat(m, p.stat))
    && (forall i, j :: 0 <= i < j < |m.prestige| ==> m.prestige[i].id != m.prestige[j].id)
    && (forall i, j :: 0 <= i < |m.achievements| && 0 <= j < |m.prestige| ==> m.achievements[i].id != m.prestige[j].id)
  }

  /** The catalogues of the loaded modules: valid, one per module, none of them called "meta". */
  predicate ValidCatalogs(cs: seq<Catalog>) {
    && (forall i :: 0 <= i < |cs| ==> ValidManifest(cs[i].manifest) && cs[i].moduleName != "meta")
    && (forall i, j :: 0 <= i < j < |cs| ==> cs[i].moduleName != cs[j].moduleName)
  }

  // ----- Values derived from the counters -----------------------------------------------------

  function StatOf(s: State, who: Who, m: string, stat: string): nat {
    if Row(who, m, stat) in s.stats then s.stats[Row(who, m, stat)] else 0
  }

  function RankOf(s: State, who: Who, m: string, id: string): nat {
    if Row(who, m, id) in s.prestige then s.prestige[Row(who, m, id)] else 0
  }

  function Rank(p: Prestige, value: nat): nat {
    if value < p.firstThreshold || p.every == 0 then 0 else 1 + (value - p.firstThreshold) / p.every
  }

  // ----- The passes over a manifest -----------------------------------------------------------

  /** `INSERT OR IGNORE`. */
  function InsertUnlock(s: State, row: Row, now: int): State {
    if row in s.unlocks then s else s.(unlocks := s.unlocks[row := now])
  }

  function UnlockPass(s: State, who: Who, m: string, items: seq<Achievement>, now: int): State {
    if items == [] then s
    else
      var before, a := UnlockPass(s, who, m, items[..|items| - 1], now), items[|items| - 1];
      if StatOf(before, who, m, a.stat) >= a.threshold then InsertUnlock(before, Row(who, m, a.id), now) else before
  }

  function PrestigePass(s: State, who: Who, m: string, items: seq<Prestige>): State {
    if items == [] then s
    else
      var before, p := PrestigePass(s, who, m, items[..|items| - 1]), items[|items| - 1];
      var rank := Rank(p, StatOf(before, who, m, p.stat));
      if rank > RankOf(before, who, m, p.id) then before.(prestige := before.prestige[Row(who, m, p.id) := rank])
      else before
  }

  function ReconcileModule(s: State, who: Who, c: Catalog, now: int): State {
    PrestigePass(UnlockPass(s, who, c.moduleName, c.manifest.achievements, now), who, c.moduleName, c.manifest.prestige)
  }

  // ----- Collection milestones ----------------------------------------------------------------

  function CountUnlocked(s: State, who: Who, m: string, items: seq<Achievement>): nat {
    if items == [] then 0
    else
      CountUnlocked(s, who, m, items[..|items| - 1])
      + (if Row(who, m, items[|items| - 1].id) in s.unlocks then 1 else 0)
  }

  /** Achievements of the loaded catalogues that the profile holds. */
  function CollectionSize(s: State, who: Who, cs: seq<Catalog>): nat {
    if cs == [] then 0
    else
      var c := cs[|cs| - 1];
      CollectionSize(s, who, cs[..|cs| - 1]) + CountUnlocked(s, who, c.moduleName, c.manifest.achievements)
  }

  predicate IsRequired(cs: seq<Catalog>, i: nat, j: nat) {
    i < |cs| && j < |cs[i].manifest.achievements| && !cs[i].manifest.achievements[j].optional
  }

  predicate SomethingRequired(cs: seq<Catalog>) {
    exists i, j :: 0 <= i < |cs| && 0 <= j < |cs[i].manifest.achievements| && IsRequired(cs, i, j)
  }

  /** The required set is not empty and fully unlocked. */
  predicate Complete(s: State, who: Who, cs: seq<Catalog>) {
    && SomethingRequired(cs)
    && forall i, j :: 0 <= i < |cs| && 0 <= j < |cs[i].manifest.achievements| && IsRequired(cs, i, j) ==>
         Row(who, cs[i].moduleName, cs[i].manifest.achievements[j].id) in s.unlocks
  }

  /** Existence queries that fail while the milestones are counted and while the required set is tested. The
      host takes a failing query for a row that is not there. */
  datatype Reads = Reads(counted: set<Row>, required: set<Row>)

  /** The tables as they look when these existence queries fail. */
  function Seen(s: State, lost: set<Row>): State {
    s.(unlocks := s.unlocks - lost)
  }

  /** The query for one of the required achievements fails. */
  predicate MissesRequired(who: Who, cs: seq<Catalog>, lost: set<Row>) {
    exists i, j :: 0 <= i < |cs| && 0 <= j < |cs[i].manifest.achievements| && IsRequired(cs, i, j)
      && Row(who, cs[i].moduleName, cs[i].manifest.achievements[j].id) in lost
  }

  const MILESTONES: seq<(string, nat)> :=
    [("modest_mantelpiece", 10), ("cabinet_curiosities", 25), ("distinguished_collection", 50)]

  const WHOLE := "whole_shooting_match"

  function MilestonePass(s: State, who: Who, size: nat, milestones: seq<(string, nat)>, now: int): State {
    if milestones == [] then s
    else
      var before, m := MilestonePass(s, who, size, milestones[..|milestones| - 1], now), milestones[|milestones| - 1];
      if size >= m.1 then InsertUnlock(before, Row(who, "meta", m.0), now) else before
  }

  function SettleBadge(s: State, who: Who, cs: seq<Catalog>, now: int, lost: Reads): State {
    if Complete(Seen(s, lost.required), who, cs) then InsertUnlock(s, Row(who, "meta", WHOLE), now)
    else s.(unlocks := s.unlocks - {Row(who, "meta", WHOLE)})
  }

  function MetaStep(s: State, who: Who, cs: seq<Catalog>, now: int, lost: Reads): State {
    var size := CollectionSize(Seen(s, lost.counted), who, cs);
    SettleBadge(MilestonePass(s, who, size, MILESTONES, now), who, cs, now, lost)
  }

  // ----- Award --------------------------------------------------------------------------------

  datatype Increment = Increment(stat: string, amount: nat)

  /** Sum of the increments of one stat. */
  function Total(increments: seq<Increment>, stat: string): nat {
    if increments == [] then 0
    else
      var last := increments[|increments| - 1];
      Total(increments[..|increments| - 1], stat) + if last.stat == stat then last.amount else 0
  }

  predicate IncrementsValid(m: Manifest, increments: seq<Increment>) {
    && 0 < |increments| <= MAX_INCREMENTS
    && forall i :: 0 <= i < |increments| ==>
         && increments[i].amount != 0 && KnownStat(m, increments[i].stat)
         && Total(increments, increments[i].stat) <= U64_MAX
  }

  predicate DedupValid(id: Option<string>) {
    id.Some? ==> id.value != "" && Utf8Len(id.value) <= MAX_DEDUP_BYTES
  }

  predicate IsDuplicate(s: State, who: Who, m: string, id: Option<string>) {
    id.Some? && Row(who, m, id.value) in s.dedup
  }

  function Incremented(increments: seq<Increment>): set<string> {
    set i | 0 <= i < |increments| :: increments[i].stat
  }

  predicate Overflows(s: State, who: Who, m: string, increments: seq<Increment>) {
    exists i :: 0 <= i < |increments|
      && StatOf(s, who, m, increments[i].stat) + Total(increments, increments[i].stat) > I64_MAX
  }

  datatype AwardError = BadRequest | BadIncrement | UnknownProfile | BadDedupId | StatOverflow
  datatype AwardOutcome = Rejected(error: AwardError) | Suppressed | Duplicate | Applied

  function JudgeAward(s: State, c: Catalog, who: Who, increments: seq<Increment>,
                      dedupId: Option<string>): AwardOutcome {
    if who.0 == "" || who.1 == "" || increments == [] then Rejected(BadRequest)
    else if !IncrementsValid(c.manifest, increments) then Rejected(BadIncrement)
    else if who !in s.profiles then Rejected(UnknownProfile)
    else if s.profiles[who].optOut then Suppressed
    else if !DedupValid(dedupId) then Rejected(BadDedupId)
    else if IsDuplicate(s, who, c.moduleName, dedupId) then Duplicate
    else if Overflows(s, who, c.moduleName, increments) then Rejected(StatOverflow)
    else Applied
  }

  function AddStats(s: State, who: Who, m: string, increments: seq<Increment>): State {
    s.(stats := s.stats + map stat | stat in Incremented(increments) ::
         Row(who, m, stat) := StatOf(s, who, m, stat) + Total(increments, stat))
  }

  function AwardStep(s: State, cs: seq<Catalog>, c: Catalog, who: Who, increments: seq<Increment>,
                     dedupId: Option<string>, now: int, lost: Reads): State
  {
    if JudgeAward(s, c, who, increments, dedupId) != Applied then s
    else
      var s1 := if dedupId.Some? then s.(dedup := s.dedup[Row(who, c.moduleName, dedupId.value) := now]) else s;
      MetaStep(ReconcileModule(AddStats(s1, who, c.moduleName, increments), who, c, now), who, cs, now, lost)
  }

  // ----- Backfill -----------------------------------------------------------------------------

  datatype SetMax = SetMax(profileId: string, stat: string, value: nat)

  predicate BackfillValid(s: State, server: string, m: Manifest, values: seq<SetMax>) {
    && |values| <= MAX_BACKFILL
    && forall i :: 0 <= i < |values| ==>
         && values[i].profileId != "" && KnownStat(m, values[i].stat) && values[i].value <= I64_MAX
         && (server, values[i].profileId) in s.profiles
  }

  predicate Eligible(s: State, who: Who) {
    who in s.profiles && !s.profiles[who].optOut && !s.profiles[who].blocked
  }

  function Max(a: nat, b: nat): nat {
    if a < b then b else a
  }

  /** Achievements of one stat that a historical value reaches. */
  function UnlockReached(s: State, who: Who, m: string, items: seq<Achievement>, stat: string, value: nat,
                         now: int): State {
    if items == [] then s
    else
      var before, a := UnlockReached(s, who, m, items[..|items| - 1], stat, value, now), items[|items| - 1];
      if a.stat == stat && a.threshold <= value then InsertUnlock(before, Row(who, m, a.id), now) else before
  }

  function BackfillOne(s: State, server: string, c: Catalog, v: SetMax, now: int): State {
    var who, m := (server, v.profileId), c.moduleName;
    if !Eligible(s, who) then s
    else
      var s1 := s.(stats := s.stats[Row(who, m, v.stat) := Max(StatOf(s, who, m, v.stat), v.value)]);
      var s2 := UnlockReached(s1, who, m, c.manifest.achievements, v.stat, v.value, now);
      var marker := Row(who, m, "");
      s2.(backfills := s2.backfills[marker :=
        if marker in s2.backfills then Max(s2.backfills[marker], c.manifest.catalogVersion)
        else c.manifest.catalogVersion])
  }

  function BackfillValues(s: State, server: string, c: Catalog, values: seq<SetMax>, now: int): State {
    if values == [] then s
    else BackfillOne(BackfillValues(s, server, c, values[..|values| - 1], now), server, c, values[|values| - 1], now)
  }

  function ReconcileAll(s: State, order: seq<Who>, c: Catalog, now: int): State {
    if order == [] then s
    else ReconcileModule(ReconcileAll(s, order[..|order| - 1], c, now), order[|order| - 1], c, now)
  }

  /** The profiles a backfill touches. */
  function Touched(s: State, server: string, values: seq<SetMax>): set<Who> {
    set i | 0 <= i < |values| && Eligible(s, (server, values[i].profileId)) :: (server, values[i].profileId)
  }

  ghost predicate Lists(order: seq<Who>, whos: set<Who>) {
    forall who :: who in order <==> who in whos
  }

  /** `order` is the order in which the touched profiles are reconciled. */
  function BackfillStep(s: State, server: string, c: Catalog, values: seq<SetMax>, order: seq<Who>, now: int): State {
    if !BackfillValid(s, server, c.manifest, values) then s
    else ReconcileAll(BackfillValues(s, server, c, values, now), order, c, now)
  }

  // ----- Catalogue reconciliation -------------------------------------------------------------

  function ReconcileModules(s: State, who: Who, cs: seq<Catalog>, now: int): State {
    if cs == [] then s
    else ReconcileModule(ReconcileModules(s, who, cs[..|cs| - 1], now), who, cs[|cs| - 1], now)
  }

  function ReconcileProfile(s: State, who: Who, cs: seq<Catalog>, now: int, lost: Reads): State {
    MetaStep(ReconcileModules(s, who, cs, now), who, cs, now, lost)
  }

  function CatalogStep(s: State, order: seq<Who>, cs: seq<Catalog>, now: int, lost: Reads): State {
    if order == [] then s
    else ReconcileProfile(CatalogStep(s, order[..|order| - 1], cs, now, lost), order[|order| - 1], cs, now, lost)
  }

  // ----- Flags, reads and erasure -------------------------------------------------------------

  function Without<V>(table: map<Row, V>, who: Who): map<Row, V> {
    map r | r in table && r.who != who :: table[r]
  }

  function DeleteRows(s: State, who: Who): State {
    State(s.profiles, Without(s.stats, who), Without(s.unlocks, who), Without(s.prestige, who),
          Without(s.backfills, who), Without(s.dedup, who))
  }

  function OptOutStep(s: State, who: Who, optOut: bool): State {
    if who !in s.profiles then s
    else
      var f := s.profiles[who];
      var s1 := s.(profiles := s.profiles[who := Flags(optOut, f.blocked || optOut, f.isPublic && !optOut)]);
      if optOut then DeleteRows(s1, who) else s1
  }

  function PublicStep(s: State, who: Who, isPublic: bool): State {
    if who !in s.profiles || s.profiles[who].optOut then s
    else s.(profiles := s.profiles[who := s.profiles[who].(isPublic := isPublic)])
  }

  /** Reading a summary first drops a stale completion badge. */
  function ReadStep(s: State, who: Who, cs: seq<Catalog>, lost: set<Row>): State {
    if Complete(Seen(s, lost), who, cs) then s else s.(unlocks := s.unlocks - {Row(who, "meta", WHOLE)})
  }

  function EraseStep(s: State, who: Who): State {
    DeleteRows(s.(profiles := s.profiles - {who}), who)
  }

  function NewProfileStep(s: State, who: Who): State {
    if who in s.profiles then s else s.(profiles := s.profiles[who := Flags(false, false, false)])
  }

  // ----- Runs ---------------------------------------------------------------------------------

  datatype Event =
    | NewProfile(who: Who)
    | Award(c: Catalog, who: Who, increments: seq<Increment>, dedupId: Option<string>, now: int, lost: Reads)
    | Backfill(server: string, c: Catalog, values: seq<SetMax>, order: seq<Who>, now: int)
    | Reconcile(order: seq<Who>, now: int, lost: Reads)
    | OptOut(who: Who, optOut: bool)
    | Publish(who: Who, isPublic: bool)
    | Read(who: Who, unread: set<Row>)
    | Erase(who: Who)

  /** Modules act under their own catalogue, and the visiting orders cover just the profiles concerned. */
  ghost predicate Enabled(s: State, cs: seq<Catalog>, e: Event) {
    match e
    case Award(c, _, _, _, _, _) => c in cs
    case Backfill(server, c, values, order, _) => c in cs && Lists(order, Touched(s, server, values))
    case Reconcile(order, _, _) => Lists(order, s.profiles.Keys)
    case NewProfile(_) => true
    case OptOut(_, _) => true
    case Publish(_, _) => true
    case Read(_, _) => true
    case Erase(_) => true
  }

  function Step(s: State, cs: seq<Catalog>, e: Event): State {
    match e
    case NewProfile(who) => NewProfileStep(s, who)
    case Award(c, who, increments, dedupId, now, lost) => AwardStep(s, cs, c, who, increments, dedupId, now, lost)
    case Backfill(server, c, values, order, now) => BackfillStep(s, server, c, values, order, now)
    case Reconcile(order, now, lost) => CatalogStep(s, order, cs, now, lost)
    case OptOut(who, optOut) => OptOutStep(s, who, optOut)
    case Publish(who, isPublic) => PublicStep(s, who, isPublic)
    case Read(who, unread) => ReadStep(s, who, cs, unread)
    case Erase(who) => EraseStep(s, who)
  }

  function Exec(s: State, cs: seq<Catalog>, es: seq<Event>): State
    decreases |es|
  {
    if es == [] then s else Exec(Step(s, cs, es[0]), cs, es[1..])
  }

  ghost predicate Runnable(s: State, cs: seq<Catalog>, es: seq<Event>)
    decreases |es|
  {
    es == [] || (Enabled(s, cs, es[0]) && Runnable(Step(s, cs, es[0]), cs, es[1..]))
  }

  // ----- Invariant ----------------------------------------------------------------------------

  predicate Reached(s: State, who: Who, c: Catalog, j: int) {
    && 0 <= j < |c.manifest.achievements|
    && StatOf(s, who, c.moduleName, c.manifest.achievements[j].stat) >= c.manifest.achievements[j].threshold
  }

  /** Some loaded achievement stands at this row and its counter has reached its threshold. */
  ghost predicate IsExplained(s: State, cs: seq<Catalog>, row: Row) {
    exists i, j :: 0 <= i < |cs| && cs[i].moduleName == row.m && Reached(s, row.who, cs[i], j)
      && cs[i].manifest.achievements[j].id == row.item
  }

  /** Outside the collection milestones a row exists exactly when it is explained. */
  ghost predicate UnlocksExact(s: State, cs: seq<Catalog>, who: Who) {
    forall row: Row :: row.who == who && row.m != "meta" ==> (row in s.unlocks <==> IsExplained(s, cs, row))
  }

  ghost predicate RanksOf(s: State, who: Who, c: Catalog) {
    forall p :: p in c.manifest.prestige ==>
      RankOf(s, who, c.moduleName, p.id) == Rank(p, StatOf(s, who, c.moduleName, p.stat))
  }

  /** Every stored rank, absent meaning 0, is the closed formula on the counter. */
  ghost predicate RanksExact(s: State, cs: seq<Catalog>, who: Who) {
    forall c :: c in cs ==> RanksOf(s, who, c)
  }

  ghost predicate NoRows(s: State, who: Who) {
    forall r: Row :: r.who == who ==>
      r !in s.stats && r !in s.unlocks && r !in s.prestige && r !in s.backfills && r !in s.dedup
  }

  predicate TakesPart(s: State, who: Who) {
    who in s.profiles && !s.profiles[who].optOut
  }

  /** A profile that has opted out, or does not exist, has no row in any of the five tables, is not in
      the public gallery and stays closed to backfills. */
  ghost predicate OptOutHonoured(s: State, who: Who) {
    && (!TakesPart(s, who) ==> NoRows(s, who))
    && (who in s.profiles && s.profiles[who].optOut ==> s.profiles[who].blocked && !s.profiles[who].isPublic)
  }

  /** The completion badge is never held by an incomplete collection. */
  ghost predicate BadgeEarned(s: State, cs: seq<Catalog>, who: Who) {
    Row(who, "meta", WHOLE) in s.unlocks ==> Complete(s, who, cs)
  }

  ghost predicate Good(s: State, cs: seq<Catalog>, who: Who) {
    UnlocksExact(s, cs, who) && RanksExact(s, cs, who) && OptOutHonoured(s, who) && BadgeEarned(s, cs, who)
  }

  ghost predicate Inv(s: State, cs: seq<Catalog>) {
    forall who :: Good(s, cs, who)
  }
}
