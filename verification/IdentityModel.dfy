/** Profiles, nick aliases and services accounts as tables, and what resolving a sender, following a nick
    change and erasing a profile do to them. New identifiers and the order in which the database returns
    profile rows are inputs. */
module IdentityModel {
  import opened Prelude
  import opened Text
  import opened CaseFolding

  type Id = string

  datatype Profile = Profile(server: string, nick: string)
  datatype State = State(
    profiles: map<Id, Profile>, aliases: map<(string, string), Id>, accounts: map<(string, string), Id>)

  /** Negotiated mappings by network; RFC 1459 where none has been announced. */
  type Mappings = map<string, CaseMapping>

  function MappingOf(ms: Mappings, server: string): CaseMapping {
    if server in ms then ms[server] else Rfc1459
  }

  /** Lookup follows a nick to whoever holds it; Speaker attributes a message to its sender. */
  datatype Claim = Lookup | Speaker

  predicate Backed(s: State, server: string, id: Id) {
    exists key :: key in s.accounts && key.0 == server && s.accounts[key] == id
  }

  predicate MatchesAlias(s: State, ms: Mappings, server: string, nick: string, stored: string) {
    (server, stored) in s.aliases && Equivalent(MappingOf(ms, server), stored, nick)
  }

  ghost function AliasOf(s: State, ms: Mappings, server: string, nick: string): Option<string> {
    if exists stored :: MatchesAlias(s, ms, server, nick, stored)
    then var stored :| MatchesAlias(s, ms, server, nick, stored); Some(stored)
    else None
  }

  /** The first profile row whose nick is equivalent. */
  function ScanFor(s: State, ms: Mappings, server: string, nick: string, rows: seq<Id>): Option<Id> {
    if rows == [] then None
    else if rows[0] in s.profiles && Equivalent(MappingOf(ms, server), s.profiles[rows[0]].nick, nick)
    then Some(rows[0])
    else ScanFor(s, ms, server, nick, rows[1..])
  }

  /** The row order returned for a network: all its profiles. */
  ghost predicate IsRows(s: State, server: string, rows: seq<Id>) {
    forall id :: id in rows <==> id in s.profiles && s.profiles[id].server == server
  }

  function Usable(account: Option<string>): bool {
    account.Some? && account.value != "" && account.value != "*"
  }

  /** Accounts are stored COLLATE NOCASE: ASCII case makes no difference. */
  function AccountKey(server: string, account: string): (string, string) {
    (server, Lower(account))
  }

  function Guarded(account: Option<string>, claim: Claim): bool {
    account.Some? || claim == Speaker
  }

  /** What a nick may yield: an account-backed profile only to an unguarded lookup. */
  function Admit(s: State, server: string, guarded: bool, id: Id): Option<Id> {
    if guarded && Backed(s, server, id) then None else Some(id)
  }

  ghost function IdFor(s: State, ms: Mappings, server: string, nick: string, account: Option<string>,
                       claim: Claim, rows: seq<Id>): Option<Id>
  {
    if account.Some? && account.value != "" && AccountKey(server, account.value) in s.accounts
    then Some(s.accounts[AccountKey(server, account.value)])
    else match AliasOf(s, ms, server, nick)
      case Some(stored) =>
        if (server, stored) in s.aliases then Admit(s, server, Guarded(account, claim), s.aliases[(server, stored)])
        else None
      case None =>
        match ScanFor(s, ms, server, nick, rows)
        case Some(id) => Admit(s, server, Guarded(account, claim), id)
        case None => None
  }

  ghost function UpsertAlias(s: State, ms: Mappings, server: string, nick: string, id: Id): State {
    s.(aliases := s.aliases[(server, AliasOf(s, ms, server, nick).GetOr(nick)) := id])
  }

  /** Another profile of the network already has this nick, up to the database's NOCASE collation. */
  predicate NickTaken(s: State, server: string, nick: string, except: Id) {
    exists id :: id in s.profiles && id != except && s.profiles[id].server == server
      && Lower(s.profiles[id].nick) == Lower(nick)
  }

  /** `UPDATE OR IGNORE profiles SET nick=…`. */
  function Rename(s: State, id: Id, nick: string): State {
    if id !in s.profiles || NickTaken(s, s.profiles[id].server, nick, id) then s
    else s.(profiles := s.profiles[id := s.profiles[id].(nick := nick)])
  }

  function BindAccount(s: State, server: string, account: Option<string>, id: Id): State {
    if Usable(account) then s.(accounts := s.accounts[AccountKey(server, account.value) := id]) else s
  }

  /** The nick a new profile is stored under. */
  ghost function StoredNick(s: State, ms: Mappings, server: string, nick: string, newId: Id, rows: seq<Id>): string
    requires |newId| >= 8
  {
    if IdFor(s, ms, server, nick, None, Lookup, rows).Some? then nick + "~" + newId[..8] else nick
  }

  /** What is left to do once the profile is known. */
  ghost function Attach(s: State, ms: Mappings, server: string, nick: string, account: Option<string>, id: Id): State {
    Rename(BindAccount(UpsertAlias(s, ms, server, nick, id), server, account, id), id, nick)
  }

  // The writing statements of a resolution run one by one, outside any transaction: 1 inserts a new profile,
  // 2 writes the alias, 3 the account, 4 the latest nick, and 5 reads the profile back. `done` is the number of
  // the last one that succeeds; 0 if not even the lookup does.
  const READ_BACK := 5

  ghost function AttachUpTo(s: State, ms: Mappings, server: string, nick: string, account: Option<string>, id: Id,
                            done: nat): State {
    var s1 := if done < 2 then s else UpsertAlias(s, ms, server, nick, id);
    var s2 := if done < 3 then s1 else BindAccount(s1, server, account, id);
    if done < 4 then s2 else Rename(s2, id, nick)
  }

  function Reported(id: Id, done: nat): Option<Id> {
    if done < READ_BACK then None else Some(id)
  }

  /** The resolved profile; none when a statement fails or the new profile row cannot be inserted. */
  datatype Resolved = Resolved(state: State, id: Option<Id>)

  ghost function Resolve(s: State, ms: Mappings, server: string, nick: string, account: Option<string>,
                         claim: Claim, newId: Id, rows: seq<Id>, done: nat): Resolved
    requires |newId| >= 8
  {
    if done == 0 then Resolved(s, None)
    else match IdFor(s, ms, server, nick, account, claim, rows)
      case Some(id) => Resolved(AttachUpTo(s, ms, server, nick, account, id, done), Reported(id, done))
      case None =>
        var stored := StoredNick(s, ms, server, nick, newId, rows);
        if newId in s.profiles || NickTaken(s, server, stored, newId) then Resolved(s, None)
        else Resolved(AttachUpTo(Inserted(s, newId, server, stored), ms, server, nick, account, newId, done),
          Reported(newId, done))
  }

  function Inserted(s: State, id: Id, server: string, nick: string): State {
    s.(profiles := s.profiles[id := Profile(server, nick)])
  }

  ghost function BindNick(s: State, ms: Mappings, server: string, oldNick: string, newNick: string,
                          account: Option<string>, newId: Id, rows: seq<Id>, done: nat): Resolved
    requires |newId| >= 8
  {
    var r := Resolve(s, ms, server, oldNick, account, Speaker, newId, rows, done);
    match r.id
    case None => r
    case Some(id) =>
      var s1 := if done < 6 then r.state else UpsertAlias(r.state, ms, server, newNick, id);
      if done < 7 then Resolved(s1, None) else Resolved(Rename(s1, id, newNick), Some(id))
  }

  /** The identity part of finishing an erasure. */
  function Erase(s: State, server: string, id: Id): State {
    State(map p | p in s.profiles && !(p == id && s.profiles[p].server == server) :: s.profiles[p],
          map k | k in s.aliases && !(k.0 == server && s.aliases[k] == id) :: s.aliases[k],
          map k | k in s.accounts && !(k.0 == server && s.accounts[k] == id) :: s.accounts[k])
  }

  datatype Event =
    | Seen(server: string, nick: string, account: Option<string>, claim: Claim, newId: Id, rows: seq<Id>, done: nat)
    | NickChange(server: string, oldNick: string, newNick: string, account: Option<string>, newId: Id, rows: seq<Id>,
                 done: nat)
    | Erased(server: string, id: Id)

  /** Identifiers are fresh and the rows are those of the network. */
  ghost predicate Enabled(s: State, e: Event) {
    match e
    case Seen(server, _, _, _, newId, rows, _) => |newId| >= 8 && newId !in s.profiles && IsRows(s, server, rows)
    case NickChange(server, _, _, _, newId, rows, _) => |newId| >= 8 && newId !in s.profiles && IsRows(s, server, rows)
    case Erased(_, _) => true
  }

  ghost function Step(s: State, ms: Mappings, e: Event): State
    requires Enabled(s, e)
  {
    match e
    case Seen(server, nick, account, claim, newId, rows, done) =>
      Resolve(s, ms, server, nick, account, claim, newId, rows, done).state
    case NickChange(server, oldNick, newNick, account, newId, rows, done) =>
      BindNick(s, ms, server, oldNick, newNick, account, newId, rows, done).state
    case Erased(server, id) => Erase(s, server, id)
  }

  ghost predicate Runnable(s: State, ms: Mappings, es: seq<Event>)
    decreases |es|
  {
    es == [] || (Enabled(s, es[0]) && Runnable(Step(s, ms, es[0]), ms, es[1..]))
  }

  ghost function Exec(s: State, ms: Mappings, es: seq<Event>): State
    requires Runnable(s, ms, es)
    decreases |es|
  {
    if es == [] then s else Exec(Step(s, ms, es[0]), ms, es[1..])
  }

  // ----- Invariant --------------------------------------------------------------------------

  ghost predicate AliasesLive(s: State) {
    forall k :: k in s.aliases ==> s.aliases[k] in s.profiles && s.profiles[s.aliases[k]].server == k.0
  }

  ghost predicate AccountsLive(s: State) {
    forall k :: k in s.accounts ==>
      k.1 != "" && k.1 != "*" && s.accounts[k] in s.profiles && s.profiles[s.accounts[k]].server == k.0
  }

  /** No profile belongs to two accounts. */
  ghost predicate AccountsInjective(s: State) {
    forall k, l :: k in s.accounts && l in s.accounts && s.accounts[k] == s.accounts[l] ==> k == l
  }

  /** No network has two equivalent alias rows. */
  ghost predicate NoTwins(s: State, ms: Mappings) {
    forall k, l :: k in s.aliases && l in s.aliases && k.0 == l.0 && Equivalent(MappingOf(ms, k.0), k.1, l.1) ==> k == l
  }

  ghost predicate Inv(s: State, ms: Mappings) {
    AliasesLive(s) && AccountsLive(s) && AccountsInjective(s) && NoTwins(s, ms)
  }
}
