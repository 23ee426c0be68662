/** What identity resolution keeps over every run: accounts are bound once and to one profile each,
    aliases stay unambiguous, nobody inherits a registered profile, and resolving is stable. */
module IdentityRuns {
  import opened Prelude
  import opened Text
  import opened CaseFolding
  import opened IdentityModel

  // ----- Alias lookup -------------------------------------------------------------------------

  /** Without twins the lookup has one answer. */
  lemma AliasIsUnique(s: State, ms: Mappings, server: string, nick: string, stored: string)
    requires NoTwins(s, ms) && MatchesAlias(s, ms, server, nick, stored)
    ensures AliasOf(s, ms, server, nick) == Some(stored)
  {
    var other := AliasOf(s, ms, server, nick).value;
    assert MatchesAlias(s, ms, server, nick, other);
    assert (server, other) == (server, stored);
  }

  lemma AliasFound(s: State, ms: Mappings, server: string, nick: string)
    ensures match AliasOf(s, ms, server, nick)
            case Some(stored) => MatchesAlias(s, ms, server, nick, stored)
            case None => forall stored :: !MatchesAlias(s, ms, server, nick, stored)
  {
  }

  /** After an alias is written, every equivalent nick finds the same profile. */
  lemma UpsertIsFound(s: State, ms: Mappings, server: string, nick: string, id: Id, other: string)
    requires NoTwins(s, ms) && Equivalent(MappingOf(ms, server), nick, other)
    ensures var s' := UpsertAlias(s, ms, server, nick, id);
      && NoTwins(s', ms)
      && AliasOf(s', ms, server, other).Some?
      && (server, AliasOf(s', ms, server, other).value) in s'.aliases
      && s'.aliases[(server, AliasOf(s', ms, server, other).value)] == id
  {
    var s' := UpsertAlias(s, ms, server, nick, id);
    var stored := AliasOf(s, ms, server, nick).GetOr(nick);
    AliasFound(s, ms, server, nick);
    UpsertKeepsNoTwins(s, ms, server, nick, id);
    assert MatchesAlias(s', ms, server, other, stored);
    AliasIsUnique(s', ms, server, other, stored);
  }

  lemma UpsertKeepsNoTwins(s: State, ms: Mappings, server: string, nick: string, id: Id)
    requires NoTwins(s, ms)
    ensures NoTwins(UpsertAlias(s, ms, server, nick, id), ms)
  {
    AliasFound(s, ms, server, nick);
    if AliasOf(s, ms, server, nick).None? {
      var s' := UpsertAlias(s, ms, server, nick, id);
      forall k, l | k in s'.aliases && l in s'.aliases && k.0 == l.0 && Equivalent(MappingOf(ms, k.0), k.1, l.1)
        ensures k == l
      {
        assert k == (server, nick) && l != k ==> MatchesAlias(s, ms, server, nick, l.1);
        assert l == (server, nick) && l != k ==> MatchesAlias(s, ms, server, nick, k.1);
      }
    }
  }

  // ----- Who a nick may yield -----------------------------------------------------------------

  lemma {:induction false} ScanFinds(s: State, ms: Mappings, server: string, nick: string, rows: seq<Id>)
    ensures match ScanFor(s, ms, server, nick, rows)
            case Some(id) => id in rows && id in s.profiles
              && Equivalent(MappingOf(ms, server), s.profiles[id].nick, nick)
            case None => forall id :: id in rows && id in s.profiles ==>
                           !Equivalent(MappingOf(ms, server), s.profiles[id].nick, nick)
  {
    if rows != [] {
      ScanFinds(s, ms, server, nick, rows[1..]);
    }
  }

  /** An account is usable exactly if its stored form is. */
  lemma StoredFormIsUsable(account: string)
    ensures Lower(account) == "" <==> account == ""
    ensures Lower(account) == "*" <==> account == "*"
  {
    if Lower(account) == "*" {
      assert LowerChar(account[0]) == '*';
    }
    if account == "*" {
      assert Lower(account)[0] == '*';
    }
  }

  /** The case of an account's letters makes no difference. */
  lemma AccountCaseIsIrrelevant(s: State, ms: Mappings, server: string, nick: string, a: string, b: string,
                                claim: Claim, rows: seq<Id>, id: Id)
    requires Lower(a) == Lower(b)
    ensures IdFor(s, ms, server, nick, Some(a), claim, rows) == IdFor(s, ms, server, nick, Some(b), claim, rows)
    ensures BindAccount(s, server, Some(a), id) == BindAccount(s, server, Some(b), id)
  {
    StoredFormIsUsable(a);
    StoredFormIsUsable(b);
  }

  /** Whatever is yielded is a live profile of the network; without the sender's own account it is not
      account-backed if guarded. */
  lemma IdForIsLive(s: State, ms: Mappings, server: string, nick: string, account: Option<string>, claim: Claim,
                    rows: seq<Id>)
    requires AliasesLive(s) && AccountsLive(s) && IsRows(s, server, rows)
    ensures match IdFor(s, ms, server, nick, account, claim, rows)
            case Some(id) =>
              && id in s.profiles && s.profiles[id].server == server
              && (Guarded(account, claim) && !(Usable(account) && AccountKey(server, account.value) in s.accounts)
                  ==> !Backed(s, server, id))
              && (Usable(account) && AccountKey(server, account.value) in s.accounts ==>
                id == s.accounts[AccountKey(server, account.value)])
            case None => true
  {
    AliasFound(s, ms, server, nick);
    ScanFinds(s, ms, server, nick, rows);
    if account.Some? {
      StoredFormIsUsable(account.value);
    }
  }

  /** A sender without a usable account never gets a profile that belongs to an account. */
  lemma SpeakerGetsNoBackedProfile(s: State, ms: Mappings, server: string, nick: string, account: Option<string>,
                                   newId: Id, rows: seq<Id>, done: nat)
    requires Inv(s, ms) && Enabled(s, Seen(server, nick, account, Speaker, newId, rows, done)) && !Usable(account)
    ensures var r := Resolve(s, ms, server, nick, account, Speaker, newId, rows, done);
      r.id.Some? ==> !Backed(s, server, r.id.value) && !Backed(r.state, server, r.id.value)
  {
    IdForIsLive(s, ms, server, nick, account, Speaker, rows);
    if Resolve(s, ms, server, nick, account, Speaker, newId, rows, done).id.Some? {
      var base := ResolveAttaches(s, ms, server, nick, account, Speaker, newId, rows, done);
    }
  }

  // ----- Invariant ----------------------------------------------------------------------------

  lemma RenameKeepsInv(s: State, ms: Mappings, id: Id, nick: string)
    requires Inv(s, ms)
    ensures Inv(Rename(s, id, nick), ms)
  {
  }

  lemma UpsertKeepsInv(s: State, ms: Mappings, server: string, nick: string, id: Id)
    requires Inv(s, ms) && id in s.profiles && s.profiles[id].server == server
    ensures Inv(UpsertAlias(s, ms, server, nick, id), ms)
  {
    UpsertKeepsNoTwins(s, ms, server, nick, id);
  }

  /** An account may be bound to the profile it already has or to one that no account has. */
  lemma BindKeepsInv(s: State, ms: Mappings, server: string, account: Option<string>, id: Id)
    requires Inv(s, ms) && id in s.profiles && s.profiles[id].server == server
    requires Usable(account) ==>
      if AccountKey(server, account.value) in s.accounts then s.accounts[AccountKey(server, account.value)] == id
      else !Backed(s, server, id)
    ensures Inv(BindAccount(s, server, account, id), ms)
    ensures Usable(account) && AccountKey(server, account.value) in s.accounts ==>
      BindAccount(s, server, account, id) == s
  {
    if Usable(account) {
      StoredFormIsUsable(account.value);
      var key := AccountKey(server, account.value);
      var s' := BindAccount(s, server, account, id);
      if key in s.accounts {
        assert s'.accounts == s.accounts;
      } else {
        assert forall k :: k in s.accounts && s.accounts[k] == id ==> s.profiles[id].server == k.0;
      }
    }
  }

  /** However far the statements get, the invariant holds. */
  lemma AttachKeepsInv(s: State, ms: Mappings, server: string, nick: string, account: Option<string>, id: Id, done: nat)
    requires Inv(s, ms) && id in s.profiles && s.profiles[id].server == server
    requires Usable(account) ==>
      if AccountKey(server, account.value) in s.accounts then s.accounts[AccountKey(server, account.value)] == id
      else !Backed(s, server, id)
    ensures Inv(AttachUpTo(s, ms, server, nick, account, id, done), ms)
    ensures var s' := AttachUpTo(s, ms, server, nick, account, id, done);
      id in s'.profiles && s'.profiles[id].server == server
  {
    var s1 := UpsertAlias(s, ms, server, nick, id);
    var s2 := BindAccount(s1, server, account, id);
    BoundKeepsInv(s, ms, server, nick, account, id);
    RenameKeepsInv(s2, ms, id, nick);
    RenameKeepsServer(s2, id, nick);
    AttachStages(s, ms, server, nick, account, id, done);
  }

  lemma AttachStages(s: State, ms: Mappings, server: string, nick: string, account: Option<string>, id: Id, done: nat)
    ensures var s1 := UpsertAlias(s, ms, server, nick, id);
      var s2 := BindAccount(s1, server, account, id);
      AttachUpTo(s, ms, server, nick, account, id, done) in {s, s1, s2, Rename(s2, id, nick)}
  {
  }

  lemma BoundKeepsInv(s: State, ms: Mappings, server: string, nick: string, account: Option<string>, id: Id)
    requires Inv(s, ms) && id in s.profiles && s.profiles[id].server == server
    requires Usable(account) ==>
      if AccountKey(server, account.value) in s.accounts then s.accounts[AccountKey(server, account.value)] == id
      else !Backed(s, server, id)
    ensures Inv(UpsertAlias(s, ms, server, nick, id), ms)
    ensures Inv(BindAccount(UpsertAlias(s, ms, server, nick, id), server, account, id), ms)
  {
    var s1 := UpsertAlias(s, ms, server, nick, id);
    UpsertKeepsInv(s, ms, server, nick, id);
    assert Backed(s1, server, id) == Backed(s, server, id);
    BindKeepsInv(s1, ms, server, account, id);
  }

  lemma RenameKeepsServer(s: State, id: Id, nick: string)
    ensures Rename(s, id, nick).profiles.Keys == s.profiles.Keys
    ensures forall p :: p in s.profiles ==> Rename(s, id, nick).profiles[p].server == s.profiles[p].server
  {
  }

  lemma InsertKeepsInv(s: State, ms: Mappings, id: Id, p: Profile)
    requires Inv(s, ms) && id !in s.profiles
    ensures Inv(s.(profiles := s.profiles[id := p]), ms)
    ensures !Backed(s, p.server, id)
  {
  }

  lemma ResolveKeepsInv(s: State, ms: Mappings, server: string, nick: string, account: Option<string>, claim: Claim,
                        newId: Id, rows: seq<Id>, done: nat)
    requires Inv(s, ms) && Enabled(s, Seen(server, nick, account, claim, newId, rows, done))
    ensures IsGoodResult(Resolve(s, ms, server, nick, account, claim, newId, rows, done), ms, server)
  {
    if IdFor(s, ms, server, nick, account, claim, rows).Some? {
      KnownKeepsInv(s, ms, server, nick, account, claim, rows, done);
    } else {
      AccountIsNew(s, ms, server, nick, account, claim, rows);
      NewProfileKeepsInv(s, ms, server, nick, account, newId, StoredNick(s, ms, server, nick, newId, rows), done);
    }
  }

  ghost predicate IsGoodResult(r: Resolved, ms: Mappings, server: string) {
    Inv(r.state, ms) && (r.id.Some? ==> r.id.value in r.state.profiles && r.state.profiles[r.id.value].server == server)
  }

  lemma KnownKeepsInv(s: State, ms: Mappings, server: string, nick: string, account: Option<string>, claim: Claim,
                      rows: seq<Id>, done: nat)
    requires Inv(s, ms) && IsRows(s, server, rows) && IdFor(s, ms, server, nick, account, claim, rows).Some?
    ensures var id := IdFor(s, ms, server, nick, account, claim, rows).value;
      var s' := AttachUpTo(s, ms, server, nick, account, id, done);
      Inv(s', ms) && id in s'.profiles && s'.profiles[id].server == server
  {
    IdForIsLive(s, ms, server, nick, account, claim, rows);
    AttachKeepsInv(s, ms, server, nick, account, IdFor(s, ms, server, nick, account, claim, rows).value, done);
  }

  lemma AccountIsNew(s: State, ms: Mappings, server: string, nick: string, account: Option<string>, claim: Claim,
                     rows: seq<Id>)
    requires IdFor(s, ms, server, nick, account, claim, rows).None?
    ensures Usable(account) ==> AccountKey(server, account.value) !in s.accounts
  {
  }

  lemma NewProfileKeepsInv(s: State, ms: Mappings, server: string, nick: string, account: Option<string>, id: Id,
                           stored: string, done: nat)
    requires Inv(s, ms) && id !in s.profiles && (Usable(account) ==> AccountKey(server, account.value) !in s.accounts)
    ensures var s' := AttachUpTo(Inserted(s, id, server, stored), ms, server, nick, account, id, done);
      Inv(s', ms) && id in s'.profiles && s'.profiles[id].server == server
  {
    var s1 := Inserted(s, id, server, stored);
    InsertKeepsInv(s, ms, id, Profile(server, stored));
    assert Backed(s1, server, id) == Backed(s, server, id);
    AttachKeepsInv(s1, ms, server, nick, account, id, done);
  }

  lemma StepKeepsInv(s: State, ms: Mappings, e: Event)
    requires Inv(s, ms) && Enabled(s, e)
    ensures Inv(Step(s, ms, e), ms)
  {
    match e
    case Seen(server, nick, account, claim, newId, rows, done) =>
      ResolveKeepsInv(s, ms, server, nick, account, claim, newId, rows, done);
    case NickChange(server, oldNick, newNick, account, newId, rows, done) =>
      ResolveKeepsInv(s, ms, server, oldNick, account, Speaker, newId, rows, done);
      FollowKeepsInv(Resolve(s, ms, server, oldNick, account, Speaker, newId, rows, done), ms, server, newNick);
    case Erased(server, id) => EraseKeepsInv(s, ms, server, id);
  }

  lemma FollowKeepsInv(r: Resolved, ms: Mappings, server: string, newNick: string)
    requires IsGoodResult(r, ms, server)
    ensures r.id.Some? ==>
      var s1 := UpsertAlias(r.state, ms, server, newNick, r.id.value);
      Inv(s1, ms) && Inv(Rename(s1, r.id.value, newNick), ms)
  {
    if r.id.Some? {
      UpsertKeepsInv(r.state, ms, server, newNick, r.id.value);
      RenameKeepsInv(UpsertAlias(r.state, ms, server, newNick, r.id.value), ms, r.id.value, newNick);
    }
  }

  lemma EraseKeepsInv(s: State, ms: Mappings, server: string, id: Id)
    requires Inv(s, ms)
    ensures Inv(Erase(s, server, id), ms)
  {
  }

  /** Over every run from a good state: aliases and accounts stay live, no account shares a profile and
      no two alias rows of a network are equivalent. */
  lemma {:induction false} RunKeepsInv(s: State, ms: Mappings, es: seq<Event>)
    requires Inv(s, ms) && Runnable(s, ms, es)
    ensures Inv(Exec(s, ms, es), ms)
    decreases |es|
  {
    if es != [] {
      StepKeepsInv(s, ms, es[0]);
      RunKeepsInv(Step(s, ms, es[0]), ms, es[1..]);
    }
  }

  // ----- Accounts are written once ------------------------------------------------------------

  ghost predicate SameAccount(s: State, s': State, key: (string, string)) {
    key in s.accounts && key in s'.accounts && s'.accounts[key] == s.accounts[key]
  }

  lemma ResolveKeepsAccount(s: State, ms: Mappings, server: string, nick: string, account: Option<string>, claim: Claim,
                            newId: Id, rows: seq<Id>, key: (string, string), done: nat)
    requires Inv(s, ms) && Enabled(s, Seen(server, nick, account, claim, newId, rows, done)) && key in s.accounts
    ensures SameAccount(s, Resolve(s, ms, server, nick, account, claim, newId, rows, done).state, key)
  {
    IdForIsLive(s, ms, server, nick, account, claim, rows);
    match IdFor(s, ms, server, nick, account, claim, rows)
    case Some(id) => AttachKeepsAccount(s, ms, server, nick, account, id, key, done);
    case None =>
      var stored := StoredNick(s, ms, server, nick, newId, rows);
      AccountIsNew(s, ms, server, nick, account, claim, rows);
      AttachKeepsAccount(Inserted(s, newId, server, stored), ms, server, nick, account, newId, key, done);
  }

  lemma AttachKeepsAccount(s: State, ms: Mappings, server: string, nick: string, account: Option<string>, id: Id,
                           key: (string, string), done: nat)
    requires key in s.accounts
    requires Usable(account) && key == AccountKey(server, account.value) ==> s.accounts[key] == id
    ensures SameAccount(s, AttachUpTo(s, ms, server, nick, account, id, done), key)
  {
  }

  /** An account keeps its profile through every step but the erasure of that profile. */
  lemma StepKeepsAccount(s: State, ms: Mappings, e: Event, key: (string, string))
    requires Inv(s, ms) && Enabled(s, e) && key in s.accounts
    requires e != Erased(key.0, s.accounts[key])
    ensures SameAccount(s, Step(s, ms, e), key)
  {
    match e
    case Seen(server, nick, account, claim, newId, rows, done) =>
      ResolveKeepsAccount(s, ms, server, nick, account, claim, newId, rows, key, done);
    case NickChange(server, oldNick, newNick, account, newId, rows, done) =>
      ResolveKeepsAccount(s, ms, server, oldNick, account, Speaker, newId, rows, key, done);
    case Erased(_, _) =>
  }

  lemma {:induction false} AccountIsWrittenOnce(s: State, ms: Mappings, es: seq<Event>, key: (string, string))
    requires Inv(s, ms) && Runnable(s, ms, es) && key in s.accounts
    requires Erased(key.0, s.accounts[key]) !in es
    ensures key in Exec(s, ms, es).accounts && Exec(s, ms, es).accounts[key] == s.accounts[key]
    decreases |es|
  {
    if es != [] {
      assert es[0] in es;
      StepKeepsAccount(s, ms, es[0], key);
      StepKeepsInv(s, ms, es[0]);
      AccountIsWrittenOnce(Step(s, ms, es[0]), ms, es[1..], key);
    }
  }

  // ----- Resolving is stable ------------------------------------------------------------------

  /** Once attached, the same sender is recognised again. */
  lemma AttachedIsRecognised(s: State, ms: Mappings, server: string, nick: string, account: Option<string>,
                             claim: Claim, id: Id, rows: seq<Id>)
    requires Inv(s, ms)
    requires Guarded(account, claim) && !Usable(account) ==> !Backed(s, server, id)
    ensures IdFor(Attach(s, ms, server, nick, account, id), ms, server, nick, account, claim, rows) == Some(id)
  {
    AttachedUpToIsRecognised(s, ms, server, nick, account, claim, id, rows, READ_BACK);
  }

  /** The alias is enough. */
  lemma AttachedUpToIsRecognised(s: State, ms: Mappings, server: string, nick: string, account: Option<string>,
                                 claim: Claim, id: Id, rows: seq<Id>, done: nat)
    requires Inv(s, ms) && done >= 2
    requires Guarded(account, claim) && !Usable(account) ==> !Backed(s, server, id)
    requires done == 2 && Usable(account) ==> AccountKey(server, account.value) !in s.accounts && !Backed(s, server, id)
    ensures IdFor(AttachUpTo(s, ms, server, nick, account, id, done), ms, server, nick, account, claim, rows)
      == Some(id)
  {
    var s1, s3 := UpsertAlias(s, ms, server, nick, id), AttachUpTo(s, ms, server, nick, account, id, done);
    UpsertIsFound(s, ms, server, nick, id, nick);
    SameAliases(s1, s3, ms, server, nick);
    if account.Some? {
      StoredFormIsUsable(account.value);
    }
    if !Usable(account) || done == 2 {
      SameAccountsSameBacked(s, s3, server, id);
    }
    RecognisedByAlias(s3, ms, server, nick, account, claim, id, rows);
  }

  lemma RecognisedByAlias(s: State, ms: Mappings, server: string, nick: string, account: Option<string>, claim: Claim,
                          id: Id, rows: seq<Id>)
    requires AliasOf(s, ms, server, nick).Some?
    requires var k := (server, AliasOf(s, ms, server, nick).value); k in s.aliases && s.aliases[k] == id
    requires if account.Some? && account.value != "" && AccountKey(server, account.value) in s.accounts
             then s.accounts[AccountKey(server, account.value)] == id
             else Guarded(account, claim) ==> !Backed(s, server, id)
    ensures IdFor(s, ms, server, nick, account, claim, rows) == Some(id)
  {
  }

  lemma SameAccountsSameBacked(s: State, s': State, server: string, id: Id)
    requires s'.accounts == s.accounts
    ensures Backed(s', server, id) == Backed(s, server, id)
  {
  }

  lemma SameAliases(s: State, s': State, ms: Mappings, server: string, nick: string)
    requires s'.aliases == s.aliases && NoTwins(s, ms)
    ensures AliasOf(s', ms, server, nick) == AliasOf(s, ms, server, nick)
  {
    AliasFound(s, ms, server, nick);
    AliasFound(s', ms, server, nick);
    if AliasOf(s, ms, server, nick).Some? {
      assert MatchesAlias(s', ms, server, nick, AliasOf(s, ms, server, nick).value);
      AliasIsUnique(s', ms, server, nick, AliasOf(s, ms, server, nick).value);
    } else {
      assert forall stored :: MatchesAlias(s', ms, server, nick, stored) ==> MatchesAlias(s, ms, server, nick, stored);
    }
  }

  lemma AttachTwice(s: State, ms: Mappings, server: string, nick: string, account: Option<string>, id: Id, done: nat)
    requires Inv(s, ms)
    ensures AttachUpTo(Attach(s, ms, server, nick, account, id), ms, server, nick, account, id, done)
         == Attach(s, ms, server, nick, account, id)
  {
    var s3 := Attach(s, ms, server, nick, account, id);
    AliasWrittenTwice(s, ms, server, nick, account, id);
    BoundTwice(s, ms, server, nick, account, id);
    RenameTwice(BindAccount(UpsertAlias(s, ms, server, nick, id), server, account, id), id, nick);
  }

  lemma BoundTwice(s: State, ms: Mappings, server: string, nick: string, account: Option<string>, id: Id)
    ensures var s3 := Attach(s, ms, server, nick, account, id); BindAccount(s3, server, account, id) == s3
  {
  }

  lemma AliasWrittenTwice(s: State, ms: Mappings, server: string, nick: string, account: Option<string>, id: Id)
    requires Inv(s, ms)
    ensures var s3 := Attach(s, ms, server, nick, account, id); UpsertAlias(s3, ms, server, nick, id) == s3
  {
    var s3 := Attach(s, ms, server, nick, account, id);
    UpsertIsFound(s, ms, server, nick, id, nick);
    SameAliases(UpsertAlias(s, ms, server, nick, id), s3, ms, server, nick);
    PointsAlready(s3, ms, server, nick, id);
  }

  lemma PointsAlready(s: State, ms: Mappings, server: string, nick: string, id: Id)
    requires AliasOf(s, ms, server, nick).Some?
    requires var k := (server, AliasOf(s, ms, server, nick).value); k in s.aliases && s.aliases[k] == id
    ensures UpsertAlias(s, ms, server, nick, id) == s
  {
    assert s.aliases[(server, AliasOf(s, ms, server, nick).value) := id] == s.aliases;
  }

  lemma RenameTwice(s: State, id: Id, nick: string)
    ensures Rename(Rename(s, id, nick), id, nick) == Rename(s, id, nick)
  {
    var s' := Rename(s, id, nick);
    if s' != s {
      assert forall p :: p in s'.profiles && p != id ==> s'.profiles[p] == s.profiles[p];
    }
  }

  /** A resolution leaves a state that differs from some good state only by the attachment. */
  lemma ResolveAttaches(s: State, ms: Mappings, server: string, nick: string, account: Option<string>, claim: Claim,
                        newId: Id, rows: seq<Id>, done: nat) returns (base: State)
    requires Inv(s, ms) && Enabled(s, Seen(server, nick, account, claim, newId, rows, done))
    requires Resolve(s, ms, server, nick, account, claim, newId, rows, done).id.Some?
    ensures var r := Resolve(s, ms, server, nick, account, claim, newId, rows, done);
      && Inv(base, ms) && r.state == Attach(base, ms, server, nick, account, r.id.value)
      && base.accounts == s.accounts
      && (Guarded(account, claim) && !Usable(account) ==> !Backed(base, server, r.id.value))
  {
    IdForIsLive(s, ms, server, nick, account, claim, rows);
    if IdFor(s, ms, server, nick, account, claim, rows).Some? {
      base := s;
    } else {
      var stored := StoredNick(s, ms, server, nick, newId, rows);
      InsertKeepsInv(s, ms, newId, Profile(server, stored));
      base := Inserted(s, newId, server, stored);
      assert Backed(base, server, newId) == Backed(s, server, newId);
    }
  }

  /** Resolving the same sender again yields the same profile and changes nothing, however far it gets. */
  lemma ResolveAgainChangesNothing(s: State, ms: Mappings, server: string, nick: string, account: Option<string>,
                                   claim: Claim, newId: Id, rows: seq<Id>, newId': Id, rows': seq<Id>, done: nat,
                                   done': nat)
    requires Inv(s, ms) && Enabled(s, Seen(server, nick, account, claim, newId, rows, done)) && |newId'| >= 8
    requires Resolve(s, ms, server, nick, account, claim, newId, rows, done).id.Some?
    ensures var r := Resolve(s, ms, server, nick, account, claim, newId, rows, done);
      Resolve(r.state, ms, server, nick, account, claim, newId', rows', done')
      == Resolved(r.state, if done' < READ_BACK then None else r.id)
  {
    var r := Resolve(s, ms, server, nick, account, claim, newId, rows, done);
    var base := ResolveAttaches(s, ms, server, nick, account, claim, newId, rows, done);
    AttachedIsRecognised(base, ms, server, nick, account, claim, r.id.value, rows');
    AttachTwice(base, ms, server, nick, account, r.id.value, done');
  }

  /** A lookup of any equivalent nick then finds the profile just resolved. */
  lemma LookupFindsResolved(s: State, ms: Mappings, server: string, nick: string, account: Option<string>,
                            claim: Claim, newId: Id, rows: seq<Id>, other: string, rows': seq<Id>, done: nat)
    requires Inv(s, ms) && Enabled(s, Seen(server, nick, account, claim, newId, rows, done))
    requires Resolve(s, ms, server, nick, account, claim, newId, rows, done).id.Some?
    requires Equivalent(MappingOf(ms, server), nick, other)
    ensures var r := Resolve(s, ms, server, nick, account, claim, newId, rows, done);
      IdFor(r.state, ms, server, other, None, Lookup, rows') == r.id
  {
    var r := Resolve(s, ms, server, nick, account, claim, newId, rows, done);
    var base := ResolveAttaches(s, ms, server, nick, account, claim, newId, rows, done);
    UpsertIsFound(base, ms, server, nick, r.id.value, other);
    SameAliases(UpsertAlias(base, ms, server, nick, r.id.value), r.state, ms, server, other);
  }

  /** Resolving fails exactly when a statement fails or the disambiguated nick of a new profile is itself taken. */
  lemma ResolveFailsOnlyOnClash(s: State, ms: Mappings, server: string, nick: string, account: Option<string>,
                                claim: Claim, newId: Id, rows: seq<Id>, done: nat)
    requires Enabled(s, Seen(server, nick, account, claim, newId, rows, done))
    ensures Resolve(s, ms, server, nick, account, claim, newId, rows, done).id.None? <==>
      || done < READ_BACK
      || (&& IdFor(s, ms, server, nick, account, claim, rows).None?
          && IdFor(s, ms, server, nick, None, Lookup, rows).Some?
          && NickTaken(s, server, nick + "~" + newId[..8], newId))
  {
    if IdFor(s, ms, server, nick, None, Lookup, rows).None? {
      PlainNickIsFree(s, ms, server, nick, newId, rows);
    }
  }

  /** A nick that no profile answers to is free to be stored. */
  lemma PlainNickIsFree(s: State, ms: Mappings, server: string, nick: string, newId: Id, rows: seq<Id>)
    requires IsRows(s, server, rows) && IdFor(s, ms, server, nick, None, Lookup, rows).None?
    ensures !NickTaken(s, server, nick, newId)
  {
    AliasFound(s, ms, server, nick);
    ScanFinds(s, ms, server, nick, rows);
    if NickTaken(s, server, nick, newId) {
      var id :| id in s.profiles && s.profiles[id].server == server && Lower(s.profiles[id].nick) == Lower(nick);
      NoCaseIsEquivalent(MappingOf(ms, server), s.profiles[id].nick, nick);
    }
  }
}
