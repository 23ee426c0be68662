/** Where nicks and accounts lead after a resolution, a nick change or an erasure, however far the statements get,
    and what these leave alone. */
module IdentityEffects {
  import opened Prelude
  import opened Text
  import opened CaseFolding
  import opened IdentityModel
  import opened IdentityRuns
  import opened IdentityFaults

  /** The alias row for the nick holds this profile. */
  ghost predicate LeadsTo(s: State, ms: Mappings, server: string, nick: string, id: Id) {
    && AliasOf(s, ms, server, nick).Some?
    && (server, AliasOf(s, ms, server, nick).value) in s.aliases
    && s.aliases[(server, AliasOf(s, ms, server, nick).value)] == id
  }

  /** A lookup then finds the profile; a sender without a usable account is recognised as it if no account owns it,
      and as nobody else otherwise. */
  lemma LeadsToMeans(s: State, ms: Mappings, server: string, nick: string, id: Id, account: Option<string>,
                     rows: seq<Id>)
    requires AccountsLive(s) && LeadsTo(s, ms, server, nick, id) && !Usable(account)
    ensures IdFor(s, ms, server, nick, None, Lookup, rows) == Some(id)
    ensures IdFor(s, ms, server, nick, account, Speaker, rows) == if Backed(s, server, id) then None else Some(id)
  {
    if account.Some? {
      StoredFormIsUsable(account.value);
    }
  }

  /** A nick without an alias is looked up among the profiles of the network: somebody is found exactly if one is
      stored under an equivalent nick, and then such a one. */
  lemma RowsAreTheFallback(s: State, ms: Mappings, server: string, nick: string, rows: seq<Id>)
    requires IsRows(s, server, rows) && AliasOf(s, ms, server, nick).None?
    ensures var found := IdFor(s, ms, server, nick, None, Lookup, rows);
      && (found.Some? <==> exists id :: IsNamed(s, ms, server, nick, id))
      && (found.Some? ==> IsNamed(s, ms, server, nick, found.value))
  {
    ScanFinds(s, ms, server, nick, rows);
    if IdFor(s, ms, server, nick, None, Lookup, rows).Some? {
      assert IsNamed(s, ms, server, nick, IdFor(s, ms, server, nick, None, Lookup, rows).value);
    }
  }

  ghost predicate IsNamed(s: State, ms: Mappings, server: string, nick: string, id: Id) {
    id in s.profiles && s.profiles[id].server == server && Equivalent(MappingOf(ms, server), s.profiles[id].nick, nick)
  }

  /** The profile is stored under the nick, unless another one of the network is. */
  ghost predicate GoesBy(s: State, server: string, nick: string, id: Id) {
    && id in s.profiles && s.profiles[id].server == server
    && (s.profiles[id].nick == nick || NickTaken(s, server, nick, id))
  }

  lemma RenamedGoesBy(s: State, server: string, nick: string, id: Id)
    requires id in s.profiles && s.profiles[id].server == server
    ensures GoesBy(Rename(s, id, nick), server, nick, id)
  {
  }

  // ----- Nick changes -------------------------------------------------------------------------

  /** A nick change reports a profile exactly if its statements all succeed and the sender can be resolved. */
  lemma NickChangeReportsIff(s: State, ms: Mappings, server: string, oldNick: string, newNick: string,
                             account: Option<string>, newId: Id, rows: seq<Id>, done: nat)
    requires Enabled(s, NickChange(server, oldNick, newNick, account, newId, rows, done))
    ensures BindNick(s, ms, server, oldNick, newNick, account, newId, rows, done).id
      == if done >= 7 then TargetOf(s, ms, server, oldNick, account, Speaker, newId, rows) else None
  {
    TargetIsReported(s, ms, server, oldNick, account, Speaker, newId, rows, done);
  }

  lemma FollowedLeadsTo(s: State, ms: Mappings, server: string, newNick: string, id: Id, done: nat, other: string)
    requires NoTwins(s, ms) && done >= 6 && id in s.profiles && s.profiles[id].server == server
    requires Equivalent(MappingOf(ms, server), newNick, other)
    ensures var s' := Followed(s, ms, server, newNick, id, done);
      LeadsTo(s', ms, server, other, id) && (done >= 7 ==> GoesBy(s', server, newNick, id))
  {
    var s1 := UpsertAlias(s, ms, server, newNick, id);
    UpsertIsFound(s, ms, server, newNick, id, other);
    SameAliases(s1, Rename(s1, id, newNick), ms, server, other);
    RenamedGoesBy(s1, server, newNick, id);
  }

  lemma NickChangeFollows(s: State, ms: Mappings, server: string, oldNick: string, newNick: string,
                          account: Option<string>, newId: Id, rows: seq<Id>, done: nat)
    requires |newId| >= 8
    ensures var r := Resolve(s, ms, server, oldNick, account, Speaker, newId, rows, done);
      BindNick(s, ms, server, oldNick, newNick, account, newId, rows, done).state
      == if r.id.Some? then Followed(r.state, ms, server, newNick, r.id.value, done) else r.state
  {
  }

  /** Once the alias statement has succeeded, every nick equivalent to the new one leads to the profile that the old
      nick and the account resolve to; once they all have, the profile goes by the new nick. */
  lemma NewNickLeadsToTarget(s: State, ms: Mappings, server: string, oldNick: string, newNick: string,
                             account: Option<string>, newId: Id, rows: seq<Id>, done: nat, other: string)
    requires Inv(s, ms) && Enabled(s, NickChange(server, oldNick, newNick, account, newId, rows, done))
    requires TargetOf(s, ms, server, oldNick, account, Speaker, newId, rows).Some? && done >= 6
    requires Equivalent(MappingOf(ms, server), newNick, other)
    ensures var s' := BindNick(s, ms, server, oldNick, newNick, account, newId, rows, done).state;
      var id := TargetOf(s, ms, server, oldNick, account, Speaker, newId, rows).value;
      LeadsTo(s', ms, server, other, id) && (done >= 7 ==> GoesBy(s', server, newNick, id))
  {
    var r := Resolve(s, ms, server, oldNick, account, Speaker, newId, rows, done);
    TargetIsReported(s, ms, server, oldNick, account, Speaker, newId, rows, done);
    ResolveKeepsInv(s, ms, server, oldNick, account, Speaker, newId, rows, done);
    NickChangeFollows(s, ms, server, oldNick, newNick, account, newId, rows, done);
    FollowedLeadsTo(r.state, ms, server, newNick, r.id.value, done, other);
  }

  /** So after a nick change that reports a profile a lookup of any nick equivalent to the new one finds it, and a
      sender without a usable account is recognised as it there exactly if no account owns it. */
  lemma NickChangeMeans(s: State, ms: Mappings, server: string, oldNick: string, newNick: string,
                        account: Option<string>, newId: Id, rows: seq<Id>, done: nat, other: string,
                        account': Option<string>, rows': seq<Id>)
    requires Inv(s, ms) && Enabled(s, NickChange(server, oldNick, newNick, account, newId, rows, done))
    requires BindNick(s, ms, server, oldNick, newNick, account, newId, rows, done).id.Some?
    requires Equivalent(MappingOf(ms, server), newNick, other) && !Usable(account')
    ensures var r := BindNick(s, ms, server, oldNick, newNick, account, newId, rows, done);
      && IdFor(r.state, ms, server, other, None, Lookup, rows') == r.id
      && IdFor(r.state, ms, server, other, account', Speaker, rows')
         == (if Backed(r.state, server, r.id.value) then None else r.id)
      && GoesBy(r.state, server, newNick, r.id.value)
  {
    var r := BindNick(s, ms, server, oldNick, newNick, account, newId, rows, done);
    NickChangeReportsIff(s, ms, server, oldNick, newNick, account, newId, rows, done);
    NewNickLeadsToTarget(s, ms, server, oldNick, newNick, account, newId, rows, done, other);
    StepKeepsInv(s, ms, NickChange(server, oldNick, newNick, account, newId, rows, done));
    LeadsToMeans(r.state, ms, server, other, r.id.value, account', rows');
  }

  lemma ReportedIsLedTo(s: State, ms: Mappings, server: string, oldNick: string, newNick: string,
                        account: Option<string>, newId: Id, rows: seq<Id>, done: nat)
    requires Inv(s, ms) && Enabled(s, NickChange(server, oldNick, newNick, account, newId, rows, done))
    ensures var r := BindNick(s, ms, server, oldNick, newNick, account, newId, rows, done);
      r.id.Some? ==> LeadsTo(r.state, ms, server, newNick, r.id.value) && GoesBy(r.state, server, newNick, r.id.value)
  {
    NickChangeReportsIff(s, ms, server, oldNick, newNick, account, newId, rows, done);
    SameLetters(MappingOf(ms, server), newNick);
    if BindNick(s, ms, server, oldNick, newNick, account, newId, rows, done).id.Some? {
      NewNickLeadsToTarget(s, ms, server, oldNick, newNick, account, newId, rows, done, newNick);
    }
  }

  // ----- Resolutions --------------------------------------------------------------------------

  /** Once the alias statement of a resolution has succeeded every nick equivalent to the sender's leads to the
      profile, once the account statement has the account does, and once the nick statement has the profile goes by
      the sender's nick. */
  lemma AttachedLeadsTo(s: State, ms: Mappings, server: string, nick: string, account: Option<string>, id: Id,
                        done: nat, other: string)
    requires NoTwins(s, ms) && id in s.profiles && s.profiles[id].server == server
    requires Equivalent(MappingOf(ms, server), nick, other)
    ensures var s' := AttachUpTo(s, ms, server, nick, account, id, done);
      && (done >= 2 ==> LeadsTo(s', ms, server, other, id))
      && (done >= 3 && Usable(account) ==>
            AccountKey(server, account.value) in s'.accounts && s'.accounts[AccountKey(server, account.value)] == id)
      && (done >= 4 ==> GoesBy(s', server, nick, id))
  {
    UpsertIsFound(s, ms, server, nick, id, other);
    var s1 := UpsertAlias(s, ms, server, nick, id);
    if done >= 2 {
      SameAliases(s1, AttachUpTo(s, ms, server, nick, account, id, done), ms, server, other);
    }
    RenamedGoesBy(BindAccount(s1, server, account, id), server, nick, id);
  }

  lemma ResolvedLeadsTo(s: State, ms: Mappings, server: string, nick: string, account: Option<string>, claim: Claim,
                        newId: Id, rows: seq<Id>, done: nat, other: string)
    requires Inv(s, ms) && Enabled(s, Seen(server, nick, account, claim, newId, rows, done)) && done >= 1
    requires TargetOf(s, ms, server, nick, account, claim, newId, rows).Some?
    requires Equivalent(MappingOf(ms, server), nick, other)
    ensures var s' := Resolve(s, ms, server, nick, account, claim, newId, rows, done).state;
      var id := TargetOf(s, ms, server, nick, account, claim, newId, rows).value;
      && id in s'.profiles
      && (done >= 2 ==> LeadsTo(s', ms, server, other, id))
      && (done >= 3 && Usable(account) ==>
            AccountKey(server, account.value) in s'.accounts && s'.accounts[AccountKey(server, account.value)] == id)
      && (done >= 4 ==> GoesBy(s', server, nick, id))
  {
    IdForIsLive(s, ms, server, nick, account, claim, rows);
    if IdFor(s, ms, server, nick, account, claim, rows).Some? {
      var id := IdFor(s, ms, server, nick, account, claim, rows).value;
      AttachedLeadsTo(s, ms, server, nick, account, id, done, other);
    } else {
      var base := Inserted(s, newId, server, StoredNick(s, ms, server, nick, newId, rows));
      AttachedLeadsTo(base, ms, server, nick, account, newId, done, other);
    }
  }

  /** Under whatever nick, in whatever letters, the account then resolves to this profile. */
  lemma AccountFindsResolved(s: State, ms: Mappings, server: string, nick: string, account: string, claim: Claim,
                             newId: Id, rows: seq<Id>, done: nat, again: string, anyNick: string, claim': Claim,
                             rows': seq<Id>)
    requires Inv(s, ms) && Enabled(s, Seen(server, nick, Some(account), claim, newId, rows, done))
    requires Usable(Some(account)) && Lower(again) == Lower(account)
    requires Resolve(s, ms, server, nick, Some(account), claim, newId, rows, done).id.Some?
    ensures var r := Resolve(s, ms, server, nick, Some(account), claim, newId, rows, done);
      IdFor(r.state, ms, server, anyNick, Some(again), claim', rows') == r.id
  {
    TargetIsReported(s, ms, server, nick, Some(account), claim, newId, rows, done);
    SameLetters(MappingOf(ms, server), nick);
    ResolvedLeadsTo(s, ms, server, nick, Some(account), claim, newId, rows, done, nick);
    StoredFormIsUsable(account);
    StoredFormIsUsable(again);
  }

  lemma SameLetters(m: CaseMapping, nick: string)
    ensures Equivalent(m, nick, nick)
  {
  }

  ghost predicate SameProfile(s: State, s': State, id: Id) {
    (id in s'.profiles <==> id in s.profiles) && (id in s.profiles ==> s'.profiles[id] == s.profiles[id])
  }

  ghost predicate SameOwner(s: State, s': State, key: (string, string)) {
    (key in s'.accounts <==> key in s.accounts) && (key in s.accounts ==> s'.accounts[key] == s.accounts[key])
  }

  lemma AttachLeavesOthers(s: State, ms: Mappings, server: string, nick: string, account: Option<string>, target: Id,
                           done: nat, id: Id, key: (string, string))
    ensures var s' := AttachUpTo(s, ms, server, nick, account, target, done);
      && (id != target ==> SameProfile(s, s', id))
      && (account.None? || key != AccountKey(server, account.value) ==> SameOwner(s, s', key))
  {
  }

  /** A resolution leaves every profile but the sender's, and every account but the sender's, as they were. */
  lemma ResolveLeavesOthers(s: State, ms: Mappings, server: string, nick: string, account: Option<string>, claim: Claim,
                            newId: Id, rows: seq<Id>, done: nat, id: Id, key: (string, string))
    requires Enabled(s, Seen(server, nick, account, claim, newId, rows, done))
    ensures var s' := Resolve(s, ms, server, nick, account, claim, newId, rows, done).state;
      && (TargetOf(s, ms, server, nick, account, claim, newId, rows) != Some(id) ==> SameProfile(s, s', id))
      && (account.None? || key != AccountKey(server, account.value) ==> SameOwner(s, s', key))
  {
    var target := TargetOf(s, ms, server, nick, account, claim, newId, rows);
    if IdFor(s, ms, server, nick, account, claim, rows).Some? {
      AttachLeavesOthers(s, ms, server, nick, account, target.value, done, id, key);
    } else if target.Some? {
      var base := Inserted(s, newId, server, StoredNick(s, ms, server, nick, newId, rows));
      AttachLeavesOthers(base, ms, server, nick, account, newId, done, id, key);
    }
  }

  lemma FollowLeavesOthers(s: State, ms: Mappings, server: string, newNick: string, target: Id, done: nat, id: Id)
    ensures var s' := Followed(s, ms, server, newNick, target, done);
      s'.accounts == s.accounts && (id != target ==> SameProfile(s, s', id))
  {
  }

  /** So does a nick change. */
  lemma NickChangeLeavesOthers(s: State, ms: Mappings, server: string, oldNick: string, newNick: string,
                               account: Option<string>, newId: Id, rows: seq<Id>, done: nat, id: Id,
                               key: (string, string))
    requires Enabled(s, NickChange(server, oldNick, newNick, account, newId, rows, done))
    ensures var s' := BindNick(s, ms, server, oldNick, newNick, account, newId, rows, done).state;
      && (TargetOf(s, ms, server, oldNick, account, Speaker, newId, rows) != Some(id) ==> SameProfile(s, s', id))
      && (account.None? || key != AccountKey(server, account.value) ==> SameOwner(s, s', key))
  {
    var r := Resolve(s, ms, server, oldNick, account, Speaker, newId, rows, done);
    ResolveLeavesOthers(s, ms, server, oldNick, account, Speaker, newId, rows, done, id, key);
    TargetIsReported(s, ms, server, oldNick, account, Speaker, newId, rows, done);
    NickChangeFollows(s, ms, server, oldNick, newNick, account, newId, rows, done);
    if r.id.Some? {
      FollowLeavesOthers(r.state, ms, server, newNick, r.id.value, done, id);
    }
  }

  // ----- Erasure ------------------------------------------------------------------------------

  /** An erasure removes the profile and whatever leads to it on its network, and nothing else. */
  lemma ErasureMeans(s: State, ms: Mappings, server: string, id: Id)
    requires Inv(s, ms)
    ensures var s' := Erase(s, server, id);
      && (forall p :: p in s'.profiles <==> p in s.profiles && (p != id || s.profiles[p].server != server))
      && (forall k :: k in s'.aliases <==> k in s.aliases && (s.aliases[k] != id || k.0 != server))
      && (forall k :: k in s'.accounts <==> k in s.accounts && (s.accounts[k] != id || k.0 != server))
      && (forall p :: p in s'.profiles ==> s'.profiles[p] == s.profiles[p])
      && (forall k :: k in s'.aliases ==> s'.aliases[k] == s.aliases[k])
      && (forall k :: k in s'.accounts ==> s'.accounts[k] == s.accounts[k])
  {
  }

  /** Nobody resolves to an erased profile, under whatever nick and account. */
  lemma ErasedIsNobody(s: State, ms: Mappings, server: string, id: Id, nick: string, account: Option<string>,
                       claim: Claim, rows: seq<Id>)
    requires Inv(s, ms) && id in s.profiles && s.profiles[id].server == server
    requires IsRows(Erase(s, server, id), server, rows)
    ensures IdFor(Erase(s, server, id), ms, server, nick, account, claim, rows) != Some(id)
  {
    EraseKeepsInv(s, ms, server, id);
    IdForIsLive(Erase(s, server, id), ms, server, nick, account, claim, rows);
  }
}
