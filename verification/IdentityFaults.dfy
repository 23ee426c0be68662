/** What becomes of a sender without an account: recognised until somebody takes the nick back, orphaned by a
    failure half way, or not resolvable at all. */
module IdentityFaults {
  import opened Prelude
  import opened Text
  import opened CaseFolding
  import opened IdentityModel
  import opened IdentityRuns

  // ----- Failures half way ----------------------------------------------------------------------

  /** The sender gets a new profile: nobody answers, and the row can be inserted. */
  ghost predicate MakesProfile(s: State, ms: Mappings, server: string, nick: string, account: Option<string>,
                               claim: Claim, newId: Id, rows: seq<Id>)
    requires |newId| >= 8
  {
    && IdFor(s, ms, server, nick, account, claim, rows).None?
    && !NickTaken(s, server, StoredNick(s, ms, server, nick, newId, rows), newId)
  }

  /** When a new profile has been inserted and a later statement fails, the same sender finds it again, unless
      it was stored under a disambiguated nick and not even its alias was written: then it is orphaned. */
  lemma OrphanedIff(s: State, ms: Mappings, server: string, nick: string, account: Option<string>, claim: Claim,
                    newId: Id, rows: seq<Id>, rows': seq<Id>, done: nat)
    requires Inv(s, ms) && Enabled(s, Seen(server, nick, account, claim, newId, rows, done)) && done >= 1
    requires MakesProfile(s, ms, server, nick, account, claim, newId, rows)
    requires IsRows(Resolve(s, ms, server, nick, account, claim, newId, rows, done).state, server, rows')
    ensures var s' := Resolve(s, ms, server, nick, account, claim, newId, rows, done).state;
      IdFor(s', ms, server, nick, account, claim, rows') != Some(newId)
      <==> done == 1 && IdFor(s, ms, server, nick, None, Lookup, rows).Some?
  {
    var stored := StoredNick(s, ms, server, nick, newId, rows);
    var base := Inserted(s, newId, server, stored);
    AccountIsNew(s, ms, server, nick, account, claim, rows);
    InsertKeepsInv(s, ms, newId, Profile(server, stored));
    assert Backed(base, server, newId) == Backed(s, server, newId);
    if done >= 2 {
      AttachedUpToIsRecognised(base, ms, server, nick, account, claim, newId, rows', done);
    } else if IdFor(s, ms, server, nick, None, Lookup, rows).None? {
      InsertedIsFound(s, ms, server, nick, account, claim, newId, rows, rows');
    } else {
      InsertedIsMissed(s, ms, server, nick, account, claim, newId, rows, rows');
    }
  }

  lemma InsertedIsFound(s: State, ms: Mappings, server: string, nick: string, account: Option<string>, claim: Claim,
                        newId: Id, rows: seq<Id>, rows': seq<Id>)
    requires Inv(s, ms) && newId !in s.profiles && IsRows(s, server, rows)
    requires IdFor(s, ms, server, nick, account, claim, rows).None?
    requires IdFor(s, ms, server, nick, None, Lookup, rows).None?
    requires IsRows(Inserted(s, newId, server, nick), server, rows')
    ensures IdFor(Inserted(s, newId, server, nick), ms, server, nick, account, claim, rows') == Some(newId)
  {
    var s' := Inserted(s, newId, server, nick);
    AliasFound(s, ms, server, nick);
    SameAliases(s, s', ms, server, nick);
    ScanFinds(s, ms, server, nick, rows);
    ScanFinds(s', ms, server, nick, rows');
    assert newId in rows' && Equivalent(MappingOf(ms, server), s'.profiles[newId].nick, nick);
    assert Backed(s', server, newId) == Backed(s, server, newId);
  }

  lemma InsertedIsMissed(s: State, ms: Mappings, server: string, nick: string, account: Option<string>, claim: Claim,
                         newId: Id, rows: seq<Id>, rows': seq<Id>)
    requires Inv(s, ms) && newId !in s.profiles && |newId| >= 8
    requires IdFor(s, ms, server, nick, account, claim, rows).None?
    ensures IdFor(Inserted(s, newId, server, nick + "~" + newId[..8]), ms, server, nick, account, claim, rows')
      != Some(newId)
  {
    var s' := Inserted(s, newId, server, nick + "~" + newId[..8]);
    AliasFound(s, ms, server, nick);
    SameAliases(s, s', ms, server, nick);
    ScanFinds(s', ms, server, nick, rows');
    assert |nick + "~" + newId[..8]| != |nick|;
    assert !Equivalent(MappingOf(ms, server), nick + "~" + newId[..8], nick);
  }

  // ----- A visit without an account ---------------------------------------------------------------

  /** The nick leads to this profile, and no account owns it: a sender without a usable account is taken for it. */
  ghost predicate IsKnown(s: State, ms: Mappings, server: string, nick: string, id: Id) {
    && AliasOf(s, ms, server, nick).Some?
    && (var k := (server, AliasOf(s, ms, server, nick).value); k in s.aliases && s.aliases[k] == id)
    && !Backed(s, server, id)
  }

  lemma KnownIsRecognised(s: State, ms: Mappings, server: string, nick: string, account: Option<string>, id: Id,
                          rows: seq<Id>)
    requires AccountsLive(s) && !Usable(account) && IsKnown(s, ms, server, nick, id)
    ensures IdFor(s, ms, server, nick, account, Speaker, rows) == Some(id)
  {
    if account.Some? {
      StoredFormIsUsable(account.value);
    }
    RecognisedByAlias(s, ms, server, nick, account, Speaker, id, rows);
  }

  /** Whoever has been resolved without a usable account is known by that nick. */
  lemma ResolvedIsKnown(s: State, ms: Mappings, server: string, nick: string, account: Option<string>, newId: Id,
                        rows: seq<Id>, done: nat)
    requires Inv(s, ms) && Enabled(s, Seen(server, nick, account, Speaker, newId, rows, done)) && !Usable(account)
    requires Resolve(s, ms, server, nick, account, Speaker, newId, rows, done).id.Some?
    ensures var r := Resolve(s, ms, server, nick, account, Speaker, newId, rows, done);
      IsKnown(r.state, ms, server, nick, r.id.value)
  {
    var r := Resolve(s, ms, server, nick, account, Speaker, newId, rows, done);
    var base := ResolveAttaches(s, ms, server, nick, account, Speaker, newId, rows, done);
    SpeakerGetsNoBackedProfile(s, ms, server, nick, account, newId, rows, done);
    UpsertIsFound(base, ms, server, nick, r.id.value, nick);
    SameAliases(UpsertAlias(base, ms, server, nick, r.id.value), r.state, ms, server, nick);
  }

  /** The profile that an event resolves its sender to. */
  ghost function TargetOf(s: State, ms: Mappings, server: string, nick: string, account: Option<string>, claim: Claim,
                          newId: Id, rows: seq<Id>): Option<Id>
    requires |newId| >= 8
  {
    if IdFor(s, ms, server, nick, account, claim, rows).Some? then IdFor(s, ms, server, nick, account, claim, rows)
    else if MakesProfile(s, ms, server, nick, account, claim, newId, rows) then Some(newId)
    else None
  }

  /** A resolution that gets as far as writing an equivalent alias for another profile, or binding an account to
      this one. */
  ghost predicate Reassigns(ms: Mappings, target: Option<Id>, server: string, nick: string, account: Option<string>,
                            done: nat, ofServer: string, ofNick: string, id: Id)
  {
    && target.Some? && server == ofServer
    && (if target.value == id then done >= 3 && Usable(account)
        else done >= 2 && Equivalent(MappingOf(ms, server), nick, ofNick))
  }

  ghost predicate TakesAway(s: State, ms: Mappings, e: Event, server: string, nick: string, id: Id)
    requires Enabled(s, e)
  {
    match e
    case Seen(server', nick', account, claim, newId, rows, done) =>
      Reassigns(ms, TargetOf(s, ms, server', nick', account, claim, newId, rows), server', nick', account, done,
                server, nick, id)
    case NickChange(server', oldNick, newNick, account, newId, rows, done) =>
      var target := TargetOf(s, ms, server', oldNick, account, Speaker, newId, rows);
      || Reassigns(ms, target, server', oldNick, account, done, server, nick, id)
      || (target.Some? && target.value != id && done >= 6
          && server' == server && Equivalent(MappingOf(ms, server), newNick, nick))
    case Erased(server', id') => server' == server && id' == id
  }

  lemma UpsertKeepsKnownIff(s: State, ms: Mappings, server': string, nick': string, target: Id,
                            server: string, nick: string, id: Id)
    requires NoTwins(s, ms) && IsKnown(s, ms, server, nick, id)
    ensures IsKnown(UpsertAlias(s, ms, server', nick', target), ms, server, nick, id)
      <==> target == id || server' != server || !Equivalent(MappingOf(ms, server), nick', nick)
  {
    var s' := UpsertAlias(s, ms, server', nick', target);
    SameAccountsSameBacked(s, s', server, id);
    UpsertKeepsNoTwins(s, ms, server', nick', target);
    if server' == server && Equivalent(MappingOf(ms, server), nick', nick) {
      UpsertIsFound(s, ms, server, nick', target, nick);
    } else {
      OtherAliasStays(s, ms, server', nick', target, server, nick);
    }
  }

  lemma OtherAliasStays(s: State, ms: Mappings, server': string, nick': string, target: Id, server: string,
                        nick: string)
    requires NoTwins(s, ms) && AliasOf(s, ms, server, nick).Some?
    requires server' != server || !Equivalent(MappingOf(ms, server), nick', nick)
    ensures var s', stored := UpsertAlias(s, ms, server', nick', target), AliasOf(s, ms, server, nick).value;
      && AliasOf(s', ms, server, nick) == Some(stored)
      && (server, stored) in s.aliases && (server, stored) in s'.aliases
      && s'.aliases[(server, stored)] == s.aliases[(server, stored)]
  {
    var s', stored := UpsertAlias(s, ms, server', nick', target), AliasOf(s, ms, server, nick).value;
    AliasFound(s, ms, server, nick);
    AliasFound(s, ms, server', nick');
    UpsertKeepsNoTwins(s, ms, server', nick', target);
    assert MatchesAlias(s', ms, server, nick, stored);
    AliasIsUnique(s', ms, server, nick, stored);
  }

  lemma BindKeepsKnownIff(s: State, ms: Mappings, server': string, account: Option<string>, target: Id,
                          server: string, nick: string, id: Id)
    requires NoTwins(s, ms) && IsKnown(s, ms, server, nick, id)
    ensures IsKnown(BindAccount(s, server', account, target), ms, server, nick, id)
      <==> !(Usable(account) && target == id && server' == server)
  {
    var s' := BindAccount(s, server', account, target);
    SameAliases(s, s', ms, server, nick);
    if Usable(account) && target == id && server' == server {
      assert AccountKey(server', account.value) in s'.accounts;
    }
  }

  lemma RenameKeepsKnown(s: State, ms: Mappings, target: Id, nick': string, server: string, nick: string, id: Id)
    requires NoTwins(s, ms)
    ensures IsKnown(Rename(s, target, nick'), ms, server, nick, id) <==> IsKnown(s, ms, server, nick, id)
  {
    SameAliases(s, Rename(s, target, nick'), ms, server, nick);
    SameAccountsSameBacked(s, Rename(s, target, nick'), server, id);
  }

  lemma InsertKeepsKnown(s: State, ms: Mappings, newId: Id, server': string, nick': string,
                         server: string, nick: string, id: Id)
    requires NoTwins(s, ms)
    ensures IsKnown(Inserted(s, newId, server', nick'), ms, server, nick, id) <==> IsKnown(s, ms, server, nick, id)
  {
    SameAliases(s, Inserted(s, newId, server', nick'), ms, server, nick);
    SameAccountsSameBacked(s, Inserted(s, newId, server', nick'), server, id);
  }

  /** What the attaching statements, as far as they get, do to somebody known. */
  lemma AttachKeepsKnownIff(s: State, ms: Mappings, server': string, nick': string, account: Option<string>, target: Id,
                            done: nat, server: string, nick: string, id: Id)
    requires NoTwins(s, ms) && IsKnown(s, ms, server, nick, id)
    ensures IsKnown(AttachUpTo(s, ms, server', nick', account, target, done), ms, server, nick, id)
      <==> !Reassigns(ms, Some(target), server', nick', account, done, server, nick, id)
  {
    var s1 := UpsertAlias(s, ms, server', nick', target);
    UpsertKeepsKnownIff(s, ms, server', nick', target, server, nick, id);
    UpsertKeepsNoTwins(s, ms, server', nick', target);
    SameAccountsSameBacked(s, s1, server, id);
    BindDecides(s1, ms, server', account, target, server, nick, id);
    RenameKeepsKnown(BindAccount(s1, server', account, target), ms, target, nick', server, nick, id);
  }

  lemma BindDecides(s: State, ms: Mappings, server': string, account: Option<string>, target: Id,
                    server: string, nick: string, id: Id)
    requires NoTwins(s, ms) && !Backed(s, server, id)
    ensures IsKnown(BindAccount(s, server', account, target), ms, server, nick, id)
      <==> IsKnown(s, ms, server, nick, id) && !(Usable(account) && target == id && server' == server)
  {
    if IsKnown(s, ms, server, nick, id) {
      BindKeepsKnownIff(s, ms, server', account, target, server, nick, id);
    } else {
      UnknownStaysUnknown(s, ms, server', account, target, server, nick, id);
    }
  }

  /** Binding an account to another profile gives no nick back. */
  lemma UnknownStaysUnknown(s: State, ms: Mappings, server': string, account: Option<string>, target: Id,
                            server: string, nick: string, id: Id)
    requires NoTwins(s, ms) && !IsKnown(s, ms, server, nick, id) && !Backed(s, server, id)
    ensures !IsKnown(BindAccount(s, server', account, target), ms, server, nick, id)
  {
    SameAliases(s, BindAccount(s, server', account, target), ms, server, nick);
  }

  lemma ResolveKeepsKnownIff(s: State, ms: Mappings, server': string, nick': string, account: Option<string>,
                             claim: Claim, newId: Id, rows: seq<Id>, done: nat, server: string, nick: string, id: Id)
    requires Inv(s, ms) && Enabled(s, Seen(server', nick', account, claim, newId, rows, done))
    requires IsKnown(s, ms, server, nick, id)
    ensures IsKnown(Resolve(s, ms, server', nick', account, claim, newId, rows, done).state, ms, server, nick, id)
      <==> !Reassigns(ms, TargetOf(s, ms, server', nick', account, claim, newId, rows), server', nick', account, done,
                      server, nick, id)
  {
    var target := TargetOf(s, ms, server', nick', account, claim, newId, rows);
    if IdFor(s, ms, server', nick', account, claim, rows).Some? {
      AttachKeepsKnownIff(s, ms, server', nick', account, target.value, done, server, nick, id);
    } else if target.Some? {
      var stored := StoredNick(s, ms, server', nick', newId, rows);
      InsertKeepsKnown(s, ms, newId, server', stored, server, nick, id);
      AttachKeepsKnownIff(Inserted(s, newId, server', stored), ms, server', nick', account, newId, done, server,
        nick, id);
    }
  }

  /** One event ends a visit exactly if it takes the nick for another profile, registers this one, or erases it. */
  lemma StepKeepsKnownIff(s: State, ms: Mappings, e: Event, server: string, nick: string, id: Id)
    requires Inv(s, ms) && Enabled(s, e) && IsKnown(s, ms, server, nick, id)
    ensures IsKnown(Step(s, ms, e), ms, server, nick, id) <==> !TakesAway(s, ms, e, server, nick, id)
  {
    match e
    case Seen(server', nick', account, claim, newId, rows, done) =>
      ResolveKeepsKnownIff(s, ms, server', nick', account, claim, newId, rows, done, server, nick, id);
    case NickChange(server', oldNick, newNick, account, newId, rows, done) =>
      NickChangeKeepsKnownIff(s, ms, server', oldNick, newNick, account, newId, rows, done, server, nick, id);
    case Erased(server', id') =>
      EraseKeepsKnownIff(s, ms, server', id', server, nick, id);
  }

  lemma EraseKeepsKnownIff(s: State, ms: Mappings, server': string, id': Id, server: string, nick: string, id: Id)
    requires NoTwins(s, ms) && IsKnown(s, ms, server, nick, id)
    ensures IsKnown(Erase(s, server', id'), ms, server, nick, id) <==> !(server' == server && id' == id)
  {
    var s', stored := Erase(s, server', id'), AliasOf(s, ms, server, nick).value;
    AliasFound(s, ms, server, nick);
    AliasFound(s', ms, server, nick);
    if !(server' == server && id' == id) {
      assert MatchesAlias(s', ms, server, nick, stored);
      assert NoTwins(s', ms);
      AliasIsUnique(s', ms, server, nick, stored);
    }
  }

  lemma NickChangeKeepsKnownIff(s: State, ms: Mappings, server': string, oldNick: string, newNick: string,
                                account: Option<string>, newId: Id, rows: seq<Id>, done: nat,
                                server: string, nick: string, id: Id)
    requires Inv(s, ms) && Enabled(s, NickChange(server', oldNick, newNick, account, newId, rows, done))
    requires IsKnown(s, ms, server, nick, id)
    ensures IsKnown(BindNick(s, ms, server', oldNick, newNick, account, newId, rows, done).state, ms, server, nick, id)
      <==> !TakesAway(s, ms, NickChange(server', oldNick, newNick, account, newId, rows, done), server, nick, id)
  {
    var r := Resolve(s, ms, server', oldNick, account, Speaker, newId, rows, done);
    ResolveKeepsInv(s, ms, server', oldNick, account, Speaker, newId, rows, done);
    ResolveKeepsKnownIff(s, ms, server', oldNick, account, Speaker, newId, rows, done, server, nick, id);
    TargetIsReported(s, ms, server', oldNick, account, Speaker, newId, rows, done);
    if r.id.Some? {
      if r.id.value == id && server' == server && Usable(account) {
        ResolvedIsBacked(s, ms, server', oldNick, account, Speaker, newId, rows, done);
      }
      FollowKeepsKnownIff(r.state, ms, server', newNick, r.id.value, done, server, nick, id);
    }
  }

  lemma TargetIsReported(s: State, ms: Mappings, server: string, nick: string, account: Option<string>, claim: Claim,
                         newId: Id, rows: seq<Id>, done: nat)
    requires Enabled(s, Seen(server, nick, account, claim, newId, rows, done))
    ensures var r := Resolve(s, ms, server, nick, account, claim, newId, rows, done);
      r.id == if done < READ_BACK then None else TargetOf(s, ms, server, nick, account, claim, newId, rows)
  {
  }

  lemma ResolvedIsBacked(s: State, ms: Mappings, server: string, nick: string, account: Option<string>, claim: Claim,
                         newId: Id, rows: seq<Id>, done: nat)
    requires Inv(s, ms) && Enabled(s, Seen(server, nick, account, claim, newId, rows, done)) && Usable(account)
    requires Resolve(s, ms, server, nick, account, claim, newId, rows, done).id.Some?
    ensures var r := Resolve(s, ms, server, nick, account, claim, newId, rows, done);
      Backed(r.state, server, r.id.value)
  {
    var r := Resolve(s, ms, server, nick, account, claim, newId, rows, done);
    var base := ResolveAttaches(s, ms, server, nick, account, claim, newId, rows, done);
    var key := AccountKey(server, account.value);
    assert key in r.state.accounts && r.state.accounts[key] == r.id.value;
  }

  /** Following the new nick takes that away too; a nick that is lost already stays lost. */
  lemma FollowKeepsKnownIff(s: State, ms: Mappings, server': string, newNick: string, target: Id, done: nat,
                            server: string, nick: string, id: Id)
    requires NoTwins(s, ms) && done >= READ_BACK
    requires IsKnown(s, ms, server, nick, id) || target != id || Backed(s, server, id)
    ensures IsKnown(Followed(s, ms, server', newNick, target, done), ms, server, nick, id)
      <==> (&& IsKnown(s, ms, server, nick, id)
            && !(target != id && done >= 6 && server' == server && Equivalent(MappingOf(ms, server), newNick, nick)))
  {
    var s1 := UpsertAlias(s, ms, server', newNick, target);
    UpsertKeepsNoTwins(s, ms, server', newNick, target);
    RenameKeepsKnown(s1, ms, target, newNick, server, nick, id);
    if IsKnown(s, ms, server, nick, id) {
      UpsertKeepsKnownIff(s, ms, server', newNick, target, server, nick, id);
    } else if target != id {
      UpsertGivesNothingBack(s, ms, server', newNick, target, server, nick, id);
    } else {
      SameAccountsSameBacked(s, s1, server, id);
    }
  }

  /** The statements that follow a nick change once its sender is resolved. */
  ghost function Followed(s: State, ms: Mappings, server: string, newNick: string, target: Id, done: nat): State {
    if done < 6 then s
    else
      var s1 := UpsertAlias(s, ms, server, newNick, target);
      if done < 7 then s1 else Rename(s1, target, newNick)
  }

  lemma UpsertGivesNothingBack(s: State, ms: Mappings, server': string, nick': string, target: Id,
                               server: string, nick: string, id: Id)
    requires NoTwins(s, ms) && target != id
    ensures IsKnown(UpsertAlias(s, ms, server', nick', target), ms, server, nick, id) ==>
      IsKnown(s, ms, server, nick, id)
  {
    var s' := UpsertAlias(s, ms, server', nick', target);
    SameAccountsSameBacked(s, s', server, id);
    if IsKnown(s', ms, server, nick, id) {
      var stored := AliasOf(s', ms, server, nick).value;
      AliasFound(s', ms, server, nick);
      assert MatchesAlias(s, ms, server, nick, stored);
      AliasIsUnique(s, ms, server, nick, stored);
    }
  }

  // ----- Whole visits -----------------------------------------------------------------------------

  /** After every event of the run the nick still leads to this profile. */
  ghost predicate AlwaysKnown(s: State, ms: Mappings, es: seq<Event>, server: string, nick: string, id: Id)
    requires Runnable(s, ms, es)
    decreases |es|
  {
    && IsKnown(s, ms, server, nick, id)
    && (es == [] || AlwaysKnown(Step(s, ms, es[0]), ms, es[1..], server, nick, id))
  }

  /** No event of the run takes the nick away. */
  ghost predicate NeverTakenAway(s: State, ms: Mappings, es: seq<Event>, server: string, nick: string, id: Id)
    requires Runnable(s, ms, es)
    decreases |es|
  {
    es == [] || (&& !TakesAway(s, ms, es[0], server, nick, id)
                 && NeverTakenAway(Step(s, ms, es[0]), ms, es[1..], server, nick, id))
  }

  /** A visit lasts exactly as long as nobody takes the nick for another profile, registers this one or erases it. */
  lemma {:induction false} VisitLastsIff(s: State, ms: Mappings, es: seq<Event>, server: string, nick: string, id: Id)
    requires Inv(s, ms) && Runnable(s, ms, es) && IsKnown(s, ms, server, nick, id)
    ensures AlwaysKnown(s, ms, es, server, nick, id) <==> NeverTakenAway(s, ms, es, server, nick, id)
    decreases |es|
  {
    if es != [] {
      StepKeepsKnownIff(s, ms, es[0], server, nick, id);
      StepKeepsInv(s, ms, es[0]);
      if IsKnown(Step(s, ms, es[0]), ms, server, nick, id) {
        VisitLastsIff(Step(s, ms, es[0]), ms, es[1..], server, nick, id);
      }
    }
  }

  // ----- Two people under one nick ----------------------------------------------------------------

  const EMPTY := State(map[], map[], map[])
  const NET := "net"
  const BOB := "bob"

  /** The registered bob, logged in, and somebody else under his nick. */
  function LoggedIn(newId: Id, rows: seq<Id>): Event {
    Seen(NET, BOB, Some(BOB), Speaker, newId, rows, READ_BACK)
  }

  function Stranger(newId: Id, rows: seq<Id>, done: nat): Event {
    Seen(NET, BOB, None, Speaker, newId, rows, done)
  }

  /** Bob `a` is registered, stranger `c` was given a profile, and the nick leads to `holder`. */
  function Both(a: Id, c: Id, holder: Id): State
    requires |c| >= 8
  {
    State(map[a := Profile(NET, BOB), c := Profile(NET, BOB + "~" + c[..8])], map[(NET, BOB) := holder],
      map[(NET, BOB) := a])
  }

  function Registered(a: Id): State {
    State(map[a := Profile(NET, BOB)], map[(NET, BOB) := a], map[(NET, BOB) := a])
  }

  lemma LowerBob()
    ensures Lower(BOB) == BOB && AccountKey(NET, BOB) == (NET, BOB)
  {
  }

  lemma OnlyAlias(s: State, ms: Mappings, id: Id)
    requires s.aliases == map[(NET, BOB) := id]
    ensures AliasOf(s, ms, NET, BOB) == Some(BOB)
  {
    assert MatchesAlias(s, ms, NET, BOB, BOB);
    AliasFound(s, ms, NET, BOB);
  }

  lemma NoAlias(s: State, ms: Mappings)
    requires s.aliases == map[]
    ensures AliasOf(s, ms, NET, BOB) == None
  {
    AliasFound(s, ms, NET, BOB);
  }

  lemma FirstLogin(ms: Mappings, a: Id)
    requires IsUuid(a)
    ensures Enabled(EMPTY, LoggedIn(a, [])) && Step(EMPTY, ms, LoggedIn(a, [])) == Registered(a)
  {
    LowerBob();
    NoAlias(EMPTY, ms);
    NoAlias(Inserted(EMPTY, a, NET, BOB), ms);
    var s1 := UpsertAlias(Inserted(EMPTY, a, NET, BOB), ms, NET, BOB, a);
    assert BindAccount(s1, NET, Some(BOB), a) == Registered(a);
    assert Rename(Registered(a), a, BOB) == Registered(a);
  }

  /** A new profile for the stranger is stored under a disambiguated nick: the plain one is taken. */
  lemma StrangerIsStored(s: State, ms: Mappings, a: Id, c: Id, rows: seq<Id>)
    requires s.aliases == map[(NET, BOB) := a] && s.accounts == map[(NET, BOB) := a] && |c| >= 8
    ensures IdFor(s, ms, NET, BOB, None, Speaker, rows) == None
    ensures StoredNick(s, ms, NET, BOB, c, rows) == BOB + "~" + c[..8]
  {
    OnlyAlias(s, ms, a);
    assert (NET, BOB) in s.accounts && Backed(s, NET, a);
  }

  lemma StrangerComes(ms: Mappings, a: Id, c: Id)
    requires IsUuid(a) && IsUuid(c) && a != c
    ensures Enabled(Registered(a), Stranger(c, [a], READ_BACK))
    ensures Step(Registered(a), ms, Stranger(c, [a], READ_BACK)) == Both(a, c, c)
  {
    var s, named := Registered(a), BOB + "~" + c[..8];
    StrangerIsStored(s, ms, a, c, [a]);
    OnlyAlias(Inserted(s, c, NET, named), ms, a);
    assert |Lower(BOB)| != |Lower(named)|;
    assert UpsertAlias(Inserted(s, c, NET, named), ms, NET, BOB, c) == Both(a, c, c);
    assert a in Both(a, c, c).profiles && NickTaken(Both(a, c, c), NET, BOB, c);
  }

  lemma OwnerReturns(ms: Mappings, a: Id, c: Id, x: Id)
    requires IsUuid(a) && IsUuid(c) && IsUuid(x) && a != c && x != a && x != c
    ensures Enabled(Both(a, c, c), LoggedIn(x, [a, c]))
    ensures Step(Both(a, c, c), ms, LoggedIn(x, [a, c])) == Both(a, c, a)
  {
    LowerBob();
    var s := Both(a, c, c);
    OnlyAlias(s, ms, c);
    assert UpsertAlias(s, ms, NET, BOB, a) == Both(a, c, a);
    assert BindAccount(Both(a, c, a), NET, Some(BOB), a) == Both(a, c, a);
    assert Rename(Both(a, c, a), a, BOB) == Both(a, c, a);
  }

  /** The alias statement of the stranger's first line fails: the profile is stored, the nick stays with bob. */
  lemma StrangerComesHalfWay(ms: Mappings, a: Id, c: Id)
    requires IsUuid(a) && IsUuid(c) && a != c
    ensures Enabled(Registered(a), Stranger(c, [a], 1))
    ensures Step(Registered(a), ms, Stranger(c, [a], 1)) == Both(a, c, a)
  {
    var s, named := Registered(a), BOB + "~" + c[..8];
    StrangerIsStored(s, ms, a, c, [a]);
    assert |Lower(BOB)| != |Lower(named)|;
    assert Inserted(s, c, NET, named) == Both(a, c, a);
  }

  lemma UuidsAreLower(c: Id, d: Id)
    requires IsUuid(c) && IsUuid(d)
    ensures Lower(BOB + "~" + c[..8]) == Lower(BOB + "~" + d[..8]) <==> c[..8] == d[..8]
  {
    var x, y := BOB + "~" + c[..8], BOB + "~" + d[..8];
    assert Lower(x)[4..] == c[..8] && Lower(y)[4..] == d[..8];
  }

  /** Once the nick is back with bob, the stranger is a stranger again: given another profile, unless the new id
      starts like that of the first, in which case the new row cannot be stored. */
  lemma StrangerAgain(ms: Mappings, a: Id, c: Id, d: Id)
    requires IsUuid(a) && IsUuid(c) && IsUuid(d) && a != c && d != a && d != c
    ensures Enabled(Both(a, c, a), Stranger(d, [a, c], READ_BACK))
    ensures IdFor(Both(a, c, a), ms, NET, BOB, None, Speaker, [a, c]) == None
    ensures MakesProfile(Both(a, c, a), ms, NET, BOB, None, Speaker, d, [a, c]) <==> d[..8] != c[..8]
    ensures Resolve(Both(a, c, a), ms, NET, BOB, None, Speaker, d, [a, c], READ_BACK).id
      == (if d[..8] != c[..8] then Some(d) else None)
  {
    var s := Both(a, c, a);
    StrangerIsStored(s, ms, a, d, [a, c]);
    UuidsAreLower(c, d);
    assert |Lower(BOB)| != |Lower(BOB + "~" + d[..8])|;
    assert c in s.profiles && s.profiles[c] == Profile(NET, BOB + "~" + c[..8]);
    assert NickTaken(s, NET, BOB + "~" + d[..8], d) <==> d[..8] == c[..8];
  }

  // ----- The same as runs from empty tables -------------------------------------------------------

  lemma RunFirst(s: State, ms: Mappings, e: Event, es: seq<Event>)
    requires Enabled(s, e) && Runnable(Step(s, ms, e), ms, es)
    ensures Runnable(s, ms, [e] + es) && Exec(s, ms, [e] + es) == Exec(Step(s, ms, e), ms, es)
  {
    assert ([e] + es)[1..] == es;
  }

  /** Distinct identifiers, as the host issues them. */
  predicate AreFresh(a: Id, c: Id, x: Id, d: Id) {
    && IsUuid(a) && IsUuid(c) && IsUuid(x) && IsUuid(d)
    && a != c && a != x && a != d && c != x && c != d && x != d
  }

  /** Bob registers, the stranger speaks, bob speaks. */
  function TakenBack(a: Id, c: Id, x: Id): seq<Event> {
    [LoggedIn(a, [])] + ([Stranger(c, [a], READ_BACK)] + ([LoggedIn(x, [a, c])] + []))
  }

  /** Bob registers, and the stranger's first line gets no further than the new profile. */
  function HalfWay(a: Id, c: Id): seq<Event> {
    [LoggedIn(a, [])] + ([Stranger(c, [a], 1)] + [])
  }

  lemma TakenBackRuns(ms: Mappings, a: Id, c: Id, x: Id)
    requires IsUuid(a) && IsUuid(c) && IsUuid(x) && a != c && x != a && x != c
    ensures Runnable(EMPTY, ms, TakenBack(a, c, x)) && Exec(EMPTY, ms, TakenBack(a, c, x)) == Both(a, c, a)
  {
    FirstLogin(ms, a);
    StrangerComes(ms, a, c);
    OwnerReturns(ms, a, c, x);
    RunFirst(Both(a, c, c), ms, LoggedIn(x, [a, c]), []);
    RunFirst(Registered(a), ms, Stranger(c, [a], READ_BACK), [LoggedIn(x, [a, c])] + []);
    RunFirst(EMPTY, ms, LoggedIn(a, []), [Stranger(c, [a], READ_BACK)] + ([LoggedIn(x, [a, c])] + []));
  }

  lemma HalfWayRuns(ms: Mappings, a: Id, c: Id)
    requires IsUuid(a) && IsUuid(c) && a != c
    ensures Runnable(EMPTY, ms, HalfWay(a, c)) && Exec(EMPTY, ms, HalfWay(a, c)) == Both(a, c, a)
  {
    FirstLogin(ms, a);
    StrangerComesHalfWay(ms, a, c);
    RunFirst(Registered(a), ms, Stranger(c, [a], 1), []);
    RunFirst(EMPTY, ms, LoggedIn(a, []), [Stranger(c, [a], 1)] + []);
  }

  /** No statement fails, and yet the stranger's profile is out of reach after bob has spoken again: the next
      line makes another one. */
  lemma VisitEndsWithoutAFailure(ms: Mappings, a: Id, c: Id, x: Id, d: Id)
    requires AreFresh(a, c, x, d) && d[..8] != c[..8]
    ensures Runnable(EMPTY, ms, TakenBack(a, c, x))
    ensures var s := Exec(EMPTY, ms, TakenBack(a, c, x));
      && c in s.profiles && IdFor(s, ms, NET, BOB, None, Speaker, [a, c]) == None
      && Resolve(s, ms, NET, BOB, None, Speaker, d, [a, c], READ_BACK).id == Some(d)
  {
    TakenBackRuns(ms, a, c, x);
    StrangerAgain(ms, a, c, d);
  }

  /** The stranger's profile was stored, its alias was not: nobody is recognised as it. */
  lemma HalfWayIsOrphaned(ms: Mappings, a: Id, c: Id)
    requires IsUuid(a) && IsUuid(c) && a != c
    ensures MakesProfile(Registered(a), ms, NET, BOB, None, Speaker, c, [a])
    ensures Runnable(EMPTY, ms, HalfWay(a, c))
    ensures var s := Exec(EMPTY, ms, HalfWay(a, c));
      c in s.profiles && IdFor(s, ms, NET, BOB, None, Speaker, [a, c]) == None
  {
    StrangerIsStored(Registered(a), ms, a, c, [a]);
    assert |Lower(BOB)| != |Lower(BOB + "~" + c[..8])|;
    HalfWayRuns(ms, a, c);
    StrangerIsStored(Both(a, c, a), ms, a, c, [a, c]);
  }

  /** A new id that starts like the stranger's first cannot be stored: the line has no sender though no statement
      of the database has failed. */
  lemma ClashHasNoSender(ms: Mappings, a: Id, c: Id, x: Id, d: Id)
    requires AreFresh(a, c, x, d) && d[..8] == c[..8]
    ensures Runnable(EMPTY, ms, TakenBack(a, c, x))
    ensures var s := Exec(EMPTY, ms, TakenBack(a, c, x));
      && Enabled(s, Stranger(d, [a, c], READ_BACK))
      && Resolve(s, ms, NET, BOB, None, Speaker, d, [a, c], READ_BACK) == Resolved(s, None)
  {
    TakenBackRuns(ms, a, c, x);
    StrangerAgain(ms, a, c, d);
  }

  /** An identifier whose first group repeats one digit and whose others repeat another. */
  function Sample(first: char, other: char): (id: Id)
    requires first in "0123456789abcdef" && other in "0123456789abcdef"
    ensures IsUuid(id) && id[..8] == seq(8, _ => first) && id[0] == first && id[35] == other
  {
    seq(36, i => if i == 8 || i == 13 || i == 18 || i == 23 then '-' else if i < 8 then first else other)
  }

  /** Four such identifiers exist, with the second and the last starting alike or not. */
  lemma SuchIdsExist()
    ensures exists a, c, x, d :: AreFresh(a, c, x, d) && d[..8] == c[..8]
    ensures exists a, c, x, d :: AreFresh(a, c, x, d) && d[..8] != c[..8]
  {
    var a, c, x, d := Sample('a', '0'), Sample('c', '0'), Sample('e', '0'), Sample('c', '1');
    assert AreFresh(a, c, x, d) && d[..8] == c[..8];
    assert x[..8][0] != c[..8][0];
    assert AreFresh(a, c, d, x) && x[..8] != c[..8];
  }
}
