/** The identity tables updated in place: the alias scan over all rows of a network, and the operations
    proved equal to the steps of `IdentityModel`. */
module Identity {
  import opened Prelude
  import opened Text
  import opened CaseFolding
  import opened IdentityModel
  import opened IdentityRuns
  import Effects = IdentityEffects

  datatype AliasError = MultipleProfiles

  /** Equivalent alias rows that belong to different profiles. */
  ghost predicate Contested(s: State, ms: Mappings, server: string, nick: string) {
    exists a, b ::
      (MatchesAlias(s, ms, server, nick, a) && MatchesAlias(s, ms, server, nick, b)
       && s.aliases[(server, a)] != s.aliases[(server, b)])
  }

  /** So resolution never reports that several profiles own a nick. */
  lemma NoTwinsNoContest(s: State, ms: Mappings, server: string, nick: string)
    requires NoTwins(s, ms)
    ensures !Contested(s, ms, server, nick)
  {
    forall a, b | MatchesAlias(s, ms, server, nick, a) && MatchesAlias(s, ms, server, nick, b) ensures a == b {
      AliasIsUnique(s, ms, server, nick, a);
      AliasIsUnique(s, ms, server, nick, b);
    }
  }

  class Store {
    var profiles: map<Id, Profile>
    var aliases: map<(string, string), Id>
    var accounts: map<(string, string), Id>
    const mappings: Mappings

    ghost function View(): State
      reads this
    {
      State(profiles, aliases, accounts)
    }

    constructor (mappings: Mappings)
      ensures Inv(View(), mappings) && View() == State(map[], map[], map[]) && this.mappings == mappings
    {
      this.mappings := mappings;
      profiles, aliases, accounts := map[], map[], map[];
    }

    /** Scans every alias row of the network, in any order: an error exactly when two equivalent rows
        belong to different profiles, otherwise an equivalent row, the exact spelling preferred. */
    method FindAlias(server: string, nick: string) returns (r: Result<Option<string>, AliasError>)
      ensures r.Err? <==> Contested(View(), mappings, server, nick)
      ensures r == Ok(None) ==> forall a :: !MatchesAlias(View(), mappings, server, nick, a)
      ensures r.Ok? && r.value.Some? ==> MatchesAlias(View(), mappings, server, nick, r.value.value)
      ensures r.Ok? && (server, nick) in aliases ==> r.value == Some(nick)
    {
      var left := set k | k in aliases && k.0 == server;
      ghost var rows := left;
      var matched: Option<string> := None;
      while left != {}
        invariant left <= rows
        invariant matched.Some? ==> MatchesAlias(View(), mappings, server, nick, matched.value)
        invariant matched.Some? ==> (server, matched.value) in rows - left
        invariant forall k :: k in rows - left && MatchesAlias(View(), mappings, server, nick, k.1) ==>
          matched.Some? && aliases[k] == aliases[(server, matched.value)]
        invariant (server, nick) in rows - left ==> matched == Some(nick)
        decreases left
      {
        var k :| k in left;
        left := left - {k};
        if Equivalent(MappingOf(mappings, server), k.1, nick) {
          assert MatchesAlias(View(), mappings, server, nick, k.1);
          if matched.Some? && aliases[(server, matched.value)] != aliases[k] {
            return Err(MultipleProfiles);
          }
          if matched.None? || k.1 == nick {
            matched := Some(k.1);
          }
        }
      }
      forall a | MatchesAlias(View(), mappings, server, nick, a)
        ensures matched.Some? && aliases[(server, a)] == aliases[(server, matched.value)]
      {
        assert (server, a) in rows;
      }
      return Ok(matched);
    }

    /** Without twins the scan never fails and finds the one equivalent row. */
    method TheAlias(server: string, nick: string) returns (r: Option<string>)
      requires NoTwins(View(), mappings)
      ensures r == AliasOf(View(), mappings, server, nick)
    {
      var found := FindAlias(server, nick);
      NoTwinsNoContest(View(), mappings, server, nick);
      r := found.value;
      if r.Some? {
        AliasIsUnique(View(), mappings, server, nick, r.value);
      }
    }

    method FindId(server: string, nick: string, account: Option<string>, claim: Claim, rows: seq<Id>)
      returns (r: Option<Id>)
      requires Inv(View(), mappings)
      ensures r == IdFor(View(), mappings, server, nick, account, claim, rows)
    {
      var guarded := account.Some? || claim == Speaker;
      if account.Some? && account.value != "" && AccountKey(server, account.value) in accounts {
        return Some(accounts[AccountKey(server, account.value)]);
      }
      var stored := TheAlias(server, nick);
      AliasFound(View(), mappings, server, nick);
      if stored.Some? {
        var backed := IsBacked(server, aliases[(server, stored.value)]);
        return if guarded && backed then None else Some(aliases[(server, stored.value)]);
      }
      for n := 0 to |rows|
        invariant ScanFor(View(), mappings, server, nick, rows) == ScanFor(View(), mappings, server, nick, rows[n..])
      {
        assert rows[n..][1..] == rows[n + 1..];
        if rows[n] in profiles && Equivalent(MappingOf(mappings, server), profiles[rows[n]].nick, nick) {
          var backed := IsBacked(server, rows[n]);
          return if guarded && backed then None else Some(rows[n]);
        }
      }
      return None;
    }

    method IsBacked(server: string, id: Id) returns (backed: bool)
      ensures backed == Backed(View(), server, id)
    {
      backed := exists key :: key in accounts && key.0 == server && accounts[key] == id;
    }

    method WriteAlias(server: string, nick: string, id: Id)
      requires NoTwins(View(), mappings)
      modifies this`aliases
      ensures View() == UpsertAlias(old(View()), mappings, server, nick, id)
    {
      var stored := TheAlias(server, nick);
      if stored.Some? {
        aliases := aliases[(server, stored.value) := id];
      } else {
        aliases := aliases[(server, nick) := id];
      }
    }

    method RenameProfile(id: Id, nick: string)
      modifies this`profiles
      ensures View() == Rename(old(View()), id, nick)
    {
      if id in profiles {
        var server := profiles[id].server;
        var taken := exists p ::
          p in profiles && p != id && profiles[p].server == server && Lower(profiles[p].nick) == Lower(nick);
        if !taken {
          profiles := profiles[id := profiles[id].(nick := nick)];
        }
      }
    }

    /** The statements that attach a sender to a profile, as far as they get. */
    method AttachTo(server: string, nick: string, account: Option<string>, id: Id, done: nat)
      requires Inv(View(), mappings)
      modifies this
      ensures View() == AttachUpTo(old(View()), mappings, server, nick, account, id, done)
    {
      if done < 2 {
        return;
      }
      WriteAlias(server, nick, id);
      if done < 3 {
        return;
      }
      if account.Some? && account.value != "" && account.value != "*" {
        accounts := accounts[AccountKey(server, account.value) := id];
      }
      if done < 4 {
        return;
      }
      RenameProfile(id, nick);
    }

    /** Resolves a sender; the statement after the first `done` ones fails. */
    method ResolveSender(server: string, nick: string, account: Option<string>, claim: Claim, newId: Id, rows: seq<Id>,
                         done: nat)
      returns (r: Option<Id>)
      requires Inv(View(), mappings) && Enabled(View(), Seen(server, nick, account, claim, newId, rows, done))
      modifies this
      ensures Inv(View(), mappings)
      ensures Resolved(View(), r) == Resolve(old(View()), mappings, server, nick, account, claim, newId, rows, done)
    {
      ResolveKeepsInv(View(), mappings, server, nick, account, claim, newId, rows, done);
      if done == 0 {
        return None;
      }
      var found := FindId(server, nick, account, claim, rows);
      var id := found.GetOr(newId);
      if found.None? {
        var ok := InsertProfile(server, nick, newId, rows);
        if !ok {
          return None;
        }
      }
      AttachTo(server, nick, account, id, done);
      return if done < READ_BACK then None else Some(id);
    }

    /** A new profile, under a disambiguated nick if the plain one is occupied. */
    method InsertProfile(server: string, nick: string, newId: Id, rows: seq<Id>) returns (ok: bool)
      requires Inv(View(), mappings) && |newId| >= 8 && newId !in profiles
      modifies this`profiles
      ensures var stored := StoredNick(old(View()), mappings, server, nick, newId, rows);
        && ok == !NickTaken(old(View()), server, stored, newId)
        && View() == if ok then Inserted(old(View()), newId, server, stored) else old(View())
      ensures Inv(View(), mappings)
    {
      var occupied := FindId(server, nick, None, Lookup, rows);
      var stored := if occupied.Some? then nick + "~" + newId[..8] else nick;
      ok := !exists p ::
        p in profiles && p != newId && profiles[p].server == server && Lower(profiles[p].nick) == Lower(stored);
      if ok {
        InsertKeepsInv(View(), mappings, newId, Profile(server, stored));
        profiles := profiles[newId := Profile(server, stored)];
      }
    }

    method BindNewNick(server: string, oldNick: string, newNick: string, account: Option<string>, newId: Id,
                       rows: seq<Id>, done: nat)
      returns (r: Option<Id>)
      requires Inv(View(), mappings)
      requires Enabled(View(), NickChange(server, oldNick, newNick, account, newId, rows, done))
      modifies this
      ensures Inv(View(), mappings)
      ensures Resolved(View(), r)
        == BindNick(old(View()), mappings, server, oldNick, newNick, account, newId, rows, done)
      ensures r.Some? ==>
        Effects.LeadsTo(View(), mappings, server, newNick, r.value) && Effects.GoesBy(View(), server, newNick, r.value)
    {
      Effects.ReportedIsLedTo(View(), mappings, server, oldNick, newNick, account, newId, rows, done);
      StepKeepsInv(View(), mappings, NickChange(server, oldNick, newNick, account, newId, rows, done));
      r := ResolveSender(server, oldNick, account, Speaker, newId, rows, done);
      if r.Some? {
        if done < 6 {
          return None;
        }
        WriteAlias(server, newNick, r.value);
        if done < 7 {
          return None;
        }
        RenameProfile(r.value, newNick);
      }
    }

    method FinishErasure(server: string, id: Id)
      requires Inv(View(), mappings)
      modifies this
      ensures Inv(View(), mappings)
      ensures View() == Erase(old(View()), server, id)
    {
      EraseKeepsInv(View(), mappings, server, id);
      accounts := map k | k in accounts && !(k.0 == server && accounts[k] == id) :: accounts[k];
      aliases := map k | k in aliases && !(k.0 == server && aliases[k] == id) :: aliases[k];
      profiles := map p | p in profiles && !(p == id && profiles[p].server == server) :: profiles[p];
    }
  }
}
