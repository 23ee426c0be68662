/** A validated alias override takes effect in full and steals nothing, whatever else is loaded. */
module CommandOverrides {
  import opened Prelude
  import opened Text
  import opened Greedy
  import opened Commands

  // ----- The catalog is in order and its names are distinct -----------------------------------

  ghost predicate Ordered(commands: seq<Command>) {
    forall i, j :: 0 <= i < j < |commands| ==> Less(commands[i].name, commands[j].name)
  }

  lemma {:induction false} InsertKeepsOrder(commands: seq<Command>, c: Command)
    requires Ordered(commands) && c.name !in NamesOf(commands)
    ensures Ordered(Insert(commands, c))
    ensures forall x :: x in Insert(commands, c) <==> x == c || x in commands
  {
    if commands != [] && !Less(c.name, commands[0].name) {
      var rest := commands[1..];
      assert commands == [commands[0]] + rest;
      assert forall n :: n in NamesOf(rest) ==> n in NamesOf(commands) by {
        forall n | n in NamesOf(rest) ensures n in NamesOf(commands) {
          var i :| 0 <= i < |rest| && rest[i].name == n;
          assert commands[i + 1].name == n;
        }
      }
      InsertKeepsOrder(rest, c);
      LessTotal(c.name, commands[0].name);
      assert commands[0].name in NamesOf(commands);
      var r := Insert(rest, c);
      forall i | 0 <= i < |r| ensures Less(commands[0].name, r[i].name) {
        assert r[i] in r;
      }
    } else if commands != [] {
      forall i | 0 < i < |commands| ensures Less(c.name, commands[i].name) {
        LessTransitive(c.name, commands[0].name, commands[i].name);
      }
    }
  }

  ghost predicate DistinctNames(commands: seq<Command>) {
    forall i, j :: 0 <= i < j < |commands| ==> commands[i].name != commands[j].name
  }

  ghost predicate CanonicalNames(commands: seq<Command>) {
    forall c :: c in commands ==> IsCanonicalName(c.name)
  }

  lemma {:induction false} SortSorts(commands: seq<Command>)
    requires DistinctNames(commands)
    ensures Ordered(SortByName(commands))
    ensures forall x :: x in SortByName(commands) <==> x in commands
  {
    if commands != [] {
      var rest, last := commands[..|commands| - 1], commands[|commands| - 1];
      SortSorts(rest);
      assert commands == rest + [last];
      var r := SortByName(rest);
      forall i | 0 <= i < |r| ensures r[i].name != last.name {
        assert r[i] in rest;
      }
      InsertKeepsOrder(r, last);
    }
  }

  lemma {:induction false} RegisterIsDistinct(specs: seq<Spec>, overrides: Overrides)
    ensures DistinctNames(Register(specs, overrides)) && CanonicalNames(Register(specs, overrides))
  {
    if specs != [] {
      var before := Register(specs[..|specs| - 1], overrides);
      RegisterIsDistinct(specs[..|specs| - 1], overrides);
      forall i | 0 <= i < |before| ensures before[i].name in NamesOf(before) {
      }
    }
  }

  lemma CatalogIsOrdered(specs: seq<Spec>, overrides: Overrides)
    ensures Ordered(Catalog(specs, overrides)) && DistinctNames(Catalog(specs, overrides))
    ensures CanonicalNames(Catalog(specs, overrides))
  {
    RegisterIsDistinct(specs, overrides);
    SortSorts(Register(specs, overrides));
    var cs := Catalog(specs, overrides);
    forall i, j | 0 <= i < j < |cs| ensures cs[i].name != cs[j].name {
      LessIrreflexive(cs[i].name);
    }
  }

  // ----- What an override changes before acceptance -------------------------------------------

  function IdOf(c: Command): CommandId {
    (c.moduleName, c.name)
  }

  function Overridden(c: Command, id: CommandId, aliases: seq<string>): Command {
    if IdOf(c) == id then c.(aliases := aliases, hasOverride := true) else c
  }

  function OverrideIn(commands: seq<Command>, id: CommandId, aliases: seq<string>): (r: seq<Command>)
    ensures |r| == |commands|
    ensures forall i {:trigger r[i]} :: 0 <= i < |r| ==> r[i] == Overridden(commands[i], id, aliases)
  {
    seq(|commands|, i requires 0 <= i < |commands| => Overridden(commands[i], id, aliases))
  }

  lemma OverrideKeepsNames(commands: seq<Command>, id: CommandId, aliases: seq<string>)
    ensures NamesOf(OverrideIn(commands, id, aliases)) == NamesOf(commands)
  {
    var r := OverrideIn(commands, id, aliases);
    assert forall i :: 0 <= i < |r| ==> r[i].name == commands[i].name;
    assert forall n :: n in NamesOf(r) <==> exists i :: 0 <= i < |r| && commands[i].name == n;
  }

  lemma {:induction false} RegisterOverridden(specs: seq<Spec>, overrides: Overrides, id: CommandId,
                                              aliases: seq<string>)
    ensures Register(specs, overrides[id := aliases]) == OverrideIn(Register(specs, overrides), id, aliases)
  {
    if specs != [] {
      RegisterOverridden(specs[..|specs| - 1], overrides, id, aliases);
      OverrideKeepsNames(Register(specs[..|specs| - 1], overrides), id, aliases);
    }
  }

  lemma {:induction false} InsertOverridden(commands: seq<Command>, c: Command, id: CommandId, aliases: seq<string>)
    ensures Insert(OverrideIn(commands, id, aliases), Overridden(c, id, aliases))
         == OverrideIn(Insert(commands, c), id, aliases)
  {
    if commands != [] && !Less(c.name, commands[0].name) {
      InsertOverridden(commands[1..], c, id, aliases);
      assert OverrideIn(commands, id, aliases)[1..] == OverrideIn(commands[1..], id, aliases);
    }
  }

  lemma {:induction false} SortOverridden(commands: seq<Command>, id: CommandId, aliases: seq<string>)
    ensures SortByName(OverrideIn(commands, id, aliases)) == OverrideIn(SortByName(commands), id, aliases)
  {
    if commands != [] {
      var rest, last := commands[..|commands| - 1], commands[|commands| - 1];
      SortOverridden(rest, id, aliases);
      assert OverrideIn(commands, id, aliases)[..|commands| - 1] == OverrideIn(rest, id, aliases);
      InsertOverridden(SortByName(rest), last, id, aliases);
    }
  }

  lemma CatalogOverridden(specs: seq<Spec>, overrides: Overrides, id: CommandId, aliases: seq<string>)
    ensures Catalog(specs, overrides[id := aliases]) == OverrideIn(Catalog(specs, overrides), id, aliases)
  {
    RegisterOverridden(specs, overrides, id, aliases);
    SortOverridden(Register(specs, overrides), id, aliases);
  }

  ghost predicate SameNames(before: seq<Command>, after: seq<Command>) {
    |before| == |after| && forall i :: 0 <= i < |before| ==>
      before[i].name == after[i].name && before[i].moduleName == after[i].moduleName
  }

  /** Setting or removing an override leaves the rebuilt commands' canonical names as they were, in order. */
  lemma RebuildKeepsNames(specs: seq<Spec>, overrides: Overrides, id: CommandId, aliases: seq<string>)
    ensures SameNames(Resolved(Catalog(specs, overrides)), Resolved(Catalog(specs, overrides[id := aliases])))
    ensures SameNames(Resolved(Catalog(specs, overrides)), Resolved(Catalog(specs, overrides - {id})))
  {
    CatalogOverridden(specs, overrides, id, aliases);
    if id in overrides {
      assert overrides == (overrides - {id})[id := overrides[id]];
      CatalogOverridden(specs, overrides - {id}, id, overrides[id]);
    } else {
      assert overrides - {id} == overrides;
    }
  }

  // ----- Validation ---------------------------------------------------------------------------

  ghost predicate AllValid(aliases: seq<string>) {
    forall i :: 0 <= i < |aliases| ==> NormalizeName(aliases[i]).Ok?
  }

  ghost function Normalized(aliases: seq<string>): (r: seq<string>)
    requires AllValid(aliases)
    ensures |r| == |aliases| && forall i {:trigger r[i]} :: 0 <= i < |r| ==> r[i] == NormalizeName(aliases[i]).value
  {
    seq(|aliases|, i requires 0 <= i < |aliases| => NormalizeName(aliases[i]).value)
  }

  /** What `validate_override` accepts, given the commands now in force. */
  ghost predicate Acceptable(resolved: seq<Command>, id: CommandId, aliases: seq<string>) {
    && (exists i :: 0 <= i < |resolved| && IdOf(resolved[i]) == id)
    && AllValid(aliases)
    && (forall i, j :: 0 <= i < j < |aliases| ==> Normalized(aliases)[i] != Normalized(aliases)[j])
    && (forall a :: a in Normalized(aliases) ==> a != id.1 && IsFree(resolved, id, a))
  }

  /** No command is called `a`, and no command other than `id` answers to it. */
  ghost predicate IsFree(resolved: seq<Command>, id: CommandId, a: string) {
    forall i :: 0 <= i < |resolved| ==>
      a != resolved[i].name && (IdOf(resolved[i]) != id ==> a !in resolved[i].aliases)
  }

  lemma {:induction false} CleanKeepsValid(aliases: seq<string>, own: string)
    requires AllValid(aliases) && own !in Normalized(aliases)
    requires forall i, j :: 0 <= i < j < |aliases| ==> Normalized(aliases)[i] != Normalized(aliases)[j]
    ensures Clean(aliases, own) == Normalized(aliases)
  {
    if aliases != [] {
      var rest := aliases[..|aliases| - 1];
      assert Normalized(aliases)[..|aliases| - 1] == Normalized(rest);
      CleanKeepsValid(rest, own);
      assert Normalized(aliases) == Normalized(rest) + [Normalized(aliases)[|aliases| - 1]];
    }
  }

  lemma WantedOverridden(commands: seq<Command>, t: nat, aliases: seq<string>)
    requires t < |commands| && DistinctNames(commands)
    ensures Wanted(OverrideIn(commands, IdOf(commands[t]), aliases))
         == Wanted(commands)[t := Clean(aliases, commands[t].name)]
  {
  }

  /** If the validator accepts a list, the command answers to exactly that list afterwards, in order. */
  lemma OverrideTakesEffect(specs: seq<Spec>, overrides: Overrides, id: CommandId, aliases: seq<string>, t: nat)
    requires t < |Catalog(specs, overrides)| && IdOf(Catalog(specs, overrides)[t]) == id
    ensures var before := Resolved(Catalog(specs, overrides));
      var after := Resolved(Catalog(specs, overrides[id := aliases]));
      Acceptable(before, id, aliases) ==>
        && |after| == |before|
        && after[t] == before[t].(aliases := Normalized(aliases), hasOverride := true)
  {
    var cs := Catalog(specs, overrides);
    CatalogOverridden(specs, overrides, id, aliases);
    OverrideKeepsNames(cs, id, aliases);
    if Acceptable(Resolved(cs), id, aliases) {
      OverrideIsClear(specs, overrides, id, aliases, t);
      ChangeTakesEffect(NamesOf(cs), Wanted(cs), t, Normalized(aliases));
    }
  }

  /** Command `i` keeps every alias and gains only what command `t` has given up. */
  ghost predicate KeepsItsOwn(before: seq<Command>, after: seq<Command>, t: nat, i: nat, chosen: seq<string>)
    requires t < |before| == |after| && i < |before|
  {
    && after[i] == before[i].(aliases := after[i].aliases)
    && (forall a :: a in before[i].aliases ==> a in after[i].aliases)
    && (forall a :: a in after[i].aliases && a !in before[i].aliases ==> a in before[t].aliases && a !in chosen)
  }

  /** No other command loses an alias, and what one gains the overridden command has given up. */
  lemma OverrideStealsNothing(specs: seq<Spec>, overrides: Overrides, id: CommandId, aliases: seq<string>, t: nat)
    requires t < |Catalog(specs, overrides)| && IdOf(Catalog(specs, overrides)[t]) == id
    ensures var before := Resolved(Catalog(specs, overrides));
      var after := Resolved(Catalog(specs, overrides[id := aliases]));
      Acceptable(before, id, aliases) ==>
        && |after| == |before|
        && forall i :: 0 <= i < |before| && i != t ==> KeepsItsOwn(before, after, t, i, Normalized(aliases))
  {
    var cs := Catalog(specs, overrides);
    CatalogOverridden(specs, overrides, id, aliases);
    CatalogIsOrdered(specs, overrides);
    if Acceptable(Resolved(cs), id, aliases) {
      OverrideIsClear(specs, overrides, id, aliases, t);
      forall i | 0 <= i < |cs| && i != t
        ensures KeepsItsOwn(Resolved(cs), Resolved(OverrideIn(cs, id, aliases)), t, i, Normalized(aliases))
      {
        OneKeepsItsOwn(cs, id, aliases, t, i);
      }
    }
  }

  lemma OneKeepsItsOwn(cs: seq<Command>, id: CommandId, aliases: seq<string>, t: nat, i: nat)
    requires AllValid(aliases) && t < |cs| && i < |cs| && i != t && IdOf(cs[t]) == id && IdOf(cs[i]) != id
    requires Wanted(OverrideIn(cs, id, aliases)) == Wanted(cs)[t := Normalized(aliases)]
    requires Clear(NamesOf(cs), Wanted(cs), t, Normalized(aliases))
    ensures KeepsItsOwn(Resolved(cs), Resolved(OverrideIn(cs, id, aliases)), t, i, Normalized(aliases))
  {
    OverrideKeepsNames(cs, id, aliases);
    var reserved, wanted, chosen := NamesOf(cs), Wanted(cs), Normalized(aliases);
    forall a | a in Granted(reserved, wanted, i) ensures a in Granted(reserved, wanted[t := chosen], i) {
      OthersKeep(reserved, wanted, t, chosen, i, a);
    }
    forall a | a in Granted(reserved, wanted[t := chosen], i) && a !in Granted(reserved, wanted, i)
      ensures a in Granted(reserved, wanted, t) && a !in chosen
    {
      OthersGainWhatIsGivenUp(reserved, wanted, t, chosen, i, a);
    }
  }

  lemma FreeIsClear(cs: seq<Command>, t: nat, chosen: seq<string>)
    requires DistinctNames(cs) && t < |cs|
    requires forall a :: a in chosen ==> IsFree(Resolved(cs), IdOf(cs[t]), a)
    ensures Clear(NamesOf(cs), Wanted(cs), t, chosen)
  {
    var rs := Resolved(cs);
    forall a | a in chosen
      ensures a !in NamesOf(cs) && forall j :: 0 <= j < |Wanted(cs)| && j != t ==>
        a !in Granted(NamesOf(cs), Wanted(cs), j)
    {
      assert IsFree(rs, IdOf(cs[t]), a);
      assert forall j {:trigger rs[j]} :: 0 <= j < |cs| ==> a != rs[j].name;
      assert forall j :: 0 <= j < |cs| ==> cs[j].name == rs[j].name;
      forall j | 0 <= j < |Wanted(cs)| && j != t ensures a !in Granted(NamesOf(cs), Wanted(cs), j) {
        assert cs[j].name != cs[t].name;
        assert IdOf(rs[j]) != IdOf(cs[t]) && rs[j].aliases == Accepted(cs, j);
      }
    }
  }

  /** The validator's test against the aliases in force is exactly what the greedy rebuild needs. */
  lemma OverrideIsClear(specs: seq<Spec>, overrides: Overrides, id: CommandId, aliases: seq<string>, t: nat)
    requires t < |Catalog(specs, overrides)| && IdOf(Catalog(specs, overrides)[t]) == id
    ensures var cs := Catalog(specs, overrides);
      Acceptable(Resolved(cs), id, aliases) ==>
        && Wanted(OverrideIn(cs, id, aliases)) == Wanted(cs)[t := Normalized(aliases)]
        && Clear(NamesOf(cs), Wanted(cs), t, Normalized(aliases))
  {
    var cs := Catalog(specs, overrides);
    CatalogIsOrdered(specs, overrides);
    if Acceptable(Resolved(cs), id, aliases) {
      CleanKeepsValid(aliases, id.1);
      WantedOverridden(cs, t, aliases);
      FreeIsClear(cs, t, Normalized(aliases));
    }
  }

  ghost predicate TakesEffectAndStealsNothing(before: seq<Command>, after: seq<Command>, t: nat, aliases: seq<string>)
  {
    && t < |before| == |after|
    && AllValid(aliases) && after[t].aliases == Normalized(aliases)
    && forall i, a :: 0 <= i < |before| && i != t && a in before[i].aliases ==> a in after[i].aliases
  }

  lemma KeptIsNotStolen(before: seq<Command>, after: seq<Command>, t: nat, aliases: seq<string>)
    requires AllValid(aliases) && t < |before| == |after| && after[t].aliases == Normalized(aliases)
    requires forall i :: 0 <= i < |before| && i != t ==> KeepsItsOwn(before, after, t, i, Normalized(aliases))
    ensures TakesEffectAndStealsNothing(before, after, t, aliases)
  {
    forall i, a | 0 <= i < |before| && i != t && a in before[i].aliases ensures a in after[i].aliases {
      assert KeepsItsOwn(before, after, t, i, Normalized(aliases));
    }
  }

  /** The validator is exact: among the commands loaded it accepts just the lists that take effect in
      full without taking a name from another command. */
  lemma ValidatorIsExact(specs: seq<Spec>, overrides: Overrides, id: CommandId, aliases: seq<string>, t: nat)
    requires t < |Catalog(specs, overrides)| && IdOf(Catalog(specs, overrides)[t]) == id
    ensures var before := Resolved(Catalog(specs, overrides));
      var after := Resolved(Catalog(specs, overrides[id := aliases]));
      Acceptable(before, id, aliases) <==> TakesEffectAndStealsNothing(before, after, t, aliases)
  {
    var before := Resolved(Catalog(specs, overrides));
    var after := Resolved(Catalog(specs, overrides[id := aliases]));
    if Acceptable(before, id, aliases) {
      OverrideTakesEffect(specs, overrides, id, aliases, t);
      OverrideStealsNothing(specs, overrides, id, aliases, t);
      KeptIsNotStolen(before, after, t, aliases);
    }
    if TakesEffectAndStealsNothing(before, after, t, aliases) {
      EffectiveIsAcceptable(specs, overrides, id, aliases, t);
    }
  }

  /** The command `id` has exactly the new list; every other keeps its own. */
  ghost predicate Installed(before: seq<Command>, after: seq<Command>, id: CommandId, aliases: seq<string>)
  {
    && |before| == |after| && AllValid(aliases)
    && forall t :: 0 <= t < |after| && IdOf(after[t]) == id ==>
         && after[t].aliases == Normalized(aliases)
         && forall i :: 0 <= i < |after| && i != t ==> KeepsItsOwn(before, after, t, i, Normalized(aliases))
  }

  lemma ChangeInstalls(specs: seq<Spec>, overrides: Overrides, id: CommandId, aliases: seq<string>)
    ensures var before := Resolved(Catalog(specs, overrides));
      var after := Resolved(Catalog(specs, overrides[id := aliases]));
      Acceptable(before, id, aliases) ==> Installed(before, after, id, aliases)
  {
    CatalogOverridden(specs, overrides, id, aliases);
    var cs := Catalog(specs, overrides);
    var before, after := Resolved(cs), Resolved(OverrideIn(cs, id, aliases));
    if Acceptable(before, id, aliases) {
      forall t | 0 <= t < |after| && IdOf(after[t]) == id
        ensures after[t].aliases == Normalized(aliases)
        ensures forall i :: 0 <= i < |after| && i != t ==> KeepsItsOwn(before, after, t, i, Normalized(aliases))
      {
        assert IdOf(cs[t]) == id;
        OverrideTakesEffect(specs, overrides, id, aliases, t);
        OverrideStealsNothing(specs, overrides, id, aliases, t);
      }
    }
  }

  lemma EffectiveIsAcceptable(specs: seq<Spec>, overrides: Overrides, id: CommandId, aliases: seq<string>, t: nat)
    requires t < |Catalog(specs, overrides)| && IdOf(Catalog(specs, overrides)[t]) == id
    requires var before := Resolved(Catalog(specs, overrides));
      var after := Resolved(Catalog(specs, overrides[id := aliases]));
      TakesEffectAndStealsNothing(before, after, t, aliases)
    ensures Acceptable(Resolved(Catalog(specs, overrides)), id, aliases)
  {
    var cs, cs' := Catalog(specs, overrides), Catalog(specs, overrides[id := aliases]);
    var before, after := Resolved(cs), Resolved(cs');
    CatalogOverridden(specs, overrides, id, aliases);
    OverrideKeepsNames(cs, id, aliases);
    CleanMeans(cs'[t].aliases, cs'[t].name);
    KeepIsDistinct(Wanted(cs')[t], NamesOf(cs') + Before(Wanted(cs'), t));
    assert IdOf(before[t]) == id;
    forall a | a in Normalized(aliases) ensures a != id.1 && IsFree(before, id, a) {
      GrantedMeans(NamesOf(cs'), Wanted(cs'), t, a);
      forall i | 0 <= i < |before|
        ensures a != before[i].name && (IdOf(before[i]) != id ==> a !in before[i].aliases)
      {
        assert cs[i].name in NamesOf(cs);
        if i != t && a in before[i].aliases {
          GrantedOnce(NamesOf(cs'), Wanted(cs'), i, t, a);
        }
      }
    }
  }
}
