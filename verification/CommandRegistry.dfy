/** The live registry: specs and overrides in, a name index out, rebuilt by loops that grant names
    greedily, and the rewriting of a message for the command that owns its first word. */
module CommandRegistry {
  import opened Prelude
  import opened Text
  import opened Greedy
  import opened Commands
  import opened CommandOverrides
  import Defaults = CommandDefaults

  // ----- The index ----------------------------------------------------------------------------

  /** No name is answered to by two commands. */
  ghost predicate SolelyOwned(resolved: seq<Command>) {
    forall i, j, n ::
      (0 <= i < |resolved| && 0 <= j < |resolved| && AnswersTo(resolved[i], n) && AnswersTo(resolved[j], n)) ==> i == j
  }

  lemma SoleOwner(cs: seq<Command>, i: nat, j: nat, n: string)
    requires DistinctNames(cs) && i < |cs| && j < |cs|
    requires AnswersTo(Resolved(cs)[i], n) && AnswersTo(Resolved(cs)[j], n)
    ensures i == j
  {
    assert cs[i].name in NamesOf(cs) && cs[j].name in NamesOf(cs);
    if n in Accepted(cs, i) {
      GrantedMeans(NamesOf(cs), Wanted(cs), i, n);
    }
    if n in Accepted(cs, j) {
      GrantedMeans(NamesOf(cs), Wanted(cs), j, n);
    }
  }

  /** Canonical names and granted aliases are pairwise disjoint. */
  lemma CatalogIsSolelyOwned(specs: seq<Spec>, overrides: Overrides)
    ensures SolelyOwned(Resolved(Catalog(specs, overrides)))
  {
    var cs := Catalog(specs, overrides);
    var rs := Resolved(cs);
    CatalogIsOrdered(specs, overrides);
    forall i, j, n | 0 <= i < |rs| && 0 <= j < |rs| && AnswersTo(rs[i], n) && AnswersTo(rs[j], n) ensures i == j {
      SoleOwner(cs, i, j, n);
    }
  }

  lemma OwnerIn(rs: seq<Command>, lookup: map<string, Target>, n: string) returns (i: nat)
    requires SolelyOwned(rs) && Indexes(lookup, rs) && n in lookup
    ensures i < |rs| && AnswersTo(rs[i], n)
    ensures lookup[n] == if n == rs[i].name then NameTarget(rs[i]) else AliasTarget(rs[i], n)
    ensures forall j :: 0 <= j < |rs| && AnswersTo(rs[j], n) ==> j == i
  {
    assert Answered(rs, n);
    i :| 0 <= i < |rs| && AnswersTo(rs[i], n);
    assert LeadsTo(lookup, rs[i]);
  }

  /** Every indexed name has one owner, to which it leads; canonical names carry no expansion. */
  lemma IndexIsDisjointUnion(specs: seq<Spec>, overrides: Overrides, lookup: map<string, Target>, n: string)
    returns (i: nat)
    requires Indexes(lookup, Resolved(Catalog(specs, overrides))) && n in lookup
    ensures var rs := Resolved(Catalog(specs, overrides));
      && i < |rs| && AnswersTo(rs[i], n)
      && lookup[n] == (if n == rs[i].name then NameTarget(rs[i]) else AliasTarget(rs[i], n))
      && (forall j :: 0 <= j < |rs| && AnswersTo(rs[j], n) ==> j == i)
  {
    CatalogIsSolelyOwned(specs, overrides);
    i := OwnerIn(Resolved(Catalog(specs, overrides)), lookup, n);
  }

  lemma AnsweredIsIndexed(resolved: seq<Command>, lookup: map<string, Target>, n: string)
    requires Indexes(lookup, resolved)
    ensures n in lookup <==> Answered(resolved, n)
  {
    if Answered(resolved, n) {
      var i :| 0 <= i < |resolved| && AnswersTo(resolved[i], n);
      assert LeadsTo(lookup, resolved[i]);
    }
  }

  /** The target of the one command that answers to the name: its canonical name, with a shortcut's words if
      the name is one of its shortcuts. */
  ghost predicate IsSoleTarget(resolved: seq<Command>, n: string, target: Target) {
    exists i ::
      (0 <= i < |resolved| && AnswersTo(resolved[i], n)
       && target == (if n == resolved[i].name then NameTarget(resolved[i]) else AliasTarget(resolved[i], n))
       && forall j :: 0 <= j < |resolved| && AnswersTo(resolved[j], n) ==> j == i)
  }

  /** Specs and overrides determine the index. */
  lemma IndexIsUnique(specs: seq<Spec>, overrides: Overrides, a: map<string, Target>, b: map<string, Target>)
    requires Indexes(a, Resolved(Catalog(specs, overrides))) && Indexes(b, Resolved(Catalog(specs, overrides)))
    ensures a == b
  {
    CatalogIsSolelyOwned(specs, overrides);
    SameIndex(Resolved(Catalog(specs, overrides)), a, b);
  }

  lemma SameIndex(rs: seq<Command>, a: map<string, Target>, b: map<string, Target>)
    requires SolelyOwned(rs) && Indexes(a, rs) && Indexes(b, rs)
    ensures a == b
  {
    IndexCovers(rs, a, b);
    IndexCovers(rs, b, a);
    EachOther(a, b);
  }

  ghost predicate Covers(a: map<string, Target>, b: map<string, Target>) {
    forall n :: n in a ==> n in b && a[n] == b[n]
  }

  lemma IndexCovers(rs: seq<Command>, a: map<string, Target>, b: map<string, Target>)
    requires SolelyOwned(rs) && Indexes(a, rs) && Indexes(b, rs)
    ensures Covers(a, b)
  {
    forall n | n in a ensures n in b && a[n] == b[n] {
      SameAnswer(rs, a, b, n);
    }
  }

  lemma EachOther(a: map<string, Target>, b: map<string, Target>)
    requires Covers(a, b) && Covers(b, a)
    ensures a == b
  {
  }

  lemma SameAnswer(rs: seq<Command>, a: map<string, Target>, b: map<string, Target>, n: string)
    requires SolelyOwned(rs) && Indexes(a, rs) && Indexes(b, rs) && n in a
    ensures n in b && a[n] == b[n]
  {
    var i := OwnerIn(rs, a, n);
    assert LeadsTo(b, rs[i]);
  }

  // ----- The registry -------------------------------------------------------------------------

  datatype OverrideError =
    | NotLoaded
    | BadAlias(error: NameError)
    | DuplicateAlias(alias: string)
    | IsCanonical(alias: string)
    | AlreadyUsed(alias: string, owner: string)

  ghost predicate UsedBy(commands: seq<Command>, a: string, owner: string) {
    exists i :: 0 <= i < |commands| && commands[i].name == owner && AnswersTo(commands[i], a)
  }

  class Registry {
    var specs: seq<Spec>
    var overrides: Overrides
    var commands: seq<Command>
    var lookup: map<string, Target>
    var prefixes: seq<char>

    ghost predicate Valid()
      reads this
    {
      commands == Resolved(Catalog(specs, overrides)) && Indexes(lookup, commands)
    }

    constructor ()
      ensures Valid() && specs == [] && overrides == map[] && prefixes == ['!']
    {
      specs, overrides, commands, lookup, prefixes := [], map[], [], map[], ['!'];
    }

    method ReplaceSpecs(specs: seq<Spec>, overrides: Overrides)
      modifies this
      ensures Valid() && this.specs == specs && this.overrides == overrides && prefixes == old(prefixes)
    {
      this.specs, this.overrides := specs, overrides;
      Rebuild();
    }

    /** Sets or, with none, removes the override of one command. */
    method SetOverride(m: string, name: string, aliases: Option<seq<string>>)
      modifies this
      ensures Valid() && specs == old(specs) && prefixes == old(prefixes)
      ensures overrides == match aliases
                           case Some(list) => old(overrides)[(m, Lower(name)) := list]
                           case None => old(overrides) - {(m, Lower(name))}
    {
      var id := (m, Lower(name));
      match aliases {
        case Some(list) => overrides := overrides[id := list];
        case None => overrides := overrides - {id};
      }
      Rebuild();
    }

    /** Validation followed by the change: exactly the accepted lists are installed. */
    method ChangeAliases(m: string, name: string, aliases: seq<string>) returns (r: Result<(), OverrideError>)
      requires Valid()
      modifies this
      ensures Valid() && specs == old(specs) && prefixes == old(prefixes)
      ensures r.Ok? <==> Acceptable(old(commands), (m, Lower(name)), aliases)
      ensures r.Err? ==> overrides == old(overrides) && commands == old(commands) && lookup == old(lookup)
      ensures r.Ok? ==> Installed(old(commands), commands, (m, Lower(name)), aliases)
    {
      r := ValidateOverride(m, name, aliases);
      if r.Ok? {
        ChangeInstalls(specs, overrides, (m, Lower(name)), aliases);
        SetOverride(m, name, Some(aliases));
      }
    }

    /** A configured prefix followed by a name that a loaded command answers to, in any case of letters. */
    method Resolve(token: string) returns (r: Option<Target>)
      requires Valid()
      ensures r.Some? <==> token != [] && token[0] in prefixes && Answered(commands, Lower(token[1..]))
      ensures r.Some? ==> IsSoleTarget(commands, Lower(token[1..]), r.value)
    {
      if token == [] || token[0] !in prefixes {
        return None;
      }
      var name := Lower(token[1..]);
      AnsweredIsIndexed(commands, lookup, name);
      if name !in lookup {
        return None;
      }
      ghost var i := IndexIsDisjointUnion(specs, overrides, lookup, name);
      return Some(lookup[name]);
    }


    method ValidateOverride(m: string, name: string, aliases: seq<string>) returns (r: Result<(), OverrideError>)
      ensures r.Ok? <==> Acceptable(commands, (m, Lower(name)), aliases)
      ensures r.Err? && r.error.NotLoaded? <==>
        forall i :: 0 <= i < |commands| ==> IdOf(commands[i]) != (m, Lower(name))
      ensures r.Err? && r.error.AlreadyUsed? ==> UsedBy(commands, r.error.alias, r.error.owner)
    {
      var id := (m, Lower(name));
      if forall i :: 0 <= i < |commands| ==> IdOf(commands[i]) != id {
        return Err(NotLoaded);
      }
      var listed := ValidateAliasList(aliases);
      if listed.Err? {
        return listed;
      }
      var occupied := Occupied(id);
      r := CheckFree(id.1, aliases, occupied);
    }

    method CheckFree(canonical: string, aliases: seq<string>, occupied: map<string, string>)
      returns (r: Result<(), OverrideError>)
      requires AllValid(aliases)
      ensures r.Ok? <==> forall a :: a in Normalized(aliases) ==> a != canonical && a !in occupied
      ensures r.Err? ==> r.error.IsCanonical? || r.error.AlreadyUsed?
      ensures r.Err? && r.error.AlreadyUsed? ==> r.error.alias in occupied && r.error.owner == occupied[r.error.alias]
    {
      for n := 0 to |aliases|
        invariant forall i :: 0 <= i < n ==> Normalized(aliases)[i] != canonical && Normalized(aliases)[i] !in occupied
      {
        var alias := NormalizeName(aliases[n]).value;
        assert alias == Normalized(aliases)[n];
        if alias == canonical {
          assert alias in Normalized(aliases);
          return Err(IsCanonical(alias));
        }
        if alias in occupied {
          assert alias in Normalized(aliases);
          return Err(AlreadyUsed(alias, occupied[alias]));
        }
      }
      return Ok(());
    }

    /** Every canonical name, and every alias of the commands other than `id`, with its owner. */
    method Occupied(id: CommandId) returns (occupied: map<string, string>)
      ensures forall a :: a !in occupied <==> IsFree(commands, id, a)
      ensures forall a :: a in occupied ==> UsedBy(commands, a, occupied[a])
    {
      occupied := map[];
      for n := 0 to |commands|
        invariant forall a :: a !in occupied <==> IsFree(commands[..n], id, a)
        invariant forall a :: a in occupied ==> UsedBy(commands, a, occupied[a])
      {
        var c := commands[n];
        assert forall a :: AnswersTo(c, a) ==> UsedBy(commands, a, c.name);
        occupied := occupied[c.name := c.name];
        if IdOf(c) != id {
          occupied := occupied + map a | a in c.aliases :: c.name;
        }
        forall a ensures a !in occupied <==> IsFree(commands[..n + 1], id, a) {
          IsFreeStep(commands, n, id, a);
        }
      }
      assert commands[..|commands|] == commands;
    }

    /** Re-registers every spec, puts the commands in order and grants aliases in that order. */
    method Rebuild()
      modifies this`commands, this`lookup
      ensures Valid()
      ensures Defaults.AnswersAll(specs, overrides, lookup)
    {
      var registered := RegisterAll(specs, overrides);
      var cs := SortByName(registered);
      CatalogIsOrdered(specs, overrides);
      commands, lookup := GrantAll(cs);
      Defaults.IndexAnswersAll(specs, overrides, lookup);
    }
  }

  method RegisterAll(specs: seq<Spec>, overrides: Overrides) returns (registered: seq<Command>)
    ensures registered == Register(specs, overrides)
  {
    registered := [];
    var owners: set<string> := {};
    for n := 0 to |specs|
      invariant registered == Register(specs[..n], overrides) && owners == NamesOf(registered)
    {
      assert specs[..n + 1][..n] == specs[..n];
      var name := NormalizeName(specs[n].name);
      if name.Ok? && name.value !in owners {
        owners := owners + {name.value};
        var c := BuildCommand(specs[n], name.value, overrides);
        NamesOfGrows(registered, c);
        registered := registered + [c];
      }
    }
    assert specs[..|specs|] == specs;
  }

  ghost predicate NamesServed(index: map<string, Target>, cs: seq<Command>) {
    forall i :: 0 <= i < |cs| ==> cs[i].name in index && index[cs[i].name] == NameTarget(cs[i])
  }

  ghost predicate AliasesServed(index: map<string, Target>, rs: seq<Command>, n: nat)
    requires n <= |rs|
  {
    forall i :: 0 <= i < n ==> LeadsTo(index, rs[i])
  }

  /** The index while the commands before `n` have been served. */
  ghost predicate Serves(index: map<string, Target>, cs: seq<Command>, n: nat)
    requires n <= |cs|
  {
    && index.Keys == NamesOf(cs) + Before(Wanted(cs), n)
    && NamesServed(index, cs)
    && AliasesServed(index, Resolved(cs), n)
  }

  method GrantAll(cs: seq<Command>) returns (accepted: seq<Command>, index: map<string, Target>)
    requires DistinctNames(cs)
    ensures accepted == Resolved(cs) && Indexes(index, accepted)
  {
    index := IndexNames(cs);
    ServesNone(index, cs);
    accepted, index := ServeAll(cs, index);
    ServesAll(index, cs);
  }

  method ServeAll(cs: seq<Command>, names: map<string, Target>)
    returns (accepted: seq<Command>, index: map<string, Target>)
    requires Serves(names, cs, 0)
    ensures accepted == Resolved(cs) && Serves(index, cs, |cs|)
  {
    index, accepted := names, [];
    for n := 0 to |cs|
      invariant |accepted| == n && forall i :: 0 <= i < n ==> accepted[i] == Resolved(cs)[i]
      invariant Serves(index, cs, n)
    {
      var c;
      c, index := Serve(cs, n, index);
      accepted := accepted + [c];
    }
    assert accepted == Resolved(cs);
  }

  method Serve(cs: seq<Command>, n: nat, index: map<string, Target>) returns (c: Command, index': map<string, Target>)
    requires n < |cs| && Serves(index, cs, n)
    ensures c == Resolved(cs)[n] && Serves(index', cs, n + 1)
  {
    assert cs[n].name in index;
    var names;
    names, index' := AcceptAliases(cs[n], index);
    ServeOne(index, index', cs, n);
    c := cs[n].(aliases := names);
  }

  lemma ServesNone(index: map<string, Target>, cs: seq<Command>)
    requires index.Keys == NamesOf(cs) && NamesServed(index, cs)
    ensures Serves(index, cs, 0)
  {
  }

  ghost predicate Extends(index: map<string, Target>, index': map<string, Target>) {
    forall n :: n in index ==> n in index' && index'[n] == index[n]
  }

  /** New entries under new names disturb no command already led to. */
  lemma ServedStays(index: map<string, Target>, index': map<string, Target>, cs: seq<Command>, rs: seq<Command>, n: nat)
    requires n <= |rs| && Extends(index, index') && NamesServed(index, cs) && AliasesServed(index, rs, n)
    ensures NamesServed(index', cs) && AliasesServed(index', rs, n)
  {
  }

  lemma GrantedAreNew(index: map<string, Target>, cs: seq<Command>, n: nat, index': map<string, Target>)
    requires n < |cs| && Serves(index, cs, n) && index' == index + AliasTargets(cs[n], Accepted(cs, n))
    ensures Extends(index, index') && LeadsTo(index', Resolved(cs)[n])
  {
    KeepMeans(Wanted(cs)[n], index.Keys);
    assert cs[n].name in index && index[cs[n].name] == NameTarget(cs[n]);
  }

  lemma ServeOne(index: map<string, Target>, index': map<string, Target>, cs: seq<Command>, n: nat)
    requires n < |cs| && Serves(index, cs, n)
    requires index' == index + AliasTargets(cs[n], Accepted(cs, n))
    requires index'.Keys == index.Keys + Elements(Wanted(cs)[n])
    ensures Serves(index', cs, n + 1)
  {
    GrantedAreNew(index, cs, n, index');
    var rs := Resolved(cs);
    assert AliasesServed(index', rs, n + 1) && NamesServed(index', cs) by {
      ServedStays(index, index', cs, rs, n);
      ServedNext(index', rs, n);
    }
    assert Before(Wanted(cs), n + 1) == Before(Wanted(cs), n) + Elements(Wanted(cs)[n]);
  }

  lemma ServedNext(index: map<string, Target>, rs: seq<Command>, n: nat)
    requires n < |rs| && AliasesServed(index, rs, n) && LeadsTo(index, rs[n])
    ensures AliasesServed(index, rs, n + 1)
  {
  }

  lemma ServesAll(index: map<string, Target>, cs: seq<Command>)
    requires Serves(index, cs, |cs|)
    ensures Indexes(index, Resolved(cs))
  {
    forall a | a in index ensures Answered(Resolved(cs), a) {
      AllAnswered(cs, a);
    }
  }

  lemma AllAnswered(cs: seq<Command>, a: string)
    requires a in NamesOf(cs) + Before(Wanted(cs), |cs|)
    ensures Answered(Resolved(cs), a)
  {
    if a in NamesOf(cs) {
      var i :| 0 <= i < |cs| && cs[i].name == a;
      assert AnswersTo(Resolved(cs)[i], a);
    } else {
      BeforeMeans(Wanted(cs), |cs|, a);
      var j :| 0 <= j < |cs| && a in Wanted(cs)[j];
      var i := FirstAskerHolds(NamesOf(cs), Wanted(cs), j, a);
      assert AnswersTo(Resolved(cs)[i], a);
    }
  }

  function AliasTargets(c: Command, names: seq<string>): map<string, Target> {
    map a | a in names :: AliasTarget(c, a)
  }

  lemma NamesOfGrows(commands: seq<Command>, c: Command)
    ensures NamesOf(commands + [c]) == NamesOf(commands) + {c.name}
  {
    var grown := commands + [c];
    forall n | n in NamesOf(commands) + {c.name} ensures n in NamesOf(grown) {
      if n in NamesOf(commands) {
        var i :| 0 <= i < |commands| && commands[i].name == n;
        assert grown[i].name == n;
      } else {
        assert grown[|commands|].name == n;
      }
    }
  }

  lemma IsFreeStep(commands: seq<Command>, n: nat, id: CommandId, a: string)
    requires n < |commands|
    ensures IsFree(commands[..n + 1], id, a) <==>
      IsFree(commands[..n], id, a) && a != commands[n].name && (IdOf(commands[n]) != id ==> a !in commands[n].aliases)
  {
    assert commands[..n + 1] == commands[..n] + [commands[n]];
    if IsFree(commands[..n + 1], id, a) {
      forall i | 0 <= i < n
        ensures a != commands[..n][i].name && (IdOf(commands[..n][i]) != id ==> a !in commands[..n][i].aliases)
      {
        assert commands[..n + 1][i] == commands[..n][i];
      }
      assert commands[..n + 1][n] == commands[n];
    }
  }

  lemma ListedTwice(aliases: seq<string>, n: nat)
    requires n < |aliases| && AllValid(aliases[..n]) && NormalizeName(aliases[n]).Ok?
    requires NormalizeName(aliases[n]).value in Normalized(aliases[..n])
    ensures AllValid(aliases) ==> exists i :: 0 <= i < n && Normalized(aliases)[i] == Normalized(aliases)[n]
  {
    var i :| 0 <= i < n && Normalized(aliases[..n])[i] == NormalizeName(aliases[n]).value;
    assert AllValid(aliases) ==> Normalized(aliases)[i] == Normalized(aliases)[n];
  }

  lemma OneMoreAlias(aliases: seq<string>, n: nat)
    requires n < |aliases| && AllValid(aliases[..n]) && NormalizeName(aliases[n]).Ok?
    ensures AllValid(aliases[..n + 1])
    ensures Normalized(aliases[..n + 1]) == Normalized(aliases[..n]) + [NormalizeName(aliases[n]).value]
  {
    assert aliases[..n + 1] == aliases[..n] + [aliases[n]];
  }

  method ValidateAliasList(aliases: seq<string>) returns (r: Result<(), OverrideError>)
    ensures r.Ok? <==>
      (AllValid(aliases)
       && forall i, j :: 0 <= i < j < |aliases| ==> Normalized(aliases)[i] != Normalized(aliases)[j])
    ensures r.Err? ==> r.error.BadAlias? || r.error.DuplicateAlias?
  {
    var seen: set<string> := {};
    for n := 0 to |aliases|
      invariant AllValid(aliases[..n]) && seen == Elements(Normalized(aliases[..n]))
      invariant forall i, j :: 0 <= i < j < n ==> Normalized(aliases[..n])[i] != Normalized(aliases[..n])[j]
    {
      var alias := NormalizeName(aliases[n]);
      if alias.Err? {
        return Err(BadAlias(alias.error));
      }
      if alias.value in seen {
        ListedTwice(aliases, n);
        return Err(DuplicateAlias(alias.value));
      }
      OneMoreAlias(aliases, n);
      seen := seen + {alias.value};
    }
    assert aliases[..|aliases|] == aliases;
    return Ok(());
  }

  /** The canonical names alone. */
  method IndexNames(commands: seq<Command>) returns (index: map<string, Target>)
    requires DistinctNames(commands)
    ensures index.Keys == NamesOf(commands)
    ensures NamesServed(index, commands)
  {
    index := map[];
    for n := 0 to |commands|
      invariant index.Keys == NamesOf(commands[..n])
      invariant NamesServed(index, commands[..n])
    {
      assert commands[..n + 1] == commands[..n] + [commands[n]];
      NamesOfGrows(commands[..n], commands[n]);
      index := index[commands[n].name := NameTarget(commands[n])];
    }
    assert commands[..|commands|] == commands;
  }

  /** Grants one command what is still free of what it asks for. */
  method AcceptAliases(c: Command, index: map<string, Target>)
    returns (accepted: seq<string>, index': map<string, Target>)
    requires c.name in index
    ensures accepted == Keep(Clean(c.aliases, c.name), index.Keys)
    ensures index' == index + AliasTargets(c, accepted)
    ensures index'.Keys == index.Keys + Elements(Clean(c.aliases, c.name))
  {
    var seen: set<string> := {};
    accepted, index' := [], index;
    for n := 0 to |c.aliases|
      invariant seen == Elements(Clean(c.aliases[..n], c.name))
      invariant accepted == Keep(Clean(c.aliases[..n], c.name), index.Keys)
      invariant index' == index + AliasTargets(c, accepted)
      invariant index'.Keys == index.Keys + seen
    {
      AcceptOne(c, index, n);
      var alias := NormalizeName(c.aliases[n]);
      if alias.Ok? && alias.value != c.name && alias.value !in seen {
        seen := seen + {alias.value};
        if alias.value !in index' {
          index' := index'[alias.value := AliasTarget(c, alias.value)];
          TargetsGrow(c, index, accepted, alias.value);
          accepted := accepted + [alias.value];
        }
      }
    }
    assert c.aliases[..|c.aliases|] == c.aliases;
  }

  lemma TargetsGrow(c: Command, index: map<string, Target>, names: seq<string>, a: string)
    ensures index + AliasTargets(c, names + [a]) == (index + AliasTargets(c, names))[a := AliasTarget(c, a)]
  {
  }

  /** One more raw alias adds at most its own name, kept if it is free. */
  lemma AcceptOne(c: Command, index: map<string, Target>, n: nat)
    requires n < |c.aliases|
    ensures var before, after := Clean(c.aliases[..n], c.name), Clean(c.aliases[..n + 1], c.name);
      var a := NormalizeName(c.aliases[n]);
      if a.Ok? && a.value != c.name && a.value !in Elements(before)
      then Elements(after) == Elements(before) + {a.value}
        && Keep(after, index.Keys) == Keep(before, index.Keys) + if a.value in index then [] else [a.value]
      else after == before
  {
    assert c.aliases[..n + 1][..n] == c.aliases[..n];
    var before, after := Clean(c.aliases[..n], c.name), Clean(c.aliases[..n + 1], c.name);
    if after != before {
      assert after[..|before|] == before;
    }
  }

  method BuildCommand(spec: Spec, name: string, overrides: Overrides) returns (c: Command)
    ensures c == MakeCommand(spec, name, overrides)
  {
    var expansions := NormalizeShortcuts(spec.shortcuts, name);
    var keys := InOrder(expansions.Keys);
    var defaults := NormalizeDefaults(spec.aliases + keys, name);
    var id := (spec.moduleName, name);
    c := Command(spec.moduleName, name, defaults, if id in overrides then overrides[id] else defaults,
                 expansions, id in overrides);
  }

  method NormalizeShortcuts(shortcuts: seq<Shortcut>, own: string) returns (expansions: map<string, string>)
    ensures expansions == Expansions(shortcuts, own)
  {
    expansions := map[];
    for n := 0 to |shortcuts|
      invariant expansions == Expansions(shortcuts[..n], own)
    {
      assert shortcuts[..n + 1][..n] == shortcuts[..n];
      var name := NormalizeName(shortcuts[n].name);
      if name.Err? || name.value == own {
        continue;
      }
      var words := ExpansionOf(shortcuts[n]);
      if words.Some? && name.value !in expansions {
        expansions := expansions[name.value := words.value];
      }
    }
    assert shortcuts[..|shortcuts|] == shortcuts;
  }

  method NormalizeDefaults(raw: seq<string>, own: string) returns (names: seq<string>)
    ensures names == Clean(raw, own)
  {
    names := [];
    for n := 0 to |raw|
      invariant names == Clean(raw[..n], own)
    {
      assert raw[..n + 1][..n] == raw[..n];
      var name := NormalizeName(raw[n]);
      if name.Ok? && name.value != own && name.value !in names {
        names := names + [name.value];
      }
    }
    assert raw[..|raw|] == raw;
  }

  // ----- Rewriting ----------------------------------------------------------------------------

  /** The text with its first word replaced by the canonical command and a shortcut's words. */
  function Canonicalized(text: string, target: Target): string {
    var rest := TrimStart(text);
    if rest == [] then text
    else
      text[..Leading(text)] + ['!'] + target.canonical + ExpansionWords(target) + rest[WordLength(rest)..]
  }

  /** Blank, first word and the rest of a text. */
  lemma Split(blank: string, word: string, tail: string)
    requires IsBlank(blank) && word != [] && (tail == [] || IsSpace(tail[0]))
    requires forall i :: 0 <= i < |word| ==> !IsSpace(word[i])
    ensures var text := blank + (word + tail);
      && TrimStart(text) == word + tail && Leading(text) == |blank| && text[..Leading(text)] == blank
      && WordLength(word + tail) == |word| && (word + tail)[|word|..] == tail
  {
    SkipExactly(blank, word + tail);
    WordExactly(word, tail);
  }

  function ExpansionWords(target: Target): string {
    match target.expansion
    case Some(expansion) => [' '] + expansion
    case None => []
  }

  lemma CanonicalHasNoSpace(name: string)
    requires IsCanonicalName(name)
    ensures forall i :: 0 <= i < |['!'] + name| ==> !IsSpace((['!'] + name)[i])
  {
    forall i | 0 <= i < |name| ensures !IsSpace(name[i]) {
      assert IsNameChar(name[i]);
    }
  }

  lemma Regroup(a: string, b: string, c: string, d: string, e: string)
    ensures a + b + c + d + e == a + ((b + c) + (d + e))
  {
  }

  lemma RewriteReplacesWord(blank: string, word: string, args: string, target: Target)
    requires IsBlank(blank) && word != [] && (args == [] || IsSpace(args[0]))
    requires forall i :: 0 <= i < |word| ==> !IsSpace(word[i])
    ensures Canonicalized(blank + (word + args), target)
         == blank + ((['!'] + target.canonical) + (ExpansionWords(target) + args))
  {
    Split(blank, word, args);
    Regroup(blank, ['!'], target.canonical, ExpansionWords(target), args);
  }

  /** Rewriting exchanges the first word and nothing else, and a second rewriting for the canonical
      command changes nothing. */
  lemma RewriteIsStable(blank: string, word: string, args: string, target: Target)
    requires IsBlank(blank) && word != [] && (args == [] || IsSpace(args[0]))
    requires forall i :: 0 <= i < |word| ==> !IsSpace(word[i])
    requires IsCanonicalName(target.canonical)
    ensures var once := Canonicalized(blank + (word + args), target);
      && once == blank + ((['!'] + target.canonical) + (ExpansionWords(target) + args))
      && Canonicalized(once, Target(target.moduleName, target.canonical, None)) == once
  {
    RewriteReplacesWord(blank, word, args, target);
    CanonicalHasNoSpace(target.canonical);
    var plain := Target(target.moduleName, target.canonical, None);
    RewriteReplacesWord(blank, ['!'] + target.canonical, ExpansionWords(target) + args, plain);
    assert ExpansionWords(plain) + (ExpansionWords(target) + args) == ExpansionWords(target) + args;
  }

  /** Every text that is not blank has such a first word, so the lemma above covers every rewriting. */
  lemma TextHasFirstWord(text: string) returns (blank: string, word: string, args: string)
    requires !IsBlank(text)
    ensures text == blank + (word + args) && IsBlank(blank) && word != [] && (args == [] || IsSpace(args[0]))
    ensures forall i :: 0 <= i < |word| ==> !IsSpace(word[i])
  {
    TrimStartDrops(text);
    var rest := TrimStart(text);
    blank := text[..Leading(text)];
    assert text == blank + rest;
    word, args := FirstWord(rest);
  }

  lemma FirstWord(rest: string) returns (word: string, args: string)
    ensures rest == word + args && (args == [] || IsSpace(args[0]))
    ensures forall i :: 0 <= i < |word| ==> !IsSpace(word[i])
    ensures rest != [] && !IsSpace(rest[0]) ==> word != []
  {
    word, args := rest[..WordLength(rest)], rest[WordLength(rest)..];
  }

  lemma {:induction false} BlankIsUntouched(text: string, target: Target)
    requires IsBlank(text)
    ensures TrimStart(text) == [] && Canonicalized(text, target) == text
  {
    if text != [] {
      BlankIsUntouched(text[1..], target);
    }
  }
}
