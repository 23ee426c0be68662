/** What the rebuilt index holds, told from the fields of the specs and overrides alone: every name that a spec asks
    for is answered by the first command, in order of name, that asks for it. */
module CommandDefaults {
  import opened Prelude
  import opened Text
  import opened Greedy
  import opened Commands
  import opened CommandOverrides

  // ----- What a spec asks for -----------------------------------------------------------------

  /** The first spec whose name normalizes to this one: the one that is loaded. */
  ghost predicate IsLoaded(specs: seq<Spec>, k: int, name: string) {
    && 0 <= k < |specs| && NormalizeName(specs[k].name) == Ok(name)
    && forall j :: 0 <= j < k ==> NormalizeName(specs[j].name) != Ok(name)
  }

  /** A shortcut of this name with words to expand to: at most 64 bytes, no control characters. */
  ghost predicate IsShortcut(spec: Spec, i: int, a: string) {
    && 0 <= i < |spec.shortcuts| && NormalizeName(spec.shortcuts[i].name) == Ok(a)
    && (var words := JoinWords(spec.shortcuts[i].expandsTo);
        words != "" && Utf8Len(words) <= 64 && forall c :: c in words ==> !IsControl(c))
  }

  ghost predicate IsFirstShortcut(spec: Spec, i: int, a: string) {
    IsShortcut(spec, i, a) && forall j :: 0 <= j < i ==> !IsShortcut(spec, j, a)
  }

  ghost predicate Lists(raw: seq<string>, a: string) {
    exists i :: 0 <= i < |raw| && NormalizeName(raw[i]) == Ok(a)
  }

  /** The operator's list if there is one, else the spec's own aliases and the names of its shortcuts. */
  ghost predicate AsksFor(spec: Spec, name: string, overrides: Overrides, a: string) {
    && a != name
    && (if (spec.moduleName, name) in overrides then Lists(overrides[(spec.moduleName, name)], a)
        else Lists(spec.aliases, a) || exists i :: IsShortcut(spec, i, a))
  }

  /** The words that the name stands for, if it is one of the command's shortcuts. */
  ghost predicate StandsFor(spec: Spec, a: string, words: Option<string>) {
    match words
    case Some(w) => exists i :: IsFirstShortcut(spec, i, a) && w == JoinWords(spec.shortcuts[i].expandsTo)
    case None => forall i :: !IsShortcut(spec, i, a)
  }

  // ----- What a registered command asks for -----------------------------------------------------

  lemma ShortcutIffExpands(spec: Spec, i: int, a: string)
    ensures IsShortcut(spec, i, a) <==>
      && 0 <= i < |spec.shortcuts| && NormalizeName(spec.shortcuts[i].name) == Ok(a)
      && ExpansionOf(spec.shortcuts[i]).Some?
  {
  }

  lemma ExpansionsMean(spec: Spec, own: string, a: string)
    ensures var expansions := Expansions(spec.shortcuts, own);
      && (a in expansions <==> a != own && exists i :: IsShortcut(spec, i, a))
      && (a in expansions ==> StandsFor(spec, a, Some(expansions[a])))
  {
    ExpandsIff(spec, own, a);
    if a in Expansions(spec.shortcuts, own) {
      var i := ExpandsFirst(spec, own, a);
    }
  }

  lemma {:induction false} ExpandsIff(spec: Spec, own: string, a: string)
    ensures a in Expansions(spec.shortcuts, own) <==> a != own && exists i :: IsShortcut(spec, i, a)
    decreases |spec.shortcuts|
  {
    if spec.shortcuts != [] {
      ExpandsIff(spec.(shortcuts := spec.shortcuts[..|spec.shortcuts| - 1]), own, a);
      OneMoreShortcut(spec, a);
      OneMoreExpansion(spec, own, a);
    }
  }

  lemma {:induction false} ExpandsFirst(spec: Spec, own: string, a: string) returns (i: int)
    requires a in Expansions(spec.shortcuts, own)
    ensures IsFirstShortcut(spec, i, a)
    ensures Expansions(spec.shortcuts, own)[a] == JoinWords(spec.shortcuts[i].expandsTo)
    decreases |spec.shortcuts|
  {
    var shorter := spec.(shortcuts := spec.shortcuts[..|spec.shortcuts| - 1]);
    OneMoreExpansion(spec, own, a);
    if a in Expansions(shorter.shortcuts, own) {
      i := ExpandsFirst(shorter, own, a);
      FirstStaysFirst(spec, shorter, i, a);
    } else {
      LastIsFirst(spec, shorter, own, a);
      i := |spec.shortcuts| - 1;
    }
  }

  lemma FirstStaysFirst(spec: Spec, shorter: Spec, i: int, a: string)
    requires spec.shortcuts != [] && shorter == spec.(shortcuts := spec.shortcuts[..|spec.shortcuts| - 1])
    requires IsFirstShortcut(shorter, i, a)
    ensures IsFirstShortcut(spec, i, a) && shorter.shortcuts[i] == spec.shortcuts[i]
  {
    OneMoreShortcut(spec, a);
  }

  lemma LastIsFirst(spec: Spec, shorter: Spec, own: string, a: string)
    requires spec.shortcuts != [] && shorter == spec.(shortcuts := spec.shortcuts[..|spec.shortcuts| - 1])
    requires a != own && IsShortcut(spec, |spec.shortcuts| - 1, a) && a !in Expansions(shorter.shortcuts, own)
    ensures IsFirstShortcut(spec, |spec.shortcuts| - 1, a)
  {
    ExpandsIff(shorter, own, a);
    OneMoreShortcut(spec, a);
  }

  lemma OneMoreExpansion(spec: Spec, own: string, a: string)
    requires spec.shortcuts != []
    ensures var last := |spec.shortcuts| - 1;
      var before, after := Expansions(spec.shortcuts[..last], own), Expansions(spec.shortcuts, own);
      && (a in after <==> a in before || (a != own && IsShortcut(spec, last, a)))
      && (a in after ==> after[a] == if a in before then before[a] else JoinWords(spec.shortcuts[last].expandsTo))
  {
    ShortcutIffExpands(spec, |spec.shortcuts| - 1, a);
  }

  lemma OneMoreShortcut(spec: Spec, a: string)
    requires spec.shortcuts != []
    ensures var last := |spec.shortcuts| - 1;
      var shorter := spec.(shortcuts := spec.shortcuts[..last]);
      && (forall i :: IsShortcut(shorter, i, a) <==> i != last && IsShortcut(spec, i, a))
      && (forall i :: IsFirstShortcut(shorter, i, a) ==> IsFirstShortcut(spec, i, a))
      && ((forall i :: !IsShortcut(shorter, i, a)) && IsShortcut(spec, last, a) ==> IsFirstShortcut(spec, last, a))
      && (IsShortcut(spec, last, a) <==>
            NormalizeName(spec.shortcuts[last].name) == Ok(a) && ExpansionOf(spec.shortcuts[last]).Some?)
  {
    ShortcutIffExpands(spec, |spec.shortcuts| - 1, a);
  }

  lemma CleanLists(raw: seq<string>, own: string, a: string)
    ensures a in Clean(raw, own) <==> a != own && Lists(raw, a)
  {
    CleanMeans(raw, own);
  }

  lemma CleanAgain(raw: seq<string>, own: string, a: string)
    ensures a in Clean(Clean(raw, own), own) <==> a in Clean(raw, own)
  {
    var names := Clean(raw, own);
    CleanMeans(raw, own);
    CleanMeans(names, own);
    forall i | 0 <= i < |names| ensures NormalizeName(names[i]) == Ok(names[i]) {
      assert names[i] in names;
      var j :| 0 <= j < |raw| && NormalizeName(raw[j]) == Ok(names[i]);
      NormalizeTwice(raw[j]);
    }
  }

  lemma ListsBoth(raw: seq<string>, more: seq<string>, a: string)
    ensures Lists(raw + more, a) <==> Lists(raw, a) || Lists(more, a)
  {
    if Lists(raw, a) {
      var i :| 0 <= i < |raw| && NormalizeName(raw[i]) == Ok(a);
      assert (raw + more)[i] == raw[i];
    }
    if Lists(more, a) {
      var i :| 0 <= i < |more| && NormalizeName(more[i]) == Ok(a);
      assert (raw + more)[|raw| + i] == more[i];
    }
  }

  lemma ExpansionsAreListed(spec: Spec, own: string, a: string)
    ensures Lists(Ascending(Expansions(spec.shortcuts, own).Keys), a) <==> a in Expansions(spec.shortcuts, own)
  {
    var keys := Ascending(Expansions(spec.shortcuts, own).Keys);
    forall i | 0 <= i < |keys| ensures NormalizeName(keys[i]) == Ok(keys[i]) {
      assert keys[i] in keys;
      ExpansionsMean(spec, own, keys[i]);
      var j :| IsShortcut(spec, j, keys[i]);
      NormalizeTwice(spec.shortcuts[j].name);
    }
  }

  lemma CommandAsksFor(spec: Spec, name: string, overrides: Overrides, a: string)
    ensures var c := MakeCommand(spec, name, overrides);
      a in Clean(c.aliases, c.name) <==> AsksFor(spec, name, overrides, a)
    ensures MakeCommand(spec, name, overrides).hasOverride <==> (spec.moduleName, name) in overrides
    ensures a in MakeCommand(spec, name, overrides).defaultAliases <==> AsksFor(spec, name, map[], a)
  {
    var expansions := Expansions(spec.shortcuts, name);
    var raw := spec.aliases + Ascending(expansions.Keys);
    var c := MakeCommand(spec, name, overrides);
    CleanLists(c.aliases, name, a);
    CleanAgain(raw, name, a);
    CleanLists(raw, name, a);
    ListsBoth(spec.aliases, Ascending(expansions.Keys), a);
    ExpansionsAreListed(spec, name, a);
    ExpansionsMean(spec, name, a);
  }

  // ----- Which commands are registered ----------------------------------------------------------

  ghost predicate IsRegistered(specs: seq<Spec>, overrides: Overrides, c: Command) {
    exists k, name :: IsLoaded(specs, k, name) && c == MakeCommand(specs[k], name, overrides)
  }

  lemma LoadedInPrefix(specs: seq<Spec>, k: int, name: string)
    requires specs != []
    ensures IsLoaded(specs[..|specs| - 1], k, name) <==> k != |specs| - 1 && IsLoaded(specs, k, name)
  {
  }

  /** The registered commands are those of the loaded specs. */
  lemma {:induction false} RegisterMeans(specs: seq<Spec>, overrides: Overrides, c: Command)
    ensures c in Register(specs, overrides) <==> IsRegistered(specs, overrides, c)
  {
    if specs != [] {
      var last := |specs| - 1;
      var rest := specs[..last];
      RegisterMeans(rest, overrides, c);
      if IsRegistered(rest, overrides, c) {
        var k, name :| IsLoaded(rest, k, name) && c == MakeCommand(rest[k], name, overrides);
        LoadedInPrefix(specs, k, name);
        assert IsLoaded(specs, k, name) && specs[k] == rest[k];
      }
      if IsRegistered(specs, overrides, c) {
        var k, name :| IsLoaded(specs, k, name) && c == MakeCommand(specs[k], name, overrides);
        LoadedInPrefix(specs, k, name);
        if k != last {
          assert IsLoaded(rest, k, name) && rest[k] == specs[k];
        } else {
          LastIsLoaded(specs, overrides, name);
        }
      }
      if NormalizeName(specs[last].name).Ok? {
        LastIsLoaded(specs, overrides, NormalizeName(specs[last].name).value);
      }
    }
  }

  lemma LastIsLoaded(specs: seq<Spec>, overrides: Overrides, name: string)
    requires specs != [] && NormalizeName(specs[|specs| - 1].name) == Ok(name)
    ensures IsLoaded(specs, |specs| - 1, name) <==> name !in NamesOf(Register(specs[..|specs| - 1], overrides))
  {
    var rest := specs[..|specs| - 1];
    NamesRegistered(rest, overrides, name);
    assert forall j :: 0 <= j < |rest| ==> rest[j] == specs[j];
  }

  /** A name is registered exactly if some spec's name normalizes to it. */
  lemma {:induction false} NamesRegistered(specs: seq<Spec>, overrides: Overrides, name: string)
    ensures name in NamesOf(Register(specs, overrides)) <==> IsNamed(specs, name)
  {
    if specs != [] {
      var rest, last := specs[..|specs| - 1], specs[|specs| - 1];
      var before := Register(rest, overrides);
      NamesRegistered(rest, overrides, name);
      OneMoreNamed(specs, name);
      if NormalizeName(last.name).Ok? {
        NamesOfOneMore(before, MakeCommand(last, NormalizeName(last.name).value, overrides));
      }
    }
  }

  ghost predicate IsNamed(specs: seq<Spec>, name: string) {
    exists j :: 0 <= j < |specs| && NormalizeName(specs[j].name) == Ok(name)
  }

  lemma OneMoreNamed(specs: seq<Spec>, name: string)
    requires specs != []
    ensures IsNamed(specs, name) <==>
      IsNamed(specs[..|specs| - 1], name) || NormalizeName(specs[|specs| - 1].name) == Ok(name)
  {
    var rest := specs[..|specs| - 1];
    assert forall j :: 0 <= j < |rest| ==> rest[j] == specs[j];
  }

  lemma NamesOfOneMore(cs: seq<Command>, c: Command)
    ensures NamesOf(cs + [c]) == NamesOf(cs) + {c.name}
  {
    assert (cs + [c])[|cs|] == c;
    assert forall i :: 0 <= i < |cs| ==> (cs + [c])[i] == cs[i];
  }

  // ----- What the index answers -----------------------------------------------------------------

  /** A loaded command, its place in the order of names, and what it may ask for. */
  lemma PlaceOf(specs: seq<Spec>, overrides: Overrides, k: int, name: string) returns (i: nat)
    requires IsLoaded(specs, k, name)
    ensures var cs := Catalog(specs, overrides); i < |cs| && cs[i] == MakeCommand(specs[k], name, overrides)
  {
    var c := MakeCommand(specs[k], name, overrides);
    RegisterMeans(specs, overrides, c);
    RegisterIsDistinct(specs, overrides);
    SortSorts(Register(specs, overrides));
    i :| 0 <= i < |Catalog(specs, overrides)| && Catalog(specs, overrides)[i] == c;
  }

  lemma SpecOf(specs: seq<Spec>, overrides: Overrides, i: nat) returns (k: int, name: string)
    requires i < |Catalog(specs, overrides)|
    ensures IsLoaded(specs, k, name) && Catalog(specs, overrides)[i] == MakeCommand(specs[k], name, overrides)
  {
    var c := Catalog(specs, overrides)[i];
    RegisterIsDistinct(specs, overrides);
    SortSorts(Register(specs, overrides));
    RegisterMeans(specs, overrides, c);
    k, name :| IsLoaded(specs, k, name) && c == MakeCommand(specs[k], name, overrides);
  }

  /** Every loaded command answers to its canonical name. */
  lemma NameIsAnswered(specs: seq<Spec>, overrides: Overrides, lookup: map<string, Target>, k: int, name: string)
    requires Indexes(lookup, Resolved(Catalog(specs, overrides))) && IsLoaded(specs, k, name)
    ensures name in lookup && lookup[name] == Target(specs[k].moduleName, name, None)
  {
    var i := PlaceOf(specs, overrides, k, name);
    assert LeadsTo(lookup, Resolved(Catalog(specs, overrides))[i]);
  }

  /** No command of an earlier name asks for it, and it is nobody's canonical name. */
  ghost predicate IsFirstAsker(specs: seq<Spec>, overrides: Overrides, k: int, name: string, a: string) {
    && IsLoaded(specs, k, name) && AsksFor(specs[k], name, overrides, a)
    && (forall j, n :: IsLoaded(specs, j, n) ==> n != a)
    && (forall j, n :: IsLoaded(specs, j, n) && AsksFor(specs[j], n, overrides, a) ==> !Less(n, name))
  }

  lemma FirstAskerIsGranted(specs: seq<Spec>, overrides: Overrides, k: int, name: string, a: string, i: nat)
    requires IsFirstAsker(specs, overrides, k, name, a) && i < |Catalog(specs, overrides)|
    requires Catalog(specs, overrides)[i] == MakeCommand(specs[k], name, overrides)
    ensures a in Accepted(Catalog(specs, overrides), i)
  {
    var cs := Catalog(specs, overrides);
    CommandAsksFor(specs[k], name, overrides, a);
    CatalogIsOrdered(specs, overrides);
    if a in NamesOf(cs) {
      var j :| 0 <= j < |cs| && cs[j].name == a;
      var k', n := SpecOf(specs, overrides, j);
    }
    forall j | 0 <= j < i ensures a !in Wanted(cs)[j] {
      var k', n := SpecOf(specs, overrides, j);
      CommandAsksFor(specs[k'], n, overrides, a);
      assert Less(cs[j].name, cs[i].name);
    }
    GrantedMeans(NamesOf(cs), Wanted(cs), i, a);
  }

  lemma WordsAreCarried(spec: Spec, name: string, overrides: Overrides, a: string)
    requires a != name
    ensures var c := MakeCommand(spec, name, overrides); StandsFor(spec, a, AliasTarget(c, a).expansion)
  {
    ExpansionsMean(spec, name, a);
  }

  lemma GrantedIsLedTo(cs: seq<Command>, lookup: map<string, Target>, i: nat, a: string)
    requires Indexes(lookup, Resolved(cs)) && i < |cs| && a in Accepted(cs, i)
    ensures a in lookup && lookup[a] == AliasTarget(cs[i], a)
  {
    assert LeadsTo(lookup, Resolved(cs)[i]) && Resolved(cs)[i] == cs[i].(aliases := Accepted(cs, i));
  }

  /** Every alias and every shortcut name that a spec or its override asks for is answered by the first command, in
      order of name, that asks for it, with the words of that command's own shortcut. */
  lemma FirstAskerAnswers(specs: seq<Spec>, overrides: Overrides, lookup: map<string, Target>, k: int, name: string,
                          a: string)
    requires Indexes(lookup, Resolved(Catalog(specs, overrides))) && IsFirstAsker(specs, overrides, k, name, a)
    ensures a in lookup && lookup[a].moduleName == specs[k].moduleName && lookup[a].canonical == name
    ensures StandsFor(specs[k], a, lookup[a].expansion)
  {
    var i := PlaceOf(specs, overrides, k, name);
    var cs := Catalog(specs, overrides);
    FirstAskerIsGranted(specs, overrides, k, name, a, i);
    GrantedIsLedTo(cs, lookup, i, a);
    WordsAreCarried(specs[k], name, overrides, a);
  }

  lemma AnsweredBy(cs: seq<Command>, lookup: map<string, Target>, a: string) returns (i: nat)
    requires Indexes(lookup, Resolved(cs)) && a in lookup
    ensures i < |cs| && (a == cs[i].name || a in Accepted(cs, i))
  {
    assert Answered(Resolved(cs), a);
    i :| 0 <= i < |cs| && AnswersTo(Resolved(cs)[i], a);
    assert Resolved(cs)[i] == cs[i].(aliases := Accepted(cs, i));
  }

  /** The index answers nothing else. */
  lemma OnlyAskedForIsAnswered(specs: seq<Spec>, overrides: Overrides, lookup: map<string, Target>, a: string)
    returns (k: int, name: string)
    requires Indexes(lookup, Resolved(Catalog(specs, overrides))) && a in lookup
    ensures IsLoaded(specs, k, name) && (a == name || IsFirstAsker(specs, overrides, k, name, a))
  {
    var cs := Catalog(specs, overrides);
    var i := AnsweredBy(cs, lookup, a);
    k, name := SpecOf(specs, overrides, i);
    if a != name {
      GrantedIsFirstAsked(specs, overrides, k, name, a, i);
    }
  }

  lemma GrantedIsFirstAsked(specs: seq<Spec>, overrides: Overrides, k: int, name: string, a: string, i: nat)
    requires IsLoaded(specs, k, name) && i < |Catalog(specs, overrides)|
    requires Catalog(specs, overrides)[i] == MakeCommand(specs[k], name, overrides)
    requires a in Accepted(Catalog(specs, overrides), i)
    ensures IsFirstAsker(specs, overrides, k, name, a)
  {
    var cs := Catalog(specs, overrides);
    GrantedMeans(NamesOf(cs), Wanted(cs), i, a);
    CommandAsksFor(specs[k], name, overrides, a);
    forall j, n | IsLoaded(specs, j, n) ensures n != a {
      NameIsReserved(specs, overrides, j, n);
    }
    forall j, n | IsLoaded(specs, j, n) && AsksFor(specs[j], n, overrides, a) ensures !Less(n, name) {
      EarlierAskerIsGranted(specs, overrides, j, n, a, i);
    }
  }

  lemma NameIsReserved(specs: seq<Spec>, overrides: Overrides, k: int, name: string)
    requires IsLoaded(specs, k, name)
    ensures name in NamesOf(Catalog(specs, overrides))
  {
    var p := PlaceOf(specs, overrides, k, name);
  }

  lemma EarlierAskerIsGranted(specs: seq<Spec>, overrides: Overrides, j: int, n: string, a: string, i: nat)
    requires IsLoaded(specs, j, n) && AsksFor(specs[j], n, overrides, a)
    requires i < |Catalog(specs, overrides)| && a in Accepted(Catalog(specs, overrides), i)
    ensures !Less(n, Catalog(specs, overrides)[i].name)
  {
    var cs := Catalog(specs, overrides);
    var p := PlaceOf(specs, overrides, j, n);
    CommandAsksFor(specs[j], n, overrides, a);
    assert a in Wanted(cs)[p];
    GrantedMeans(NamesOf(cs), Wanted(cs), i, a);
    CatalogIsOrdered(specs, overrides);
    NotBefore(cs, p, i);
  }

  lemma NotBefore(cs: seq<Command>, p: nat, i: nat)
    requires Ordered(cs) && i <= p < |cs|
    ensures !Less(cs[p].name, cs[i].name)
  {
    LessIrreflexive(cs[i].name);
    if Less(cs[p].name, cs[i].name) {
      LessTransitive(cs[i].name, cs[p].name, cs[i].name);
    }
  }

  /** Every loaded command by its name, and every other name by the first command that asks for it. */
  ghost predicate AnswersAll(specs: seq<Spec>, overrides: Overrides, lookup: map<string, Target>) {
    && (forall k, name :: IsLoaded(specs, k, name) ==>
          name in lookup && lookup[name] == Target(specs[k].moduleName, name, None))
    && (forall k, name, a :: IsFirstAsker(specs, overrides, k, name, a) ==>
          && a in lookup && lookup[a].moduleName == specs[k].moduleName && lookup[a].canonical == name
          && StandsFor(specs[k], a, lookup[a].expansion))
  }

  lemma IndexAnswersAll(specs: seq<Spec>, overrides: Overrides, lookup: map<string, Target>)
    requires Indexes(lookup, Resolved(Catalog(specs, overrides)))
    ensures AnswersAll(specs, overrides, lookup)
  {
    forall k, name | IsLoaded(specs, k, name)
      ensures name in lookup && lookup[name] == Target(specs[k].moduleName, name, None)
    {
      NameIsAnswered(specs, overrides, lookup, k, name);
    }
    forall k, name, a | IsFirstAsker(specs, overrides, k, name, a)
      ensures a in lookup && lookup[a].moduleName == specs[k].moduleName && lookup[a].canonical == name
      ensures StandsFor(specs[k], a, lookup[a].expansion)
    {
      FirstAskerAnswers(specs, overrides, lookup, k, name, a);
    }
  }
}
