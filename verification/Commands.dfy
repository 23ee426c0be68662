/** Command names, and the index that the registry rebuilds from module specs and operator overrides. */
module Commands {
  import opened Prelude
  import opened Text
  import opened Greedy

  const MAX_NAME_BYTES := 32
  const MAX_EXPANSION_BYTES := 64

  /** Module name and canonical command name. */
  type CommandId = (string, string)

  datatype Shortcut = Shortcut(name: string, expandsTo: string)
  datatype Spec = Spec(moduleName: string, name: string, aliases: seq<string>, shortcuts: seq<Shortcut>)

  /** A loaded command; before acceptance `aliases` is the raw list asked for. */
  datatype Command = Command(
    moduleName: string, name: string, defaultAliases: seq<string>, aliases: seq<string>,
    expansions: map<string, string>, hasOverride: bool)

  datatype Target = Target(moduleName: string, canonical: string, expansion: Option<string>)

  // ----- Names ------------------------------------------------------------------------------

  datatype NameError = EmptyName | LeadingBang | TooLong | BadCharacter

  predicate IsNameChar(c: char) {
    'a' <= c <= 'z' || 'A' <= c <= 'Z' || '0' <= c <= '9' || c == '-' || c == '_'
  }

  function NormalizeName(value: string): (r: Result<string, NameError>)
    ensures r.Ok? ==> IsCanonicalName(r.value)
  {
    var name := Trim(value);
    if name == [] then Err(EmptyName)
    else if name[0] == '!' then Err(LeadingBang)
    else if Utf8Len(name) > MAX_NAME_BYTES then Err(TooLong)
    else if exists i :: 0 <= i < |name| && !IsNameChar(name[i]) then Err(BadCharacter)
    else Ok(Lower(name))
  }

  /** Names as they are stored: lower case, without spaces or a prefix. */
  predicate IsCanonicalName(name: string) {
    name != [] && forall i :: 0 <= i < |name| ==> IsNameChar(name[i]) && LowerChar(name[i]) == name[i]
  }

  /** At most 32 ASCII letters, digits, hyphens and underscores. */
  ghost predicate IsPlainName(name: string) {
    1 <= |name| <= 32 && forall i :: 0 <= i < |name| ==> IsNameChar(name[i])
  }

  /** A plain name between any spaces normalizes to its lower case. */
  lemma PlainNameNormalizes(before: string, name: string, after: string)
    requires IsBlank(before) && IsBlank(after) && IsPlainName(name)
    ensures NormalizeName(before + (name + after)) == Ok(Lower(name))
  {
    assert IsNameChar(name[0]) && IsNameChar(name[|name| - 1]);
    TrimMeans(before, name, after);
    AsciiBytes(name);
  }

  /** Nothing else normalizes. */
  lemma OnlyPlainNamesNormalize(value: string) returns (before: string, name: string, after: string)
    requires NormalizeName(value).Ok?
    ensures IsBlank(before) && IsBlank(after) && IsPlainName(name) && value == before + (name + after)
    ensures NormalizeName(value) == Ok(Lower(name))
  {
    name := Trim(value);
    before, after := TrimSplits(value);
    AsciiBytes(name);
  }

  /** A canonical name is its own normal form. */
  lemma CanonicalIsNormal(name: string)
    requires IsCanonicalName(name) && |name| <= MAX_NAME_BYTES
    ensures NormalizeName(name) == Ok(name)
  {
    assert IsNameChar(name[0]) && IsNameChar(name[|name| - 1]);
    AsciiBytes(name);
    assert Lower(name) == name;
  }

  /** Normalizing a second time changes nothing. */
  lemma NormalizeTwice(value: string)
    requires NormalizeName(value).Ok?
    ensures NormalizeName(NormalizeName(value).value) == NormalizeName(value)
  {
    AsciiBytes(Trim(value));
    CanonicalIsNormal(NormalizeName(value).value);
  }

  /** The valid names of a list other than `own`, normalized, first occurrences only. */
  function Clean(raw: seq<string>, own: string): seq<string> {
    if raw == [] then []
    else
      var before := Clean(raw[..|raw| - 1], own);
      match NormalizeName(raw[|raw| - 1])
      case Ok(a) => if a == own || a in before then before else before + [a]
      case Err(_) => before
  }

  lemma {:induction false} CleanMeans(raw: seq<string>, own: string)
    ensures var names := Clean(raw, own);
      && (forall i, j :: 0 <= i < j < |names| ==> names[i] != names[j])
      && (forall a :: a in names <==> a != own && exists i :: 0 <= i < |raw| && NormalizeName(raw[i]) == Ok(a))
  {
    if raw != [] {
      CleanMeans(raw[..|raw| - 1], own);
      assert raw == raw[..|raw| - 1] + [raw[|raw| - 1]];
    }
  }

  // ----- Shortcuts --------------------------------------------------------------------------

  function WordLength(s: string): (n: nat)
    ensures n <= |s|
    ensures forall i :: 0 <= i < n ==> !IsSpace(s[i])
    ensures n < |s| ==> IsSpace(s[n])
  {
    if s != [] && !IsSpace(s[0]) then 1 + WordLength(s[1..]) else 0
  }

  /** `split_whitespace().join(" ")`. */
  function JoinWords(s: string): string
    decreases |s|
  {
    var t := TrimStart(s);
    if t == [] then []
    else
      var n := WordLength(t);
      var rest := JoinWords(t[n..]);
      t[..n] + (if rest == [] then [] else [' '] + rest)
  }

  lemma {:induction false} WordExactly(word: string, tail: string)
    requires forall i :: 0 <= i < |word| ==> !IsSpace(word[i])
    requires tail == [] || IsSpace(tail[0])
    ensures WordLength(word + tail) == |word|
  {
    if word == [] {
      assert word + tail == tail;
    } else {
      assert (word + tail)[1..] == word[1..] + tail;
      WordExactly(word[1..], tail);
    }
  }

  /** The words of a text. */
  function Words(s: string): seq<string>
    decreases |s|
  {
    var t := TrimStart(s);
    if t == [] then [] else [t[..WordLength(t)]] + Words(t[WordLength(t)..])
  }

  /** Neither at the ends nor side by side, and no other than the plain one. */
  ghost predicate SingleSpaces(s: string) {
    forall i :: 0 <= i < |s| && IsSpace(s[i]) ==> s[i] == ' ' && 0 < i < |s| - 1 && !IsSpace(s[i + 1])
  }

  /** Joining keeps the words, in order, and puts single spaces between them. */
  lemma {:induction false} JoinKeepsWords(s: string)
    ensures Words(JoinWords(s)) == Words(s) && SingleSpaces(JoinWords(s))
    ensures JoinWords(s) != [] ==> !IsSpace(JoinWords(s)[0])
    decreases |s|
  {
    var t := TrimStart(s);
    if t != [] {
      var word, rest := t[..WordLength(t)], JoinWords(t[WordLength(t)..]);
      JoinKeepsWords(t[WordLength(t)..]);
      OneWordMore(word, rest);
    }
  }

  lemma OneWordMore(word: string, rest: string)
    requires word != [] && (forall i :: 0 <= i < |word| ==> !IsSpace(word[i]))
    requires SingleSpaces(rest) && (rest != [] ==> !IsSpace(rest[0]))
    ensures var joined := word + (if rest == [] then [] else [' '] + rest);
      Words(joined) == [word] + Words(rest) && SingleSpaces(joined) && !IsSpace(joined[0])
  {
    var tail := if rest == [] then [] else [' '] + rest;
    WordExactly(word, tail);
    assert (word + tail)[..|word|] == word && (word + tail)[|word|..] == tail;
    SpaceIsSkipped(rest);
    SpacesStaySingle(word, rest);
  }

  lemma SpacesStaySingle(word: string, rest: string)
    requires word != [] && (forall i :: 0 <= i < |word| ==> !IsSpace(word[i]))
    requires SingleSpaces(rest) && (rest != [] ==> !IsSpace(rest[0]))
    ensures SingleSpaces(word + (if rest == [] then [] else [' '] + rest))
  {
    var joined := word + (if rest == [] then [] else [' '] + rest);
    forall i | 0 <= i < |joined| && IsSpace(joined[i])
      ensures joined[i] == ' ' && 0 < i < |joined| - 1 && !IsSpace(joined[i + 1])
    {
      if i > |word| {
        assert joined[i] == rest[i - |word| - 1];
      }
    }
  }

  lemma SpaceIsSkipped(rest: string)
    ensures Words([' '] + rest) == Words(rest)
  {
    assert ([' '] + rest)[1..] == rest;
  }

  function ExpansionOf(s: Shortcut): Option<string> {
    var words := JoinWords(s.expandsTo);
    if words == [] || Utf8Len(words) > MAX_EXPANSION_BYTES || exists i :: 0 <= i < |words| && IsControl(words[i])
    then None else Some(words)
  }

  /** Valid shortcuts of a command; of two with the same name the first counts. */
  function Expansions(shortcuts: seq<Shortcut>, own: string): map<string, string> {
    if shortcuts == [] then map[]
    else
      var before, last := Expansions(shortcuts[..|shortcuts| - 1], own), shortcuts[|shortcuts| - 1];
      match NormalizeName(last.name)
      case Err(_) => before
      case Ok(name) =>
        if name == own || name in before || ExpansionOf(last).None? then before
        else before[name := ExpansionOf(last).value]
  }

  // ----- Registration -----------------------------------------------------------------------

  type Overrides = map<CommandId, seq<string>>

  ghost function MakeCommand(spec: Spec, name: string, overrides: Overrides): Command {
    var expansions := Expansions(spec.shortcuts, name);
    var defaults := Clean(spec.aliases + Ascending(expansions.Keys), name);
    var id := (spec.moduleName, name);
    Command(spec.moduleName, name, defaults, if id in overrides then overrides[id] else defaults,
            expansions, id in overrides)
  }

  function NamesOf(commands: seq<Command>): set<string> {
    set i | 0 <= i < |commands| :: commands[i].name
  }

  /** The commands of all valid specs, the first spec of a name winning. */
  ghost function Register(specs: seq<Spec>, overrides: Overrides): seq<Command> {
    if specs == [] then []
    else
      var before, spec := Register(specs[..|specs| - 1], overrides), specs[|specs| - 1];
      match NormalizeName(spec.name)
      case Err(_) => before
      case Ok(name) => if name in NamesOf(before) then before else before + [MakeCommand(spec, name, overrides)]
  }

  /** Insertion into a list kept in order of name. */
  function Insert(commands: seq<Command>, c: Command): seq<Command> {
    if commands == [] || Less(c.name, commands[0].name) then [c] + commands
    else [commands[0]] + Insert(commands[1..], c)
  }

  function SortByName(commands: seq<Command>): seq<Command> {
    if commands == [] then [] else Insert(SortByName(commands[..|commands| - 1]), commands[|commands| - 1])
  }

  ghost function Catalog(specs: seq<Spec>, overrides: Overrides): seq<Command> {
    SortByName(Register(specs, overrides))
  }

  // ----- Acceptance -------------------------------------------------------------------------

  function Wanted(commands: seq<Command>): (w: seq<seq<string>>)
    ensures |w| == |commands|
    ensures forall i {:trigger w[i]} :: 0 <= i < |w| ==> w[i] == Clean(commands[i].aliases, commands[i].name)
  {
    seq(|commands|, i requires 0 <= i < |commands| => Clean(commands[i].aliases, commands[i].name))
  }

  function Accepted(commands: seq<Command>, i: nat): seq<string>
    requires i < |commands|
  {
    Granted(NamesOf(commands), Wanted(commands), i)
  }

  /** The commands with the aliases they are granted. */
  function Resolved(commands: seq<Command>): (r: seq<Command>)
    ensures |r| == |commands|
    ensures forall i {:trigger r[i]} :: 0 <= i < |r| ==> r[i] == commands[i].(aliases := Accepted(commands, i))
  {
    seq(|commands|, i requires 0 <= i < |commands| => commands[i].(aliases := Accepted(commands, i)))
  }

  function AliasTarget(c: Command, alias: string): Target {
    Target(c.moduleName, c.name, if alias in c.expansions then Some(c.expansions[alias]) else None)
  }

  function NameTarget(c: Command): Target {
    Target(c.moduleName, c.name, None)
  }

  predicate AnswersTo(c: Command, n: string) {
    n == c.name || n in c.aliases
  }

  predicate LeadsTo(lookup: map<string, Target>, c: Command) {
    && c.name in lookup && lookup[c.name] == NameTarget(c)
    && (forall a :: a in c.aliases ==> a in lookup && lookup[a] == AliasTarget(c, a))
  }

  ghost predicate Answered(resolved: seq<Command>, n: string) {
    exists i :: 0 <= i < |resolved| && AnswersTo(resolved[i], n)
  }

  /** The index holds every canonical name and every granted alias, each leading to its owner, and
      nothing else. */
  ghost predicate Indexes(lookup: map<string, Target>, resolved: seq<Command>) {
    && (forall i :: 0 <= i < |resolved| ==> LeadsTo(lookup, resolved[i]))
    && (forall n :: n in lookup ==> Answered(resolved, n))
  }
}
