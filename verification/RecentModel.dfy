/** The bounded buffer of recent channel lines, and the unbounded log that it stands for. */
module RecentModel {
  import opened Prelude
  import opened Text

  const MAX_LINES := 100
  const MAX_AGE_SECS := 10_800
  const MAX_CHANNELS := 1_000
  const MAX_TEXT_CHARS := 500

  type I64 = n: int | I64_MIN <= n <= I64_MAX

  datatype Line = Line(userId: string, nick: string, text: string, timestamp: I64, isCommand: bool)

  /** Server and canonical channel. */
  type Channel = (string, string)

  type Buffers = map<Channel, seq<Line>>

  // ----- One channel ------------------------------------------------------------------------

  function WithoutControls(s: string): string {
    if s == [] then []
    else WithoutControls(s[..|s| - 1]) + if IsControl(s[|s| - 1]) then [] else [s[|s| - 1]]
  }

  function CleanText(s: string): string {
    var t := WithoutControls(s);
    if |t| <= MAX_TEXT_CHARS then t else t[..MAX_TEXT_CHARS]
  }

  function CleanLine(line: Line): Line {
    line.(text := CleanText(line.text))
  }

  function Cutoff(line: Line): int {
    SaturatingSub(line.timestamp, MAX_AGE_SECS)
  }

  function DropOlder(lines: seq<Line>, cutoff: int): seq<Line> {
    if lines != [] && lines[0].timestamp < cutoff then DropOlder(lines[1..], cutoff) else lines
  }

  function Push(lines: seq<Line>, line: Line): seq<Line> {
    var young := DropOlder(lines, Cutoff(line));
    (if |young| >= MAX_LINES then young[1..] else young) + [line]
  }

  // ----- All channels -----------------------------------------------------------------------

  function LastSeen(lines: seq<Line>): int {
    if lines == [] then I64_MIN else lines[|lines| - 1].timestamp
  }

  predicate NeedsRoom(b: Buffers, c: Channel) {
    c !in b && |b| >= MAX_CHANNELS
  }

  /** The channel evicted, if any, is one that nobody else has been silent for longer than. */
  predicate MayEvict(b: Buffers, c: Channel, evicted: Option<Channel>) {
    if NeedsRoom(b, c) then
      evicted.Some? && evicted.value in b && forall o :: o in b ==> LastSeen(b[evicted.value]) <= LastSeen(b[o])
    else evicted.None?
  }

  function Lines(b: Buffers, c: Channel): seq<Line> {
    if c in b then b[c] else []
  }

  function Evict(b: Buffers, evicted: Option<Channel>): Buffers {
    if evicted.Some? then b - {evicted.value} else b
  }

  function RecordStep(b: Buffers, c: Channel, line: Line, evicted: Option<Channel>): Buffers {
    var roomy := Evict(b, evicted);
    roomy[c := Push(Lines(roomy, c), CleanLine(line))]
  }

  // ----- Purging ----------------------------------------------------------------------------

  predicate BelongsTo(line: Line, profileId: string, nicks: seq<string>) {
    line.userId == profileId || exists i :: 0 <= i < |nicks| && Lower(nicks[i]) == Lower(line.nick)
  }

  function Retain(lines: seq<Line>, profileId: string, nicks: seq<string>): seq<Line> {
    if lines == [] then []
    else
      var last := lines[|lines| - 1];
      Retain(lines[..|lines| - 1], profileId, nicks) + if BelongsTo(last, profileId, nicks) then [] else [last]
  }

  function PurgeStep(b: Buffers, server: string, profileId: string, nicks: seq<string>): Buffers {
    map c | c in b :: if c.0 == server then Retain(b[c], profileId, nicks) else b[c]
  }

  // ----- Queries ----------------------------------------------------------------------------

  datatype Request = Request(
    server: string, channel: string, limit: nat, maxAge: int, userId: Option<string>, excludeCommands: bool)

  function Clamp(n: int, low: int, high: int): int {
    if n < low then low else if n > high then high else n
  }

  predicate Matches(line: Line, r: Request, now: I64) {
    && SaturatingSub(now, line.timestamp) <= Clamp(r.maxAge, 0, MAX_AGE_SECS)
    && (r.excludeCommands ==> !line.isCommand)
    && (r.userId.Some? ==> line.userId == r.userId.value)
  }

  function Matching(lines: seq<Line>, r: Request, now: I64): seq<Line> {
    if lines == [] then []
    else
      var last := lines[|lines| - 1];
      Matching(lines[..|lines| - 1], r, now) + if Matches(last, r, now) then [last] else []
  }

  function LastN<T>(s: seq<T>, n: nat): seq<T> {
    if |s| <= n then s else s[|s| - n..]
  }

  /** The newest matching lines, oldest first. */
  function Answer(lines: seq<Line>, r: Request, now: I64): seq<Line> {
    LastN(Matching(lines, r, now), if r.limit < MAX_LINES then r.limit else MAX_LINES)
  }

  // ----- What one buffer retains --------------------------------------------------------------

  ghost predicate InOrder(lines: seq<Line>) {
    forall i, j :: 0 <= i < j < |lines| ==> lines[i].timestamp <= lines[j].timestamp
  }

  /** The last `n` lines are at most 100 and none is over three hours older than the newest. */
  ghost predicate Fits(log: seq<Line>, n: nat) {
    && n <= |log| && n <= MAX_LINES
    && (log != [] ==> forall i :: |log| - n <= i < |log| ==> log[i].timestamp >= Cutoff(log[|log| - 1]))
  }

  /** `lines` is the longest suffix of the log that fits. */
  ghost predicate IsLongest(log: seq<Line>, lines: seq<Line>) {
    && |lines| <= |log| && lines == log[|log| - |lines|..]
    && Fits(log, |lines|)
    && forall n :: |lines| < n <= |log| ==> !Fits(log, n)
  }

  lemma {:induction false} DropOlderMeans(lines: seq<Line>, cutoff: int) returns (k: nat)
    requires InOrder(lines)
    ensures k <= |lines| && DropOlder(lines, cutoff) == lines[k..]
    ensures forall i :: 0 <= i < k ==> lines[i].timestamp < cutoff
    ensures forall i :: k <= i < |lines| ==> lines[i].timestamp >= cutoff
  {
    if lines != [] && lines[0].timestamp < cutoff {
      var rest := lines[1..];
      var n := DropOlderMeans(rest, cutoff);
      k := n + 1;
      forall i | 0 <= i < k ensures lines[i].timestamp < cutoff {
        assert i > 0 ==> rest[i - 1] == lines[i];
      }
      forall i | k <= i < |lines| ensures lines[i].timestamp >= cutoff {
        assert rest[i - 1] == lines[i];
      }
    } else {
      k := 0;
    }
  }

  /** A push drops the first `dropped` lines: the too old ones, and one more if there would be too many. */
  lemma PushMeans(lines: seq<Line>, line: Line) returns (tooOld: nat, dropped: nat)
    requires InOrder(lines)
    ensures tooOld <= dropped <= |lines| && dropped == if |lines| - tooOld >= MAX_LINES then tooOld + 1 else tooOld
    ensures Push(lines, line) == lines[dropped..] + [line]
    ensures forall i :: 0 <= i < tooOld ==> lines[i].timestamp < Cutoff(line)
    ensures forall i :: tooOld <= i < |lines| ==> lines[i].timestamp >= Cutoff(line)
  {
    tooOld := DropOlderMeans(lines, Cutoff(line));
    dropped := if |lines| - tooOld >= MAX_LINES then tooOld + 1 else tooOld;
  }

  /** Pushing onto the longest fitting suffix gives the longest fitting suffix. */
  lemma PushKeepsLongest(log: seq<Line>, lines: seq<Line>, line: Line)
    requires InOrder(log) && InOrder(log + [line]) && IsLongest(log, lines)
    ensures IsLongest(log + [line], Push(lines, line))
  {
    SuffixKeeps(log, lines);
    var tooOld, dropped := PushMeans(lines, line);
    SuffixFits(log, lines, line, tooOld, dropped);
    forall m: nat | |lines| - dropped + 1 < m <= |log| + 1 ensures !Fits(log + [line], m) {
      LongerDoesNotFit(log, lines, line, tooOld, m);
    }
    SuffixOfAppended(log, lines, line, dropped);
  }

  lemma SuffixOfAppended(log: seq<Line>, lines: seq<Line>, line: Line, dropped: nat)
    requires |lines| <= |log| && lines == log[|log| - |lines|..] && dropped <= |lines|
    ensures lines[dropped..] + [line] == (log + [line])[|log| - |lines| + dropped..]
  {
  }

  lemma SuffixFits(log: seq<Line>, lines: seq<Line>, line: Line, k: nat, kept: nat)
    requires |lines| <= |log| && lines == log[|log| - |lines|..]
    requires k <= kept <= |lines| && |lines| - kept < MAX_LINES
    requires forall i :: k <= i < |lines| ==> lines[i].timestamp >= Cutoff(line)
    ensures Fits(log + [line], |lines| - kept + 1)
  {
    var now, start := log + [line], |log| - |lines|;
    forall i | start + kept <= i < |now| ensures now[i].timestamp >= Cutoff(line) {
      assert i < |log| ==> now[i] == lines[i - start];
    }
  }

  lemma LongerDoesNotFit(log: seq<Line>, lines: seq<Line>, line: Line, k: nat, m: nat)
    requires InOrder(log + [line]) && IsLongest(log, lines) && k <= |lines|
    requires forall i :: 0 <= i < k ==> lines[i].timestamp < Cutoff(line)
    requires m <= |log| + 1 && m > |lines| - (if |lines| - k >= MAX_LINES then k + 1 else k) + 1
    ensures !Fits(log + [line], m)
  {
    var now := log + [line];
    if m <= MAX_LINES {
      if k > 0 && m > |lines| - k + 1 {
        assert now[|log| - |lines| + k - 1] == lines[k - 1];
      } else {
        assert !Fits(log, m - 1);
        var i :| |log| - (m - 1) <= i < |log| && log[i].timestamp < Cutoff(log[|log| - 1]);
        assert now[i] == log[i] && now[|log| - 1] == log[|log| - 1];
      }
    }
  }

  // ----- A buffer answers like the log --------------------------------------------------------

  lemma {:induction false} MatchingAppends(a: seq<Line>, b: seq<Line>, r: Request, now: I64)
    ensures Matching(a + b, r, now) == Matching(a, r, now) + Matching(b, r, now)
  {
    if b == [] {
      assert a + b == a;
    } else {
      assert (a + b)[..|a + b| - 1] == a + b[..|b| - 1];
      MatchingAppends(a, b[..|b| - 1], r, now);
    }
  }

  lemma {:induction false} NothingMatches(lines: seq<Line>, r: Request, now: I64)
    requires forall i :: 0 <= i < |lines| ==> SaturatingSub(now, lines[i].timestamp) > MAX_AGE_SECS
    ensures Matching(lines, r, now) == []
  {
    if lines != [] {
      NothingMatches(lines[..|lines| - 1], r, now);
    }
  }

  /** From the newest line's time on, the buffer answers every query as the last 100 lines of the log would. */
  lemma BufferAnswersLikeLog(log: seq<Line>, lines: seq<Line>, r: Request, now: I64)
    requires InOrder(log) && IsLongest(log, lines) && LastSeen(log) <= now
    ensures Answer(lines, r, now) == Answer(LastN(log, MAX_LINES), r, now)
  {
    var window := LastN(log, MAX_LINES);
    var dropped := window[..|window| - |lines|];
    assert window == dropped + lines;
    MatchingAppends(dropped, lines, r, now);
    DroppedAreOld(log, lines, now);
    NothingMatches(dropped, r, now);
  }

  lemma DroppedAreOld(log: seq<Line>, lines: seq<Line>, now: I64)
    requires InOrder(log) && IsLongest(log, lines) && LastSeen(log) <= now
    ensures var window := LastN(log, MAX_LINES);
      forall j :: 0 <= j < |window| - |lines| ==> SaturatingSub(now, window[j].timestamp) > MAX_AGE_SECS
  {
    var window := LastN(log, MAX_LINES);
    if |lines| < |window| {
      assert !Fits(log, |lines| + 1);
      var i :| |log| - |lines| - 1 <= i < |log| && log[i].timestamp < Cutoff(log[|log| - 1]);
      assert i == |log| - |lines| - 1 by {
        assert forall k :: |log| - |lines| <= k < |log| ==> log[k].timestamp >= Cutoff(log[|log| - 1]);
      }
      forall j | 0 <= j < |window| - |lines| ensures SaturatingSub(now, window[j].timestamp) > MAX_AGE_SECS {
        var at := |log| - |window| + j;
        assert window[j] == log[at];
        assert at == i || log[at].timestamp <= log[i].timestamp;
      }
    }
  }

  /** A query returns matching lines only, and at most as many as asked for. */
  lemma {:induction false} MatchingMeans(lines: seq<Line>, r: Request, now: I64, x: Line)
    ensures x in Matching(lines, r, now) <==> x in lines && Matches(x, r, now)
  {
    if lines != [] {
      assert lines == lines[..|lines| - 1] + [lines[|lines| - 1]];
      MatchingMeans(lines[..|lines| - 1], r, now, x);
    }
  }

  // ----- Purging ------------------------------------------------------------------------------

  lemma {:induction false} RetainMeans(lines: seq<Line>, profileId: string, nicks: seq<string>, x: Line)
    ensures x in Retain(lines, profileId, nicks) <==> x in lines && !BelongsTo(x, profileId, nicks)
  {
    if lines != [] {
      assert lines == lines[..|lines| - 1] + [lines[|lines| - 1]];
      RetainMeans(lines[..|lines| - 1], profileId, nicks, x);
    }
  }

  /** `a` is what remains of `b` after leaving some lines out, in the same order. */
  ghost predicate Subsequence(a: seq<Line>, b: seq<Line>)
    decreases |b|
  {
    if b == [] then a == []
    else
      || Subsequence(a, b[..|b| - 1])
      || (a != [] && a[|a| - 1] == b[|b| - 1] && Subsequence(a[..|a| - 1], b[..|b| - 1]))
  }

  lemma {:induction false} RetainKeepsSequence(lines: seq<Line>, profileId: string, nicks: seq<string>)
    ensures Subsequence(Retain(lines, profileId, nicks), lines)
    ensures |Retain(lines, profileId, nicks)| <= |lines|
  {
    if lines != [] {
      RetainKeepsSequence(lines[..|lines| - 1], profileId, nicks);
      var rest, last := Retain(lines[..|lines| - 1], profileId, nicks), lines[|lines| - 1];
      assert (rest + [last])[..|rest|] == rest && rest + [] == rest;
    }
  }

  lemma {:induction false} RetainKeepsOrder(lines: seq<Line>, profileId: string, nicks: seq<string>)
    requires InOrder(lines)
    ensures InOrder(Retain(lines, profileId, nicks))
    ensures forall i :: 0 <= i < |Retain(lines, profileId, nicks)| ==>
      Retain(lines, profileId, nicks)[i] in lines
  {
    if lines != [] {
      RetainKeepsOrder(lines[..|lines| - 1], profileId, nicks);
    }
  }

  /** What a purge leaves in a buffer that fits still fits whole: nothing of it is too old or too much. */
  lemma PurgedBufferIsLongest(lines: seq<Line>, profileId: string, nicks: seq<string>)
    requires InOrder(lines) && Fits(lines, |lines|)
    ensures IsLongest(Retain(lines, profileId, nicks), Retain(lines, profileId, nicks))
  {
    var left := Retain(lines, profileId, nicks);
    RetainKeepsOrder(lines, profileId, nicks);
    RetainKeepsSequence(lines, profileId, nicks);
    forall i | 0 <= i < |left| ensures left[i].timestamp >= Cutoff(left[|left| - 1]) {
      assert left[i] in lines && left[|left| - 1] in lines;
      var a :| 0 <= a < |lines| && lines[a] == left[i];
      var b :| 0 <= b < |lines| && lines[b] == left[|left| - 1];
      assert lines[a].timestamp >= Cutoff(lines[|lines| - 1]);
    }
  }

  // ----- Runs ---------------------------------------------------------------------------------

  datatype Event =
    | Record(c: Channel, line: Line, evicted: Option<Channel>)
    | Purge(server: string, profileId: string, nicks: seq<string>)

  ghost predicate Enabled(b: Buffers, e: Event) {
    e.Record? ==> MayEvict(b, e.c, e.evicted)
  }

  function Step(b: Buffers, e: Event): Buffers {
    match e
    case Record(c, line, evicted) => RecordStep(b, c, line, evicted)
    case Purge(server, profileId, nicks) => PurgeStep(b, server, profileId, nicks)
  }

  /** The log of a channel: everything recorded since it was last evicted; a purge that removes something from
      the buffer starts it over from what is left there. */
  function LogStep(log: Buffers, b: Buffers, e: Event): Buffers {
    match e
    case Record(c, line, evicted) => Evict(log, evicted)[c := Lines(Evict(log, evicted), c) + [CleanLine(line)]]
    case Purge(_, _, _) =>
      map c | c in log :: if Lines(Step(b, e), c) != Lines(b, c) then Lines(Step(b, e), c) else log[c]
  }

  /** Each tracked channel's buffer is the longest fitting suffix of its log; at most 1000 are tracked. */
  ghost predicate Refines(b: Buffers, log: Buffers) {
    && b.Keys == log.Keys && |b| <= MAX_CHANNELS
    && forall c :: c in b ==> RefinesOne(log[c], b[c])
  }

  ghost predicate RefinesOne(log: seq<Line>, lines: seq<Line>) {
    InOrder(log) && IsLongest(log, lines)
  }

  /** No clock goes back within a channel. */
  ghost predicate KeepsTime(log: Buffers, e: Event) {
    e.Record? ==> LastSeen(Lines(log, e.c)) <= e.line.timestamp
  }

  lemma RecordRefines(b: Buffers, log: Buffers, c: Channel, line: Line, evicted: Option<Channel>)
    requires Refines(b, log) && MayEvict(b, c, evicted) && KeepsTime(log, Record(c, line, evicted))
    ensures Refines(RecordStep(b, c, line, evicted), LogStep(log, b, Record(c, line, evicted)))
  {
    var roomy, roomyLog := Evict(b, evicted), Evict(log, evicted);
    assert c in log && c !in roomyLog ==> Lines(roomyLog, c) == [];
    RoomForOne(b, c, evicted, Push(Lines(roomy, c), CleanLine(line)));
    LineIsRefined(roomy, roomyLog, c, CleanLine(line));
  }

  lemma LineIsRefined(b: Buffers, log: Buffers, c: Channel, line: Line)
    requires b.Keys == log.Keys && (forall o :: o in b ==> RefinesOne(log[o], b[o]))
    requires |b[c := Push(Lines(b, c), line)]| <= MAX_CHANNELS && LastSeen(Lines(log, c)) <= line.timestamp
    ensures Refines(b[c := Push(Lines(b, c), line)], log[c := Lines(log, c) + [line]])
  {
    NothingRefinesNothing();
    LineRefines(Lines(log, c), Lines(b, c), line);
    OtherChannelsRefine(b, log, c, Push(Lines(b, c), line), Lines(log, c) + [line]);
  }

  lemma NothingRefinesNothing()
    ensures RefinesOne([], [])
  {
  }

  lemma OtherChannelsRefine(b: Buffers, log: Buffers, c: Channel, lines: seq<Line>, logLines: seq<Line>)
    requires b.Keys == log.Keys && (forall o :: o in b && o != c ==> RefinesOne(log[o], b[o]))
    requires |b[c := lines]| <= MAX_CHANNELS && RefinesOne(logLines, lines)
    ensures Refines(b[c := lines], log[c := logLines])
  {
  }

  lemma LineRefines(log: seq<Line>, lines: seq<Line>, line: Line)
    requires InOrder(log) && IsLongest(log, lines) && LastSeen(log) <= line.timestamp
    ensures InOrder(log + [line]) && IsLongest(log + [line], Push(lines, line))
  {
    var now := log + [line];
    forall i, j | 0 <= i < j < |now| ensures now[i].timestamp <= now[j].timestamp {
      assert now[i] == log[i];
      assert j < |log| ==> now[j] == log[j];
      assert j == |log| && i < |log| - 1 ==> log[i].timestamp <= log[|log| - 1].timestamp;
    }
    PushKeepsLongest(log, lines, line);
  }

  lemma RoomForOne(b: Buffers, c: Channel, evicted: Option<Channel>, lines: seq<Line>)
    requires |b| <= MAX_CHANNELS && MayEvict(b, c, evicted)
    ensures |Evict(b, evicted)[c := lines]| <= MAX_CHANNELS
  {
    var roomy := Evict(b, evicted);
    if evicted.Some? {
      assert roomy.Keys == b.Keys - {evicted.value};
    }
    assert roomy[c := lines].Keys == roomy.Keys + {c};
    assert |roomy[c := lines]| == |roomy.Keys + {c}|;
    assert c in roomy ==> roomy.Keys + {c} == roomy.Keys;
  }

  lemma PurgeRefines(b: Buffers, log: Buffers, server: string, profileId: string, nicks: seq<string>)
    requires Refines(b, log)
    ensures Refines(PurgeStep(b, server, profileId, nicks), LogStep(log, b, Purge(server, profileId, nicks)))
  {
    var b' := PurgeStep(b, server, profileId, nicks);
    assert b'.Keys == b.Keys;
    assert |b'| == |b'.Keys| == |b|;
    forall c | c in b && b'[c] != b[c] ensures InOrder(b'[c]) && IsLongest(b'[c], b'[c]) {
      SuffixKeeps(log[c], b[c]);
      PurgedBufferIsLongest(b[c], profileId, nicks);
      RetainKeepsOrder(b[c], profileId, nicks);
    }
  }

  lemma SuffixKeeps(log: seq<Line>, lines: seq<Line>)
    requires InOrder(log) && IsLongest(log, lines)
    ensures InOrder(lines) && Fits(lines, |lines|)
  {
    assert forall i :: 0 <= i < |lines| ==> lines[i] == log[|log| - |lines| + i];
  }

  ghost predicate Runnable(b: Buffers, log: Buffers, es: seq<Event>)
    decreases |es|
  {
    es == [] || (Enabled(b, es[0]) && KeepsTime(log, es[0])
      && Runnable(Step(b, es[0]), LogStep(log, b, es[0]), es[1..]))
  }

  function Exec(b: Buffers, es: seq<Event>): Buffers
    decreases |es|
  {
    if es == [] then b else Exec(Step(b, es[0]), es[1..])
  }

  function LogOf(b: Buffers, log: Buffers, es: seq<Event>): Buffers
    decreases |es|
  {
    if es == [] then log else LogOf(Step(b, es[0]), LogStep(log, b, es[0]), es[1..])
  }

  /** Over every run of lines and purges each buffer stays the longest fitting suffix of its log. */
  lemma {:induction false} RunRefines(b: Buffers, log: Buffers, es: seq<Event>)
    requires Refines(b, log) && Runnable(b, log, es)
    ensures Refines(Exec(b, es), LogOf(b, log, es))
    decreases |es|
  {
    if es != [] {
      match es[0] {
        case Record(c, line, evicted) => RecordRefines(b, log, c, line, evicted);
        case Purge(server, profileId, nicks) => PurgeRefines(b, log, server, profileId, nicks);
      }
      RunRefines(Step(b, es[0]), LogStep(log, b, es[0]), es[1..]);
    }
  }

  /** From an empty buffer, after any run, a tracked channel answers as the last 100 lines of its log. */
  lemma EveryAnswerIsTheLogs(es: seq<Event>, c: Channel, r: Request, now: I64)
    requires Runnable(map[], map[], es) && c in Exec(map[], es)
    requires c in LogOf(map[], map[], es) ==> LastSeen(LogOf(map[], map[], es)[c]) <= now
    ensures c in LogOf(map[], map[], es)
    ensures Answer(Exec(map[], es)[c], r, now) == Answer(LastN(LogOf(map[], map[], es)[c], MAX_LINES), r, now)
  {
    RunRefines(map[], map[], es);
    BufferAnswersLikeLog(LogOf(map[], map[], es)[c], Exec(map[], es)[c], r, now);
  }

  // ----- The log that is only purged ------------------------------------------------------------

  /** Everything recorded since the channel was last evicted, without the lines that purges removed. */
  function PurgedLogStep(log: Buffers, e: Event): Buffers {
    match e
    case Record(c, line, evicted) => Evict(log, evicted)[c := Lines(Evict(log, evicted), c) + [CleanLine(line)]]
    case Purge(server, profileId, nicks) => PurgeStep(log, server, profileId, nicks)
  }

  function PurgedLogOf(log: Buffers, es: seq<Event>): Buffers
    decreases |es|
  {
    if es == [] then log else PurgedLogOf(PurgedLogStep(log, es[0]), es[1..])
  }

  ghost predicate IsTail(lines: seq<Line>, log: seq<Line>) {
    |lines| <= |log| && lines == log[|log| - |lines|..]
  }

  ghost predicate AreTails(b: Buffers, log: Buffers) {
    b.Keys == log.Keys && forall c :: c in b ==> IsShortTail(b[c], log[c])
  }

  ghost predicate IsShortTail(lines: seq<Line>, log: seq<Line>) {
    IsTail(lines, log) && |lines| <= MAX_LINES
  }

  lemma {:induction false} DropOlderIsTail(lines: seq<Line>, cutoff: int)
    ensures IsTail(DropOlder(lines, cutoff), lines)
  {
    if lines != [] && lines[0].timestamp < cutoff {
      DropOlderIsTail(lines[1..], cutoff);
    }
  }

  lemma PushKeepsTail(lines: seq<Line>, log: seq<Line>, line: Line)
    requires IsTail(lines, log) && |lines| <= MAX_LINES
    ensures IsTail(Push(lines, line), log + [line]) && |Push(lines, line)| <= MAX_LINES
  {
    var young := DropOlder(lines, Cutoff(line));
    var kept := if |young| >= MAX_LINES then young[1..] else young;
    DropOlderIsTail(lines, Cutoff(line));
    TailOfTail(kept, young, lines);
    TailOfTail(kept, lines, log);
    TailGrows(kept, log, line);
  }

  lemma TailOfTail(a: seq<Line>, b: seq<Line>, c: seq<Line>)
    requires IsTail(a, b) && IsTail(b, c)
    ensures IsTail(a, c)
  {
    assert forall i :: 0 <= i < |a| ==> a[i] == c[|c| - |a| + i];
  }

  lemma TailGrows(a: seq<Line>, b: seq<Line>, x: Line)
    requires IsTail(a, b)
    ensures IsTail(a + [x], b + [x])
  {
  }

  lemma {:induction false} RetainSplits(a: seq<Line>, b: seq<Line>, profileId: string, nicks: seq<string>)
    ensures Retain(a + b, profileId, nicks) == Retain(a, profileId, nicks) + Retain(b, profileId, nicks)
  {
    if b == [] {
      assert a + b == a;
    } else {
      assert (a + b)[..|a + b| - 1] == a + b[..|b| - 1];
      RetainSplits(a, b[..|b| - 1], profileId, nicks);
    }
  }

  lemma RetainKeepsTail(lines: seq<Line>, log: seq<Line>, profileId: string, nicks: seq<string>)
    requires IsTail(lines, log)
    ensures IsTail(Retain(lines, profileId, nicks), Retain(log, profileId, nicks))
  {
    assert log == log[..|log| - |lines|] + lines;
    RetainSplits(log[..|log| - |lines|], lines, profileId, nicks);
  }

  lemma RecordKeepsTails(b: Buffers, log: Buffers, c: Channel, line: Line, evicted: Option<Channel>)
    requires AreTails(b, log)
    ensures AreTails(RecordStep(b, c, line, evicted), PurgedLogStep(log, Record(c, line, evicted)))
  {
    var roomy, roomyLog := Evict(b, evicted), Evict(log, evicted);
    assert AreTails(roomy, roomyLog);
    assert IsShortTail(Lines(roomy, c), Lines(roomyLog, c));
    PushKeepsTail(Lines(roomy, c), Lines(roomyLog, c), CleanLine(line));
    OneMoreTail(roomy, roomyLog, c, Push(Lines(roomy, c), CleanLine(line)), Lines(roomyLog, c) + [CleanLine(line)]);
  }

  lemma OneMoreTail(b: Buffers, log: Buffers, c: Channel, lines: seq<Line>, logLines: seq<Line>)
    requires AreTails(b, log) && IsShortTail(lines, logLines)
    ensures AreTails(b[c := lines], log[c := logLines])
  {
  }

  lemma PurgeKeepsTails(b: Buffers, log: Buffers, server: string, profileId: string, nicks: seq<string>)
    requires AreTails(b, log)
    ensures AreTails(PurgeStep(b, server, profileId, nicks), PurgeStep(log, server, profileId, nicks))
  {
    forall c | c in b ensures IsShortTail(Retain(b[c], profileId, nicks), Retain(log[c], profileId, nicks)) {
      RetainKeepsTail(b[c], log[c], profileId, nicks);
      RetainKeepsSequence(b[c], profileId, nicks);
    }
  }

  lemma StepKeepsTails(b: Buffers, log: Buffers, e: Event)
    requires AreTails(b, log)
    ensures AreTails(Step(b, e), PurgedLogStep(log, e))
  {
    match e
    case Record(c, line, evicted) => RecordKeepsTails(b, log, c, line, evicted);
    case Purge(server, profileId, nicks) => PurgeKeepsTails(b, log, server, profileId, nicks);
  }

  /** Over every run, whatever the clock does: each buffer holds at most 100 lines and is the end of its log
      without the lines that purges removed; so no purged line comes back and no line changes its place. */
  lemma {:induction false} BuffersAreTails(b: Buffers, log: Buffers, es: seq<Event>)
    requires AreTails(b, log)
    ensures AreTails(Exec(b, es), PurgedLogOf(log, es))
    decreases |es|
  {
    if es != [] {
      StepKeepsTails(b, log, es[0]);
      BuffersAreTails(Step(b, es[0]), PurgedLogStep(log, es[0]), es[1..]);
    }
  }

  /** Young enough for the query and for the buffer, of the sender asked for, and no command if none is wanted. */
  ghost predicate IsWanted(x: Line, r: Request, now: I64) {
    && now - x.timestamp <= 10_800 && (now - x.timestamp <= r.maxAge || now <= x.timestamp)
    && (r.userId == None || r.userId == Some(x.userId)) && !(r.excludeCommands && x.isCommand)
  }

  lemma MatchesIffWanted(x: Line, r: Request, now: I64)
    ensures Matches(x, r, now) <==> IsWanted(x, r, now)
  {
  }

  /** A query answers with wanted lines of the channel in their order, at most 100 and as many as asked for: the
      newest ones, and if the limit allows all of them. */
  lemma AnswerMeans(lines: seq<Line>, r: Request, now: I64, x: Line)
    requires |lines| <= MAX_LINES
    ensures x in Matching(lines, r, now) <==> x in lines && IsWanted(x, r, now)
    ensures Subsequence(Matching(lines, r, now), lines)
    ensures var all, answer := Matching(lines, r, now), Answer(lines, r, now);
      answer == if |all| <= r.limit then all else all[|all| - r.limit..]
  {
    MatchesIffWanted(x, r, now);
    MatchingMeans(lines, r, now, x);
    MatchingKeepsSequence(lines, r, now);
  }

  lemma {:induction false} MatchingKeepsSequence(lines: seq<Line>, r: Request, now: I64)
    ensures Subsequence(Matching(lines, r, now), lines) && |Matching(lines, r, now)| <= |lines|
  {
    if lines != [] {
      MatchingKeepsSequence(lines[..|lines| - 1], r, now);
      var rest, last := Matching(lines[..|lines| - 1], r, now), lines[|lines| - 1];
      assert (rest + [last])[..|rest|] == rest && rest + [] == rest;
    }
  }

  // ----- What is recorded -----------------------------------------------------------------------

  lemma {:induction false} WithoutControlsAppends(a: string, b: string)
    ensures WithoutControls(a + b) == WithoutControls(a) + WithoutControls(b)
  {
    if b == [] {
      assert a + b == a;
    } else {
      assert (a + b)[..|a + b| - 1] == a + b[..|b| - 1];
      WithoutControlsAppends(a, b[..|b| - 1]);
    }
  }

  lemma {:induction false} ControlsAreDropped(s: string)
    ensures forall c :: c in WithoutControls(s) ==> !IsControl(c)
  {
    if s != [] {
      ControlsAreDropped(s[..|s| - 1]);
    }
  }

  lemma {:induction false} PlainTextStays(s: string)
    requires forall i :: 0 <= i < |s| ==> !IsControl(s[i])
    ensures WithoutControls(s) == s
  {
    if s != [] {
      PlainTextStays(s[..|s| - 1]);
    }
  }

  /** A recorded text has at most 500 characters and no control characters; one without control characters keeps its
      first 500. */
  lemma CleanTextIsPlain(s: string)
    ensures |CleanText(s)| <= 500 && forall x :: x in CleanText(s) ==> !IsControl(x)
    ensures (forall i :: 0 <= i < |s| ==> !IsControl(s[i])) ==> CleanText(s) == if |s| <= 500 then s else s[..500]
  {
    ControlsAreDropped(s);
    if forall i :: 0 <= i < |s| ==> !IsControl(s[i]) {
      PlainTextStays(s);
    }
  }

  /** A control character anywhere makes no difference. */
  lemma ControlsMakeNoDifference(a: string, c: char, b: string)
    requires IsControl(c)
    ensures CleanText(a + [c] + b) == CleanText(a + b)
  {
    WithoutControlsAppends(a + [c], b);
    LastControlIsDropped(a, c);
    WithoutControlsAppends(a, b);
  }

  lemma LastControlIsDropped(a: string, c: char)
    requires IsControl(c)
    ensures WithoutControls(a + [c]) == WithoutControls(a)
  {
    assert (a + [c])[..|a|] == a;
  }

  /** A purge leaves no line with the profile's id, or with one of its nicks in any ASCII case, on that network, keeps
      every other line, and their order. */
  lemma PurgeRemovesExactly(b: Buffers, server: string, profileId: string, nicks: seq<string>, c: Channel, x: Line)
    requires c in b
    ensures c in PurgeStep(b, server, profileId, nicks)
    ensures var left := PurgeStep(b, server, profileId, nicks)[c];
      && (x in left <==>
            && x in b[c]
            && (|| c.0 != server
                || (x.userId != profileId && forall i :: 0 <= i < |nicks| ==> Lower(nicks[i]) != Lower(x.nick))))
      && (c.0 == server ==> Subsequence(left, b[c]))
      && (c.0 != server ==> left == b[c])
  {
    RetainMeans(b[c], profileId, nicks, x);
    RetainKeepsSequence(b[c], profileId, nicks);
  }
}
