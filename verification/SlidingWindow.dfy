/** The sliding-window limiters in front of the GIF and price providers: a queue of admitted instants,
    expired from the front, with an optional minimum gap. Instants are nanoseconds of a monotonic clock. */
module SlidingWindow {
  import opened Prelude

  datatype Limits = Limits(window: nat, cap: nat, gap: nat)

  const GIF_LIMITS := Limits(3600 * SECOND, 90, SECOND)
  const COINGECKO_LIMITS := Limits(60 * SECOND, 15, 0)

  datatype Gate = Gate(last: Option<int>, recent: seq<int>)

  function Expire(recent: seq<int>, now: int, window: nat): seq<int> {
    if recent != [] && Elapsed(now, recent[0]) >= window then Expire(recent[1..], now, window) else recent
  }

  predicate Admits(g: Gate, l: Limits, now: int) {
    && (g.last.Some? ==> Elapsed(now, g.last.value) >= l.gap)
    && |Expire(g.recent, now, l.window)| < l.cap
  }

  function Call(g: Gate, l: Limits, now: int): Gate {
    var recent := Expire(g.recent, now, l.window);
    if Admits(g, l, now) then Gate(Some(now), recent + [now]) else Gate(g.last, recent)
  }

  // ----- The meaning of the limits ------------------------------------------------------------

  /** Instants `cap` places apart are a window apart; if there is a gap, any two are a gap apart. */
  ghost predicate WithinLimits(h: seq<int>, l: Limits) {
    && (forall i, j :: 0 <= i < j < |h| && j - i >= l.cap ==> h[j] - h[i] >= l.window)
    && (l.gap > 0 ==> forall i, j :: 0 <= i < j < |h| ==> h[j] - h[i] >= l.gap)
  }

  function GateAfter(l: Limits, calls: seq<int>): Gate {
    if calls == [] then Gate(None, []) else Call(GateAfter(l, calls[..|calls| - 1]), l, calls[|calls| - 1])
  }

  /** The instants admitted. */
  function History(l: Limits, calls: seq<int>): seq<int> {
    if calls == [] then []
    else
      var rest, now := calls[..|calls| - 1], calls[|calls| - 1];
      History(l, rest) + if Admits(GateAfter(l, rest), l, now) then [now] else []
  }

  /** The clock is read before the lock is taken, so calls may enter out of order: by at most `skew`. */
  ghost predicate Skewed(calls: seq<int>, skew: nat) {
    forall i, j :: 0 <= i < j < |calls| ==> calls[i] - calls[j] <= skew
  }

  // ----- The queue is the young end of the history ---------------------------------------------

  lemma {:induction false} ExpireMeans(recent: seq<int>, now: int, window: nat) returns (k: nat)
    ensures k <= |recent| && Expire(recent, now, window) == recent[k..]
    ensures forall i :: 0 <= i < k ==> Elapsed(now, recent[i]) >= window
    ensures k < |recent| ==> Elapsed(now, recent[k]) < window
  {
    if recent != [] && Elapsed(now, recent[0]) >= window {
      var rest := recent[1..];
      var n := ExpireMeans(rest, now, window);
      k := n + 1;
      forall i | 0 <= i < k ensures Elapsed(now, recent[i]) >= window {
        assert i > 0 ==> rest[i - 1] == recent[i];
      }
    } else {
      k := 0;
    }
  }

  /** The history is what has been expired, all of it a window before reading `seen`, followed by the queue. */
  ghost predicate Tracks(g: Gate, l: Limits, gone: seq<int>, h: seq<int>, seen: int) {
    && h == gone + g.recent && |g.recent| <= l.cap
    && (forall i :: 0 <= i < |gone| ==> seen - gone[i] >= l.window)
    && g.last == if h == [] then None else Some(h[|h| - 1])
  }

  /** A call expires the queue up to its own reading, if it is later than the readings before. */
  lemma CallTracks(g: Gate, l: Limits, gone: seq<int>, h: seq<int>, seen: int, now: int)
    returns (gone': seq<int>, seen': int)
    requires l.window > 0 && Tracks(g, l, gone, h, seen)
    ensures Tracks(Call(g, l, now), l, gone', if Admits(g, l, now) then h + [now] else h, seen')
    ensures seen' == seen || (seen' == now && Expire(g.recent, now, l.window) != g.recent)
    ensures forall i :: 0 <= i < |gone'| ==> seen' - gone'[i] >= l.window
    ensures gone' + Expire(g.recent, now, l.window) == h
  {
    var k := ExpireMeans(g.recent, now, l.window);
    gone', seen' := gone + g.recent[..k], if k > 0 && now > seen then now else seen;
    assert gone' + g.recent[k..] == h;
    assert Admits(g, l, now) ==> gone' + (g.recent[k..] + [now]) == h + [now];
  }

  // ----- A refusal is always due --------------------------------------------------------------

  /** In whatever order calls come: one is refused only when admitting it would break the limits. */
  lemma RefusedIsIllegal(g: Gate, l: Limits, gone: seq<int>, h: seq<int>, seen: int, now: int)
    requires l.cap > 0 && l.window > 0 && Tracks(g, l, gone, h, seen) && WithinLimits(h + [now], l)
    ensures Admits(g, l, now)
  {
    var h' := h + [now];
    var k := ExpireMeans(g.recent, now, l.window);
    if h != [] {
      assert h'[|h| - 1] == h[|h| - 1] && h'[|h|] == now;
    }
    var at := |gone| + k;
    assert at < |h| ==> h'[at] == g.recent[k] && h'[|h|] == now;
    assert |g.recent| - k == |h| - at;
  }

  // ----- What is admitted is legal --------------------------------------------------------------

  function Loosened(l: Limits, skew: nat): Limits
    requires skew <= l.window
  {
    l.(window := l.window - skew)
  }

  lemma AdmittedIsLegal(g: Gate, l: Limits, gone: seq<int>, h: seq<int>, seen: int, now: int, skew: nat)
    requires l.cap > 0 && l.window > 0 && skew <= l.window && Tracks(g, l, gone, h, seen)
    requires Admits(g, l, now) && seen - skew <= now && WithinLimits(h, Loosened(l, skew))
    ensures WithinLimits(h + [now], Loosened(l, skew))
  {
    var h' := h + [now];
    var k := ExpireMeans(g.recent, now, l.window);
    forall i, j | 0 <= i < j < |h'| && j - i >= l.cap ensures h'[j] - h'[i] >= l.window - skew {
      assert h'[i] == h[i];
      if j == |h| {
        assert i < |gone| + k;
        assert if i < |gone| then h[i] == gone[i] else h[i] == g.recent[i - |gone|];
      }
    }
    if l.gap > 0 {
      GapsHold(h, l, now);
    }
  }

  lemma GapsHold(h: seq<int>, l: Limits, now: int)
    requires l.gap > 0 && forall i, j :: 0 <= i < j < |h| ==> h[j] - h[i] >= l.gap
    requires h != [] ==> Elapsed(now, h[|h| - 1]) >= l.gap
    ensures forall i, j :: 0 <= i < j < |h + [now]| ==> (h + [now])[j] - (h + [now])[i] >= l.gap
  {
    var h' := h + [now];
    forall i, j | 0 <= i < j < |h'| ensures h'[j] - h'[i] >= l.gap {
      assert h'[i] == h[i];
      assert j == |h| && i < |h| - 1 ==> h[|h| - 1] - h[i] >= l.gap;
    }
  }

  /** With a gap, a call that expires something and is refused comes less than a gap after the last admission,
      and every later admission comes after it. */
  ghost predicate SeenBeforeGap(g: Gate, l: Limits, gone: seq<int>, seen: int) {
    gone != [] ==> g.last.Some? && seen < g.last.value + l.gap
  }

  lemma {:induction false} RunWithGap(l: Limits, calls: seq<int>) returns (gone: seq<int>, seen: int)
    requires l.cap > 0 && l.window > 0 && l.gap > 0
    ensures Tracks(GateAfter(l, calls), l, gone, History(l, calls), seen)
    ensures SeenBeforeGap(GateAfter(l, calls), l, gone, seen)
    ensures WithinLimits(History(l, calls), l)
  {
    if calls == [] {
      gone, seen := [], 0;
    } else {
      var rest, now := calls[..|calls| - 1], calls[|calls| - 1];
      var gone0, seen0 := RunWithGap(l, rest);
      gone, seen := OneCallWithGap(GateAfter(l, rest), l, gone0, History(l, rest), seen0, now);
      assert History(l, rest) + [] == History(l, rest);
    }
  }

  lemma OneCallWithGap(g: Gate, l: Limits, gone0: seq<int>, h: seq<int>, seen0: int, now: int)
    returns (gone: seq<int>, seen: int)
    requires l.cap > 0 && l.window > 0 && l.gap > 0
    requires Tracks(g, l, gone0, h, seen0) && SeenBeforeGap(g, l, gone0, seen0) && WithinLimits(h, l)
    ensures var h' := if Admits(g, l, now) then h + [now] else h;
      Tracks(Call(g, l, now), l, gone, h', seen) && WithinLimits(h', l)
    ensures SeenBeforeGap(Call(g, l, now), l, gone, seen)
  {
    var past := if gone0 == [] then now else seen0;
    gone, seen := CallTracks(g, l, gone0, h, past, now);
    if Admits(g, l, now) {
      AdmittedComesLater(g, l, gone0, h, past, now);
      AdmittedIsLegal(g, l, gone0, h, past, now, 0);
      assert Loosened(l, 0) == l;
    } else if gone != gone0 {
      RefusedComesEarly(g, l, gone0, gone, h, past, now);
    } else {
      assert Expire(g.recent, now, l.window) == h[|gone|..] && g.recent == h[|gone0|..];
    }
  }

  lemma AdmittedComesLater(g: Gate, l: Limits, gone: seq<int>, h: seq<int>, past: int, now: int)
    requires l.gap > 0 && Admits(g, l, now) && Tracks(g, l, gone, h, past)
    requires gone != [] ==> g.last.Some? && past < g.last.value + l.gap
    requires gone == [] ==> past == now
    ensures past <= now
  {
  }

  /** A refused call that expired something was refused for the gap. */
  lemma RefusedComesEarly(g: Gate, l: Limits, gone0: seq<int>, gone: seq<int>, h: seq<int>, past: int, now: int)
    requires Tracks(g, l, gone0, h, past) && !Admits(g, l, now)
    requires gone + Expire(g.recent, now, l.window) == h && gone != gone0
    ensures g.last.Some? && now < g.last.value + l.gap
  {
    var k := ExpireMeans(g.recent, now, l.window);
    assert |gone| + (|g.recent| - k) == |h|;
    assert gone == h[..|gone|] && gone0 == h[..|gone0|];
  }

  lemma SkewedPrefix(calls: seq<int>, n: nat, skew: nat)
    requires Skewed(calls, skew) && n <= |calls|
    ensures Skewed(calls[..n], skew)
  {
  }

  lemma {:induction false} RunWithSkew(l: Limits, calls: seq<int>, skew: nat) returns (gone: seq<int>, seen: int)
    requires l.cap > 0 && l.window > 0 && l.gap == 0 && skew <= l.window && Skewed(calls, skew)
    ensures Tracks(GateAfter(l, calls), l, gone, History(l, calls), seen)
    ensures gone != [] ==> seen in calls
    ensures WithinLimits(History(l, calls), Loosened(l, skew))
  {
    if calls == [] {
      gone, seen := [], 0;
    } else {
      var rest, now := calls[..|calls| - 1], calls[|calls| - 1];
      SkewedPrefix(calls, |calls| - 1, skew);
      var gone0, seen0 := RunWithSkew(l, rest, skew);
      var past := if gone0 == [] then now else seen0;
      SkewBoundsLast(calls, past, skew);
      gone, seen := OneCallWithSkew(GateAfter(l, rest), l, gone0, History(l, rest), past, now, skew);
      assert History(l, rest) + [] == History(l, rest);
    }
  }

  lemma SkewBoundsLast(calls: seq<int>, seen: int, skew: nat)
    requires Skewed(calls, skew) && calls != [] && (seen in calls[..|calls| - 1] || seen == calls[|calls| - 1])
    ensures seen - skew <= calls[|calls| - 1] && seen in calls && calls[|calls| - 1] in calls
  {
    if seen != calls[|calls| - 1] {
      var i :| 0 <= i < |calls| - 1 && calls[..|calls| - 1][i] == seen;
      assert calls[i] - calls[|calls| - 1] <= skew;
    }
  }

  lemma OneCallWithSkew(g: Gate, l: Limits, gone0: seq<int>, h: seq<int>, past: int, now: int, skew: nat)
    returns (gone: seq<int>, seen: int)
    requires l.cap > 0 && l.window > 0 && skew <= l.window && Tracks(g, l, gone0, h, past) && past - skew <= now
    requires WithinLimits(h, Loosened(l, skew))
    ensures var h' := if Admits(g, l, now) then h + [now] else h;
      Tracks(Call(g, l, now), l, gone, h', seen) && WithinLimits(h', Loosened(l, skew))
    ensures seen == past || seen == now
  {
    gone, seen := CallTracks(g, l, gone0, h, past, now);
    if Admits(g, l, now) {
      AdmittedIsLegal(g, l, gone0, h, past, now, skew);
    }
  }

  // ----- Over every history ---------------------------------------------------------------------

  lemma {:induction false} GateTracks(l: Limits, calls: seq<int>) returns (gone: seq<int>, seen: int)
    requires l.cap > 0 && l.window > 0
    ensures Tracks(GateAfter(l, calls), l, gone, History(l, calls), seen)
  {
    if calls == [] {
      gone, seen := [], 0;
    } else {
      var rest, now := calls[..|calls| - 1], calls[|calls| - 1];
      var gone0, seen0 := GateTracks(l, rest);
      gone, seen := CallTracks(GateAfter(l, rest), l, gone0, History(l, rest), seen0, now);
      assert History(l, rest) + [] == History(l, rest);
    }
  }

  /** In whatever order the calls come, one is refused only if admitting it would break the limits. */
  lemma RefusedOnlyWhenIllegal(l: Limits, calls: seq<int>, now: int)
    requires l.cap > 0 && l.window > 0
    ensures !Admits(GateAfter(l, calls), l, now) ==> !WithinLimits(History(l, calls) + [now], l)
  {
    var gone, seen := GateTracks(l, calls);
    if WithinLimits(History(l, calls) + [now], l) {
      RefusedIsIllegal(GateAfter(l, calls), l, gone, History(l, calls), seen, now);
    }
  }

  /** With a gap the limits hold for every order of calls, and a call is admitted if and only if they still
      hold afterwards. */
  lemma AdmittedIffLegalInAnyOrder(l: Limits, calls: seq<int>, now: int)
    requires l.cap > 0 && l.window > 0 && l.gap > 0
    ensures WithinLimits(History(l, calls), l)
    ensures Admits(GateAfter(l, calls), l, now) <==> WithinLimits(History(l, calls) + [now], l)
  {
    var gone0, seen0 := RunWithGap(l, calls);
    RefusedOnlyWhenIllegal(l, calls, now);
    if Admits(GateAfter(l, calls), l, now) {
      var gone, seen := OneCallWithGap(GateAfter(l, calls), l, gone0, History(l, calls), seen0, now);
    }
  }

  /** Without a gap they hold up to the disorder of the calls; in order they hold, and a call is admitted if and
      only if they still hold afterwards. */
  lemma AdmittedIsLegalUpToSkew(l: Limits, calls: seq<int>, now: int, skew: nat)
    requires l.cap > 0 && l.window > 0 && l.gap == 0 && skew <= l.window && Skewed(calls + [now], skew)
    ensures WithinLimits(History(l, calls), Loosened(l, skew))
    ensures Admits(GateAfter(l, calls), l, now) ==> WithinLimits(History(l, calls) + [now], Loosened(l, skew))
    ensures skew == 0 ==> (Admits(GateAfter(l, calls), l, now) <==> WithinLimits(History(l, calls) + [now], l))
  {
    assert (calls + [now])[..|calls|] == calls;
    SkewedPrefix(calls + [now], |calls|, skew);
    var gone, seen := RunWithSkew(l, calls, skew);
    var gone', seen' := RunWithSkew(l, calls + [now], skew);
    assert History(l, calls + [now]) == History(l, calls) + if Admits(GateAfter(l, calls), l, now) then [now] else [];
    RefusedOnlyWhenIllegal(l, calls, now);
  }

  // ----- Without a gap, order matters -------------------------------------------------------------

  function Zeros(n: nat): seq<int> {
    seq(n, _ => 0)
  }

  lemma {:induction false} ZerosAreAdmitted(l: Limits, n: nat)
    requires l.window > 0 && l.gap == 0 && n <= l.cap
    ensures History(l, Zeros(n)) == Zeros(n) && GateAfter(l, Zeros(n)).recent == Zeros(n)
  {
    if n > 0 {
      ZerosAreAdmitted(l, n - 1);
      ZerosSplit(n);
      ZerosStay(n - 1, l.window);
      OneMoreCall(l, Zeros(n - 1), 0);
    }
  }

  lemma ZerosSplit(n: nat)
    requires n > 0
    ensures Zeros(n) == Zeros(n - 1) + [0]
  {
  }

  lemma ZerosStay(n: nat, window: nat)
    requires window > 0
    ensures Expire(Zeros(n), 0, window) == Zeros(n)
  {
  }

  lemma OneMoreCall(l: Limits, calls: seq<int>, now: int)
    ensures GateAfter(l, calls + [now]) == Call(GateAfter(l, calls), l, now)
    ensures History(l, calls + [now]) == History(l, calls) + if Admits(GateAfter(l, calls), l, now) then [now] else []
  {
    assert (calls + [now])[..|calls|] == calls;
  }

  lemma {:induction false} ZerosExpire(n: nat, now: int, window: nat)
    requires now >= window > 0
    ensures Expire(Zeros(n), now, window) == []
  {
    if n > 0 {
      assert Zeros(n)[1..] == Zeros(n - 1);
      ZerosExpire(n - 1, now, window);
    }
  }

  /** `cap` calls at once, one a window later, and one that was read `skew` before that but enters after it. */
  function LateCalls(l: Limits, skew: nat): seq<int> {
    (Zeros(l.cap) + [l.window]) + [l.window - skew]
  }

  lemma WindowLaterIsAdmitted(l: Limits)
    requires l.cap >= 2 && l.window > 0 && l.gap == 0
    ensures GateAfter(l, Zeros(l.cap) + [l.window]).recent == [l.window]
    ensures History(l, Zeros(l.cap) + [l.window]) == Zeros(l.cap) + [l.window]
  {
    ZerosAreAdmitted(l, l.cap);
    ZerosExpire(l.cap, l.window, l.window);
    OneMoreCall(l, Zeros(l.cap), l.window);
  }

  lemma LateCallIsAdmitted(l: Limits, skew: nat)
    requires l.cap >= 2 && l.window > 0 && l.gap == 0 && skew <= l.window
    ensures History(l, LateCalls(l, skew)) == LateCalls(l, skew)
  {
    WindowLaterIsAdmitted(l);
    OneMoreCall(l, Zeros(l.cap) + [l.window], l.window - skew);
    assert Expire([l.window], l.window - skew, l.window) == [l.window];
  }

  lemma LateCallsAreSkewed(l: Limits, skew: nat)
    requires skew <= l.window
    ensures Skewed(LateCalls(l, skew), skew)
  {
    var calls := LateCalls(l, skew);
    forall i | 0 <= i < |calls|
      ensures calls[i] == if i < l.cap then 0 else if i == l.cap then l.window else l.window - skew
    {
    }
  }

  /** The limit holds with window `w` for all calls whose disorder is at most `skew`. */
  ghost predicate Guaranteed(l: Limits, skew: nat, w: nat) {
    forall calls :: Skewed(calls, skew) ==> WithinLimits(History(l, calls), l.(window := w))
  }

  lemma LateCallBreaks(l: Limits, skew: nat, w: nat)
    requires l.cap >= 2 && l.window > 0 && l.gap == 0 && skew <= l.window < w + skew
    ensures Skewed(LateCalls(l, skew), skew) && History(l, LateCalls(l, skew)) == LateCalls(l, skew)
    ensures !WithinLimits(History(l, LateCalls(l, skew)), l.(window := w))
  {
    LateCallsAreSkewed(l, skew);
    LateCallIsAdmitted(l, skew);
    var h := LateCalls(l, skew);
    assert h[1] == 0 && h[l.cap + 1] == l.window - skew;
  }

  lemma WiderIsStricter(h: seq<int>, l: Limits, w: nat, v: nat)
    requires v <= w && WithinLimits(h, l.(window := w))
    ensures WithinLimits(h, l.(window := v))
  {
  }

  /** Without a gap the window that disorder leaves is exactly the window less the disorder. */
  lemma ExactWindow(l: Limits, skew: nat, w: nat)
    requires l.cap >= 2 && l.window > 0 && l.gap == 0 && skew <= l.window
    ensures Guaranteed(l, skew, w) <==> w <= l.window - skew
  {
    if w <= l.window - skew {
      forall calls | Skewed(calls, skew) ensures WithinLimits(History(l, calls), l.(window := w)) {
        var gone, seen := RunWithSkew(l, calls, skew);
        WiderIsStricter(History(l, calls), l, l.window - skew, w);
      }
    } else {
      LateCallBreaks(l, skew, w);
    }
  }

  /** So the limit itself holds if and only if calls enter in order: one nanosecond of disorder breaks it. */
  lemma WithoutGapOrderMatters(l: Limits, skew: nat)
    requires l.cap >= 2 && l.window > 0 && l.gap == 0 && skew <= l.window
    ensures Guaranteed(l, skew, l.window) <==> skew == 0
    ensures Skewed(LateCalls(l, 1), 1) && !WithinLimits(History(l, LateCalls(l, 1)), l)
  {
    ExactWindow(l, skew, l.window);
    LateCallBreaks(l, 1, l.window);
    assert l.(window := l.window) == l;
  }

  // ----- The two limiters ---------------------------------------------------------------------

  class RequestGate {
    var last: Option<int>
    var recent: seq<int>

    constructor ()
      ensures last == None && recent == []
    {
      last, recent := None, [];
    }

    method AdmitRequest(now: int) returns (ok: bool)
      modifies this
      ensures ok == Admits(Gate(old(last), old(recent)), GIF_LIMITS, now)
      ensures Gate(last, recent) == Call(Gate(old(last), old(recent)), GIF_LIMITS, now)
    {
      while recent != [] && Elapsed(now, recent[0]) >= GIF_LIMITS.window
        invariant Expire(recent, now, GIF_LIMITS.window) == Expire(old(recent), now, GIF_LIMITS.window)
        invariant last == old(last)
        decreases |recent|
      {
        recent := recent[1..];
      }
      if (last.Some? && Elapsed(now, last.value) < GIF_LIMITS.gap) || |recent| >= GIF_LIMITS.cap {
        return false;
      }
      last, recent := Some(now), recent + [now];
      return true;
    }
  }

  /** Without a gap the limiter needs no `last`; a ghost keeps it for the specification. */
  class CoingeckoGate {
    var calls: seq<int>
    ghost var last: Option<int>

    constructor ()
      ensures last == None && calls == []
    {
      last, calls := None, [];
    }

    method AdmitCall(now: int) returns (ok: bool)
      modifies this
      ensures ok == Admits(Gate(old(last), old(calls)), COINGECKO_LIMITS, now)
      ensures Gate(last, calls) == Call(Gate(old(last), old(calls)), COINGECKO_LIMITS, now)
    {
      while calls != [] && Elapsed(now, calls[0]) >= COINGECKO_LIMITS.window
        invariant Expire(calls, now, COINGECKO_LIMITS.window) == Expire(old(calls), now, COINGECKO_LIMITS.window)
        invariant last == old(last)
        decreases |calls|
      {
        calls := calls[1..];
      }
      if |calls| >= COINGECKO_LIMITS.cap {
        return false;
      }
      last, calls := Some(now), calls + [now];
      return true;
    }
  }
}
