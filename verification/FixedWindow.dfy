/** The public web server's limiter: one counter per client, restarted when its window is a minute old.
    Instants are nanoseconds of a monotonic clock. */
module FixedWindow {
  import opened Prelude

  const MINUTE := 60 * SECOND
  const FORGET := 120 * SECOND
  const PER_MINUTE := 120

  /** Start of a client's window and requests since. */
  type Windows = map<string, (int, nat)>

  function Retained(w: Windows, now: int): Windows {
    map ip | ip in w && Elapsed(now, w[ip].0) < FORGET :: w[ip]
  }

  /** The client's counter after one more request. */
  function Counted(w: Windows, ip: string, now: int): (int, nat) {
    var kept := Retained(w, now);
    if ip !in kept || Elapsed(now, kept[ip].0) >= MINUTE then (now, 1) else (kept[ip].0, kept[ip].1 + 1)
  }

  function Step(w: Windows, ip: string, now: int): Windows {
    Retained(w, now)[ip := Counted(w, ip, now)]
  }

  predicate Allowed(w: Windows, ip: string, now: int) {
    Counted(w, ip, now).1 <= PER_MINUTE
  }

  class RateLimiter {
    var clients: Windows

    constructor ()
      ensures clients == map[]
    {
      clients := map[];
    }

    method RateAllowed(ip: string, now: int) returns (ok: bool)
      modifies this
      ensures ok == Allowed(old(clients), ip, now)
      ensures clients == Step(old(clients), ip, now)
    {
      clients := map ip | ip in clients && Elapsed(now, clients[ip].0) < FORGET :: clients[ip];
      if ip !in clients {
        clients := clients[ip := (now, 0)];
      }
      if Elapsed(now, clients[ip].0) >= MINUTE {
        clients := clients[ip := (now, 0)];
      }
      clients := clients[ip := (clients[ip].0, clients[ip].1 + 1)];
      ok := clients[ip].1 <= PER_MINUTE;
    }
  }

  // ----- Runs ---------------------------------------------------------------------------------

  /** A client and the instant of its request. */
  type Request = (string, int)

  function Exec(rs: seq<Request>): Windows {
    if rs == [] then map[] else Step(Exec(rs[..|rs| - 1]), rs[|rs| - 1].0, rs[|rs| - 1].1)
  }

  /** The client's admitted requests, with the window that each was counted in. */
  function Admitted(rs: seq<Request>, ip: string): seq<(int, int)> {
    if rs == [] then []
    else
      var rest, r := rs[..|rs| - 1], rs[|rs| - 1];
      Admitted(rest, ip)
      + if r.0 == ip && Allowed(Exec(rest), ip, r.1) then [(r.1, Counted(Exec(rest), ip, r.1).0)] else []
  }

  /** The instants of all the client's requests. */
  function Requested(rs: seq<Request>, ip: string): seq<int> {
    if rs == [] then []
    else Requested(rs[..|rs| - 1], ip) + if rs[|rs| - 1].0 == ip then [rs[|rs| - 1].1] else []
  }

  /** The clock is read before the lock is taken, so requests may enter out of order: by at most `skew`. */
  ghost predicate Skewed(rs: seq<Request>, skew: nat) {
    forall i, j :: 0 <= i < j < |rs| ==> rs[i].1 - rs[j].1 <= skew
  }

  /** Admissions lie in their windows, give or take `skew`, and 120 places on the window has moved by a minute. */
  ghost predicate Spread(h: seq<(int, int)>, skew: nat) {
    && (forall i :: 0 <= i < |h| ==> h[i].1 - skew <= h[i].0 < h[i].1 + MINUTE)
    && (forall i, j :: 0 <= i < j < |h| && j - i >= PER_MINUTE ==> h[j].1 >= h[i].1 + MINUTE)
  }

  /** The counter of a live window against the admissions and the requests so far. */
  ghost predicate Matches(start: int, count: nat, h: seq<(int, int)>, asked: seq<int>, skew: nat) {
    var live := Min(count, PER_MINUTE);
    && 0 < count <= |asked| && live <= |h|
    && (forall i :: |h| - live <= i < |h| ==> h[i].1 == start)
    && (forall i :: 0 <= i < |h| - live ==> h[i].1 + MINUTE <= start)
    && (forall i :: |asked| - count <= i < |asked| ==> asked[i] >= start - skew)
  }

  /** `latest` is the latest reading so far; without a counter every window was over before any reading that can
      still come. */
  ghost predicate Tracks(w: Windows, ip: string, h: seq<(int, int)>, asked: seq<int>, latest: int, skew: nat) {
    && Spread(h, skew)
    && (ip in w ==> w[ip].0 <= latest && Matches(w[ip].0, w[ip].1, h, asked, skew))
    && (ip !in w ==> forall i :: 0 <= i < |h| ==> h[i].1 + MINUTE <= latest - skew)
  }

  function Later(a: int, b: int): int {
    if a < b then b else a
  }

  lemma OtherStepTracks(w: Windows, ip: string, other: string, h: seq<(int, int)>, asked: seq<int>, latest: int,
                        now: int, skew: nat)
    requires Tracks(w, ip, h, asked, latest, skew) && skew <= MINUTE && other != ip
    ensures Tracks(Step(w, other, now), ip, h, asked, Later(latest, now), skew)
  {
    if ip in w && Elapsed(now, w[ip].0) >= FORGET {
      forall i | 0 <= i < |h| ensures h[i].1 <= w[ip].0 {
      }
    }
  }

  lemma OwnStepTracks(w: Windows, ip: string, h: seq<(int, int)>, asked: seq<int>, latest: int, now: int, skew: nat)
    requires Tracks(w, ip, h, asked, latest, skew) && latest - skew <= now
    ensures var h' := h + if Allowed(w, ip, now) then [(now, Counted(w, ip, now).0)] else [];
      Tracks(Step(w, ip, now), ip, h', asked + [now], Later(latest, now), skew)
    ensures !Allowed(w, ip, now) ==>
      |asked| >= PER_MINUTE && now - asked[|asked| - PER_MINUTE] < MINUTE + skew
  {
    if ip in w && Elapsed(now, w[ip].0) < MINUTE {
      SameWindow(w[ip].0, w[ip].1, h, asked, now, skew);
      assert h + [] == h;
    } else {
      assert forall i :: 0 <= i < |h| ==> h[i].1 + MINUTE <= now;
      NewWindow(h, asked, now, skew);
    }
  }

  lemma SameWindow(start: int, count: nat, h: seq<(int, int)>, asked: seq<int>, now: int, skew: nat)
    requires Spread(h, skew) && Matches(start, count, h, asked, skew) && start - skew <= now < start + MINUTE
    ensures count + 1 <= PER_MINUTE ==>
      Spread(h + [(now, start)], skew) && Matches(start, count + 1, h + [(now, start)], asked + [now], skew)
    ensures count + 1 > PER_MINUTE ==> Matches(start, count + 1, h, asked + [now], skew)
    ensures count + 1 > PER_MINUTE ==> |asked| >= PER_MINUTE && now - asked[|asked| - PER_MINUTE] < MINUTE + skew
  {
    var h' := h + [(now, start)];
    forall i | 0 <= i < |h| ensures h'[i] == h[i] {
    }
    if count + 1 <= PER_MINUTE {
      forall i, j | 0 <= i < j < |h'| && j - i >= PER_MINUTE ensures h'[j].1 >= h'[i].1 + MINUTE {
        assert h'[i] == h[i];
      }
    }
  }

  lemma NewWindow(h: seq<(int, int)>, asked: seq<int>, now: int, skew: nat)
    requires Spread(h, skew) && forall i :: 0 <= i < |h| ==> h[i].1 + MINUTE <= now
    ensures Spread(h + [(now, now)], skew) && Matches(now, 1, h + [(now, now)], asked + [now], skew)
  {
    var h' := h + [(now, now)];
    forall i | 0 <= i < |h| ensures h'[i] == h[i] {
    }
    forall i, j | 0 <= i < j < |h'| && j - i >= PER_MINUTE ensures h'[j].1 >= h'[i].1 + MINUTE {
      assert h'[i] == h[i];
    }
  }

  lemma SkewedPrefix(rs: seq<Request>, n: nat, skew: nat)
    requires Skewed(rs, skew) && n <= |rs|
    ensures Skewed(rs[..n], skew)
  {
  }

  ghost predicate IsReading(rs: seq<Request>, t: int) {
    exists i :: 0 <= i < |rs| && rs[i].1 == t
  }

  lemma {:induction false} RunTracks(rs: seq<Request>, ip: string, skew: nat) returns (latest: int)
    requires rs != [] && Skewed(rs, skew) && skew <= MINUTE
    ensures Tracks(Exec(rs), ip, Admitted(rs, ip), Requested(rs, ip), latest, skew)
    ensures IsReading(rs, latest)
  {
    var rest, r := rs[..|rs| - 1], rs[|rs| - 1];
    SkewedPrefix(rs, |rs| - 1, skew);
    var before := r.1;
    if rest != [] {
      before := RunTracks(rest, ip, skew);
      var i :| 0 <= i < |rest| && rest[i].1 == before;
      assert rs[i].1 - rs[|rest|].1 <= skew;
    }
    latest := Later(before, r.1);
    if r.0 == ip {
      OwnStepTracks(Exec(rest), ip, Admitted(rest, ip), Requested(rest, ip), before, r.1, skew);
    } else {
      OtherStepTracks(Exec(rest), ip, r.0, Admitted(rest, ip), Requested(rest, ip), before, r.1, skew);
      assert Admitted(rest, ip) + [] == Admitted(rest, ip) && Requested(rest, ip) + [] == Requested(rest, ip);
    }
    LatestIsReading(rs, before);
  }

  lemma LatestIsReading(rs: seq<Request>, before: int)
    requires rs != [] && (before == rs[|rs| - 1].1 || IsReading(rs[..|rs| - 1], before))
    ensures IsReading(rs, Later(before, rs[|rs| - 1].1))
  {
    if Later(before, rs[|rs| - 1].1) == rs[|rs| - 1].1 {
      assert rs[|rs| - 1].1 == Later(before, rs[|rs| - 1].1);
    } else {
      var i :| 0 <= i < |rs| - 1 && rs[..|rs| - 1][i].1 == before;
      assert rs[i].1 == before;
    }
  }

  /** A client's admissions 240 places apart are more than a minute apart, less the disorder of the requests:
      in order, at most 240 are admitted in any 60 seconds. */
  lemma AtMostTwoWindows(rs: seq<Request>, ip: string, i: nat, skew: nat)
    requires Skewed(rs, skew) && skew <= MINUTE && i + 2 * PER_MINUTE < |Admitted(rs, ip)|
    ensures Admitted(rs, ip)[i + 2 * PER_MINUTE].0 - Admitted(rs, ip)[i].0 > MINUTE - skew
  {
    if rs != [] {
      var latest := RunTracks(rs, ip, skew);
      var h := Admitted(rs, ip);
      assert h[i + PER_MINUTE].1 >= h[i].1 + MINUTE;
      assert h[i + 2 * PER_MINUTE].1 >= h[i + PER_MINUTE].1 + MINUTE;
    }
  }

  /** A client is refused only when 120 earlier requests of its own lie within the last minute, and the disorder
      of the requests. */
  lemma RefusedOnlyWhenBusy(rs: seq<Request>, ip: string, now: int, skew: nat)
    requires Skewed(rs + [(ip, now)], skew) && skew <= MINUTE
    ensures !Allowed(Exec(rs), ip, now) ==>
      |Requested(rs, ip)| >= PER_MINUTE && now - Requested(rs, ip)[|Requested(rs, ip)| - PER_MINUTE] < MINUTE + skew
  {
    var all := rs + [(ip, now)];
    assert all[..|rs|] == rs;
    SkewedPrefix(all, |rs|, skew);
    if rs != [] {
      var latest := RunTracks(rs, ip, skew);
      var i :| 0 <= i < |rs| && rs[i].1 == latest;
      assert all[i].1 - all[|rs|].1 <= skew;
      OwnStepTracks(Exec(rs), ip, Admitted(rs, ip), Requested(rs, ip), latest, now, skew);
    }
  }

  /** Windows older than two minutes are forgotten with the next request of any client; of the others only that
      client's changes. */
  lemma OldWindowsAreForgotten(w: Windows, ip: string, now: int, other: string)
    ensures other in Step(w, ip, now) ==> Elapsed(now, Step(w, ip, now)[other].0) < 120 * SECOND
    ensures other != ip && other in w && Elapsed(now, w[other].0) < 120 * SECOND ==>
      other in Step(w, ip, now) && Step(w, ip, now)[other] == w[other]
  {
  }

  // ----- The bound is the best ----------------------------------------------------------------

  function Same<T>(x: T, n: nat): seq<T> {
    seq(n, _ => x)
  }

  lemma OneMoreRequest(rs: seq<Request>, ip: string, now: int)
    ensures Exec(rs + [(ip, now)]) == Step(Exec(rs), ip, now)
    ensures Admitted(rs + [(ip, now)], ip)
      == Admitted(rs, ip) + if Allowed(Exec(rs), ip, now) then [(now, Counted(Exec(rs), ip, now).0)] else []
  {
    assert (rs + [(ip, now)])[..|rs|] == rs;
  }

  lemma OneMoreFits(rs: seq<Request>, ip: string, start: int, count: nat, now: int)
    requires Exec(rs) == map[ip := (start, count)] && Elapsed(now, start) < MINUTE && count < PER_MINUTE
    ensures Exec(rs + [(ip, now)]) == map[ip := (start, count + 1)]
    ensures Admitted(rs + [(ip, now)], ip) == Admitted(rs, ip) + [(now, start)]
  {
    OneMoreRequest(rs, ip, now);
  }

  /** Requests that keep within a live window and its limit are all counted and admitted. */
  lemma {:induction false} BatchIsCounted(rs: seq<Request>, ip: string, start: int, count: nat, now: int, n: nat)
    requires Exec(rs) == map[ip := (start, count)] && Elapsed(now, start) < MINUTE && count + n <= PER_MINUTE
    ensures Exec(rs + Same((ip, now), n)) == map[ip := (start, count + n)]
    decreases n
  {
    if n == 0 {
      AddNothing(rs, (ip, now));
    } else {
      var next := rs + [(ip, now)];
      CountsOneMore(rs, next, ip, start, count, now);
      BatchIsCounted(next, ip, start, count + 1, now, n - 1);
      AddOneFirst(rs, (ip, now), n);
    }
  }

  lemma CountsOneMore(rs: seq<Request>, next: seq<Request>, ip: string, start: int, count: nat, now: int)
    requires Exec(rs) == map[ip := (start, count)] && Elapsed(now, start) < MINUTE && count < PER_MINUTE
    requires next == rs + [(ip, now)]
    ensures Exec(next) == map[ip := (start, count + 1)]
  {
    OneMoreFits(rs, ip, start, count, now);
  }

  lemma {:induction false} BatchIsAdmitted(rs: seq<Request>, ip: string, start: int, count: nat, now: int, n: nat)
    requires Exec(rs) == map[ip := (start, count)] && Elapsed(now, start) < MINUTE && count + n <= PER_MINUTE
    ensures Admitted(rs + Same((ip, now), n), ip) == Admitted(rs, ip) + Same((now, start), n)
    decreases n
  {
    if n == 0 {
      AddNothing(rs, (ip, now));
      AddNothing(Admitted(rs, ip), (now, start));
    } else {
      OneMoreFits(rs, ip, start, count, now);
      BatchIsAdmitted(rs + [(ip, now)], ip, start, count + 1, now, n - 1);
      AddOneFirst(rs, (ip, now), n);
      AddOneFirst(Admitted(rs, ip), (now, start), n);
    }
  }

  lemma AddNothing<T>(a: seq<T>, x: T)
    ensures a + Same(x, 0) == a
  {
  }

  lemma AddOneFirst<T>(a: seq<T>, x: T, n: nat)
    requires n > 0
    ensures (a + [x]) + Same(x, n - 1) == a + Same(x, n)
  {
  }

  /** A request that finds no live window opens one. */
  lemma WindowOpens(rs: seq<Request>, ip: string, now: int)
    requires Exec(rs).Keys <= {ip} && (ip in Exec(rs) ==> Elapsed(now, Exec(rs)[ip].0) >= MINUTE)
    ensures Exec(rs + [(ip, now)]) == map[ip := (now, 1)]
    ensures Admitted(rs + [(ip, now)], ip) == Admitted(rs, ip) + [(now, now)]
  {
    OneMoreRequest(rs, ip, now);
  }

  /** One request, 119 at the end of its minute, and 120 as soon as that is over. */
  function TwoFullWindows(ip: string): seq<Request> {
    ([(ip, 0)] + Same((ip, MINUTE - 1), 119)) + ([(ip, MINUTE)] + Same((ip, MINUTE), 119))
  }

  /** One more after another minute, and one read `skew` before that but entering after it. */
  function LateRequests(ip: string, skew: nat): seq<Request> {
    (TwoFullWindows(ip) + [(ip, 2 * MINUTE)]) + [(ip, 2 * MINUTE - skew)]
  }

  lemma FirstWindowFills(ip: string)
    ensures Exec([(ip, 0)] + Same((ip, MINUTE - 1), 119)) == map[ip := (0, 120)]
    ensures Admitted([(ip, 0)] + Same((ip, MINUTE - 1), 119), ip) == [(0, 0)] + Same((MINUTE - 1, 0), 119)
  {
    WindowOpens([], ip, 0);
    assert [] + [(ip, 0)] == [(ip, 0)];
    BatchIsCounted([(ip, 0)], ip, 0, 1, MINUTE - 1, 119);
    BatchIsAdmitted([(ip, 0)], ip, 0, 1, MINUTE - 1, 119);
  }

  lemma TwoWindowsFill(ip: string)
    ensures Exec(TwoFullWindows(ip)) == map[ip := (MINUTE, 120)]
    ensures Admitted(TwoFullWindows(ip), ip)
      == (([(0, 0)] + Same((MINUTE - 1, 0), 119)) + [(MINUTE, MINUTE)]) + Same((MINUTE, MINUTE), 119)
  {
    var first := [(ip, 0)] + Same((ip, MINUTE - 1), 119);
    FirstWindowFills(ip);
    WindowOpens(first, ip, MINUTE);
    BatchIsCounted(first + [(ip, MINUTE)], ip, MINUTE, 1, MINUTE, 119);
    BatchIsAdmitted(first + [(ip, MINUTE)], ip, MINUTE, 1, MINUTE, 119);
    Regroup(first, (ip, MINUTE), Same((ip, MINUTE), 119));
  }

  lemma Regroup<T>(a: seq<T>, x: T, b: seq<T>)
    ensures (a + [x]) + b == a + ([x] + b)
  {
  }

  lemma LateRequestIsAdmitted(ip: string, skew: nat)
    requires skew <= MINUTE
    ensures Admitted(LateRequests(ip, skew), ip)
      == (Admitted(TwoFullWindows(ip), ip) + [(2 * MINUTE, 2 * MINUTE)]) + [(2 * MINUTE - skew, 2 * MINUTE)]
  {
    TwoWindowsFill(ip);
    WindowOpens(TwoFullWindows(ip), ip, 2 * MINUTE);
    OneMoreRequest(TwoFullWindows(ip) + [(ip, 2 * MINUTE)], ip, 2 * MINUTE - skew);
  }

  lemma LateRequestsAreSkewed(ip: string, skew: nat)
    requires skew <= MINUTE
    ensures Skewed(LateRequests(ip, skew), skew)
  {
    var rs := LateRequests(ip, skew);
    assert |rs| == 242;
    forall i | 0 <= i < |rs|
      ensures rs[i].1 == if i == 0 then 0 else if i < 120 then MINUTE - 1 else if i < 240 then MINUTE
                         else if i == 240 then 2 * MINUTE else 2 * MINUTE - skew
    {
    }
  }

  /** Under disorder of at most `skew` admissions 240 places apart are at least `w` apart. */
  ghost predicate Guaranteed(skew: nat, w: int) {
    forall rs, ip, i: nat :: Skewed(rs, skew) && i + 2 * PER_MINUTE < |Admitted(rs, ip)| ==>
      Admitted(rs, ip)[i + 2 * PER_MINUTE].0 - Admitted(rs, ip)[i].0 >= w
  }

  /** Two admissions 240 places apart that are only a minute and a nanosecond less `skew` apart. */
  lemma LateRequestBreaks(ip: string, skew: nat)
    requires skew <= MINUTE
    ensures Skewed(LateRequests(ip, skew), skew) && |Admitted(LateRequests(ip, skew), ip)| == 242
    ensures var h := Admitted(LateRequests(ip, skew), ip); h[241].0 - h[1].0 == MINUTE - skew + 1
  {
    LateRequestsAreSkewed(ip, skew);
    TwoWindowsFill(ip);
    LateRequestIsAdmitted(ip, skew);
    var h := Admitted(TwoFullWindows(ip), ip);
    assert |h| == 240 && h[1] == (MINUTE - 1, 0);
  }

  /** The distance that disorder leaves is exactly a minute and a nanosecond less the disorder; so at most 240
      requests in any minute are promised if and only if the disorder is at most a nanosecond. */
  lemma ExactDistance(skew: nat, w: int)
    requires skew <= MINUTE
    ensures Guaranteed(skew, w) <==> w <= MINUTE - skew + 1
  {
    if w <= MINUTE - skew + 1 {
      forall rs, ip, i: nat | Skewed(rs, skew) && i + 2 * PER_MINUTE < |Admitted(rs, ip)|
        ensures Admitted(rs, ip)[i + 2 * PER_MINUTE].0 - Admitted(rs, ip)[i].0 >= w
      {
        AtMostTwoWindows(rs, ip, i, skew);
      }
    } else {
      LateRequestBreaks("", skew);
      assert Admitted(LateRequests("", skew), "")[1 + 2 * PER_MINUTE].0 - Admitted(LateRequests("", skew), "")[1].0 < w;
    }
  }
}
