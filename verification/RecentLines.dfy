/** The shared buffer: channel deques that lines are pushed onto, popped from and purged. */
module RecentLines {
  import opened Prelude
  import opened Text
  import opened RecentModel

  /** Drops control characters and cuts after 500 characters. */
  method Sanitize(s: string) returns (t: string)
    ensures t == CleanText(s)
  {
    t := [];
    var n := 0;
    while n < |s| && |t| < MAX_TEXT_CHARS
      invariant n <= |s| && t == WithoutControls(s[..n]) && |t| <= MAX_TEXT_CHARS
    {
      assert s[..n + 1][..n] == s[..n];
      if !IsControl(s[n]) {
        t := t + [s[n]];
      }
      n := n + 1;
    }
    WithoutControlsPrefix(s, n);
    assert s[..|s|] == s;
  }

  lemma {:induction false} WithoutControlsPrefix(s: string, n: nat)
    requires n <= |s|
    ensures WithoutControls(s[..n]) <= WithoutControls(s)
    decreases |s|
  {
    if n < |s| {
      WithoutControlsPrefix(s[..|s| - 1], n);
      assert s[..|s| - 1][..n] == s[..n];
    } else {
      assert s[..n] == s;
    }
  }

  lemma {:induction false} RetainAppends(a: seq<Line>, x: Line, profileId: string, nicks: seq<string>)
    ensures Retain(a + [x], profileId, nicks)
      == Retain(a, profileId, nicks) + if BelongsTo(x, profileId, nicks) then [] else [x]
  {
    assert (a + [x])[..|a|] == a;
  }

  class Buffer {
    var channels: Buffers

    constructor ()
      ensures channels == map[]
    {
      channels := map[];
    }

    /** A channel that no other has been silent for longer than. */
    method Stalest() returns (c: Channel)
      requires |channels| > 0
      ensures c in channels && forall o :: o in channels ==> LastSeen(channels[c]) <= LastSeen(channels[o])
    {
      var left := channels.Keys;
      assert |left| == |channels|;
      c :| c in left;
      left := left - {c};
      while left != {}
        invariant c in channels && left <= channels.Keys && c !in left
        invariant forall o :: o in channels && o !in left ==> LastSeen(channels[c]) <= LastSeen(channels[o])
        decreases left
      {
        var o :| o in left;
        left := left - {o};
        if LastSeen(channels[o]) < LastSeen(channels[c]) {
          c := o;
        }
      }
    }

    method Record(c: Channel, line: Line) returns (evicted: Option<Channel>)
      modifies this
      ensures MayEvict(old(channels), c, evicted)
      ensures channels == RecordStep(old(channels), c, line, evicted)
    {
      var text := Sanitize(line.text);
      evicted := None;
      if c !in channels && |channels| >= MAX_CHANNELS {
        var stalest := Stalest();
        evicted := Some(stalest);
        channels := channels - {stalest};
      }
      var lines := if c in channels then channels[c] else [];
      ghost var before := lines;
      var cutoff := SaturatingSub(line.timestamp, MAX_AGE_SECS);
      while lines != [] && lines[0].timestamp < cutoff
        invariant DropOlder(lines, cutoff) == DropOlder(before, cutoff)
        decreases |lines|
      {
        lines := lines[1..];
      }
      if |lines| >= MAX_LINES {
        lines := lines[1..];
      }
      lines := lines + [line.(text := text)];
      channels := channels[c := lines];
    }

    /** Walks back from the newest line and stops once it has enough. */
    method Query(r: Request, now: I64) returns (selected: seq<Line>)
      ensures selected
        == if (r.server, r.channel) in channels then Answer(channels[(r.server, r.channel)], r, now) else []
    {
      var c := (r.server, r.channel);
      if c !in channels {
        return [];
      }
      var lines := channels[c];
      var limit := if r.limit < MAX_LINES then r.limit else MAX_LINES;
      selected := [];
      var n := |lines|;
      assert lines[..n] == lines;
      while n > 0 && |selected| < limit
        invariant 0 <= n <= |lines| && |selected| <= limit
        invariant Matching(lines, r, now) == Matching(lines[..n], r, now) + selected
      {
        assert lines[..n][..n - 1] == lines[..n - 1];
        n := n - 1;
        if Matches(lines[n], r, now) {
          selected := [lines[n]] + selected;
        }
      }
    }

    method Purge(server: string, profileId: string, nicks: seq<string>)
      modifies this
      ensures channels == PurgeStep(old(channels), server, profileId, nicks)
    {
      var left := channels.Keys;
      while left != {}
        invariant left <= channels.Keys && channels.Keys == old(channels).Keys
        invariant forall c :: c in channels ==> (
          channels[c] == if c in left then old(channels)[c] else PurgeStep(old(channels), server, profileId, nicks)[c])
        decreases left
      {
        var c :| c in left;
        if c.0 == server {
          var kept := RetainLines(channels[c], profileId, nicks);
          channels := channels[c := kept];
        }
        left := left - {c};
      }
    }
  }

  method RetainLines(lines: seq<Line>, profileId: string, nicks: seq<string>) returns (kept: seq<Line>)
    ensures kept == Retain(lines, profileId, nicks)
  {
    kept := [];
    for n := 0 to |lines|
      invariant kept == Retain(lines[..n], profileId, nicks)
    {
      assert lines[..n + 1] == lines[..n] + [lines[n]];
      RetainAppends(lines[..n], lines[n], profileId, nicks);
      if !BelongsTo(lines[n], profileId, nicks) {
        kept := kept + [lines[n]];
      }
    }
    assert lines[..|lines|] == lines;
  }
}
