/** Which keys of the economy can belong to two people: profile ids are UUIDs and contain no colon, network
    labels are free text and may. */
module EconomyKeys {
  import opened Prelude
  import opened Text
  import opened EconomyModel

  predicate ColonFree(s: string) {
    forall i :: 0 <= i < |s| ==> s[i] != ':'
  }

  predicate Separable(server: string, profileId: string) {
    ColonFree(server) && ColonFree(profileId)
  }

  predicate IsFor(e: Event, server: string, profileId: string) {
    e.r.server == server && e.r.profileId == profileId
  }

  // ----- Balances -----------------------------------------------------------------------------

  /** From the last colon on: two colon-free tails after a colon are equal. */
  lemma LastFieldDecided(a: string, x: string, b: string, y: string)
    requires ColonFree(x) && ColonFree(y) && a + ":" + x == b + ":" + y
    ensures a == b && x == y
  {
    var s := a + ":" + x;
    assert s == a + (":" + x) && s == b + (":" + y);
    assert s[|a|] == ':' && s[|b|] == ':';
    assert forall i {:trigger s[i]} :: |a| < i < |s| ==> s[i] == x[i - |a| - 1] && s[i] != ':';
    assert forall i {:trigger s[i]} :: |b| < i < |s| ==> s[i] == y[i - |b| - 1] && s[i] != ':';
    assert s[..|a|] == a && s[..|b|] == b;
    assert s[|a| + 1..] == x && s[|b| + 1..] == y;
  }

  /** On ids without colons no two people share a balance, whatever the labels of their networks. */
  lemma BalanceKeysApart(s1: string, p1: string, s2: string, p2: string)
    requires ColonFree(p1) && ColonFree(p2) && BalanceKey(s1, p1) == BalanceKey(s2, p2)
    ensures s1 == s2 && p1 == p2
  {
    var head := "economy:balance:";
    assert BalanceKey(s1, p1)[|head|..] == s1 + ":" + p1;
    assert BalanceKey(s2, p2)[|head|..] == s2 + ":" + p2;
    LastFieldDecided(s1, p1, s2, p2);
  }

  /** Over all strings the key of a balance is somebody else's too exactly when a field holds a colon. */
  lemma SharedBalanceIff(s: string, p: string)
    ensures (exists s2, p2 :: (s2, p2) != (s, p) && BalanceKey(s2, p2) == BalanceKey(s, p)) <==> !Separable(s, p)
  {
    if !ColonFree(s) {
      var i :| 0 <= i < |s| && s[i] == ':';
      assert s == s[..i] + ":" + s[i + 1..];
      assert BalanceKey(s[..i], s[i + 1..] + ":" + p) == BalanceKey(s, p);
      assert (s[..i], s[i + 1..] + ":" + p) != (s, p);
    } else if !ColonFree(p) {
      var i :| 0 <= i < |p| && p[i] == ':';
      assert p == p[..i] + ":" + p[i + 1..];
      assert BalanceKey(s + ":" + p[..i], p[i + 1..]) == BalanceKey(s, p);
      assert (s + ":" + p[..i], p[i + 1..]) != (s, p);
    } else {
      forall s2, p2 | BalanceKey(s2, p2) == BalanceKey(s, p) ensures (s2, p2) == (s, p) {
        OnlyColonIsTheSeparator(s, p, s2, p2);
      }
    }
  }

  lemma OnlyColonIsTheSeparator(s: string, p: string, s2: string, p2: string)
    requires Separable(s, p) && BalanceKey(s2, p2) == BalanceKey(s, p)
    ensures s2 == s && p2 == p
  {
    var head := "economy:balance:";
    var t := s + ":" + p;
    assert BalanceKey(s, p)[|head|..] == t && BalanceKey(s2, p2)[|head|..] == s2 + ":" + p2;
    assert t[|s2|] == ':';
    assert forall i {:trigger t[i]} :: 0 <= i < |s| ==> t[i] == s[i];
    assert forall i {:trigger t[i]} :: |s| < i < |t| ==> t[i] == p[i - |s| - 1];
    assert |s2| == |s|;
    assert t[..|s|] == s && t[..|s|] == s2;
    assert t[|s| + 1..] == p && t[|s| + 1..] == p2;
  }

  // ----- Ledgers ------------------------------------------------------------------------------

  function Fields(server: string, profileId: string): string {
    server + ":" + profileId + ":"
  }

  /** The label of another network goes on from this network's label with this profile's id. */
  predicate Nested(server: string, profileId: string, other: string) {
    Fields(server, profileId) <= other + ":"
  }

  lemma LedgerKeyFields(server: string, profileId: string, eventId: string)
    ensures LedgerPrefix(server, profileId) == "economy:ledger:" + Fields(server, profileId)
    ensures LedgerKey(server, profileId, eventId) == "economy:ledger:" + (Fields(server, profileId) + eventId)
  {
    assert LedgerPrefix(server, profileId) == "economy:ledger:" + Fields(server, profileId);
  }

  lemma AfterHead(head: string, a: string, b: string)
    ensures head + a <= head + b <==> a <= b
  {
    assert (head + a)[|head|..] == a && (head + b)[|head|..] == b;
    assert a <= b ==> head + b == head + a + b[|a|..];
    assert head + a <= head + b ==> a == b[..|a|];
  }

  lemma ShorterFieldsNest(s1: string, p1: string, s2: string, p2: string)
    requires ColonFree(p1) && ColonFree(p2) && Fields(s1, p1) <= Fields(s2, p2)
    ensures (s1 == s2 && p1 == p2) || Nested(s1, p1, s2)
  {
    var a, b := Fields(s1, p1), Fields(s2, p2);
    if |a| == |b| {
      assert a[..|a| - 1] == s1 + ":" + p1 && b[..|b| - 1] == s2 + ":" + p2;
      LastFieldDecided(s1, p1, s2, p2);
    } else {
      assert b[|a| - 1] == ':';
      assert forall i {:trigger b[i]} :: |s2| < i < |b| - 1 ==> b[i] == p2[i - |s2| - 1];
      assert b[..|s2| + 1] == s2 + ":";
      assert a == b[..|s2| + 1][..|a|];
    }
  }

  /** One person's ledger prefix matches only that person's rows, unless one label nests in the other. */
  lemma LedgerKeysApart(s1: string, p1: string, s2: string, p2: string, eventId: string)
    requires ColonFree(p1) && ColonFree(p2) && !Nested(s1, p1, s2) && !Nested(s2, p2, s1)
    requires LedgerPrefix(s1, p1) <= LedgerKey(s2, p2, eventId)
    ensures s1 == s2 && p1 == p2
  {
    var a, b := Fields(s1, p1), Fields(s2, p2);
    LedgerKeyFields(s1, p1, "");
    LedgerKeyFields(s2, p2, eventId);
    AfterHead("economy:ledger:", a, b + eventId);
    assert b <= b + eventId;
    if |a| <= |b| {
      assert a <= b;
      ShorterFieldsNest(s1, p1, s2, p2);
    } else {
      assert b <= a;
      ShorterFieldsNest(s2, p2, s1, p1);
    }
  }

  /** On ids without colons two people's ledgers overlap exactly when one network's label nests in the
      other's under the person's own id. */
  lemma LedgersOverlapIff(s1: string, p1: string, s2: string, p2: string)
    requires ColonFree(p1) && ColonFree(p2) && (s1, p1) != (s2, p2)
    ensures (exists eventId :: LedgerPrefix(s1, p1) <= LedgerKey(s2, p2, eventId)) <==>
      Nested(s1, p1, s2) || Nested(s2, p2, s1)
  {
    forall eventId | LedgerPrefix(s1, p1) <= LedgerKey(s2, p2, eventId)
      ensures Nested(s1, p1, s2) || Nested(s2, p2, s1)
    {
      if !Nested(s1, p1, s2) && !Nested(s2, p2, s1) {
        LedgerKeysApart(s1, p1, s2, p2, eventId);
      }
    }
    if Nested(s1, p1, s2) {
      OuterLedgerSeesInner(s1, p1, s2, p2);
    }
    if Nested(s2, p2, s1) {
      InnerLedgerSeesOuter(s1, p1, s2, p2);
    }
  }

  lemma OuterLedgerSeesInner(s1: string, p1: string, s2: string, p2: string)
    requires Nested(s1, p1, s2)
    ensures LedgerPrefix(s1, p1) <= LedgerKey(s2, p2, "")
  {
    LedgerKeyFields(s1, p1, "");
    LedgerKeyFields(s2, p2, "");
    assert s2 + ":" <= Fields(s2, p2) + "";
    AfterHead("economy:ledger:", Fields(s1, p1), Fields(s2, p2) + "");
  }

  lemma InnerLedgerSeesOuter(s1: string, p1: string, s2: string, p2: string)
    requires Nested(s2, p2, s1)
    ensures exists eventId :: LedgerPrefix(s1, p1) <= LedgerKey(s2, p2, eventId)
  {
    var b, a := Fields(s2, p2), Fields(s1, p1);
    assert s1 + ":" <= a && b <= a;
    var eventId := a[|b|..];
    LedgerKeyFields(s1, p1, "");
    LedgerKeyFields(s2, p2, eventId);
    assert a == b + eventId;
    AfterHead("economy:ledger:", a, b + eventId);
    assert LedgerPrefix(s1, p1) <= LedgerKey(s2, p2, eventId);
  }

  /** Labels without colons never nest. */
  lemma ColonFreeLabelsNeverNest(server: string, profileId: string, other: string)
    requires ColonFree(other)
    ensures !Nested(server, profileId, other)
  {
    assert Fields(server, profileId)[|server|] == ':';
    assert |server| < |other| ==> (other + ":")[|server|] == other[|server|];
  }

  lemma BalanceIsNoLedgerRow(s1: string, p1: string, s2: string, p2: string)
    ensures !(LedgerPrefix(s1, p1) <= BalanceKey(s2, p2))
  {
    assert LedgerPrefix(s1, p1)[8] == 'l' && BalanceKey(s2, p2)[8] == 'b';
  }

  // ----- A collision on ids that the host issues ----------------------------------------------

  /** Someone on the network labelled "net:" and `id` has won. */
  function Win(id: string, other: string): Event {
    Event(true, Request("net:" + id, other, 10, "win", ""), false, 5)
  }

  function Namesake(id: string, other: string): Request {
    Request("net", id, 10, other + ":win", "")
  }

  lemma PlainIsValid(r: Request)
    requires r.server != "" && r.profileId != "" && r.eventId != "" && r.amount > 0 && r.reason == ""
    requires |r.eventId| <= 256
    requires forall i :: 0 <= i < |r.eventId| ==> 0x20 < r.eventId[i] as int < 0x7F
    requires 0x20 < r.server[0] as int < 0x7F && 0x20 < r.profileId[0] as int < 0x7F
    ensures ValidRequest(r)
  {
    AsciiBytes(r.eventId);
    assert !IsSpace(r.server[0]) && !IsSpace(r.profileId[0]) && !IsSpace(r.eventId[0]);
  }

  lemma RequestsAreValid(id: string, other: string)
    requires IsUuid(id) && IsUuid(other)
    ensures ColonFree(id) && ColonFree(other) && ValidRequest(Win(id, other).r) && ValidRequest(Namesake(id, other))
  {
    PlainIsValid(Win(id, other).r);
    PlainIsValid(Namesake(id, other));
  }

  lemma SharedRow(id: string, other: string, eventId: string)
    ensures Nested("net", id, "net:" + id)
    ensures LedgerKey("net:" + id, other, eventId) == LedgerKey("net", id, other + ":" + eventId)
  {
    LedgerKeyFields("net:" + id, other, eventId);
    LedgerKeyFields("net", id, other + ":" + eventId);
    assert Fields("net:" + id, other) + eventId == Fields("net", id) + (other + ":" + eventId);
    assert Fields("net", id) == ("net:" + id) + ":";
  }

  /** Nested labels share rows: for any two ids that the host can issue, an event never applied to the first
      person, and due to apply, is taken for a repetition after the second person's award. */
  lemma NestedLabelsShareAnEvent(id: string, other: string)
    requires IsUuid(id) && IsUuid(other)
    ensures Nested("net", id, "net:" + id)
    ensures Applies(map[], Win(id, other)) && Judge(map[], true, Namesake(id, other), false) == Fresh(10)
    ensures Judge(Step(map[], Win(id, other)), true, Namesake(id, other), false) == Replay(0)
  {
    RequestsAreValid(id, other);
    SharedRow(id, other, "win");
    assert LedgerKey("net", id, other + ":win") == LedgerKey("net:" + id, other, "win") by {
      assert other + ":" + "win" == other + ":win";
    }
    FirstRowStays("net:" + id, other, Win(id, other));
    NoBalanceYet(id, other);
    TakenForRepetition(Step(map[], Win(id, other)), Namesake(id, other));
  }

  lemma TakenForRepetition(kv: Kv, r: Request)
    requires ValidRequest(r) && LedgerKey(r.server, r.profileId, r.eventId) in kv
    requires BalanceKey(r.server, r.profileId) !in kv
    ensures Judge(kv, true, r, false) == Replay(0)
  {
  }

  lemma NoBalanceYet(id: string, other: string)
    requires ColonFree(id) && ColonFree(other)
    ensures BalanceKey("net", id) !in {BalanceKey("net:" + id, other), LedgerKey("net:" + id, other, "win")}
  {
    assert |"net:" + id| > |"net"|;
    if BalanceKey("net", id) == BalanceKey("net:" + id, other) {
      BalanceKeysApart("net", id, "net:" + id, other);
    }
    BalanceIsNoLedgerRow("net:" + id, other, "net", id);
    assert LedgerPrefix("net:" + id, other) <= LedgerKey("net:" + id, other, "win");
  }

  /** The first award of all leaves its ledger row and its balance, and nothing else. */
  lemma FirstRowStays(server: string, profileId: string, e: Event)
    requires IsFor(e, server, profileId) && Applies(map[], e)
    ensures Step(map[], e).Keys == {BalanceKey(server, profileId), LedgerKey(server, profileId, e.r.eventId)}
  {
    var prefix, key := LedgerPrefix(server, profileId), LedgerKey(server, profileId, e.r.eventId);
    var written := Written(map[], e.r, e.spend, Judge(map[], e.known, e.r, e.spend).next, e.at);
    BalanceIsNoLedgerRow(server, profileId, server, profileId);
    assert Listed(written, prefix) <= {key};
    assert Later(written, Listed(written, prefix), key) <= {key};
    SubsetIsSmaller(Later(written, Listed(written, prefix), key), {key});
  }
}
