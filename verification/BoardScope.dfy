/** Which unlocks count for the board, what is shown of them, and how the lists are cut. */
module BoardScope {
  import opened Prelude
  import opened Text
  import opened AchievementModel
  import opened Board

  // ----- The achievements in scope --------------------------------------------------------------

  /** An achievement of a loaded module, of the one asked for if any. */
  ghost predicate InCatalogue(cs: seq<Catalog>, wanted: Option<string>, i: int, j: int, m: string, id: string) {
    && 0 <= i < |cs| && cs[i].moduleName == m && (wanted.Some? ==> Lower(m) == Lower(wanted.value))
    && 0 <= j < |cs[i].manifest.achievements| && cs[i].manifest.achievements[j].id == id
  }

  lemma {:induction false} NameAllMeans(names: Names, m: string, items: seq<Achievement>, key: (string, string))
    requires forall i, j :: 0 <= i < j < |items| ==> items[i].id != items[j].id
    ensures key in NameAll(names, m, items)
      <==> key in names || exists j :: 0 <= j < |items| && key == (m, items[j].id)
    ensures forall j :: 0 <= j < |items| && key == (m, items[j].id) ==>
      NameAll(names, m, items)[key] == (items[j].name, items[j].secret)
    ensures key in names && key.0 != m ==> NameAll(names, m, items)[key] == names[key]
  {
    if items != [] {
      var rest := items[..|items| - 1];
      NameAllMeans(names, m, rest, key);
      assert items == rest + [items[|rest|]];
    }
  }

  /** The names in scope are those of the achievements in scope, each with its name and secrecy. */
  lemma {:induction false} NamesMean(cs: seq<Catalog>, wanted: Option<string>, m: string, id: string)
    requires ValidCatalogs(cs)
    ensures (m, id) in NamesIn(cs, wanted) <==> exists i, j :: InCatalogue(cs, wanted, i, j, m, id)
    ensures forall i, j :: InCatalogue(cs, wanted, i, j, m, id) ==>
      NamesIn(cs, wanted)[(m, id)] == (cs[i].manifest.achievements[j].name, cs[i].manifest.achievements[j].secret)
  {
    if cs != [] {
      var last := |cs| - 1;
      var rest, c := cs[..last], cs[last];
      NamesMean(rest, wanted, m, id);
      NameAllMeans(NamesIn(rest, wanted), c.moduleName, c.manifest.achievements, (m, id));
      forall i, j
        ensures InCatalogue(rest, wanted, i, j, m, id) <==> i != last && InCatalogue(cs, wanted, i, j, m, id)
      {
        NotTheLast(cs, wanted, i, j, m, id);
      }
      LastCatalogue(cs, wanted, last, m, id);
    }
  }

  lemma NotTheLast(cs: seq<Catalog>, wanted: Option<string>, i: int, j: int, m: string, id: string)
    requires cs != []
    ensures InCatalogue(cs[..|cs| - 1], wanted, i, j, m, id) <==>
      i != |cs| - 1 && InCatalogue(cs, wanted, i, j, m, id)
  {
    assert 0 <= i < |cs| - 1 ==> cs[..|cs| - 1][i] == cs[i];
  }

  lemma LastCatalogue(cs: seq<Catalog>, wanted: Option<string>, last: int, m: string, id: string)
    requires 0 <= last == |cs| - 1
    ensures var c := cs[last];
      (exists j :: InCatalogue(cs, wanted, last, j, m, id)) <==>
        && (wanted.None? || Lower(c.moduleName) == Lower(wanted.value))
        && exists j :: 0 <= j < |c.manifest.achievements| && (m, id) == (c.moduleName, c.manifest.achievements[j].id)
  {
    var c := cs[last];
    if wanted.None? || Lower(c.moduleName) == Lower(wanted.value) {
      if j :| 0 <= j < |c.manifest.achievements| && (m, id) == (c.moduleName, c.manifest.achievements[j].id) {
        assert InCatalogue(cs, wanted, last, j, m, id);
      }
    }
    if j :| InCatalogue(cs, wanted, last, j, m, id) {
      assert (m, id) == (c.moduleName, c.manifest.achievements[j].id);
    }
  }

  // ----- The rows in scope ----------------------------------------------------------------------

  /** A row counts exactly if it is of this network, of somebody who takes part, and of an achievement in scope; it
      counts as often as it is there. */
  lemma {:induction false} SelectMeans(rows: seq<Unlock>, server: string, names: Names, u: Unlock)
    ensures multiset(Select(rows, server, names))[u]
      == if u.server == server && !u.optOut && u.m != "meta" && (u.m, u.id) in names then multiset(rows)[u] else 0
  {
    if rows != [] {
      SelectMeans(rows[..|rows| - 1], server, names, u);
      assert rows == rows[..|rows| - 1] + [rows[|rows| - 1]];
    }
  }

  /** So nobody who has opted out is a collector, a holder or a recent unlocker. */
  lemma OptedOutAreAbsent(rows: seq<Unlock>, server: string, cs: seq<Catalog>, wanted: Option<string>, p: string)
    requires ValidCatalogs(cs) && forall u :: u in rows && u.server == server && u.profileId == p ==> u.optOut
    ensures p !in PeopleOf(Select(rows, server, NamesIn(cs, wanted)))
  {
    var us := Select(rows, server, NamesIn(cs, wanted));
    forall i | 0 <= i < |us| ensures us[i].profileId != p {
      SelectMeans(rows, server, NamesIn(cs, wanted), us[i]);
      assert us[i] in us;
      assert us[i] in multiset(us) && us[i] in multiset(rows);
      assert us[i] in rows;
    }
  }

  // ----- What is shown --------------------------------------------------------------------------

  /** A secret achievement is shown by the word "Secret". */
  function Shown(u: Unlock, name: string, secret: bool): RecentUnlock {
    RecentUnlock(u.profileId, u.nick, u.m, u.id, if secret then "Secret" else name, u.at, secret)
  }

  /** The recent unlocks are those from the given time on, row by row, with secret names covered. */
  lemma {:induction false} SinceMeans(a: seq<Unlock>, b: seq<Unlock>, names: Names, since: int)
    requires forall u :: u in a + b ==> (u.m, u.id) in names
    ensures Since(a + b, names, since) == Since(a, names, since) + Since(b, names, since)
    ensures |a| == 1 ==>
      Since(a, names, since)
      == (if a[0].at < since then [] else [Shown(a[0], names[(a[0].m, a[0].id)].0, names[(a[0].m, a[0].id)].1)])
  {
    assert forall i :: 0 <= i < |a| ==> (a + b)[i] == a[i];
    assert forall i :: 0 <= i < |b| ==> (a + b)[|a| + i] == b[i];
    if b == [] {
      assert a + b == a;
    } else {
      var rest := b[..|b| - 1];
      assert (a + b)[..|a + b| - 1] == a + rest;
      assert forall u :: u in a + rest ==> u in a + b;
      SinceMeans(a, rest, names, since);
    }
  }

  /** The lists are cut at the limit asked for, but hold at least one and at most 200 entries if there are any. */
  lemma CutMeans<T>(list: seq<T>, limit: nat)
    ensures var cut := Take(list, Limit(limit));
      && cut <= list
      && (limit == 0 ==> |cut| == Min(|list|, 1))
      && (1 <= limit <= 200 ==> |cut| == Min(|list|, limit))
      && (limit >= 200 ==> |cut| == Min(|list|, 200))
  {
  }
}
