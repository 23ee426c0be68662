/** First come, first served: commands, in a fixed order, each ask for a list of names; a name is granted
    to the first command that asks for it unless it is reserved. */
module Greedy {
  import opened Text

  /** Everything asked for by the commands before `i`. */
  function Before(wanted: seq<seq<string>>, i: nat): set<string>
    requires i <= |wanted|
  {
    if i == 0 then {} else Before(wanted, i - 1) + Elements(wanted[i - 1])
  }

  lemma {:induction false} BeforeMeans(wanted: seq<seq<string>>, i: nat, a: string)
    requires i <= |wanted|
    ensures a in Before(wanted, i) <==> exists j :: 0 <= j < i && a in wanted[j]
  {
    if i > 0 {
      BeforeMeans(wanted, i - 1, a);
    }
  }

  /** The names of a list that are not taken, in order. */
  function Keep(names: seq<string>, taken: set<string>): seq<string> {
    if names == [] then []
    else
      var rest, last := names[..|names| - 1], names[|names| - 1];
      Keep(rest, taken) + if last in taken then [] else [last]
  }

  lemma {:induction false} KeepMeans(names: seq<string>, taken: set<string>)
    ensures forall a :: a in Keep(names, taken) <==> a in names && a !in taken
  {
    if names != [] {
      KeepMeans(names[..|names| - 1], taken);
      assert names == names[..|names| - 1] + [names[|names| - 1]];
    }
  }

  lemma {:induction false} KeepIsDistinct(names: seq<string>, taken: set<string>)
    requires forall i, j :: 0 <= i < j < |names| ==> names[i] != names[j]
    ensures forall i, j :: 0 <= i < j < |Keep(names, taken)| ==> Keep(names, taken)[i] != Keep(names, taken)[j]
  {
    if names != [] {
      var rest, last := names[..|names| - 1], names[|names| - 1];
      KeepIsDistinct(rest, taken);
      KeepMeans(rest, taken);
      forall i | 0 <= i < |Keep(rest, taken)| ensures Keep(rest, taken)[i] != last {
        assert Keep(rest, taken)[i] in rest;
      }
    }
  }

  lemma {:induction false} KeepAll(names: seq<string>, taken: set<string>)
    requires forall a :: a in names ==> a !in taken
    ensures Keep(names, taken) == names
  {
    if names != [] {
      assert names == names[..|names| - 1] + [names[|names| - 1]];
      KeepAll(names[..|names| - 1], taken);
    }
  }

  function Granted(reserved: set<string>, wanted: seq<seq<string>>, i: nat): seq<string>
    requires i < |wanted|
  {
    Keep(wanted[i], reserved + Before(wanted, i))
  }

  /** A name is granted to `i` exactly when `i` is the first to ask for it and it is not reserved. */
  lemma GrantedMeans(reserved: set<string>, wanted: seq<seq<string>>, i: nat, a: string)
    requires i < |wanted|
    ensures a in Granted(reserved, wanted, i) <==>
      a in wanted[i] && a !in reserved && forall j :: 0 <= j < i ==> a !in wanted[j]
  {
    KeepMeans(wanted[i], reserved + Before(wanted, i));
    BeforeMeans(wanted, i, a);
  }

  lemma GrantedOnce(reserved: set<string>, wanted: seq<seq<string>>, i: nat, j: nat, a: string)
    requires i < |wanted| && j < |wanted|
    requires a in Granted(reserved, wanted, i) && a in Granted(reserved, wanted, j)
    ensures i == j && a !in reserved
  {
    GrantedMeans(reserved, wanted, i, a);
    GrantedMeans(reserved, wanted, j, a);
  }

  /** Whoever asked first for a free name holds it. */
  lemma {:induction false} FirstAskerHolds(reserved: set<string>, wanted: seq<seq<string>>, i: nat, a: string)
    returns (j: nat)
    requires i < |wanted| && a in wanted[i] && a !in reserved
    ensures j <= i && a in Granted(reserved, wanted, j)
    decreases i
  {
    if k: nat :| k < i && a in wanted[k] {
      j := FirstAskerHolds(reserved, wanted, k, a);
    } else {
      j := i;
      GrantedMeans(reserved, wanted, i, a);
    }
  }

  /** Command `t` asks for `chosen` instead of what it asked for before. None of the new names is
      reserved or held by another command. */
  ghost predicate Clear(reserved: set<string>, wanted: seq<seq<string>>, t: nat, chosen: seq<string>)
    requires t < |wanted|
  {
    forall a :: a in chosen ==>
      a !in reserved && forall j :: 0 <= j < |wanted| && j != t ==> a !in Granted(reserved, wanted, j)
  }

  /** Then `t` is granted all of it, in order. */
  lemma ChangeTakesEffect(reserved: set<string>, wanted: seq<seq<string>>, t: nat, chosen: seq<string>)
    requires t < |wanted| && Clear(reserved, wanted, t, chosen)
    ensures Granted(reserved, wanted[t := chosen], t) == chosen
  {
    var wanted' := wanted[t := chosen];
    forall a | a in chosen ensures a !in reserved + Before(wanted', t) {
      BeforeMeans(wanted', t, a);
      if j: nat :| j < t && a in wanted'[j] {
        var k := FirstAskerHolds(reserved, wanted, j, a);
      }
    }
    KeepAll(chosen, reserved + Before(wanted', t));
  }

  /** Every other command keeps what it held. */
  lemma OthersKeep(reserved: set<string>, wanted: seq<seq<string>>, t: nat, chosen: seq<string>, i: nat, a: string)
    requires t < |wanted| && Clear(reserved, wanted, t, chosen)
    requires i < |wanted| && i != t && a in Granted(reserved, wanted, i)
    ensures a in Granted(reserved, wanted[t := chosen], i)
  {
    GrantedMeans(reserved, wanted, i, a);
    GrantedMeans(reserved, wanted[t := chosen], i, a);
  }

  /** Another command gains only what `t` held and no longer asks for. */
  lemma OthersGainWhatIsGivenUp(reserved: set<string>, wanted: seq<seq<string>>, t: nat, chosen: seq<string>, i: nat,
                                a: string)
    requires t < |wanted| && i < |wanted| && i != t
    requires a in Granted(reserved, wanted[t := chosen], i) && a !in Granted(reserved, wanted, i)
    ensures a in Granted(reserved, wanted, t) && a !in chosen
  {
    var wanted' := wanted[t := chosen];
    GrantedMeans(reserved, wanted, i, a);
    GrantedMeans(reserved, wanted', i, a);
    assert forall k :: 0 <= k < |wanted| && k != t ==> wanted'[k] == wanted[k];
    assert wanted'[t] == chosen;
    var j: nat :| j < i && a in wanted[j];
    assert j == t;
    GrantedMeans(reserved, wanted, t, a);
  }
}
