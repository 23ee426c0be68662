/** Unbiased draws from batches of host randomness: a byte pool and rejection sampling. */
module Entropy {
  import opened Prelude

  const RANGE: nat := 0x1_0000_0000

  type Byte = n: nat | n < 256
  type U32 = n: nat | n <= U32_MAX

  function Word(bytes: seq<Byte>): U32
    requires |bytes| == 4
  {
    var b0: nat, b1: nat, b2: nat, b3: nat := bytes[0], bytes[1], bytes[2], bytes[3];
    b0 + 256 * b1 + 65_536 * b2 + 16_777_216 * b3
  }

  /** Words stand one to one for their bytes, the first the least significant. */
  lemma WordHoldsItsBytes(bytes: seq<Byte>)
    requires |bytes| == 4
    ensures var w: nat := Word(bytes);
      w % 256 == bytes[0] && w / 256 % 256 == bytes[1] && w / 65_536 % 256 == bytes[2] && w / 16_777_216 == bytes[3]
  {
    var b0: nat, b1: nat, b2: nat, b3: nat := bytes[0], bytes[1], bytes[2], bytes[3];
    var w: nat := Word(bytes);
    assert w == b0 + 256 * (b1 + 256 * (b2 + 256 * b3));
    assert w / 256 == b1 + 256 * (b2 + 256 * b3);
    assert w / 65_536 == b2 + 256 * b3;
  }

  // ----- Rejection ----------------------------------------------------------------------------

  function AtLeastOne(upper: U32): (u: U32) {
    if upper < 1 then 1 else upper
  }

  /** Values below the zone are accepted. */
  function Zone(upper: U32): U32 {
    var u := AtLeastOne(upper);
    U32_MAX - U32_MAX % u
  }

  /** Accepted values with this remainder. */
  function Accepted(upper: U32, residue: nat): set<nat> {
    Residues(Zone(upper), AtLeastOne(upper), residue)
  }

  function Residues(zone: nat, u: nat, residue: nat): set<nat>
    requires u > 0
  {
    set v | 0 <= v < zone && v % u == residue
  }

  function Multiples(u: nat, residue: nat, n: nat): set<nat>
    requires u > 0
  {
    set k | 0 <= k < n :: k * u + residue
  }

  lemma {:induction false} MultiplesCount(u: nat, residue: nat, n: nat)
    requires u > 0
    ensures |Multiples(u, residue, n)| == n
  {
    if n == 0 {
      assert Multiples(u, residue, 0) == {};
    } else {
      MultiplesCount(u, residue, n - 1);
      var last := (n - 1) * u + residue;
      forall k | 0 <= k < n - 1 ensures k * u + residue != last {
        Distinct(u, k, n - 1);
      }
      assert Multiples(u, residue, n) == Multiples(u, residue, n - 1) + {last};
    }
  }

  lemma {:induction false} Distinct(u: nat, a: nat, b: nat)
    requires u > 0 && a < b
    ensures (a + 1) * u == a * u + u && a * u + u <= b * u
  {
    if a + 1 < b {
      Distinct(u, a, b - 1);
      assert b * u == (b - 1) * u + u;
    }
  }

  lemma ZoneIsMultiple(upper: U32)
    ensures var u := AtLeastOne(upper);
      Zone(upper) == (U32_MAX / u) * u && Zone(upper) / u == U32_MAX / u
  {
    var u := AtLeastOne(upper);
    DivMod(U32_MAX, u);
    Exact(U32_MAX / u, u);
  }

  lemma DivMod(a: nat, u: nat)
    requires u > 0
    ensures a == (a / u) * u + a % u
  {
  }

  lemma Exact(q: nat, u: nat)
    requires u > 0
    ensures (q * u) / u == q && (q * u) % u == 0
  {
    Remainder(q, u, 0);
  }

  lemma Remainder(q: nat, u: nat, r: nat)
    requires r < u
    ensures (q * u + r) / u == q && (q * u + r) % u == r
  {
    var a := q * u + r;
    DivMod(a, u);
    var p := a / u;
    if p < q {
      Distinct(u, p, q);
    }
    if q < p {
      Distinct(u, q, p);
    }
  }

  /** Every remainder has equally many accepted values, so no result is favoured. */
  lemma EveryResidueEqually(upper: U32, residue: nat)
    requires residue < AtLeastOne(upper)
    ensures |Accepted(upper, residue)| == Zone(upper) / AtLeastOne(upper)
  {
    var u := AtLeastOne(upper);
    ZoneIsMultiple(upper);
    ResidueCount(Zone(upper), u, U32_MAX / u, residue);
  }

  lemma ResidueCount(zone: nat, u: nat, n: nat, residue: nat)
    requires u > 0 && residue < u && zone == n * u
    ensures |Residues(zone, u, residue)| == n
  {
    var accepted := Residues(zone, u, residue);
    MultiplesCount(u, residue, n);
    forall v: nat ensures v in accepted <==> v in Multiples(u, residue, n) {
      AcceptedIffMultiple(v, zone, u, residue, n);
    }
    assert accepted == Multiples(u, residue, n);
  }

  lemma AcceptedIffMultiple(v: nat, zone: nat, u: nat, residue: nat, n: nat)
    requires u > 0 && residue < u && zone == n * u
    ensures v in Residues(zone, u, residue) <==> v in Multiples(u, residue, n)
  {
    if v in Residues(zone, u, residue) {
      AcceptedIsMultiple(v, u, residue, n);
    }
    if v in Multiples(u, residue, n) {
      MultipleIsAccepted(v, zone, u, residue, n);
    }
  }

  lemma AcceptedIsMultiple(v: nat, u: nat, residue: nat, n: nat)
    requires u > 0 && v < n * u && v % u == residue
    ensures v in Multiples(u, residue, n)
  {
    var k := v / u;
    DivMod(v, u);
    if n < k {
      Distinct(u, n, k);
    }
    assert v == k * u + residue && 0 <= k < n;
  }

  lemma MultipleIsAccepted(v: nat, zone: nat, u: nat, residue: nat, n: nat)
    requires u > 0 && residue < u && zone == n * u && v in Multiples(u, residue, n)
    ensures v in Residues(zone, u, residue)
  {
    var k :| 0 <= k < n && v == k * u + residue;
    KthIsAccepted(k, v, u, residue, n);
  }

  lemma KthIsAccepted(k: nat, v: nat, u: nat, residue: nat, n: nat)
    requires k < n && residue < u && v == k * u + residue
    ensures v < n * u && v % u == residue
  {
    Remainder(k, u, residue);
    Distinct(u, k, n);
  }

  const HALF: nat := 0x8000_0000

  /** The zone is more than half of the 32-bit range, except for `upper == 2^31`, where it is exactly half. */
  lemma ZoneIsMoreThanHalfIff(upper: U32)
    ensures 2 * Zone(upper) > RANGE <==> upper != HALF
    ensures upper == HALF ==> 2 * Zone(upper) == RANGE
    ensures 2 * Zone(upper) >= RANGE
  {
    var u := AtLeastOne(upper);
    if u > HALF {
      assert U32_MAX / u == 1 by { Remainder(1, u, U32_MAX - u); }
    } else if u < HALF {
      SmallUpper(u);
    }
  }

  lemma SmallUpper(u: nat)
    requires 0 < u < HALF
    ensures 2 * (U32_MAX - U32_MAX % u) > RANGE
  {
    assert U32_MAX % u < u;
  }

  // ----- The byte pool ------------------------------------------------------------------------

  /** The words of a pool, taken from its end; at most three leftover bytes are never used. */
  function Words(bytes: seq<Byte>): seq<U32> {
    if |bytes| < 4 then [] else [Word(bytes[|bytes| - 4..])] + Words(bytes[..|bytes| - 4])
  }

  /** Each word is a slice of its own: no byte is handed out twice. */
  lemma {:induction false} WordsAreSlices(bytes: seq<Byte>, i: nat)
    requires 4 * (i + 1) <= |bytes|
    ensures i < |Words(bytes)| && Words(bytes)[i] == Word(bytes[|bytes| - 4 * (i + 1)..|bytes| - 4 * i])
  {
    if i > 0 {
      WordsAreSlices(bytes[..|bytes| - 4], i - 1);
      SliceOfFront(bytes, |bytes| - 4 * (i + 1), |bytes| - 4 * i, |bytes| - 4);
    } else {
      assert bytes[|bytes| - 4..|bytes|] == bytes[|bytes| - 4..];
    }
  }

  lemma SliceOfFront<T>(s: seq<T>, from: nat, to: nat, n: nat)
    requires from <= to <= n <= |s|
    ensures s[..n][from..to] == s[from..to]
  {
  }

  /** The words of each batch the host will give, up to a batch that is too short. */
  function FromHost(host: seq<seq<Byte>>): seq<U32> {
    if host == [] || |host[0]| < 4 then [] else Words(host[0]) + FromHost(host[1..])
  }

  /** All words that can be drawn: those of the pool, then those the host will give. */
  function AllWords(bytes: seq<Byte>, host: seq<seq<Byte>>): seq<U32> {
    Words(bytes) + FromHost(host)
  }

  /** Nothing before place `n` is accepted. */
  predicate NoneAcceptedBefore(words: seq<U32>, upper: U32, n: nat) {
    n <= |words| && forall i :: 0 <= i < n ==> words[i] >= Zone(upper)
  }

  /** The draw is the first accepted word reduced; what is ahead afterwards is what follows it. */
  predicate IsDraw(before: seq<U32>, after: seq<U32>, upper: U32, value: nat, n: nat) {
    && n < |before| && NoneAcceptedBefore(before, upper, n) && before[n] < Zone(upper)
    && value == before[n] % AtLeastOne(upper) && after == before[n + 1..]
  }

  /** Drawing takes the pool's last word. */
  lemma DrawFromPool(bytes: seq<Byte>, host: seq<seq<Byte>>)
    requires |bytes| >= 4
    ensures AllWords(bytes, host) == [Word(bytes[|bytes| - 4..])] + AllWords(bytes[..|bytes| - 4], host)
  {
    Regroup([Word(bytes[|bytes| - 4..])], Words(bytes[..|bytes| - 4]), FromHost(host));
  }

  lemma Regroup<T>(a: seq<T>, b: seq<T>, c: seq<T>)
    ensures (a + b) + c == a + (b + c)
  {
  }

  /** Once the pool is too short the next batch replaces it. */
  lemma DrawFromHost(bytes: seq<Byte>, host: seq<seq<Byte>>)
    requires |bytes| < 4
    ensures AllWords(bytes, host) == if host == [] || |host[0]| < 4 then [] else AllWords(host[0], host[1..])
  {
    assert Words(bytes) == [];
  }

  class Pool {
    var bytes: seq<Byte>
    /** The batches that the host will answer with; an error of the host ends them. */
    var host: seq<seq<Byte>>

    ghost function Ahead(): seq<U32>
      reads this
    {
      AllWords(bytes, host)
    }

    /** The last four bytes of a pool that holds as many. */
    method SplitOff() returns (r: U32)
      requires |bytes| >= 4
      modifies this`bytes
      ensures old(Ahead()) == [r] + Ahead() && |bytes| < |old(bytes)|
    {
      DrawFromPool(bytes, host);
      r := Word(bytes[|bytes| - 4..]);
      bytes := bytes[..|bytes| - 4];
    }

    method NextU32() returns (r: Option<U32>)
      modifies this
      ensures r.None? <==> old(Ahead()) == []
      ensures r.Some? ==> old(Ahead()) == [r.value] + Ahead()
      ensures |host| <= |old(host)| && (r.Some? && |host| == |old(host)| ==> |bytes| < |old(bytes)|)
    {
      if |bytes| < 4 {
        DrawFromHost(bytes, host);
        if host == [] {
          return None;
        }
        var batch := host[0];
        host := host[1..];
        if |batch| < 4 {
          return None;
        }
        bytes := batch;
      }
      var word := SplitOff();
      return Some(word);
    }

    /** The first word below the zone, reduced; the words before it are discarded. */
    method Below(upper: U32) returns (r: Option<U32>)
      modifies this
      ensures r.None? ==> NoneAcceptedBefore(old(Ahead()), upper, |old(Ahead())|)
      ensures r.Some? ==> exists n: nat :: IsDraw(old(Ahead()), Ahead(), upper, r.value, n)
      ensures r.Some? ==> r.value < AtLeastOne(upper)
    {
      ghost var n := 0;
      while true
        invariant NoneAcceptedBefore(old(Ahead()), upper, n) && Ahead() == old(Ahead())[n..]
        decreases |host|, |bytes|
      {
        ghost var before := Ahead();
        var value := NextU32();
        if value.None? {
          return None;
        }
        assert before[0] == old(Ahead())[n] && Ahead() == before[1..];
        if value.value < Zone(upper) {
          assert IsDraw(old(Ahead()), Ahead(), upper, value.value % AtLeastOne(upper), n);
          return Some(value.value % AtLeastOne(upper));
        }
        n := n + 1;
      }
    }
  }
}
