/** The string operations the host relies on: ASCII case folding, Unicode trimming, byte lengths
    and the order in which SQLite and Rust compare text. */
module Text {

  /** `char::is_whitespace`: the code points with the Unicode White_Space property. */
  predicate IsSpace(c: char) {
    var n := c as int;
    || 0x09 <= n <= 0x0D || n == 0x20 || n == 0x85 || n == 0xA0 || n == 0x1680
    || 0x2000 <= n <= 0x200A || n == 0x2028 || n == 0x2029 || n == 0x202F || n == 0x205F || n == 0x3000
  }

  /** `s.trim().is_empty()`. */
  predicate IsBlank(s: string) {
    forall i :: 0 <= i < |s| ==> IsSpace(s[i])
  }

  /** `s.len()`: the length of the UTF-8 encoding. */
  function Utf8Len(s: string): nat {
    if s == [] then 0
    else
      var n := s[0] as int;
      (if n < 0x80 then 1 else if n < 0x800 then 2 else if n < 0x10000 then 3 else 4) + Utf8Len(s[1..])
  }

  lemma {:induction false} AsciiBytes(s: string)
    requires forall i :: 0 <= i < |s| ==> s[i] as int < 0x80
    ensures Utf8Len(s) == |s|
  {
    if s != [] {
      AsciiBytes(s[1..]);
    }
  }

  /** The text form of a UUID. */
  predicate IsUuid(id: string) {
    |id| == 36 && forall i :: 0 <= i < 36 ==> '0' <= id[i] <= '9' || 'a' <= id[i] <= 'f' || id[i] == '-'
  }

  function TrimStart(s: string): (r: string)
    ensures |r| <= |s| && (r != [] ==> !IsSpace(r[0]))
  {
    if s != [] && IsSpace(s[0]) then TrimStart(s[1..]) else s
  }

  function TrimEnd(s: string): string {
    if s != [] && IsSpace(s[|s| - 1]) then TrimEnd(s[..|s| - 1]) else s
  }

  function Trim(s: string): string {
    TrimEnd(TrimStart(s))
  }

  lemma {:induction false} SkipExactly(blank: string, rest: string)
    requires IsBlank(blank) && rest != [] && !IsSpace(rest[0])
    ensures TrimStart(blank + rest) == rest
  {
    if blank == [] {
      assert blank + rest == rest;
    } else {
      assert (blank + rest)[1..] == blank[1..] + rest;
      SkipExactly(blank[1..], rest);
    }
  }

  lemma {:induction false} CutExactly(rest: string, blank: string)
    requires IsBlank(blank) && rest != [] && !IsSpace(rest[|rest| - 1])
    ensures TrimEnd(rest + blank) == rest
  {
    if blank == [] {
      assert rest + blank == rest;
    } else {
      assert (rest + blank)[..|rest + blank| - 1] == rest + blank[..|blank| - 1];
      CutExactly(rest, blank[..|blank| - 1]);
    }
  }

  /** Trimming takes the spaces off both ends and nothing else. */
  lemma TrimMeans(before: string, s: string, after: string)
    requires IsBlank(before) && IsBlank(after) && s != [] && !IsSpace(s[0]) && !IsSpace(s[|s| - 1])
    ensures Trim(before + (s + after)) == s
  {
    SkipExactly(before, s + after);
    CutExactly(s, after);
  }

  /** How many spaces a text starts with. */
  function Leading(text: string): nat {
    |text| - |TrimStart(text)|
  }

  lemma {:induction false} TrimStartDrops(text: string)
    ensures TrimStart(text) == text[Leading(text)..]
    ensures forall i :: 0 <= i < Leading(text) ==> IsSpace(text[i])
  {
    if text != [] && IsSpace(text[0]) {
      TrimStartDrops(text[1..]);
    }
  }

  lemma {:induction false} TrimEndDrops(text: string)
    ensures |TrimEnd(text)| <= |text| && TrimEnd(text) == text[..|TrimEnd(text)|]
    ensures forall i :: |TrimEnd(text)| <= i < |text| ==> IsSpace(text[i])
  {
    if text != [] && IsSpace(text[|text| - 1]) {
      TrimEndDrops(text[..|text| - 1]);
    }
  }

  lemma TrimSplits(s: string) returns (before: string, after: string)
    ensures IsBlank(before) && IsBlank(after) && s == before + (Trim(s) + after)
  {
    var rest := TrimStart(s);
    TrimStartDrops(s);
    TrimEndDrops(rest);
    before, after := s[..Leading(s)], rest[|Trim(s)|..];
    assert rest == Trim(s) + after;
  }

  function LowerChar(c: char): char {
    if 'A' <= c <= 'Z' then c - 'A' + 'a' else c
  }

  /** `to_ascii_lowercase`. */
  function Lower(s: string): (r: string)
    ensures |r| == |s|
    ensures forall i :: 0 <= i < |s| ==> r[i] == LowerChar(s[i])
  {
    seq(|s|, i requires 0 <= i < |s| => LowerChar(s[i]))
  }

  function Elements(names: seq<string>): set<string> {
    set a | a in names
  }

  /** Binary text order: the order of `ORDER BY key` and of Rust's `str::cmp`. */
  predicate Less(a: string, b: string) {
    b != [] && (a == [] || a[0] < b[0] || (a[0] == b[0] && Less(a[1..], b[1..])))
  }

  lemma {:induction false} LessIrreflexive(a: string)
    ensures !Less(a, a)
  {
    if a != [] {
      LessIrreflexive(a[1..]);
    }
  }

  lemma {:induction false} LessTransitive(a: string, b: string, c: string)
    requires Less(a, b) && Less(b, c)
    ensures Less(a, c)
  {
    if a != [] && a[0] == b[0] && b[0] == c[0] {
      LessTransitive(a[1..], b[1..], c[1..]);
    }
  }

  lemma {:induction false} LessTotal(a: string, b: string)
    ensures Less(a, b) || a == b || Less(b, a)
  {
    if a != [] && b != [] && a[0] == b[0] {
      LessTotal(a[1..], b[1..]);
      assert a == [a[0]] + a[1..] && b == [b[0]] + b[1..];
    }
  }

  /** `char::is_control`. */
  predicate IsControl(c: char) {
    c as int < 0x20 || 0x7F <= c as int < 0xA0
  }

  lemma {:induction false} LeastExists(names: set<string>)
    requires names != {}
    ensures exists a :: a in names && forall b :: b in names ==> a == b || Less(a, b)
  {
    var x :| x in names;
    if names != {x} {
      LeastExists(names - {x});
      var least :| least in names - {x} && forall b :: b in names - {x} ==> least == b || Less(least, b);
      LessTotal(x, least);
      var best := if Less(x, least) then x else least;
      forall b | b in names ensures best == b || Less(best, b) {
        if b != x && best == x && b != least {
          LessTransitive(x, least, b);
        }
      }
    }
  }

  /** The names of a sorted map, in order. */
  ghost function Ascending(names: set<string>): (r: seq<string>)
    ensures forall a :: a in r <==> a in names
    ensures forall i, j :: 0 <= i < j < |r| ==> Less(r[i], r[j])
    decreases |names|
  {
    if names == {} then []
    else
      LeastExists(names);
      var least :| least in names && forall b :: b in names ==> least == b || Less(least, b);
      [least] + Ascending(names - {least})
  }

  lemma AscendingStep(names: set<string>, least: string)
    requires least in names && forall b :: b in names ==> least == b || Less(least, b)
    ensures Ascending(names) == [least] + Ascending(names - {least})
  {
    var first := Ascending(names)[0];
    assert least in Ascending(names) && first in Ascending(names);
    if first != least {
      LessTransitive(least, first, least);
      LessIrreflexive(least);
    }
  }

  /** What has been taken, followed by what is left in order, is the whole in order. */
  ghost predicate Peeled(taken: seq<string>, left: set<string>, names: set<string>) {
    taken + Ascending(left) == Ascending(names)
  }

  lemma PeelLeast(taken: seq<string>, left: set<string>, names: set<string>, least: string)
    requires Peeled(taken, left, names)
    requires least in left && forall b :: b in left ==> least == b || Less(least, b)
    ensures Peeled(taken + [least], left - {least}, names)
  {
    AscendingStep(left, least);
    ShiftOne(taken, least, Ascending(left - {least}));
  }

  lemma ShiftOne<T>(a: seq<T>, x: T, b: seq<T>)
    ensures a + ([x] + b) == (a + [x]) + b
  {
  }

  method InOrder(names: set<string>) returns (r: seq<string>)
    ensures r == Ascending(names)
  {
    r := [];
    var left := names;
    while left != {}
      invariant Peeled(r, left, names)
      decreases left
    {
      LeastExists(left);
      var least :| least in left && forall b :: b in left ==> least == b || Less(least, b);
      PeelLeast(r, left, names, least);
      r, left := r + [least], left - {least};
    }
  }
}
