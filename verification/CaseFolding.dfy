/** IRC nickname case folding as negotiated per network. */
module CaseFolding {
  import opened Text

  datatype CaseMapping = Ascii | StrictRfc1459 | Rfc1459

  function FoldChar(m: CaseMapping, c: char): char {
    if 'A' <= c <= 'Z' then LowerChar(c)
    else if c == '[' && m != Ascii then '{'
    else if c == ']' && m != Ascii then '}'
    else if c == '\\' && m != Ascii then '|'
    else if c == '^' && m == Rfc1459 then '~'
    else c
  }

  function Fold(m: CaseMapping, value: string): (r: string)
    ensures |r| == |value| && forall i {:trigger r[i]} :: 0 <= i < |r| ==> r[i] == FoldChar(m, value[i])
  {
    seq(|value|, i requires 0 <= i < |value| => FoldChar(m, value[i]))
  }

  predicate Equivalent(m: CaseMapping, left: string, right: string) {
    Fold(m, left) == Fold(m, right)
  }

  /** The pairs that RFC 1459, section 2.2, declares to be the upper and lower case of one letter; the
      strict reading leaves out the last pair, ASCII keeps only the letters. */
  predicate IsPair(m: CaseMapping, upper: char, lower: char) {
    || ('A' <= upper <= 'Z' && lower as int == upper as int + 32)
    || (m != Ascii
      && ((upper == '[' && lower == '{') || (upper == ']' && lower == '}') || (upper == '\\' && lower == '|')))
    || (m == Rfc1459 && upper == '^' && lower == '~')
  }

  predicate SameLetter(m: CaseMapping, a: char, b: char) {
    a == b || IsPair(m, a, b) || IsPair(m, b, a)
  }

  /** Two nicks are equivalent exactly when they agree letter by letter. */
  lemma EquivalentMeans(m: CaseMapping, a: string, b: string)
    ensures Equivalent(m, a, b) <==> |a| == |b| && forall i :: 0 <= i < |a| ==> SameLetter(m, a[i], b[i])
  {
    if Equivalent(m, a, b) {
      forall i | 0 <= i < |a| ensures SameLetter(m, a[i], b[i]) {
        assert Fold(m, a)[i] == Fold(m, b)[i];
      }
    }
    if |a| == |b| && forall i :: 0 <= i < |a| ==> SameLetter(m, a[i], b[i]) {
      forall i | 0 <= i < |a| ensures Fold(m, a)[i] == Fold(m, b)[i] {
        assert SameLetter(m, a[i], b[i]);
      }
      assert Fold(m, a) == Fold(m, b);
    }
  }

  lemma FoldTwice(m: CaseMapping, a: string)
    ensures Fold(m, Fold(m, a)) == Fold(m, a)
  {
    forall i | 0 <= i < |a| ensures Fold(m, Fold(m, a))[i] == Fold(m, a)[i] {
      assert Fold(m, a)[i] == FoldChar(m, a[i]);
    }
  }

  /** Whatever the database's own NOCASE collation takes for equal is equivalent under every mapping. */
  lemma NoCaseIsEquivalent(m: CaseMapping, a: string, b: string)
    requires Lower(a) == Lower(b)
    ensures Equivalent(m, a, b)
  {
    assert |a| == |b|;
    forall i | 0 <= i < |a| ensures FoldChar(m, a[i]) == FoldChar(m, b[i]) {
      assert Lower(a)[i] == Lower(b)[i];
    }
    assert Fold(m, a) == Fold(m, b);
  }
}
