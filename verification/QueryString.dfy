/** Query strings as bytes: the encoder of channel links and the decoder that reads them back. */
module QueryString {
  import opened Prelude

  type Byte = n: nat | n < 256
  type Bytes = seq<Byte>

  const AMPERSAND: Byte := 0x26
  const EQUALS: Byte := 0x3D
  const PLUS: Byte := 0x2B
  const PERCENT: Byte := 0x25
  const SPACE: Byte := 0x20

  /** The bytes of an ASCII text. */
  function Ascii(s: string): (r: Bytes)
    requires forall i :: 0 <= i < |s| ==> s[i] as int < 128
    ensures |r| == |s|
    ensures forall i {:trigger r[i]} :: 0 <= i < |s| ==> r[i] == s[i] as int
  {
    seq(|s|, i requires 0 <= i < |s| => s[i] as int)
  }

  // ----- Encoding ---------------------------------------------------------------------------

  /** ASCII letters, digits and `-_.~`. */
  predicate IsUnreserved(b: Byte) {
    || 0x30 <= b <= 0x39 || 0x41 <= b <= 0x5A || 0x61 <= b <= 0x7A
    || b == 0x2D || b == 0x5F || b == 0x2E || b == 0x7E
  }

  function HexDigit(n: nat): Byte
    requires n < 16
  {
    if n < 10 then 0x30 + n else 0x41 + n - 10
  }

  function EncodeByte(b: Byte): Bytes {
    if IsUnreserved(b) then [b] else [PERCENT, HexDigit(b / 16), HexDigit(b % 16)]
  }

  function Encode(value: Bytes): Bytes {
    if value == [] then [] else EncodeByte(value[0]) + Encode(value[1..])
  }

  const SERVER := Ascii("server")
  const CHANNEL := Ascii("channel")

  function ChannelQuery(server: Bytes, channel: Bytes): Bytes {
    SERVER + [EQUALS] + Encode(server) + [AMPERSAND] + CHANNEL + [EQUALS] + Encode(channel)
  }

  // ----- Decoding ---------------------------------------------------------------------------

  function HexValue(b: Byte): Option<nat> {
    if 0x30 <= b <= 0x39 then Some(b - 0x30)
    else if 0x41 <= b <= 0x46 then Some(b - 0x41 + 10)
    else if 0x61 <= b <= 0x66 then Some(b - 0x61 + 10)
    else None
  }

  /** `u8::from_str_radix` on two bytes; it also takes a plus sign before one digit. */
  function HexPair(a: Byte, b: Byte): (r: Option<Byte>) {
    if HexValue(b).None? then None
    else if a == PLUS then Some(HexValue(b).value)
    else if HexValue(a).None? then None
    else Some(HexValue(a).value * 16 + HexValue(b).value)
  }

  function Decode(value: Bytes): Bytes {
    if value == [] then []
    else if value[0] == PLUS then [SPACE] + Decode(value[1..])
    else if value[0] == PERCENT && 2 < |value| && HexPair(value[1], value[2]).Some? then
      [HexPair(value[1], value[2]).value] + Decode(value[3..])
    else [value[0]] + Decode(value[1..])
  }

  lemma DecodeAt(bytes: Bytes, index: nat)
    requires index < |bytes|
    ensures Decode(bytes[index..]) ==
      if bytes[index] == PLUS then [SPACE] + Decode(bytes[index + 1..])
      else if bytes[index] == PERCENT && index + 2 < |bytes| && HexPair(bytes[index + 1], bytes[index + 2]).Some? then
        [HexPair(bytes[index + 1], bytes[index + 2]).value] + Decode(bytes[index + 3..])
      else [bytes[index]] + Decode(bytes[index + 1..])
  {
    var rest := bytes[index..];
    assert rest[1..] == bytes[index + 1..];
    assert 2 < |rest| ==> rest[3..] == bytes[index + 3..];
  }

  /** What has been written followed by what is left to decode. */
  ghost predicate Progress(bytes: Bytes, out: Bytes, index: nat) {
    index <= |bytes| && out + Decode(bytes[index..]) == Decode(bytes)
  }

  lemma ProgressStep(bytes: Bytes, out: Bytes, index: nat, b: Byte, width: nat)
    requires Progress(bytes, out, index) && index + width <= |bytes|
    requires Decode(bytes[index..]) == [b] + Decode(bytes[index + width..])
    ensures Progress(bytes, out + [b], index + width)
  {
    assert out + ([b] + Decode(bytes[index + width..])) == (out + [b]) + Decode(bytes[index + width..]);
  }

  method PercentDecode(bytes: Bytes) returns (out: Bytes)
    ensures out == Decode(bytes)
  {
    out := [];
    var index := 0;
    while index < |bytes|
      invariant 0 <= index <= |bytes| && Progress(bytes, out, index)
    {
      DecodeAt(bytes, index);
      if bytes[index] == PLUS {
        ProgressStep(bytes, out, index, SPACE, 1);
        out, index := out + [SPACE], index + 1;
      } else if bytes[index] == PERCENT && index + 2 < |bytes| {
        var decoded := HexPair(bytes[index + 1], bytes[index + 2]);
        if decoded.Some? {
          ProgressStep(bytes, out, index, decoded.value, 3);
          out, index := out + [decoded.value], index + 3;
        } else {
          ProgressStep(bytes, out, index, bytes[index], 1);
          out, index := out + [bytes[index]], index + 1;
        }
      } else {
        ProgressStep(bytes, out, index, bytes[index], 1);
        out, index := out + [bytes[index]], index + 1;
      }
    }
  }

  // ----- Parameters -------------------------------------------------------------------------

  function Until(s: Bytes, sep: Byte): nat {
    if s == [] || s[0] == sep then 0 else 1 + Until(s[1..], sep)
  }

  lemma {:induction false} UntilMeans(s: Bytes, sep: Byte)
    ensures Until(s, sep) <= |s|
    ensures forall i :: 0 <= i < Until(s, sep) ==> s[i] != sep
    ensures Until(s, sep) < |s| ==> s[Until(s, sep)] == sep
  {
    if s != [] && s[0] != sep {
      UntilMeans(s[1..], sep);
      forall i | 0 <= i < Until(s, sep) ensures s[i] != sep {
        assert i > 0 ==> s[i] == s[1..][i - 1];
      }
    }
  }

  lemma {:induction false} UntilIs(s: Bytes, sep: Byte, n: nat)
    requires n <= |s| && (forall i :: 0 <= i < n ==> s[i] != sep) && (n < |s| ==> s[n] == sep)
    ensures Until(s, sep) == n
  {
    if n > 0 {
      UntilIs(s[1..], sep, n - 1);
    }
  }

  /** The piece up to the first separator, and what follows it. */
  function Head(s: Bytes, sep: Byte): Bytes {
    UntilMeans(s, sep);
    s[..Until(s, sep)]
  }

  function Tail(s: Bytes, sep: Byte): Bytes {
    UntilMeans(s, sep);
    if Until(s, sep) == |s| then [] else s[Until(s, sep) + 1..]
  }

  function QueryParam(query: Bytes, key: Bytes): Option<Bytes>
    decreases |query|
  {
    UntilMeans(query, AMPERSAND);
    var pair := Head(query, AMPERSAND);
    if Head(pair, EQUALS) == key then Some(Decode(Tail(pair, EQUALS)))
    else if Until(query, AMPERSAND) == |query| then None
    else QueryParam(Tail(query, AMPERSAND), key)
  }

  /** The first parameter of that name. */
  method FindParam(query: Bytes, key: Bytes) returns (value: Option<Bytes>)
    ensures value == QueryParam(query, key)
  {
    var rest := query;
    while true
      invariant QueryParam(rest, key) == QueryParam(query, key)
      decreases |rest|
    {
      UntilMeans(rest, AMPERSAND);
      var pair := Head(rest, AMPERSAND);
      if Head(pair, EQUALS) == key {
        var decoded := PercentDecode(Tail(pair, EQUALS));
        return Some(decoded);
      }
      if Until(rest, AMPERSAND) == |rest| {
        return None;
      }
      rest := Tail(rest, AMPERSAND);
    }
  }

  // ----- Round trip ---------------------------------------------------------------------------

  lemma HexDigitValue(n: nat)
    requires n < 16
    ensures HexValue(HexDigit(n)) == Some(n) && HexDigit(n) != PLUS
  {
  }

  /** The decoder undoes one encoded byte, whatever follows. */
  lemma DecodeUndoesByte(b: Byte, rest: Bytes)
    ensures Decode(EncodeByte(b) + rest) == [b] + Decode(rest)
  {
    var code := EncodeByte(b) + rest;
    if IsUnreserved(b) {
      assert code[1..] == rest;
    } else {
      HexDigitValue(b / 16);
      HexDigitValue(b % 16);
      assert code[0] == PERCENT && code[1] == HexDigit(b / 16) && code[2] == HexDigit(b % 16);
      assert code[3..] == rest;
      assert HexPair(code[1], code[2]) == Some(b);
    }
  }

  lemma {:induction false} DecodeUndoesEncode(value: Bytes)
    ensures Decode(Encode(value)) == value
  {
    if value != [] {
      DecodeUndoesByte(value[0], Encode(value[1..]));
      DecodeUndoesEncode(value[1..]);
    }
  }

  /** An encoded value contains no separator and no plus sign. */
  lemma {:induction false} EncodedIsPlain(value: Bytes)
    ensures forall i :: 0 <= i < |Encode(value)| ==>
      Encode(value)[i] != AMPERSAND && Encode(value)[i] != EQUALS && Encode(value)[i] != PLUS
  {
    if value != [] {
      EncodedIsPlain(value[1..]);
      var code, rest := EncodeByte(value[0]), Encode(value[1..]);
      forall i | 0 <= i < |code + rest|
        ensures (code + rest)[i] != AMPERSAND && (code + rest)[i] != EQUALS && (code + rest)[i] != PLUS
      {
        assert i >= |code| ==> (code + rest)[i] == rest[i - |code|];
      }
    }
  }

  predicate IsPlain(s: Bytes) {
    forall i :: 0 <= i < |s| ==> s[i] != AMPERSAND && s[i] != EQUALS
  }

  /** A plain name and a plain value make one pair, which splits back into them. */
  lemma PairSplits(name: Bytes, value: Bytes)
    requires IsPlain(name) && IsPlain(value)
    ensures var pair := name + [EQUALS] + value;
      Head(pair, EQUALS) == name && Tail(pair, EQUALS) == value
      && forall i :: 0 <= i < |pair| ==> pair[i] != AMPERSAND
  {
    UntilIs(name + [EQUALS] + value, EQUALS, |name|);
  }

  lemma FirstPair(pair: Bytes, rest: Bytes)
    requires forall i :: 0 <= i < |pair| ==> pair[i] != AMPERSAND
    ensures Head(pair, AMPERSAND) == pair && Until(pair, AMPERSAND) == |pair|
    ensures Head(pair + [AMPERSAND] + rest, AMPERSAND) == pair && Tail(pair + [AMPERSAND] + rest, AMPERSAND) == rest
  {
    UntilIs(pair, AMPERSAND, |pair|);
    UntilIs(pair + [AMPERSAND] + rest, AMPERSAND, |pair|);
  }

  lemma LookUp(key: Bytes, name: Bytes, value: Bytes, rest: Bytes)
    requires IsPlain(name)
    ensures QueryParam(name + [EQUALS] + Encode(value) + [AMPERSAND] + rest, key)
         == if key == name then Some(value) else QueryParam(rest, key)
    ensures QueryParam(name + [EQUALS] + Encode(value), key) == if key == name then Some(value) else None
  {
    var pair := name + [EQUALS] + Encode(value);
    EncodedIsPlain(value);
    PairSplits(name, Encode(value));
    FirstPair(pair, rest);
    DecodeUndoesEncode(value);
  }

  /** Any query at all, pair by pair: the first pair of that name counts, its value being whatever follows the first
      equals sign, or nothing if there is none. */
  lemma PairByPair(key: Bytes, name: Bytes, value: Bytes, rest: Bytes)
    requires IsPlain(name) && forall i :: 0 <= i < |value| ==> value[i] != AMPERSAND
    ensures QueryParam(name + [EQUALS] + value + [AMPERSAND] + rest, key)
         == if key == name then Some(Decode(value)) else QueryParam(rest, key)
    ensures QueryParam(name + [EQUALS] + value, key) == if key == name then Some(Decode(value)) else None
    ensures QueryParam(name + [AMPERSAND] + rest, key) == if key == name then Some([]) else QueryParam(rest, key)
    ensures QueryParam(name, key) == if key == name then Some([]) else None
  {
    var pair := name + [EQUALS] + value;
    UntilIs(pair, EQUALS, |name|);
    UntilIs(name, EQUALS, |name|);
    FirstPair(pair, rest);
    FirstPair(name, rest);
  }

  /** Bytes other than plus and percent signs stand for themselves, a plus sign for a space, and a percent sign that
      two hex digits do not follow for itself. */
  lemma OtherBytesStay(b: Byte, rest: Bytes)
    ensures b != PLUS && b != PERCENT ==> Decode([b] + rest) == [b] + Decode(rest)
    ensures Decode([PLUS] + rest) == [SPACE] + Decode(rest)
    ensures |rest| < 2 || HexValue(rest[1]).None? || (HexValue(rest[0]).None? && rest[0] != PLUS) ==>
      Decode([PERCENT] + rest) == [PERCENT] + Decode(rest)
  {
    assert ([b] + rest)[1..] == rest && ([PLUS] + rest)[1..] == rest && ([PERCENT] + rest)[1..] == rest;
  }

  /** Every server and channel read back from their link are what they were, and nothing else is in it. */
  lemma LinkRoundTrips(server: Bytes, channel: Bytes, key: Bytes)
    ensures QueryParam(ChannelQuery(server, channel), key)
         == if key == SERVER then Some(server) else if key == CHANNEL then Some(channel) else None
  {
    NamesArePlain();
    LookUp(key, SERVER, server, CHANNEL + [EQUALS] + Encode(channel));
    LookUp(key, CHANNEL, channel, []);
    Regroup(SERVER + [EQUALS] + Encode(server) + [AMPERSAND], CHANNEL, [EQUALS], Encode(channel));
  }

  lemma NamesArePlain()
    ensures IsPlain(SERVER) && IsPlain(CHANNEL)
  {
  }

  lemma Regroup(a: Bytes, b: Bytes, c: Bytes, d: Bytes)
    ensures a + b + c + d == a + (b + c + d)
  {
  }

  /** Two different destinations never share a link. */
  lemma LinksDiffer(s1: Bytes, c1: Bytes, s2: Bytes, c2: Bytes)
    requires ChannelQuery(s1, c1) == ChannelQuery(s2, c2)
    ensures s1 == s2 && c1 == c2
  {
    LinkRoundTrips(s1, c1, SERVER);
    LinkRoundTrips(s2, c2, SERVER);
    LinkRoundTrips(s1, c1, CHANNEL);
    LinkRoundTrips(s2, c2, CHANNEL);
    assert |SERVER| != |CHANNEL|;
  }

  /** The decoder takes more than the encoder writes: a plus sign before one hex digit is read as an escape. */
  lemma SignedEscape(digit: Byte, rest: Bytes)
    requires HexValue(digit).Some?
    ensures Decode([PERCENT, PLUS, digit] + rest) == [HexValue(digit).value] + Decode(rest)
  {
    var code := [PERCENT, PLUS, digit] + rest;
    assert code[0] == PERCENT && code[1] == PLUS && code[2] == digit && code[3..] == rest;
  }
}
