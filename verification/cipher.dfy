/**
 The Jlyn signature cipher: a numeric sequence becomes `JLYN_<hex>_<base-36 clock>`.
 Values are normalised to rounded z-scores times 100, each is replaced by one
 of ten star symbols, each symbol by a position-weighted hash in base 36, and
 each character of that by its code XOR its index as two hex digits. An empty
 sequence gets `JLYN_FALLBACK_<random digits>_<base-36 clock>` instead.
 The clock (`Date.now()`) and the random digits are parameters.
 */
module JlynCipher {
  import opened Numeric
  import opened Text

  const Tag: string := "JLYN"
  const FallbackMarker: string := "FALLBACK"
  const Separator: char := '_'

  /** `BEHAVIORAL_CONSTANTS.DWELL_TIME_MULTIPLIER` and `FLIGHT_TIME_FACTOR`. */
  const DwellTimeMultiplier: nat := 1337
  const FlightTimeFactor: nat := 2048

  /** `STAR_MAPPING`: one symbol per decimal digit. U+2728 is not among them. */
  const StarMapping: map<nat, char> := map[
    0 := '\U{2726}', 1 := '\U{2727}', 2 := '\U{2729}', 3 := '\U{272A}', 4 := '\U{272B}',
    5 := '\U{272C}', 6 := '\U{272D}', 7 := '\U{272E}', 8 := '\U{272F}', 9 := '\U{2730}']

  /** Reads a star symbol back as its digit; -1 for any other character. */
  function StarDigit(c: char): int
  {
    if c == '\U{2726}' then 0
    else if c == '\U{2727}' then 1
    else if '\U{2729}' <= c <= '\U{2730}' then c as int - 0x2727
    else -1
  }

  lemma StarTableRoundTrip(d: nat)
    requires d < 10
    ensures d in StarMapping
    ensures StarDigit(StarMapping[d]) == d
  {
  }

  /** The table is not `U+2726 + d`: the code point U+2728 is skipped. */
  lemma StarTableSkips2728(d: nat)
    requires d < 10
    ensures d in StarMapping
    ensures StarMapping[d] as int == 0x2726 + d + (if d < 2 then 0 else 1)
    ensures StarMapping[d] != '\U{2728}'
  {
  }

  // ---------------------------------------------------------------------------
  // normalizePatterns

  /** `stdDev || 1`: a zero spread divides by one. */
  function Divisor(v: seq<real>): (d: real)
    requires |v| > 0
    ensures 0.0 < d
  {
    if StdDev(v) == 0.0 then 1.0 else StdDev(v)
  }

  function ZScore(x: real, v: seq<real>): int
    requires |v| > 0
  {
    Round((x - Mean(v)) / Divisor(v) * 100.0)
  }

  /** Each value as its rounded z-score times 100; values above the mean
      map to non-negative numbers and values below it to non-positive ones. */
  function NormalizePatterns(v: seq<real>): (p: seq<int>)
    requires |v| > 0
    ensures |p| == |v|
    ensures forall i :: 0 <= i < |v| && Mean(v) <= v[i] ==> 0 <= p[i]
    ensures forall i :: 0 <= i < |v| && v[i] <= Mean(v) ==> p[i] <= 0
  {
    seq(|v|, i requires 0 <= i < |v| => ZScoreSign(v[i], v); ZScore(v[i], v))
  }

  lemma ZScoreSign(x: real, v: seq<real>)
    requires |v| > 0
    ensures Mean(v) <= x ==> 0 <= ZScore(x, v)
    ensures x <= Mean(v) ==> ZScore(x, v) <= 0
  {
    var d := Divisor(v);
    var m := Mean(v);
    if m <= x {
      assert 0.0 <= (x - m) / d;
    }
    if x <= m {
      assert (x - m) / d <= 0.0;
    }
  }

  /** Normalisation keeps the order of the values. */
  lemma NormalizeMonotone(v: seq<real>, i: int, j: int)
    requires 0 <= i < |v| && 0 <= j < |v|
    requires v[i] <= v[j]
    ensures NormalizePatterns(v)[i] <= NormalizePatterns(v)[j]
  {
    var d := Divisor(v);
    var m := Mean(v);
    assert (v[i] - m) / d <= (v[j] - m) / d by {
      DivideMonotone(v[i] - m, v[j] - m, d);
    }
    RoundMonotone((v[i] - m) / d * 100.0, (v[j] - m) / d * 100.0);
  }

  /** Equal values all normalise to zero. */
  lemma NormalizeConstant(v: seq<real>)
    requires |v| > 0
    requires forall i :: 0 <= i < |v| ==> v[i] == v[0]
    ensures forall i :: 0 <= i < |v| ==> NormalizePatterns(v)[i] == 0
  {
    StdDevOfConstant(v);
    assert Divisor(v) == 1.0;
  }

  // ---------------------------------------------------------------------------
  // generateCharacterMapping

  /** One star symbol per value, the one for `|p| mod 10`. */
  function CharacterMapping(p: seq<int>): (s: string)
    ensures |s| == |p|
    ensures forall i :: 0 <= i < |p| ==> StarDigit(s[i]) == AbsInt(p[i]) % 10
  {
    seq(|p|, i requires 0 <= i < |p| => StarTableRoundTrip(AbsInt(p[i]) % 10); StarMapping[AbsInt(p[i]) % 10])
  }

  // ---------------------------------------------------------------------------
  // applyStarMapping

  /** `(code * position * 1337) % 2048`. */
  function PositionHash(c: char, position: nat): (h: nat)
    ensures h < FlightTimeFactor
  {
    (c as int * position * DwellTimeMultiplier) % FlightTimeFactor
  }

  /** Every position hash is written with one to three base-36 digits. */
  lemma PositionHashDigits(c: char, position: nat)
    ensures 1 <= |ToRadix(PositionHash(c, position), 36)| <= 3
    ensures AllDigits(ToRadix(PositionHash(c, position), 36), 36)
  {
    assert Pow(36, 3) == 46656;
    RadixLength(PositionHash(c, position), 36, 3);
  }

  /** The hashes of `s`, whose first character stands at `position`, concatenated in base 36. */
  function StarHashes(s: string, position: nat): (r: string)
    ensures |s| <= |r| <= 3 * |s|
    ensures AllDigits(r, 36)
  {
    if |s| == 0 then ""
    else
      PositionHashDigits(s[0], position);
      ToRadix(PositionHash(s[0], position), 36) + StarHashes(s[1..], position + 1)
  }

  /** `applyStarMapping`: positions count from 1. */
  function ApplyStarMapping(s: string): (r: string)
    ensures |s| <= |r| <= 3 * |s|
    ensures AllDigits(r, 36)
  {
    StarHashes(s, 1)
  }

  // ---------------------------------------------------------------------------
  // deterministicEncryption

  predicate ByteChars(s: string)
  {
    forall i :: 0 <= i < |s| ==> s[i] as int < 256
  }

  /** XOR of two bytes is a byte. */
  lemma ByteXor(a: nat, b: nat)
    requires a < 256 && b < 256
    ensures Xor(a, b) < 256
  {
    assert Pow(2, 8) == 256;
    XorBound(a, b, 8);
  }

  /** One character of `deterministicEncryption`: its code XOR `index % 256`, as padded hex. */
  function EncryptChar(c: char, index: nat): (h: string)
    ensures AllDigits(h, 16)
    ensures 2 <= |h|
    ensures c as int < 256 ==> |h| == 2
  {
    var code := Xor(c as int, index % 256);
    if c as int < 256 then
      ByteXor(c as int, index % 256);
      Hex2RoundTrip(code);
      Hex2(code)
    else
      Hex2(code)
  }

  /** The encryption of `s`, whose first character stands at `index`. */
  function EncryptFrom(s: string, index: nat): (r: string)
    ensures AllDigits(r, 16)
    ensures 2 * |s| <= |r|
    ensures ByteChars(s) ==> |r| == 2 * |s|
  {
    if |s| == 0 then "" else EncryptChar(s[0], index) + EncryptFrom(s[1..], index + 1)
  }

  /** `deterministicEncryption`. */
  function DeterministicEncryption(s: string): (r: string)
    ensures AllDigits(r, 16)
    ensures ByteChars(s) ==> |r| == 2 * |s|
  {
    EncryptFrom(s, 0)
  }

  /** A string of `k` digits denotes a number below `base^k`. */
  lemma {:induction false} FromRadixBound(s: string, base: nat)
    requires 2 <= base <= 36
    requires AllDigits(s, base)
    ensures FromRadix(s, base) < Pow(base, |s|)
    decreases |s|
  {
    if |s| > 0 {
      var init := s[..|s| - 1];
      FromRadixBound(init, base);
      var d := DigitValue(s[|s| - 1]);
      var a := FromRadix(init, base);
      var p := Pow(base, |init|);
      assert FromRadix(s, base) == a * base + d;
      DigitAppended(a, d, p, base);
      assert Pow(base, |s|) == base * p;
    }
  }

  /** Reads pairs of hex digits back, undoing the XOR with each pair's index;
      a trailing odd digit is ignored. */
  function DecryptFrom(h: string, index: nat): (s: string)
    requires AllDigits(h, 16)
    ensures ByteChars(s)
    ensures |s| == |h| / 2
  {
    if |h| < 2 then ""
    else
      var pair := h[..2];
      FromRadixBound(pair, 16);
      assert Pow(16, 2) == 256;
      ByteXor(FromRadix(pair, 16), index % 256);
      [Xor(FromRadix(pair, 16), index % 256) as char] + DecryptFrom(h[2..], index + 1)
  }

  /** One encrypted character reads back as the original code. */
  lemma EncryptCharRoundTrip(c: char, index: nat)
    requires c as int < 256
    ensures |EncryptChar(c, index)| == 2
    ensures Xor(FromRadix(EncryptChar(c, index), 16), index % 256) == c as int
  {
    var code := Xor(c as int, index % 256);
    ByteXor(c as int, index % 256);
    Hex2RoundTrip(code);
    XorInvolution(c as int, index % 256);
  }

  lemma DecryptCons(head: string, tail: string, index: nat)
    requires |head| == 2 && AllDigits(head, 16)
    requires AllDigits(tail, 16)
    ensures AllDigits(head + tail, 16)
    ensures FromRadix(head, 16) < 256
    ensures Xor(FromRadix(head, 16), index % 256) < 256
    ensures DecryptFrom(head + tail, index)
         == [Xor(FromRadix(head, 16), index % 256) as char] + DecryptFrom(tail, index + 1)
  {
    var h := head + tail;
    assert h[..2] == head;
    assert h[2..] == tail;
    FromRadixBound(head, 16);
    assert Pow(16, 2) == 256;
    ByteXor(FromRadix(head, 16), index % 256);
  }

  lemma ByteCharsTail(s: string)
    requires |s| > 0 && ByteChars(s)
    ensures ByteChars(s[1..])
  {
    forall i | 0 <= i < |s[1..]| ensures s[1..][i] as int < 256 {
      assert s[1..][i] == s[i + 1];
    }
  }

  lemma ConsTail<T>(s: seq<T>)
    requires |s| > 0
    ensures [s[0]] + s[1..] == s
  {
  }

  /** If decryption undoes the encryption of the tail, it undoes that of the whole string. */
  lemma DecryptEncryptCons(s: string, index: nat)
    requires |s| > 0 && s[0] as int < 256
    requires DecryptFrom(EncryptFrom(s[1..], index + 1), index + 1) == s[1..]
    ensures DecryptFrom(EncryptFrom(s, index), index) == s
  {
    var head := EncryptChar(s[0], index);
    var tail := EncryptFrom(s[1..], index + 1);
    assert EncryptFrom(s, index) == head + tail;
    EncryptCharRoundTrip(s[0], index);
    DecryptCons(head, tail, index);
    var c := Xor(FromRadix(head, 16), index % 256);
    assert c as char == s[0];
    ConsTail(s);
    calc {
      DecryptFrom(EncryptFrom(s, index), index);
      DecryptFrom(head + tail, index);
      [s[0]] + s[1..];
      s;
    }
  }

  /** For characters below 256, decryption undoes `deterministicEncryption`. */
  lemma {:induction false} EncryptionRoundTrip(s: string, index: nat)
    requires ByteChars(s)
    ensures DecryptFrom(EncryptFrom(s, index), index) == s
  {
    if |s| > 0 {
      ByteCharsTail(s);
      EncryptionRoundTrip(s[1..], index + 1);
      DecryptEncryptCons(s, index);
    }
  }

  // ---------------------------------------------------------------------------
  // generateSignature, generateFallbackSignature, validateSignature

  /** The hex segment of a primary signature. */
  function Payload(v: seq<real>): (h: string)
    requires |v| > 0
    ensures AllDigits(h, 16)
    ensures 2 * |v| <= |h| <= 6 * |v|
  {
    var stars := CharacterMapping(NormalizePatterns(v));
    var hashed := ApplyStarMapping(stars);
    DigitCodesAreBytes(hashed, 36);
    DeterministicEncryption(hashed)
  }

  lemma DigitCodesAreBytes(s: string, base: nat)
    requires AllDigits(s, base)
    ensures ByteChars(s)
  {
  }

  lemma DigitsHaveNoSeparator(s: string, base: nat)
    requires AllDigits(s, base)
    ensures Separator !in s
  {
  }

  /** `Date.now().toString(36)`. */
  function ClockDigits(now: nat): (t: string)
    ensures 1 <= |t|
    ensures Separator !in t
    ensures AllDigits(t, 36)
    ensures FromRadix(t, 36) == now
  {
    RadixRoundTrip(now, 36);
    DigitsHaveNoSeparator(ToRadix(now, 36), 36);
    ToRadix(now, 36)
  }

  /** `generateFallbackSignature`, with `random` standing for `Math.random().toString(36).substring(2)`.
      It validates and is recognised as a fallback; with separator-free random
      digits it splits into the tag, the marker, the digits and the clock. */
  function FallbackSignature(random: string, now: nat): (sig: string)
    ensures ValidateSignature(sig) && IsFallback(sig)
    ensures |Split(sig, Separator)| >= 3
    ensures Segment(sig, 0) == Tag && Segment(sig, 1) == FallbackMarker
    ensures Separator !in random ==> Split(sig, Separator) == [Tag, FallbackMarker, random, ClockDigits(now)]
  {
    var t := ClockDigits(now);
    var rest := random + [Separator] + t;
    var sig := Tag + [Separator] + FallbackMarker + [Separator] + random + [Separator] + t;
    assert sig == Tag + [Separator] + (FallbackMarker + [Separator] + rest);
    SplitAtSeparator(Tag, Separator, FallbackMarker + [Separator] + rest);
    SplitAtSeparator(FallbackMarker, Separator, rest);
    LastTwoPieces(random, t);
    var prefix := Tag + [Separator] + FallbackMarker + [Separator];
    assert sig[..|prefix|] == prefix;
    sig
  }

  /** `a_t` splits into `a` and `t` when neither holds a separator. */
  lemma LastTwoPieces(a: string, t: string)
    requires Separator !in t
    ensures Separator !in a ==> Split(a + [Separator] + t, Separator) == [a, t]
  {
    if Separator !in a {
      SplitAtSeparator(a, Separator, t);
      SplitNoSeparator(t, Separator);
    }
  }

  predicate IsFallback(sig: string)
  {
    StartsWith(sig, Tag + [Separator] + FallbackMarker + [Separator])
  }

  /** `validateSignature`: starts with `JLYN_` and splits on `_` into at least
      three pieces, which is to say another `_` follows the prefix. */
  function ValidateSignature(sig: string): (ok: bool)
    ensures ok <==> StartsWith(sig, Tag + [Separator]) && Separator in sig[|Tag| + 1..]
  {
    if StartsWith(sig, Tag + [Separator]) then
      var rest := sig[|Tag| + 1..];
      assert sig == Tag + [Separator] + rest;
      SplitAtSeparator(Tag, Separator, rest);
      SplitCount(rest, Separator);
      |Split(sig, Separator)| >= 3
    else false
  }

  /** The `i`-th `_`-separated piece, `sig.split('_')[i]`. */
  function Segment(sig: string, i: nat): string
    requires i < |Split(sig, Separator)|
  {
    Split(sig, Separator)[i]
  }

  /** The pieces of a primary signature: the tag, the payload, the clock. */
  lemma PrimaryPieces(payload: string, now: nat)
    requires AllDigits(payload, 16)
    ensures Split(Tag + [Separator] + payload + [Separator] + ClockDigits(now), Separator)
         == [Tag, payload, ClockDigits(now)]
  {
    DigitsHaveNoSeparator(payload, 16);
    var t := ClockDigits(now);
    assert Tag + [Separator] + payload + [Separator] + t == Tag + [Separator] + (payload + [Separator] + t);
    SplitAtSeparator(Tag, Separator, payload + [Separator] + t);
    SplitAtSeparator(payload, Separator, t);
    SplitNoSeparator(t, Separator);
  }

  /** `JLYN_<payload>_<clock>`. */
  function Assemble(payload: string, now: nat): string
  {
    Tag + [Separator] + payload + [Separator] + ClockDigits(now)
  }

  /** An assembled signature is valid, is no fallback, and splits back into its pieces. */
  lemma AssembleShape(payload: string, now: nat)
    requires AllDigits(payload, 16)
    requires 1 <= |payload|
    ensures ValidateSignature(Assemble(payload, now))
    ensures !IsFallback(Assemble(payload, now))
    ensures Split(Assemble(payload, now), Separator) == [Tag, payload, ClockDigits(now)]
  {
    var sig := Assemble(payload, now);
    PrimaryPieces(payload, now);
    assert sig[5] == payload[0];
    assert DigitValue(payload[0]) >= 0;
    var prefix := Tag + [Separator] + FallbackMarker + [Separator];
    assert prefix[5] == 'F';
    assert sig[..5] == Tag + [Separator];
  }

  /** The signature of a non-empty sequence. */
  function PrimarySignature(v: seq<real>, now: nat): (sig: string)
    requires |v| > 0
    ensures ValidateSignature(sig)
    ensures !IsFallback(sig)
    ensures Segment(sig, 1) == Payload(v) && Segment(sig, 2) == ClockDigits(now)
  {
    var payload := Payload(v);
    AssembleShape(payload, now);
    Assemble(payload, now)
  }

  /** `generateSignature(patterns)` at clock `now`; `random` is used only on the fallback path. */
  function GenerateSignature(v: seq<real>, now: nat, random: string): (sig: string)
    ensures ValidateSignature(sig)
    ensures IsFallback(sig) <==> |v| == 0
    ensures |v| == 0 ==> Segment(sig, 1) == FallbackMarker
    ensures |v| > 0 ==> Segment(sig, 1) == Payload(v) && Segment(sig, 2) == ClockDigits(now)
  {
    if |v| == 0 then
      FallbackSignature(random, now)
    else
      PrimarySignature(v, now)
  }

  /** The clock never reaches the hex segment: two signatures of the same values agree on it. */
  lemma ClockOnlyInLastSegment(v: seq<real>, now1: nat, now2: nat, random1: string, random2: string)
    requires |v| > 0
    ensures Segment(GenerateSignature(v, now1, random1), 1) == Segment(GenerateSignature(v, now2, random2), 1)
    ensures FromRadix(Segment(GenerateSignature(v, now1, random1), 2), 36) == now1
  {
  }

  predicate Ascii(s: string)
  {
    forall i :: 0 <= i < |s| ==> s[i] as int < 128
  }

  /** Every character of a signature is ASCII, given ASCII random digits for the
      fallback. So on signatures a character is one UTF-16 code unit, and
      comparing characters compares what `calculateTolerance` compares. */
  lemma AsciiSignature(v: seq<real>, now: nat, random: string)
    requires Ascii(random)
    ensures Ascii(GenerateSignature(v, now, random))
  {
  }

  // ---------------------------------------------------------------------------
  // calculateTolerance

  /** Number of positions below the shorter length where `x` and `y` agree. */
  function Matches(x: string, y: string): (n: nat)
    ensures n <= Min(|x|, |y|)
  {
    if |x| == 0 || |y| == 0 then 0
    else (if x[0] == y[0] then 1 else 0) + Matches(x[1..], y[1..])
  }

  /** Extending both strings by one position adds one exactly when they agree there. */
  lemma {:induction false} MatchesExtend(x: string, y: string, k: nat)
    requires k < |x| && k < |y|
    ensures Matches(x[..k + 1], y[..k + 1]) == Matches(x[..k], y[..k]) + (if x[k] == y[k] then 1 else 0)
  {
    if k > 0 {
      MatchesExtend(x[1..], y[1..], k - 1);
      assert x[..k + 1][1..] == x[1..][..k] && y[..k + 1][1..] == y[1..][..k];
      assert x[..k][1..] == x[1..][..k - 1] && y[..k][1..] == y[1..][..k - 1];
    }
  }

  /** Positions past the shorter string never count. */
  lemma {:induction false} MatchesWithinShorter(x: string, y: string)
    ensures var m := Min(|x|, |y|); Matches(x, y) == Matches(x[..m], y[..m])
  {
    var m := Min(|x|, |y|);
    if m > 0 {
      MatchesWithinShorter(x[1..], y[1..]);
      assert x[..m][1..] == x[1..][..m - 1] && y[..m][1..] == y[1..][..m - 1];
    }
  }

  /** The counting loop of `calculateTolerance`: `matches` grows by one at each
      index below the shorter length where the two segments agree. */
  method CountMatches(hash1: string, hash2: string) returns (matches: nat)
    ensures matches == Matches(hash1, hash2)
  {
    matches := 0;
    var minLength := Min(|hash1|, |hash2|);
    var i := 0;
    while i < minLength
      invariant 0 <= i <= minLength
      invariant matches == Matches(hash1[..i], hash2[..i])
    {
      MatchesExtend(hash1, hash2, i);
      if hash1[i] == hash2[i] {
        matches := matches + 1;
      }
      i := i + 1;
    }
    MatchesWithinShorter(hash1, hash2);
  }

  lemma {:induction false} MatchesSymmetric(x: string, y: string)
    ensures Matches(x, y) == Matches(y, x)
  {
    if |x| > 0 && |y| > 0 {
      MatchesSymmetric(x[1..], y[1..]);
    }
  }

  /** Agreement at every position of two equally long strings makes them equal. */
  lemma {:induction false} MatchesAll(x: string, y: string)
    requires |x| == |y|
    requires Matches(x, y) == |x|
    ensures x == y
  {
    if |x| > 0 {
      MatchesAll(x[1..], y[1..]);
      assert x == [x[0]] + x[1..] && y == [y[0]] + y[1..];
    }
  }

  /** `calculateTolerance`: 0 for an invalid signature, 1 for equal hex segments,
      otherwise the share of agreeing positions over the longer segment. */
  function CalculateTolerance(sig1: string, sig2: string): (t: real)
    ensures 0.0 <= t <= 1.0
    ensures t == 1.0 <==> ValidateSignature(sig1) && ValidateSignature(sig2) && Segment(sig1, 1) == Segment(sig2, 1)
    ensures !ValidateSignature(sig1) || !ValidateSignature(sig2) ==> t == 0.0
    ensures ValidateSignature(sig1) && ValidateSignature(sig2) && Segment(sig1, 1) != Segment(sig2, 1) ==>
      t == Matches(Segment(sig1, 1), Segment(sig2, 1)) as real / Max(|Segment(sig1, 1)|, |Segment(sig2, 1)|) as real
  {
    if !ValidateSignature(sig1) || !ValidateSignature(sig2) then 0.0
    else
      var hash1 := Segment(sig1, 1);
      var hash2 := Segment(sig2, 1);
      if hash1 == hash2 then 1.0
      else
        var longer := Max(|hash1|, |hash2|);
        assert Matches(hash1, hash2) < longer by {
          if Matches(hash1, hash2) == longer {
            MatchesAll(hash1, hash2);
          }
        }
        FractionBelowOne(Matches(hash1, hash2), longer);
        Matches(hash1, hash2) as real / longer as real
  }

  lemma FractionBelowOne(a: nat, b: nat)
    requires a < b
    ensures 0.0 <= a as real / b as real < 1.0
  {
  }

  lemma ToleranceSymmetric(sig1: string, sig2: string)
    ensures CalculateTolerance(sig1, sig2) == CalculateTolerance(sig2, sig1)
  {
    if ValidateSignature(sig1) && ValidateSignature(sig2) {
      MatchesSymmetric(Segment(sig1, 1), Segment(sig2, 1));
    }
  }

  /** Every valid signature is fully tolerant of itself. */
  lemma ToleranceReflexive(sig: string)
    requires ValidateSignature(sig)
    ensures CalculateTolerance(sig, sig) == 1.0
  {
  }

  /** Any two fallback signatures match completely, whatever their random digits and clocks. */
  lemma FallbacksAlwaysMatch(random1: string, now1: nat, random2: string, now2: nat)
    ensures CalculateTolerance(GenerateSignature([], now1, random1), GenerateSignature([], now2, random2)) == 1.0
  {
  }

  /** Signatures of the same values taken at different times match completely. */
  lemma SameValuesMatch(v: seq<real>, now1: nat, now2: nat, random1: string, random2: string)
    requires |v| > 0
    ensures CalculateTolerance(GenerateSignature(v, now1, random1), GenerateSignature(v, now2, random2)) == 1.0
  {
    ClockOnlyInLastSegment(v, now1, now2, random1, random2);
  }
}
