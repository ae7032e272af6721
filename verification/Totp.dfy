/** One-time codes: HOTP (RFC 4226) and TOTP (RFC 6238).

    The keyed hash and the base-32 decoder are parameters.  The shortest digest in use, SHA-1's, has
    twenty bytes. */
module Totp {
  import opened Crypto
  import opened Text
  import opened ByteOrder
  import Sequences

  datatype Algorithm = Sha1 | Sha256 | Sha512

  type Digest = d: seq<Byte> | |d| >= 20 witness seq(20, _ => 0)
  type Mac = (Algorithm, seq<Byte>, seq<Byte>) -> Digest
  type Decoder = string -> Option<seq<Byte>>

  const MAX_SKEW: nat := 10
  const U64_MAX: nat := 0xFFFF_FFFF_FFFF_FFFF

  type U64 = n: nat | n <= U64_MAX

  datatype Refusal = InvalidDigits(got: nat) | InvalidPeriod | InvalidBase32 | InvalidSkew(skew: nat)
  datatype Outcome<+T> = Done(value: T) | Refused(why: Refusal)

  datatype Config = Config(secret: string, algorithm: Algorithm, digits: nat, period: U64)

  // ---- HOTP -----------------------------------------------------------

  /** Where the four-byte window starts: the low nibble of the last byte. */
  function Offset(digest: Digest): nat {
    digest[|digest| - 1] % 16
  }

  /** The bytes of the window, shifted into place under a cleared sign bit. */
  function Truncated(digest: Digest): nat {
    var offset := Offset(digest);
    var a: nat, b: nat, c: nat, d: nat := digest[offset], digest[offset + 1], digest[offset + 2], digest[offset + 3];
    a % 128 * 0x1000000 + b * 0x10000 + c * 0x100 + d
  }

  function Hotp(mac: Mac, key: seq<Byte>, counter: U64, digits: nat, algorithm: Algorithm): string {
    var binary := Truncated(mac(algorithm, key, BigEndian(counter, 8)));
    Padded(binary % Modulus(digits), digits)
  }

  function Modulus(digits: nat): (m: nat)
    ensures m > 0
  {
    PowPositive(digits);
    Pow(10, digits)
  }

  lemma {:induction false} PowPositive(n: nat)
    ensures Pow(10, n) > 0
  {
    if n > 0 { PowPositive(n - 1); }
  }

  lemma ValueOfFour(w: seq<Byte>)
    requires |w| == 4
    ensures ValueOf(w) == w[0] as nat * 0x1000000 + w[1] as nat * 0x10000 + w[2] as nat * 0x100 + w[3] as nat
  {
    var three := w[..3];
    var two := three[..2];
    var one := two[..1];
    assert ValueOf(one[..0]) == 0;
    assert ValueOf(one) == w[0] as nat;
    assert ValueOf(two) == w[0] as nat * 0x100 + w[1] as nat;
    assert ValueOf(three) == w[0] as nat * 0x10000 + w[1] as nat * 0x100 + w[2] as nat;
  }

  lemma HighBitCleared(high: Byte, low: nat)
    requires low < 0x1000000
    ensures (high as nat * 0x1000000 + low) % 0x8000_0000 == high as nat % 128 * 0x1000000 + low
  {
  }

  /** Dynamic truncation as section 5.3 of RFC 4226 defines it: the last 31 bits of the four bytes
      that the last nibble points at, all of them inside the digest. */
  lemma TruncatedIsLast31Bits(digest: Digest)
    ensures var o := digest[|digest| - 1] % 16;
            o + 4 <= |digest| && Truncated(digest) == ValueOf(digest[o..o + 4]) % 0x8000_0000
  {
    hide ValueOf;
    var o := Offset(digest);
    ValueOfFour(digest[o..o + 4]);
    HighBitCleared(digest[o], digest[o + 1] as nat * 0x10000 + digest[o + 2] as nat * 0x100 + digest[o + 3] as nat);
  }

  /** Every code has exactly the configured number of figures and spells the truncated digest modulo
      that power of ten, so two counters share a code exactly when their residues agree. */
  lemma CodeSpellsResidue(mac: Mac, key: seq<Byte>, counter: U64, other: U64, digits: nat, algorithm: Algorithm)
    requires digits > 0
    ensures var code := Hotp(mac, key, counter, digits, algorithm);
      && |code| == digits
      && AllFigures(code)
      && Pow(10, digits) > 0
      && Spelled(code) == Truncated(mac(algorithm, key, BigEndian(counter, 8))) % Pow(10, digits)
    ensures
      Hotp(mac, key, counter, digits, algorithm) == Hotp(mac, key, other, digits, algorithm) <==>
      Truncated(mac(algorithm, key, BigEndian(counter, 8))) % Pow(10, digits)
      == Truncated(mac(algorithm, key, BigEndian(other, 8))) % Pow(10, digits)
  {
    PowPositive(digits);
    PaddedSpells(Truncated(mac(algorithm, key, BigEndian(counter, 8))) % Modulus(digits), digits);
    PaddedSpells(Truncated(mac(algorithm, key, BigEndian(other, 8))) % Modulus(digits), digits);
  }

  /** The moduli of the code lengths in use. */
  lemma PowersOfTen()
    ensures Pow(10, 6) == 1000000 && Pow(10, 7) == 10000000 && Pow(10, 8) == 100000000
    ensures Pow(10, 9) == 1000000000 && Pow(10, 10) == 10000000000
  {
    assert Pow(10, 3) == 1000;
    assert Pow(10, 6) == 1000000;
  }

  /** Different counters are different messages to the keyed hash. */
  lemma CountersAreSeparate(a: U64, b: U64)
    ensures BigEndian(a, 8) == BigEndian(b, 8) <==> a == b
  {
    assert Pow(256, 4) == 0x1_0000_0000;
    assert Pow(256, 8) == 0x1_0000_0000_0000_0000;
    ValueOfBigEndian(a, 8);
    ValueOfBigEndian(b, 8);
  }

  // ---- TOTP -----------------------------------------------------------

  /** The secret as typed, without white space, hyphens and padding, in upper case. */
  function Normalized(secret: string): string {
    if secret == "" then ""
    else
      var c, rest := secret[0], Normalized(secret[1..]);
      if Formatting(c) then rest else [Upper(c)] + rest
  }

  predicate Formatting(c: char) {
    IsWhitespace(c) || c == '-' || c == '='
  }

  function Upper(c: char): char {
    if 'a' <= c <= 'z' then c - 32 as char else c
  }

  lemma {:induction false} NormalizedAppend(a: string, b: string)
    ensures Normalized(a + b) == Normalized(a) + Normalized(b)
  {
    if a == "" {
      assert a + b == b;
    } else {
      hide *;
      var c, rest := a[0], a[1..];
      NormalizedAppend(rest, b);
      NormalizedStep(c, rest);
      NormalizedStep(c, rest + b);
      Sequences.UnconsAppend(a, b);
      Sequences.ConsAppend(Upper(c), Normalized(rest), Normalized(b));
    }
  }

  lemma NormalizedStep(c: char, rest: string)
    ensures Normalized([c] + rest) == if Formatting(c) then Normalized(rest) else [Upper(c)] + Normalized(rest)
  {
    assert ([c] + rest)[1..] == rest;
  }

  predicate Base32Letter(c: char) {
    'A' <= c <= 'Z' || '2' <= c <= '7'
  }

  /** A secret of base-32 letters is taken as it is. */
  lemma {:induction false} PlainSecretsStand(text: string)
    requires forall k :: 0 <= k < |text| ==> Base32Letter(text[k])
    ensures Normalized(text) == text
  {
    if text != "" {
      PlainSecretsStand(text[1..]);
      assert text == [text[0]] + text[1..];
    }
  }

  /** Spaces, hyphens, padding and case in a secret never change the key: the codes are those of the
      secret without them. */
  lemma FormattingIsForgiven(before: string, c: char, after: string)
    ensures IsWhitespace(c) || c == '-' || c == '=' ==> Normalized(before + ([c] + after)) == Normalized(before + after)
    ensures 'a' <= c <= 'z' ==>
              Normalized(before + ([c] + after)) == Normalized(before + ([(c as int - 32) as char] + after))
  {
    NormalizedAppend(before, [c] + after);
    NormalizedAppend(before, after);
    NormalizedAppend(before, [Upper(c)] + after);
    NormalizedStep(c, after);
    NormalizedStep(Upper(c), after);
    assert Upper(Upper(c)) == Upper(c) && (Formatting(Upper(c)) <==> Formatting(c));
    assert 'a' <= c <= 'z' ==> Upper(c) == (c as int - 32) as char;
  }

  function DecodeSecret(decode: Decoder, config: Config): Outcome<seq<Byte>> {
    var text := Normalized(config.secret);
    if text == "" then Refused(InvalidBase32)
    else
      match decode(text)
      case None => Refused(InvalidBase32)
      case Some(key) => Done(key)
  }

  function Validate(decode: Decoder, config: Config): Outcome<seq<Byte>> {
    if !(6 <= config.digits <= 10) then Refused(InvalidDigits(config.digits))
    else if config.period == 0 then Refused(InvalidPeriod)
    else DecodeSecret(decode, config)
  }

  /** The number of whole periods that have passed. */
  function Step(config: Config, seconds: U64): U64
    requires config.period != 0
  {
    DivideNoLarger(seconds, config.period);
    seconds / config.period
  }

  lemma {:induction false} DivideNoLarger(n: nat, d: nat)
    requires d > 0
    ensures n / d <= n
  {
    assert n == d * (n / d) + n % d;
    MultiplyNoSmaller(d, n / d);
  }

  lemma MultiplyNoSmaller(d: nat, q: nat)
    requires d > 0
    ensures d * q >= q
  {
    assert d * q == (d - 1) * q + q;
  }

  function GenerateAt(mac: Mac, decode: Decoder, config: Config, seconds: U64): Outcome<string> {
    match Validate(decode, config)
    case Refused(why) => Refused(why)
    case Done(key) => Done(Hotp(mac, key, Step(config, seconds), config.digits, config.algorithm))
  }

  function SecondsRemainingAt(config: Config, seconds: U64): nat {
    if config.period == 0 then 0 else config.period - seconds % config.period
  }

  function TrimmedStart(text: string): string {
    if text != "" && IsWhitespace(text[0]) then TrimmedStart(text[1..]) else text
  }

  function TrimmedEnd(text: string): string {
    if text != "" && IsWhitespace(text[|text| - 1]) then TrimmedEnd(text[..|text| - 1]) else text
  }

  function Trimmed(text: string): string {
    TrimmedEnd(TrimmedStart(text))
  }

  predicate Blank(text: string) {
    forall k :: 0 <= k < |text| ==> IsWhitespace(text[k])
  }

  lemma {:induction false} TrimmedStartSplits(text: string) returns (n: nat)
    ensures n <= |text| && Blank(text[..n]) && TrimmedStart(text) == text[n..]
    ensures n < |text| ==> !IsWhitespace(text[n])
  {
    n := 0;
    if text != "" && IsWhitespace(text[0]) {
      n := TrimmedStartSplits(text[1..]);
      assert text[1..][n..] == text[n + 1..];
      assert forall k :: 0 < k < n + 1 ==> text[k] == text[1..][..n][k - 1];
      n := n + 1;
    }
  }

  lemma {:induction false} TrimmedEndSplits(text: string) returns (n: nat)
    ensures n <= |text| && Blank(text[n..]) && TrimmedEnd(text) == text[..n]
    ensures n > 0 ==> !IsWhitespace(text[n - 1])
  {
    n := |text|;
    if text != "" && IsWhitespace(text[|text| - 1]) {
      var u := |text| - 1;
      n := TrimmedEndSplits(text[..u]);
      assert text[..u][..n] == text[..n];
      forall k | 0 <= k < |text[n..]| ensures IsWhitespace(text[n..][k]) {
        assert k < |text[..u][n..]| ==> text[n..][k] == text[..u][n..][k];
      }
    }
  }

  /** Trimming takes white space off both ends, all of it, and nothing else. */
  lemma TrimmedExactly(text: string)
    ensures exists before, after :: Blank(before) && Blank(after) && text == before + Trimmed(text) + after
    ensures Trimmed(text) != "" ==>
              !IsWhitespace(Trimmed(text)[0]) && !IsWhitespace(Trimmed(text)[|Trimmed(text)| - 1])
  {
    var n := TrimmedStartSplits(text);
    var rest := TrimmedStart(text);
    var m := TrimmedEndSplits(rest);
    assert text == text[..n] + Trimmed(text) + rest[m..];
  }

  /** Some counter within `skew` steps of now has this code. */
  ghost predicate InWindow(mac: Mac, key: seq<Byte>, config: Config, code: string, current: U64, skew: nat) {
    exists counter: U64 ::
      current - skew <= counter <= current + skew
      && Hotp(mac, key, counter, config.digits, config.algorithm) == code
  }

  /** What verification must answer. */
  ghost function Verdict(mac: Mac, decode: Decoder, config: Config, code: string, seconds: U64, skew: U64)
      : Outcome<bool> {
    match Validate(decode, config)
    case Refused(why) => Refused(why)
    case Done(key) =>
      if skew > MAX_SKEW then Refused(InvalidSkew(skew))
      else Done(InWindow(mac, key, config, Trimmed(code), Step(config, seconds), skew))
  }

  /** The key a secret stands for: its letters, decoded; none if there are no letters. */
  function KeyOf(decode: Decoder, secret: string): Option<seq<Byte>> {
    if Normalized(secret) == "" then None else decode(Normalized(secret))
  }

  /** The answer, case by case. */
  lemma VerdictExactly(mac: Mac, decode: Decoder, config: Config, code: string, seconds: U64, skew: U64)
    ensures var r := Verdict(mac, decode, config, code, seconds, skew);
            if config.digits < 6 || config.digits > 10 then r == Refused(InvalidDigits(config.digits))
            else if config.period == 0 then r == Refused(InvalidPeriod)
            else if KeyOf(decode, config.secret).None? then r == Refused(InvalidBase32)
            else if skew > 10 then r == Refused(InvalidSkew(skew))
            else
              var key, current := KeyOf(decode, config.secret).value, seconds / config.period;
              r == Done(exists counter: U64 ::
                          current - skew <= counter <= current + skew
                          && Hotp(mac, key, counter, config.digits, config.algorithm) == Trimmed(code))
  {
    hide Hotp, Trimmed, Normalized;
  }

  /** And the code generated, likewise. */
  lemma GeneratedExactly(mac: Mac, decode: Decoder, config: Config, seconds: U64)
    ensures var r := GenerateAt(mac, decode, config, seconds);
            if config.digits < 6 || config.digits > 10 then r == Refused(InvalidDigits(config.digits))
            else if config.period == 0 then r == Refused(InvalidPeriod)
            else if KeyOf(decode, config.secret).None? then r == Refused(InvalidBase32)
            else
              && seconds / config.period <= seconds
              && r == Done(Hotp(mac, KeyOf(decode, config.secret).value, seconds / config.period, config.digits,
                                config.algorithm))
    ensures config.period == 0 ==> SecondsRemainingAt(config, seconds) == 0
  {
    hide Hotp, Normalized;
    if config.period > 0 {
      DivideNoLarger(seconds, config.period);
    }
  }

  /** The loop over counters, saturating at both ends, that keeps going after a match. */
  method VerifyAt(mac: Mac, decode: Decoder, config: Config, code: string, seconds: U64, skew: U64)
    returns (r: Outcome<bool>)
    ensures r == Verdict(mac, decode, config, code, seconds, skew)
  {
    hide Hotp, Trimmed, DecodeSecret;
    var valid := Validate(decode, config);
    if valid.Refused? {
      return Refused(valid.why);
    }
    if skew > MAX_SKEW {
      return Refused(InvalidSkew(skew));
    }
    var key, candidate, matched := valid.value, Trimmed(code), false;
    var current := Step(config, seconds);
    var first := if current < skew then 0 else current - skew;
    var last := if current + skew > U64_MAX then U64_MAX else current + skew;
    var counter := first;
    while counter <= last
      invariant first <= counter <= last + 1
      invariant matched <==> exists c: U64 ::
          first <= c < counter && Hotp(mac, key, c, config.digits, config.algorithm) == candidate
    {
      matched := matched || Hotp(mac, key, counter, config.digits, config.algorithm) == candidate;
      counter := counter + 1;
    }
    r := Done(matched);
  }

  lemma {:induction false} TrimmedStartOf(before: string, text: string)
    requires forall k :: 0 <= k < |before| ==> IsWhitespace(before[k])
    requires text != "" && !IsWhitespace(text[0])
    ensures TrimmedStart(before + text) == text
  {
    if before == "" {
      assert before + text == text;
    } else {
      assert (before + text)[1..] == before[1..] + text;
      TrimmedStartOf(before[1..], text);
    }
  }

  lemma {:induction false} TrimmedEndOf(text: string, after: string)
    requires forall k :: 0 <= k < |after| ==> IsWhitespace(after[k])
    requires text != "" && !IsWhitespace(text[|text| - 1])
    ensures TrimmedEnd(text + after) == text
  {
    if after == "" {
      assert text + after == text;
    } else {
      assert (text + after)[..|text + after| - 1] == text + after[..|after| - 1];
      TrimmedEndOf(text, after[..|after| - 1]);
    }
  }

  /** A generated code, with any white space around it, verifies at every time whose step is within
      the skew of the step it was made for. */
  lemma GeneratedVerifies(mac: Mac, decode: Decoder, config: Config, made: U64, now: U64, skew: U64, before: string,
      after: string)
    requires GenerateAt(mac, decode, config, made).Done?
    requires skew <= MAX_SKEW && Step(config, made) - skew <= Step(config, now) <= Step(config, made) + skew
    requires forall k :: 0 <= k < |before| ==> IsWhitespace(before[k])
    requires forall k :: 0 <= k < |after| ==> IsWhitespace(after[k])
    ensures
      Verdict(mac, decode, config, before + GenerateAt(mac, decode, config, made).value + after, now, skew)
          == Done(true)
  {
    var key := Validate(decode, config).value;
    var code := GenerateAt(mac, decode, config, made).value;
    var counter := Step(config, made);
    CodeSpellsResidue(mac, key, counter, counter, config.digits, config.algorithm);
    assert before + code + after == before + (code + after);
    TrimmedStartOf(before, code + after);
    TrimmedEndOf(code, after);
  }

  lemma {:induction false} StepOf(seconds: nat, period: nat, later: nat)
    requires 0 < period && later <= period - seconds % period
    ensures (seconds + later) / period
            == seconds / period + (if later == period - seconds % period then 1 else 0)
  {
    var q, m := seconds / period, seconds % period;
    DivisionOf(seconds, period);
    hide Product;
    if later == period - m {
      ProductNext(period, q);
      DivideExactly(seconds + later, period, q + 1, 0);
    } else {
      DivideExactly(seconds + later, period, q, m + later);
    }
  }

  /** The countdown is exact: the code stays what it is for that many seconds and no longer, and then
      it is the next counter's. */
  lemma {:induction false} CountdownIsExact(mac: Mac, decode: Decoder, config: Config, seconds: U64, later: nat)
    requires GenerateAt(mac, decode, config, seconds).Done?
    requires seconds + later <= U64_MAX && later <= SecondsRemainingAt(config, seconds)
    ensures 1 <= SecondsRemainingAt(config, seconds) <= config.period
    ensures later < SecondsRemainingAt(config, seconds) ==>
              GenerateAt(mac, decode, config, seconds + later) == GenerateAt(mac, decode, config, seconds)
    ensures later == SecondsRemainingAt(config, seconds) ==>
              Step(config, seconds + later) == Step(config, seconds) + 1
  {
    StepOf(seconds, config.period, later);
  }
}
