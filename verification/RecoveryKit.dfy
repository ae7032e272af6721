/** The printed form of the 128-bit secret key, and reading it back. */
module RecoveryKit {
  import opened Crypto
  import opened Text
  import Sequences

  const ALPHABET := "abcdefghjkmnpqrstuvwxyz23456789"
  const LENGTH: nat := 26
  const U128: nat := 0x1_0000_0000_0000_0000_0000_0000_0000_0000

  /** A position in the alphabet, which has 31 letters. */
  type Digit = d: int | 0 <= d < 31

  function Letter(digit: Digit): char {
    ALPHABET[digit]
  }

  // ---- positional notation --------------------------------------------

  /** The `width` lowest base-31 digits, most significant first. */
  function Digits(value: nat, width: nat): (digits: seq<Digit>)
    ensures |digits| == width
  {
    if width == 0 then [] else Digits(value / 31, width - 1) + [value % 31]
  }

  function Value(digits: seq<Digit>): nat {
    if digits == [] then 0 else Value(digits[..|digits| - 1]) * 31 + digits[|digits| - 1]
  }

  lemma {:induction false} ValueOfDigits(value: nat, width: nat)
    requires value < Pow(31, width)
    ensures Value(Digits(value, width)) == value
  {
    if width > 0 {
      ValueOfDigits(value / 31, width - 1);
      var digits := Digits(value, width);
      assert digits[..|digits| - 1] == Digits(value / 31, width - 1);
    }
  }

  lemma {:induction false} DigitsOfValue(digits: seq<Digit>)
    ensures Digits(Value(digits), |digits|) == digits
  {
    if digits != [] {
      DigitsOfValue(digits[..|digits| - 1]);
    }
  }

  /** Reading more digits never makes the number smaller. */
  lemma {:induction false} PrefixNoLarger(digits: seq<Digit>, k: nat)
    requires k <= |digits|
    ensures Value(digits[..k]) <= Value(digits)
  {
    if k == |digits| {
      assert digits[..k] == digits;
    } else {
      var high := digits[..|digits| - 1];
      PrefixNoLarger(high, k);
      assert high[..k] == digits[..k];
    }
  }

  // ---- printing -------------------------------------------------------

  function Letters(digits: seq<Digit>): (text: string)
    ensures |text| == |digits|
  {
    if digits == [] then "" else Letters(digits[..|digits| - 1]) + [Letter(digits[|digits| - 1])]
  }

  /** Groups of five, hyphenated. */
  function Grouped(chars: string): string {
    if |chars| <= 5 then chars else chars[..5] + "-" + Grouped(chars[5..])
  }

  function Spelling(key: nat): string {
    Letters(Digits(key, LENGTH))
  }

  function ToKit(key: nat): string {
    Grouped(Spelling(key))
  }

  method PrintKit(key: nat) returns (kit: string)
    requires key < U128
    ensures kit == ToKit(key)
  {
    hide Letter;
    var value: nat, chars := key, "";
    for n := 0 to LENGTH
      invariant Spelling(key) == Letters(Digits(value, LENGTH - n)) + Reversed(chars)
    {
      var letter := Letter(value % 31);
      ReversedAppend(chars, letter);
      var high := Digits(value / 31, LENGTH - n - 1);
      assert Digits(value, LENGTH - n)[..LENGTH - n - 1] == high;
      assert Letters(Digits(value, LENGTH - n)) + Reversed(chars) == Letters(high) + ([letter] + Reversed(chars));
      chars := chars + [letter];
      value := value / 31;
    }
    assert Letters(Digits(value, 0)) + Reversed(chars) == Reversed(chars);
    kit := Grouped(Reversed(chars));
  }

  lemma {:induction false} PowPositive(n: nat)
    ensures Pow(31, n) > 0
  {
    if n > 0 { PowPositive(n - 1); }
  }

  lemma {:induction false} DigitAt(value: nat, width: nat, k: nat)
    requires k < width
    ensures Pow(31, width - 1 - k) > 0 && Digits(value, width)[k] == value / Pow(31, width - 1 - k) % 31
  {
    PowPositive(width - 1 - k);
    if k < width - 1 {
      DigitAt(value / 31, width - 1, k);
      PowPositive(width - 2 - k);
      DivideTwice(value, Pow(31, width - 2 - k));
    }
  }

  lemma {:induction false} LetterAt(digits: seq<Digit>, k: nat)
    requires k < |digits|
    ensures Letters(digits)[k] == Letter(digits[k])
  {
    if k < |digits| - 1 {
      LetterAt(digits[..|digits| - 1], k);
    }
  }

  /** Every sixth character is a hyphen, and the others are the text's in their order. */
  lemma {:induction false} GroupedAt(chars: string, k: nat)
    requires 0 < |chars| && k < |chars| + (|chars| - 1) / 5
    ensures |Grouped(chars)| == |chars| + (|chars| - 1) / 5
    ensures Grouped(chars)[k] == if k % 6 == 5 then '-' else chars[k - k / 6]
    decreases |chars|
  {
    if |chars| > 5 {
      GroupedAt(chars[5..], if k >= 6 then k - 6 else 0);
    }
  }

  /** The printed kit, character by character: twenty-six letters in groups of five, the highest base-31
      digit first, digit by digit from an alphabet without i, l, o, 0 and 1. */
  lemma KitExactly(key: nat, k: nat)
    requires k < 31
    ensures |ToKit(key)| == 31 && Pow(31, 25 - (k - k / 6)) > 0
    ensures ToKit(key)[k] == if k % 6 == 5 then '-'
                             else "abcdefghjkmnpqrstuvwxyz23456789"[key / Pow(31, 25 - (k - k / 6)) % 31]
  {
    GroupedAt(Spelling(key), k);
    PowPositive(25 - (k - k / 6));
    if k % 6 != 5 {
      DigitAt(key, 26, k - k / 6);
      LetterAt(Digits(key, 26), k - k / 6);
    }
  }

  // ---- reading --------------------------------------------------------

  function Lowered(c: char): char {
    if 'A' <= c <= 'Z' then c + 32 as char else c
  }

  /** One character as the reader sees it: lower-cased, then cut to its low eight bits. */
  function AsByte(c: char): nat {
    Lowered(c) as int % 256
  }

  predicate Skipped(c: char) {
    IsWhitespace(c) || c == '-'
  }

  function Cleaned(kit: string): seq<nat> {
    if kit == "" then []
    else if Skipped(kit[0]) then Cleaned(kit[1..])
    else [AsByte(kit[0])] + Cleaned(kit[1..])
  }

  function PositionFrom(byte: nat, from: nat): (p: Option<Digit>)
    ensures p.Some? ==> Letter(p.value) as int == byte
    decreases 31 - from
  {
    if from >= 31 then None
    else if Letter(from) as int == byte then Some(from)
    else PositionFrom(byte, from + 1)
  }

  /** Where a byte is in the alphabet. */
  function Position(byte: nat): (p: Option<Digit>)
    ensures p.Some? ==> Letter(p.value) as int == byte
  {
    PositionFrom(byte, 0)
  }

  /** The digits of a text all of whose bytes are letters of the alphabet. */
  function Numerals(bytes: seq<nat>): (digits: Option<seq<Digit>>)
    ensures digits.Some? ==> |digits.value| == |bytes|
  {
    if bytes == [] then Some([])
    else
      var high, low := Numerals(bytes[..|bytes| - 1]), Position(bytes[|bytes| - 1]);
      if high.Some? && low.Some? then Some(high.value + [low.value]) else None
  }

  /** The key a kit spells: 26 letters of the alphabet whose value fits 128 bits. */
  function FromKit(kit: string): Option<nat> {
    var bytes := Cleaned(kit);
    var digits := Numerals(bytes);
    if |bytes| == LENGTH && digits.Some? && Value(digits.value) < U128 then Some(Value(digits.value)) else None
  }

  lemma {:induction false} NumeralsPrefix(bytes: seq<nat>, k: nat)
    requires k <= |bytes| && Numerals(bytes).Some?
    ensures Numerals(bytes[..k]) == Some(Numerals(bytes).value[..k])
  {
    hide Position, Letter;
    if k == |bytes| {
      assert bytes[..k] == bytes && Numerals(bytes).value[..k] == Numerals(bytes).value;
    } else {
      var high := bytes[..|bytes| - 1];
      NumeralsPrefix(high, k);
      assert high[..k] == bytes[..k];
      assert Numerals(bytes).value[..k] == Numerals(high).value[..k];
    }
  }

  /** One more letter. */
  lemma NextNumeral(bytes: seq<nat>, k: nat)
    requires k < |bytes| && Numerals(bytes[..k]).Some?
    ensures Numerals(bytes[..k + 1]).Some? <==> Position(bytes[k]).Some?
    ensures Position(bytes[k]).Some? ==>
              Value(Numerals(bytes[..k + 1]).value) == Value(Numerals(bytes[..k]).value) * 31 + Position(bytes[k]).value
  {
    hide Position, Letter;
    var more := bytes[..k + 1];
    Sequences.TakeTake(bytes, k, k + 1);
    assert more[..|more| - 1] == bytes[..k] && more[|more| - 1] == bytes[k];
    if Position(bytes[k]).Some? {
      AppendedValue(Numerals(bytes[..k]).value, Position(bytes[k]).value);
    }
  }

  lemma AppendedValue(high: seq<Digit>, low: Digit)
    ensures Value(high + [low]) == Value(high) * 31 + low
  {
    assert (high + [low])[..|high|] == high;
  }

  /** A text whose prefix has an unknown letter, or is too large already, is refused. */
  lemma PrefixRefuses(bytes: seq<nat>, k: nat)
    requires k <= |bytes|
    requires Numerals(bytes[..k]).None? || Value(Numerals(bytes[..k]).value) >= U128
    ensures Numerals(bytes).None? || Value(Numerals(bytes).value) >= U128
  {
    hide Numerals, Value;
    if Numerals(bytes).Some? {
      NumeralsPrefix(bytes, k);
      PrefixNoLarger(Numerals(bytes).value, k);
    }
  }

  /** The reading loop, which refuses on the first letter it does not know and on the first
      multiplication or addition that leaves 128 bits: no representable kit is refused on the way. */
  method ReadKit(kit: string) returns (r: Option<nat>)
    ensures r == FromKit(kit)
  {
    var bytes := Cleaned(kit);
    if |bytes| != LENGTH {
      return None;
    }
    var value: nat := 0;
    assert Numerals(bytes[..0]) == Some([]) && Value([]) == 0;
    hide Position, Letter, Cleaned, Numerals, Value;
    for k := 0 to |bytes|
      invariant Numerals(bytes[..k]).Some? && value == Value(Numerals(bytes[..k]).value) < U128
    {
      var digit := Position(bytes[k]);
      NextNumeral(bytes, k);
      if digit.None? {
        PrefixRefuses(bytes, k + 1);
        return None;
      }
      if value * 31 >= U128 || value * 31 + digit.value >= U128 {
        PrefixRefuses(bytes, k + 1);
        return None;
      }
      value := value * 31 + digit.value;
    }
    Sequences.TakeAll(bytes);
    r := Some(value);
  }

  // ---- the bijection --------------------------------------------------

  lemma WidthSuffices()
    ensures U128 <= Pow(31, LENGTH)
  {
    assert Pow(31, 13) == 24417546297445042591;
    assert Pow(31, 26) == 596216567187872108348956733961803993281;
  }

  function Codes(text: string): (codes: seq<nat>)
    ensures |codes| == |text|
  {
    seq(|text|, i requires 0 <= i < |text| => text[i] as int)
  }

  lemma LettersDistinct(a: Digit, b: Digit)
    requires a < b
    ensures Letter(a) != Letter(b)
  {
    assert forall d: Digit :: d < 8 ==> Letter(d) as int == 97 + d;
    assert forall d: Digit :: 8 <= d < 10 ==> Letter(d) as int == 98 + d;
    assert forall d: Digit :: 10 <= d < 12 ==> Letter(d) as int == 99 + d;
    assert forall d: Digit :: 12 <= d < 23 ==> Letter(d) as int == 100 + d;
    assert forall d: Digit :: 23 <= d ==> Letter(d) as int == 27 + d;
  }

  /** No letter of the alphabet occurs twice, so every letter is read as the digit it prints. */
  lemma {:induction false} LetterReadFrom(digit: Digit, from: nat)
    requires from <= digit
    ensures PositionFrom(Letter(digit) as int, from) == Some(digit)
    decreases digit - from
  {
    if from < digit {
      LettersDistinct(from, digit);
      LetterReadFrom(digit, from + 1);
    }
  }

  lemma LetterRead(digit: Digit)
    ensures Position(Letter(digit) as int) == Some(digit)
  {
    LetterReadFrom(digit, 0);
  }

  lemma CodesAppend(a: string, c: char)
    ensures Codes(a + [c]) == Codes(a) + [c as int]
    ensures Codes([c] + a) == [c as int] + Codes(a)
    ensures Codes("") == []
  {
  }

  lemma {:induction false} NumeralsOfLetters(digits: seq<Digit>)
    ensures Numerals(Codes(Letters(digits))) == Some(digits)
  {
    hide Position, Letter, Codes;
    if digits != [] {
      var high, low := digits[..|digits| - 1], digits[|digits| - 1];
      NumeralsOfLetters(high);
      CodesAppend(Letters(high), Letter(low));
      var codes := Codes(Letters(digits));
      assert codes[..|codes| - 1] == Codes(Letters(high));
      LetterRead(low);
      assert high + [low] == digits;
    } else {
      CodesAppend("", 'a');
    }
  }

  lemma {:induction false} LettersOfNumerals(bytes: seq<nat>)
    requires Numerals(bytes).Some?
    ensures Codes(Letters(Numerals(bytes).value)) == bytes
  {
    hide Position, Letter;
    if bytes != [] {
      var digits := Numerals(bytes).value;
      var high := bytes[..|bytes| - 1];
      LettersOfNumerals(high);
      assert digits[..|digits| - 1] == Numerals(high).value;
      assert bytes == high + [bytes[|bytes| - 1]];
      assert Codes(Letters(digits)) == Codes(Letters(Numerals(high).value)) + [bytes[|bytes| - 1]];
    }
  }

  /** A kit reads as `key` exactly when its cleaned bytes are the canonical spelling of `key`. */
  lemma ReadsExactly(kit: string, key: nat)
    ensures FromKit(kit) == Some(key) <==> key < U128 && Cleaned(kit) == Codes(Spelling(key))
  {
    WidthSuffices();
    var bytes := Cleaned(kit);
    if key < U128 && bytes == Codes(Spelling(key)) {
      NumeralsOfLetters(Digits(key, LENGTH));
      ValueOfDigits(key, LENGTH);
    }
    if FromKit(kit) == Some(key) {
      LettersOfNumerals(bytes);
      DigitsOfValue(Numerals(bytes).value);
    }
  }

  predicate Printable(text: string) {
    forall k :: 0 <= k < |text| ==> 'a' <= text[k] <= 'z' || '2' <= text[k] <= '9'
  }

  lemma {:induction false} LettersPrintable(digits: seq<Digit>)
    ensures Printable(Letters(digits))
  {
    if digits != [] {
      LettersPrintable(digits[..|digits| - 1]);
    }
  }

  lemma CleanedStep(c: char, rest: string)
    ensures Cleaned([c] + rest) == if Skipped(c) then Cleaned(rest) else [AsByte(c)] + Cleaned(rest)
  {
    assert ([c] + rest)[1..] == rest;
  }

  lemma {:induction false} CleanedAppend(a: string, b: string)
    ensures Cleaned(a + b) == Cleaned(a) + Cleaned(b)
  {
    if a == "" {
      assert a + b == b;
    } else {
      hide *;
      var c, rest := a[0], a[1..];
      CleanedAppend(rest, b);
      CleanedStep(c, rest);
      CleanedStep(c, rest + b);
      Sequences.UnconsAppend(a, b);
      Sequences.ConsAppend(AsByte(c), Cleaned(rest), Cleaned(b));
    }
  }

  lemma {:induction false} CleanedPrintable(text: string)
    requires Printable(text)
    ensures Cleaned(text) == Codes(text)
  {
    if text != "" {
      CleanedPrintable(text[1..]);
      assert Codes(text) == [text[0] as int] + Codes(text[1..]);
    }
  }

  /** The reader undoes the hyphenation. */
  lemma {:induction false} CleanedGrouped(text: string)
    requires Printable(text)
    ensures Cleaned(Grouped(text)) == Codes(text)
    decreases |text|
  {
    if |text| <= 5 {
      CleanedPrintable(text);
    } else {
      hide Skipped, AsByte, Cleaned, Codes;
      var first, rest := text[..5], Grouped(text[5..]);
      PrintableParts(text, 5);
      CleanedGrouped(text[5..]);
      CleanedPrintable(first);
      CleanedAppend("-", rest);
      CleanedAppend(first, "-" + rest);
      HyphenDropped();
      assert Grouped(text) == (first + "-") + rest;
      Sequences.JoinAssociates(first, "-", rest);
      CodesSplit(text, 5);
    }
  }

  lemma PrintableParts(text: string, k: nat)
    requires Printable(text) && k <= |text|
    ensures Printable(text[..k]) && Printable(text[k..])
  {
  }

  lemma CodesSplit(text: string, k: nat)
    requires k <= |text|
    ensures Codes(text) == Codes(text[..k]) + Codes(text[k..])
  {
  }

  lemma HyphenDropped()
    ensures Cleaned("-") == []
  {
    assert "-"[1..] == "";
  }

  /** Hyphens, white space and case in a kit never change what it reads as. */
  lemma TypingIsForgiven(before: string, c: char, after: string)
    ensures c == '-' || IsWhitespace(c) ==> FromKit(before + ([c] + after)) == FromKit(before + after)
    ensures 'A' <= c <= 'Z' ==>
              FromKit(before + ([c] + after)) == FromKit(before + ([(c as int + 32) as char] + after))
  {
    CleanedAppend(before, [c] + after);
    CleanedAppend(before, after);
    CleanedStep(c, after);
    if 'A' <= c <= 'Z' {
      var small := (c as int + 32) as char;
      CleanedAppend(before, [small] + after);
      CleanedStep(small, after);
      assert AsByte(small) == AsByte(c) && Skipped(small) == Skipped(c);
    }
  }

  /** Every 128-bit key survives being printed and typed back in. */
  lemma RoundTrip(key: nat)
    ensures FromKit(ToKit(key)) == Some(key) <==> key < U128
  {
    LettersPrintable(Digits(key, LENGTH));
    CleanedGrouped(Spelling(key));
    ReadsExactly(ToKit(key), key);
  }

  /** The kit without white space and hyphens, in lower case: what someone meant to type. */
  function Stripped(kit: string): string {
    if kit == "" then ""
    else if Skipped(kit[0]) then Stripped(kit[1..])
    else [Lowered(kit[0])] + Stripped(kit[1..])
  }

  /** No kept character is wider than eight bits. */
  predicate Narrow(kit: string) {
    forall k :: 0 <= k < |kit| && !Skipped(kit[k]) ==> kit[k] as int < 256
  }

  lemma {:induction false} NarrowIsExact(kit: string)
    ensures Cleaned(kit) == Codes(Stripped(kit)) <==> Narrow(kit)
  {
    hide Skipped, AsByte, Lowered, Codes;
    CodesAppend("", 'a');
    if kit != "" {
      var c, rest := kit[0], kit[1..];
      NarrowIsExact(rest);
      assert Narrow(kit) <==> (Skipped(c) || c as int < 256) && Narrow(rest);
      CodesAppend(Stripped(rest), Lowered(c));
      NarrowByte(c);
      hide Narrow;
      if !Skipped(c) {
        SameHeadAndTail(AsByte(c), Cleaned(rest), Lowered(c) as int, Codes(Stripped(rest)));
      }
    }
  }

  lemma SameHeadAndTail(x: nat, s: seq<nat>, y: nat, t: seq<nat>)
    ensures [x] + s == [y] + t <==> x == y && s == t
  {
    assert ([x] + s)[1..] == s && ([y] + t)[1..] == t;
    assert ([x] + s)[0] == x && ([y] + t)[0] == y;
  }

  lemma NarrowByte(c: char)
    ensures AsByte(c) == Lowered(c) as int <==> c as int < 256
  {
  }

  lemma {:induction false} CodesInjective(a: string, b: string)
    requires Codes(a) == Codes(b)
    ensures a == b
  {
    forall k | 0 <= k < |a| ensures a[k] == b[k] {
      assert Codes(a)[k] == Codes(b)[k];
    }
  }

  /** An accepted kit is the canonical spelling of its key up to case, hyphens and white space exactly
      when none of its characters had to be cut to eight bits. */
  lemma {:induction false} AcceptedIsCanonical(kit: string, key: nat)
    requires FromKit(kit) == Some(key)
    ensures Stripped(kit) == Spelling(key) <==> Narrow(kit)
  {
    hide Cleaned, Stripped, Narrow, Spelling, FromKit;
    ReadsExactly(kit, key);
    NarrowIsExact(kit);
    if Narrow(kit) {
      CodesInjective(Stripped(kit), Spelling(key));
    }
  }

  /** For a kit of narrow characters, one of which ASCII kits are made, acceptance is decided by the
      stripped text alone: it must be the spelling of a 128-bit key. */
  lemma AcceptsExactlySpellings(kit: string, key: nat)
    requires Narrow(kit)
    ensures FromKit(kit) == Some(key) <==> key < U128 && Stripped(kit) == Spelling(key)
  {
    hide Cleaned, Stripped, Narrow, Spelling, FromKit;
    ReadsExactly(kit, key);
    NarrowIsExact(kit);
    if FromKit(kit) == Some(key) {
      CodesInjective(Stripped(kit), Spelling(key));
    }
  }

  function Repeated(c: char, n: nat): (s: string)
    ensures |s| == n
  {
    if n == 0 then "" else [c] + Repeated(c, n - 1)
  }

  lemma {:induction false} RepeatedCleaned(c: char, n: nat)
    requires !Skipped(c) && AsByte(c) == 'a' as int
    ensures Cleaned(Repeated(c, n)) == Codes(Letters(Digits(0, n)))
  {
    if n > 0 {
      RepeatedCleaned(c, n - 1);
      RepeatedAtEnd(c, n - 1);
      assert Repeated(c, n) == Repeated(c, n - 1) + [c];
      CleanedAppend(Repeated(c, n - 1), [c]);
      assert Cleaned([c]) == ['a' as int] by { assert [c][1..] == ""; }
      var digits := Digits(0, n);
      assert digits[..n - 1] == Digits(0, n - 1) && digits[n - 1] == 0;
      assert Letter(0) == 'a';
      assert Codes(Letters(digits)) == Codes(Letters(Digits(0, n - 1))) + ['a' as int];
    } else {
      assert Codes("") == [];
    }
  }

  lemma {:induction false} RepeatedAtEnd(c: char, n: nat)
    ensures [c] + Repeated(c, n) == Repeated(c, n) + [c]
  {
    if n > 0 {
      RepeatedAtEnd(c, n - 1);
      assert [c] + ([c] + Repeated(c, n - 1)) == ([c] + Repeated(c, n - 1)) + [c];
    }
  }

  /** Twenty-six times U+0161, a letter the alphabet does not have, is accepted as the key zero. */
  lemma WideCharactersAreCut()
    ensures FromKit(Repeated('\U{0161}', LENGTH)) == Some(0)
    ensures !Narrow(Repeated('\U{0161}', LENGTH))
  {
    var c := '\U{0161}';
    assert c as int == 353 && !Skipped(c) && AsByte(c) == 97;
    RepeatedCleaned(c, LENGTH);
    ReadsExactly(Repeated(c, LENGTH), 0);
    assert Repeated(c, LENGTH)[0] == c;
  }
}
