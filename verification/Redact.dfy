/** What a child process printed, as it is handed on: the credential replaced, then cut to length.

    Texts are their UTF-8 bytes. */
module Redact {
  import opened Crypto
  import opened Sequences

  type Text = seq<Byte>

  // "[redacted by yara]"
  const REDACTED: Text := [91, 114, 101, 100, 97, 99, 116, 101, 100, 32, 98, 121, 32, 121, 97, 114, 97, 93]
  // "\n… output truncated"
  const NOTICE: Text :=
    [10, 226, 128, 166, 32, 111, 117, 116, 112, 117, 116, 32, 116, 114, 117, 110, 99, 97, 116, 101, 100]

  const MIN_REDACTABLE: nat := 6
  const MAX_OUTPUT_BYTES: nat := 65536

  // ---- searching ------------------------------------------------------

  predicate OccursAt(text: Text, value: Text, i: nat) {
    i + |value| <= |text| && text[i..i + |value|] == value
  }

  ghost predicate Contains(text: Text, value: Text) {
    exists i: nat :: OccursAt(text, value, i)
  }

  /** The first occurrence at or after `from`. */
  function FindFrom(text: Text, value: Text, from: nat): (r: Option<nat>)
    requires from <= |text|
    ensures r.Some? ==> from <= r.value && OccursAt(text, value, r.value)
    ensures r.Some? ==> forall i: nat :: from <= i < r.value ==> !OccursAt(text, value, i)
    ensures r.None? ==> forall i: nat :: from <= i ==> !OccursAt(text, value, i)
    decreases |text| - from
  {
    if OccursAt(text, value, from) then Some(from)
    else if from == |text| then None
    else FindFrom(text, value, from + 1)
  }

  function Find(text: Text, value: Text): (r: Option<nat>)
    ensures r.Some? ==> OccursAt(text, value, r.value)
    ensures r.Some? ==> forall i: nat :: i < r.value ==> !OccursAt(text, value, i)
    ensures r.Some? <==> Contains(text, value)
  {
    FindFrom(text, value, 0)
  }

  /** Every occurrence replaced, from the left, without overlap. */
  function Replace(text: Text, value: Text, marker: Text): Text
    requires value != []
    decreases |text|
  {
    match Find(text, value)
    case None => text
    case Some(i) => text[..i] + (marker + Replace(text[i + |value|..], value, marker))
  }

  // ---- UTF-8 ----------------------------------------------------------

  predicate Continues(b: Byte) {
    0x80 <= b <= 0xBF
  }

  /** The length a lead byte announces, and 0 for a byte that leads nothing. */
  function Width(lead: Byte): nat {
    if lead <= 0x7F then 1
    else if 0xC2 <= lead <= 0xDF then 2
    else if 0xE0 <= lead <= 0xEF then 3
    else if 0xF0 <= lead <= 0xF4 then 4
    else 0
  }

  /** One encoded character: neither overlong, nor a surrogate, nor beyond U+10FFFF. */
  predicate IsCharacter(c: Text) {
    && c != [] && |c| == Width(c[0])
    && (forall k :: 1 <= k < |c| ==> Continues(c[k]))
    && (c[0] == 0xE0 ==> c[1] >= 0xA0)
    && (c[0] == 0xED ==> c[1] <= 0x9F)
    && (c[0] == 0xF0 ==> c[1] >= 0x90)
    && (c[0] == 0xF4 ==> c[1] <= 0x8F)
  }

  predicate Utf8(text: Text) {
    text == [] ||
    var n := Width(text[0]);
    1 <= n <= |text| && IsCharacter(text[..n]) && Utf8(text[n..])
  }

  predicate Boundary(text: Text, k: nat) {
    k == 0 || k == |text| || (k < |text| && !Continues(text[k]))
  }

  lemma Utf8Cons(c: Text, rest: Text)
    requires IsCharacter(c) && Utf8(rest)
    ensures Utf8(c + rest)
  {
    assert (c + rest)[..|c|] == c && (c + rest)[|c|..] == rest;
  }

  lemma CharacterContinues(text: Text, n: nat)
    requires n <= |text| && IsCharacter(text[..n])
    ensures forall k :: 1 <= k < n ==> Continues(text[k])
  {
    forall k | 1 <= k < n ensures Continues(text[k]) {
      assert text[..n][k] == text[k];
    }
  }

  lemma Utf8Uncons(text: Text)
    requires Utf8(text) && text != []
    ensures var n := Width(text[0]);
      && 1 <= n <= |text| && IsCharacter(text[..n]) && Utf8(text[n..])
      && text == text[..n] + text[n..]
      && forall k :: 1 <= k < n ==> Continues(text[k])
  {
    hide IsCharacter, Continues, Width;
    var n := Width(text[0]);
    CharacterContinues(text, n);
    SplitAt(text, n);
  }

  lemma Associates(a: Text, b: Text, c: Text)
    ensures (a + b) + c == a + (b + c)
  {
  }

  lemma DropsFromFirst(a: Text, b: Text, n: nat)
    requires n <= |a|
    ensures (a + b)[n..] == a[n..] + b
  {
  }

  lemma {:induction false} Utf8Append(a: Text, b: Text)
    requires Utf8(a) && Utf8(b)
    ensures Utf8(a + b)
  {
    if a == [] {
      assert a + b == b;
    } else {
      hide Utf8, IsCharacter, Width, Continues;
      Utf8Uncons(a);
      var n := Width(a[0]);
      Utf8Append(a[n..], b);
      Utf8Cons(a[..n], a[n..] + b);
      Associates(a[..n], a[n..], b);
    }
  }

  lemma CutsAfterFirst(text: Text, n: nat, k: nat)
    requires n <= k <= |text|
    ensures text[..k] == text[..n] + text[n..][..k - n] && text[k..] == text[n..][k - n..]
    ensures k < |text| ==> text[n..][k - n] == text[k]
  {
  }

  /** A cut on a boundary leaves two well-formed halves. */
  lemma {:induction false} Utf8Cut(text: Text, k: nat)
    requires Utf8(text) && k <= |text| && Boundary(text, k)
    ensures Utf8(text[..k]) && Utf8(text[k..])
  {
    if k == 0 {
      assert text[..0] == [] && text[0..] == text;
    } else {
      hide Utf8, IsCharacter, Width, Continues;
      Utf8Uncons(text);
      var n := Width(text[0]);
      var rest := text[n..];
      CutsAfterFirst(text, n, k);
      Utf8Cut(rest, k - n);
      Utf8Cons(text[..n], rest[..k - n]);
    }
  }

  /** What follows a well-formed beginning of a well-formed text is well formed. */
  lemma {:induction false} Utf8Rest(a: Text, b: Text)
    requires Utf8(a) && Utf8(a + b)
    ensures Utf8(b)
  {
    if a == [] {
      assert a + b == b;
    } else {
      hide Utf8, IsCharacter, Width, Continues;
      Utf8Uncons(a);
      Utf8Uncons(a + b);
      var n := Width(a[0]);
      assert (a + b)[0] == a[0];
      DropsFromFirst(a, b, n);
      Utf8Rest(a[n..], b);
    }
  }

  // ---- cutting --------------------------------------------------------

  function CutFrom(text: Text, cut: nat): (k: nat)
    requires cut <= |text|
    ensures k <= cut && Boundary(text, k)
    ensures forall j :: k < j <= cut ==> !Boundary(text, j)
  {
    if Boundary(text, cut) then cut else CutFrom(text, cut - 1)
  }

  function Truncated(text: Text): Text {
    if |text| <= MAX_OUTPUT_BYTES then text else text[..CutFrom(text, MAX_OUTPUT_BYTES)] + NOTICE
  }

  /** The search for the cut, downwards from the limit. */
  method Truncate(text: Text) returns (r: Text)
    ensures |text| <= MAX_OUTPUT_BYTES ==> r == text
    ensures |text| > MAX_OUTPUT_BYTES ==>
      exists cut :: 0 <= cut <= MAX_OUTPUT_BYTES && r == text[..cut] + NOTICE && Boundary(text, cut)
        && forall j :: cut < j <= MAX_OUTPUT_BYTES ==> !Boundary(text, j)
    ensures r == Truncated(text)
  {
    if |text| <= MAX_OUTPUT_BYTES {
      return text;
    }
    var cut := MAX_OUTPUT_BYTES;
    while cut > 0 && !(cut == |text| || !Continues(text[cut]))
      invariant 0 <= cut <= MAX_OUTPUT_BYTES
      invariant forall j :: cut < j <= MAX_OUTPUT_BYTES ==> !Boundary(text, j)
      invariant CutFrom(text, MAX_OUTPUT_BYTES) == CutFrom(text, cut)
    {
      cut := cut - 1;
    }
    r := text[..cut] + NOTICE;
  }

  function Cleaned(text: Text, secret: Text): Text {
    Truncated(if |secret| >= MIN_REDACTABLE then Replace(text, secret, REDACTED) else text)
  }

  method Clean(text: Text, secret: Text) returns (r: Text)
    ensures r == Cleaned(text, secret)
  {
    var kept := text;
    if |secret| >= MIN_REDACTABLE && Find(text, secret).Some? {
      kept := Replace(text, secret, REDACTED);
    }
    r := Truncate(kept);
  }

  // ---- nothing but the secret is replaced -----------------------------

  /** The stretches of text between the occurrences. */
  function Gaps(text: Text, value: Text): (gaps: seq<Text>)
    requires value != []
    ensures |gaps| > 0
    decreases |text|
  {
    match Find(text, value)
    case None => [text]
    case Some(i) => [text[..i]] + Gaps(text[i + |value|..], value)
  }

  function Joined(gaps: seq<Text>, by_: Text): Text
    requires |gaps| > 0
  {
    if |gaps| == 1 then gaps[0] else gaps[0] + (by_ + Joined(gaps[1..], by_))
  }

  /** The text is its gaps joined by the secret, and the redacted text the same gaps joined by the
      marker; no gap shows the secret. */
  lemma {:induction false} OnlyTheSecretIsReplaced(text: Text, value: Text, marker: Text)
    requires value != []
    ensures text == Joined(Gaps(text, value), value)
    ensures Replace(text, value, marker) == Joined(Gaps(text, value), marker)
    ensures forall k :: 0 <= k < |Gaps(text, value)| ==> !Contains(Gaps(text, value)[k], value)
    decreases |text|
  {
    var found := Find(text, value);
    if found.Some? {
      var i := found.value;
      var rest := text[i + |value|..];
      FirstOccurrence(text, value, marker, i);
      OnlyTheSecretIsReplaced(rest, value, marker);
      hide FindFrom, Find, Replace, Gaps, Contains;
      JoinedCons(text[..i], Gaps(rest, value), value);
      JoinedCons(text[..i], Gaps(rest, value), marker);
    }
  }

  /** What the first occurrence makes of the gaps and of the replaced text. */
  lemma FirstOccurrence(text: Text, value: Text, marker: Text, i: nat)
    requires value != [] && Find(text, value) == Some(i)
    ensures var rest := text[i + |value|..];
            && text == text[..i] + (value + rest) && !Contains(text[..i], value)
            && Gaps(text, value) == [text[..i]] + Gaps(rest, value)
            && Replace(text, value, marker) == text[..i] + (marker + Replace(rest, value, marker))
  {
    NoEarlier(text, value, i);
    SplitAround(text, value, i);
    hide Contains, FindFrom, OccursAt;
  }

  lemma SplitAround(text: Text, value: Text, i: nat)
    requires OccursAt(text, value, i)
    ensures text == text[..i] + (value + text[i + |value|..])
  {
    SplitThree(text, i, i + |value|);
  }

  lemma JoinedCons(gap: Text, gaps: seq<Text>, by_: Text)
    requires |gaps| > 0
    ensures Joined([gap] + gaps, by_) == gap + (by_ + Joined(gaps, by_))
  {
    assert ([gap] + gaps)[1..] == gaps;
  }

  lemma NoEarlier(text: Text, value: Text, i: nat)
    requires value != [] && i <= |text|
    requires forall k: nat :: k < i ==> !OccursAt(text, value, k)
    ensures !Contains(text[..i], value)
  {
    if k: nat :| OccursAt(text[..i], value, k) {
      assert text[..i][k..k + |value|] == text[k..k + |value|];
      assert OccursAt(text, value, k);
    }
  }

  // ---- the secret is gone ---------------------------------------------

  /** An occurrence lies in one part, or ends the first and begins the second. */
  lemma OccursInParts(a: Text, b: Text, value: Text, i: nat)
    requires OccursAt(a + b, value, i)
    ensures i + |value| <= |a| ==> OccursAt(a, value, i)
    ensures i >= |a| ==> OccursAt(b, value, i - |a|)
    ensures i < |a| < i + |value| ==>
              var k := |a| - i;
              |value| - k <= |b| && value[..k] == a[i..] && value[k..] == b[..|value| - k]
  {
    var s := a + b;
    assert value == s[i..i + |value|];
    if i + |value| <= |a| {
      assert s[i..i + |value|] == a[i..i + |value|];
    } else if i >= |a| {
      assert s[i..i + |value|] == b[i - |a|..i - |a| + |value|];
    } else {
      assert s[i..i + |value|] == a[i..] + b[..i + |value| - |a|];
    }
  }

  /** One of the two begins with the other. */
  predicate Meets(a: Text, b: Text) {
    if |a| <= |b| then a == b[..|a|] else b == a[..|b|]
  }

  /** What follows its first `k` bytes meets the marker, and it is first found after those bytes when it
      follows them. */
  predicate EndsInMarker(value: Text, k: nat) {
    k < |value| && Meets(value[k..], REDACTED) && Find(value[..k] + value, value) == Some(k)
  }

  /** Its first `k` bytes end the marker. */
  predicate BeginsInMarker(value: Text, k: nat) {
    0 < k < |value| && k <= |REDACTED| && value[..k] == REDACTED[|REDACTED| - k..]
  }

  /** What follows its first `k` bytes begins the notice. */
  predicate EndsInNotice(value: Text, k: nat) {
    k < |value| <= k + |NOTICE| && value[k..] == NOTICE[..|value| - k]
  }

  /** The marker or the notice spells it, alone or with the text beside, within the length kept. */
  ghost predicate Spelled(value: Text) {
    || Contains(REDACTED, value) || Contains(NOTICE, value)
    || (exists k: nat :: EndsInMarker(value, k) && |value| <= MAX_OUTPUT_BYTES)
    || (exists k: nat :: BeginsInMarker(value, k) && |REDACTED| + |value| - k <= MAX_OUTPUT_BYTES)
    || (exists k: nat :: EndsInNotice(value, k) && k <= MAX_OUTPUT_BYTES)
  }

  /** An occurrence before the first one would have been found. */
  lemma FoundAfterItsBeginning(text: Text, value: Text, i: nat, k: nat)
    requires Find(text, value) == Some(i + k) && k < |value| && text[i..i + k] == value[..k]
    ensures Find(value[..k] + value, value) == Some(k)
  {
    var joined, end := value[..k] + value, i + k + |value|;
    assert OccursAt(text, value, i + k);
    SliceSplits(text, i, i + k, end);
    forall j: nat | j < k ensures !OccursAt(joined, value, j) {
      SliceOfSlice(text, i, end, j, j + |value|);
      assert !OccursAt(text, value, i + j);
    }
    EndOfJoin(value[..k], value);
    FoundFirst(joined, value, k);
  }

  lemma FoundFirst(text: Text, value: Text, i: nat)
    requires OccursAt(text, value, i) && forall j: nat :: j < i ==> !OccursAt(text, value, j)
    ensures Find(text, value) == Some(i)
  {
    hide OccursAt;
  }

  /** A marker spells it, alone or with the text beside, beginning no later than `i`. */
  ghost predicate SpelledBy(value: Text, i: nat) {
    || Contains(REDACTED, value)
    || (exists k: nat :: EndsInMarker(value, k))
    || (exists k: nat :: BeginsInMarker(value, k) && |REDACTED| - k <= i)
  }

  lemma SpelledLater(value: Text, i: nat, j: nat)
    requires SpelledBy(value, i) && i <= j
    ensures SpelledBy(value, j)
  {
  }

  /** What still shows after the replacement is spelled with a marker's help. */
  lemma {:induction false} ReplaceShows(text: Text, value: Text, i: nat)
    requires value != [] && OccursAt(Replace(text, value, REDACTED), value, i)
    ensures SpelledBy(value, i)
    decreases |text|
  {
    hide *;
    ReplaceUnrolls(text, value);
    var found := Find(text, value);
    if found.None? {
      ShowsAt(text, value, i);
    } else {
      var n := found.value;
      var rest := Replace(text[n + |value|..], value, REDACTED);
      if i < n + |REDACTED| {
        ShowsUpToMarker(text, value, n, rest, i);
      } else {
        ShowsPastMarker(text[..n], value, rest, i);
        ReplaceShows(text[n + |value|..], value, i - n - |REDACTED|);
        SpelledLater(value, i - n - |REDACTED|, i);
      }
    }
  }

  lemma ReplaceUnrolls(text: Text, value: Text)
    requires value != []
    ensures var found := Find(text, value);
            if found.None? then Replace(text, value, REDACTED) == text && !Contains(text, value)
            else found.value + |value| <= |text| && Replace(text, value, REDACTED)
                 == text[..found.value] + (REDACTED + Replace(text[found.value + |value|..], value, REDACTED))
  {
  }

  lemma ShowsPastMarker(gap: Text, value: Text, rest: Text, i: nat)
    requires OccursAt(gap + (REDACTED + rest), value, i) && i >= |gap| + |REDACTED|
    ensures OccursAt(rest, value, i - |gap| - |REDACTED|)
  {
    OccursInParts(gap, REDACTED + rest, value, i);
    OccursInParts(REDACTED, rest, value, i - |gap|);
  }

  lemma ShowsUpToMarker(text: Text, value: Text, n: nat, rest: Text, i: nat)
    requires value != [] && Find(text, value) == Some(n) && n <= |text|
    requires OccursAt(text[..n] + (REDACTED + rest), value, i) && i < n + |REDACTED|
    ensures SpelledBy(value, i)
  {
    hide Find, Contains, SpelledBy, OccursAt;
    OccursInParts(text[..n], REDACTED + rest, value, i);
    NoEarlier(text, value, n);
    if i + |value| <= n {
      ShowsAt(text[..n], value, i);
    } else if i < n {
      ShowsBefore(text, value, i, n - i, rest);
    } else {
      ShowsFromMarker(rest, value, i - n);
      SpelledLater(value, i - n, i);
    }
  }

  lemma ShowsFromMarker(rest: Text, value: Text, i: nat)
    requires value != [] && OccursAt(REDACTED + rest, value, i) && i < |REDACTED|
    ensures SpelledBy(value, i)
  {
    hide OccursAt;
    OccursInParts(REDACTED, rest, value, i);
    if i + |value| <= |REDACTED| {
      ShowsAt(REDACTED, value, i);
    } else {
      assert BeginsInMarker(value, |REDACTED| - i);
    }
  }

  lemma ShowsAt(text: Text, value: Text, i: nat)
    requires OccursAt(text, value, i)
    ensures Contains(text, value)
  {
  }

  lemma ShowsBefore(text: Text, value: Text, i: nat, k: nat, rest: Text)
    requires Find(text, value) == Some(i + k) && 0 < k < |value| <= k + |REDACTED + rest|
    requires value[..k] == text[..i + k][i..] && value[k..] == (REDACTED + rest)[..|value| - k]
    ensures SpelledBy(value, i)
  {
    assert text[..i + k][i..] == text[i..i + k];
    FoundAfterItsBeginning(text, value, i, k);
    if |value| - k <= |REDACTED| {
      assert (REDACTED + rest)[..|value| - k] == REDACTED[..|value| - k];
    } else {
      assert (REDACTED + rest)[..|value| - k][..|REDACTED|] == REDACTED;
    }
    assert EndsInMarker(value, k);
  }

  /** No occurrence survives the replacement or is created by it, when no marker helps to spell one. */
  lemma ReplaceRemoves(text: Text, value: Text)
    requires value != [] && !Contains(REDACTED, value)
    requires forall k: nat :: !EndsInMarker(value, k) && !BeginsInMarker(value, k)
    ensures !Contains(Replace(text, value, REDACTED), value)
  {
    if i: nat :| OccursAt(Replace(text, value, REDACTED), value, i) {
      ReplaceShows(text, value, i);
    }
  }

  lemma SecretIsGone(text: Text, secret: Text)
    requires |secret| >= MIN_REDACTABLE && !Spelled(secret)
    ensures !Contains(Cleaned(text, secret), secret)
  {
    hide EndsInMarker, BeginsInMarker, EndsInNotice, Find, Replace;
    var kept := Replace(text, secret, REDACTED);
    if i: nat :| OccursAt(Cleaned(text, secret), secret, i) {
      if |kept| > MAX_OUTPUT_BYTES {
        var cut := CutFrom(kept, MAX_OUTPUT_BYTES);
        OccursInParts(kept[..cut], NOTICE, secret, i);
        if i < cut < i + |secret| {
          EndsThere(secret, cut - i);
        } else if i + |secret| <= cut {
          SplitAt(kept, cut);
          OccursInFirst(kept[..cut], kept[cut..], secret, i);
          ReplaceShows(text, secret, i);
        }
      } else {
        ReplaceShows(text, secret, i);
      }
    }
  }

  lemma EndsThere(value: Text, k: nat)
    requires k < |value| <= k + |NOTICE| && value[k..] == NOTICE[..|value| - k]
    ensures EndsInNotice(value, k)
  {
  }

  /** An output that still shows the secret; its text is well formed if the secret is. */
  ghost predicate Leaks(secret: Text, text: Text) {
    (Utf8(secret) ==> Utf8(text)) && Contains(Cleaned(text, secret), secret)
  }

  /** The marker and the notice are the only leaks.  A secret is gone from every output if and only if
      it is long enough to be redacted and neither of the two texts helps to spell it. */
  lemma GoneFromEveryOutputExactly(secret: Text)
    ensures (forall text: Text :: !Contains(Cleaned(text, secret), secret))
            <==> |secret| >= 6 && !Spelled(secret)
    ensures Utf8(secret) ==>
              ((forall text: Text | Utf8(text) :: !Contains(Cleaned(text, secret), secret))
               <==> |secret| >= 6 && !Spelled(secret))
  {
    hide Contains, Cleaned, Utf8;
    if |secret| >= MIN_REDACTABLE && !Spelled(secret) {
      forall text: Text ensures !Contains(Cleaned(text, secret), secret) {
        SecretIsGone(text, secret);
      }
    } else {
      var text := Leak(secret);
    }
  }

  lemma Leak(secret: Text) returns (text: Text)
    requires |secret| < MIN_REDACTABLE || Spelled(secret)
    ensures Leaks(secret, text)
  {
    hide Utf8, Find, Replace, Contains, EndsInMarker, BeginsInMarker, EndsInNotice, Cleaned, Leaks;
    if |secret| < MIN_REDACTABLE {
      text := secret;
      ShortLeaks(secret);
    } else if Contains(REDACTED, secret) {
      text := secret;
      MarkerLeaks(secret);
    } else if Contains(NOTICE, secret) {
      text := NoticeLeaks(secret);
    } else if k: nat :| EndsInMarker(secret, k) && |secret| <= MAX_OUTPUT_BYTES {
      text := BeforeMarkerLeaks(secret, k);
    } else if k: nat :| BeginsInMarker(secret, k) && |REDACTED| + |secret| - k <= MAX_OUTPUT_BYTES {
      text := AfterMarkerLeaks(secret, k);
    } else {
      var k: nat :| EndsInNotice(secret, k) && k <= MAX_OUTPUT_BYTES;
      text := BeforeNoticeLeaks(secret, k);
    }
  }

  lemma ShortLeaks(secret: Text)
    requires |secret| < MIN_REDACTABLE
    ensures Leaks(secret, secret)
  {
    assert OccursAt(secret, secret, 0);
  }

  lemma TooShortToFind(text: Text, value: Text)
    requires |text| < |value|
    ensures Replace(text, value, REDACTED) == text
  {
    assert Find(text, value) == None;
  }

  lemma MarkerLeaks(secret: Text)
    requires |secret| >= MIN_REDACTABLE && Contains(REDACTED, secret)
    ensures Leaks(secret, secret)
  {
    ReplacedOnce([], secret, []);
    assert [] + secret + [] == secret && [] + (REDACTED + []) == REDACTED;
  }

  /** A text showing the value once, first after `before`. */
  lemma ReplacedOnce(before: Text, value: Text, after: Text)
    requires |after| < |value| && Find(before + value, value) == Some(|before|)
    ensures Replace(before + value + after, value, REDACTED) == before + (REDACTED + after)
  {
    var text := before + value + after;
    assert text[|before|..|before| + |value|] == value;
    assert OccursAt(text, value, |before|);
    forall j: nat | j < |before| ensures !OccursAt(text, value, j) {
      OccursInFirst(before + value, after, value, j);
    }
    assert Find(text, value) == Some(|before|);
    assert text[..|before|] == before && text[|before| + |value|..] == after;
    TooShortToFind(after, value);
  }

  lemma OccursInFirst(a: Text, b: Text, value: Text, i: nat)
    requires i + |value| <= |a|
    ensures OccursAt(a + b, value, i) <==> OccursAt(a, value, i)
  {
    assert (a + b)[i..i + |value|] == a[i..i + |value|];
  }

  /** What the limit leaves whole is shown. */
  lemma ShownBeforeTheCut(text: Text, value: Text, i: nat)
    requires OccursAt(text, value, i) && i + |value| <= MAX_OUTPUT_BYTES
    requires |text| <= MAX_OUTPUT_BYTES || Boundary(text, MAX_OUTPUT_BYTES)
    ensures Contains(Truncated(text), value)
  {
    if |text| > MAX_OUTPUT_BYTES {
      OccursInFirst(text[..MAX_OUTPUT_BYTES], text[MAX_OUTPUT_BYTES..], value, i);
      assert text[..MAX_OUTPUT_BYTES] + text[MAX_OUTPUT_BYTES..] == text;
      OccursInFirst(text[..MAX_OUTPUT_BYTES], NOTICE, value, i);
    }
  }

  lemma BeforeMarkerLeaks(secret: Text, k: nat) returns (text: Text)
    requires MIN_REDACTABLE <= |secret| <= MAX_OUTPUT_BYTES && EndsInMarker(secret, k)
    ensures Leaks(secret, text)
  {
    var before, after := secret[..k], PastMarker(secret, k);
    text := before + secret + after;
    hide Utf8, Find, Replace, Truncated, CutFrom;
    ReplacedOnce(before, secret, after);
    SpelledBefore(secret, k);
    ShownBeforeTheCut(before + (REDACTED + after), secret, 0);
    if Utf8(secret) {
      Utf8BeforeMarker(secret, k);
      Utf8Append(before, secret);
      Utf8Append(before + secret, after);
    }
  }

  /** What of the value the marker does not reach. */
  function PastMarker(value: Text, k: nat): Text
    requires k < |value|
  {
    if |value| - k <= |REDACTED| then [] else value[k + |REDACTED|..]
  }

  lemma SpelledBefore(value: Text, k: nat)
    requires k < |value| <= MAX_OUTPUT_BYTES && Meets(value[k..], REDACTED)
    ensures var kept := value[..k] + (REDACTED + PastMarker(value, k));
            OccursAt(kept, value, 0) && (|kept| <= MAX_OUTPUT_BYTES || Boundary(kept, MAX_OUTPUT_BYTES))
  {
    var kept := value[..k] + (REDACTED + PastMarker(value, k));
    if |value| - k <= |REDACTED| {
      assert kept[..|value|] == value[..k] + REDACTED[..|value| - k] == value;
      if |kept| > MAX_OUTPUT_BYTES {
        assert kept[MAX_OUTPUT_BYTES] == REDACTED[MAX_OUTPUT_BYTES - k];
      }
    } else {
      assert value[k..] == value[k..][..|REDACTED|] + value[k + |REDACTED|..];
      assert kept == value[..k] + value[k..] == value;
    }
    assert kept[0..|value|] == kept[..|value|];
  }

  lemma Utf8BeforeMarker(secret: Text, k: nat)
    requires Utf8(secret) && k < |secret| && Meets(secret[k..], REDACTED)
    ensures Utf8(secret[..k]) && Utf8(PastMarker(secret, k))
  {
    hide Utf8;
    assert secret[k..][0] == REDACTED[0];
    Utf8Cut(secret, k);
    if |secret| - k > |REDACTED| {
      MarkerIsUtf8();
      assert secret[k..] == REDACTED + secret[k + |REDACTED|..];
      Utf8Rest(REDACTED, secret[k + |REDACTED|..]);
    } else {
      AsciiIsUtf8([]);
    }
  }

  lemma AfterMarkerLeaks(secret: Text, k: nat) returns (text: Text)
    requires |secret| >= MIN_REDACTABLE && BeginsInMarker(secret, k)
    requires |REDACTED| + |secret| - k <= MAX_OUTPUT_BYTES
    ensures Leaks(secret, text)
  {
    var after := secret[k..];
    text := secret + after;
    hide Utf8, Replace, Truncated, CutFrom;
    assert [] + secret == secret && OccursAt(secret, secret, 0) && [] + (REDACTED + after) == REDACTED + after;
    ReplacedOnce([], secret, after);
    SpelledAfter(secret, k);
    ShownBeforeTheCut(REDACTED + after, secret, |REDACTED| - k);
    if Utf8(secret) {
      Utf8AfterMarker(secret, k);
      Utf8Append(secret, after);
    }
  }

  lemma SpelledAfter(value: Text, k: nat)
    requires BeginsInMarker(value, k)
    ensures OccursAt(REDACTED + value[k..], value, |REDACTED| - k)
  {
    var kept, i := REDACTED + value[k..], |REDACTED| - k;
    assert kept[i..i + |value|] == REDACTED[i..] + value[k..] == value;
  }

  lemma Utf8AfterMarker(secret: Text, k: nat)
    requires Utf8(secret) && BeginsInMarker(secret, k)
    ensures Utf8(secret[k..])
  {
    hide Utf8;
    forall j | 0 <= j < k ensures secret[..k][j] <= 0x7F {
      assert secret[..k][j] == REDACTED[|REDACTED| - k..][j];
    }
    AsciiIsUtf8(secret[..k]);
    assert secret == secret[..k] + secret[k..];
    Utf8Rest(secret[..k], secret[k..]);
  }

  /** `n` bytes that neither text holds. */
  function Filler(n: nat): (r: Text)
    ensures |r| == n && forall k :: 0 <= k < n ==> r[k] == 0
  {
    seq(n, _ => 0)
  }

  lemma Untouched(text: Text, value: Text)
    requires value != [] && !Contains(text, value)
    ensures Replace(text, value, REDACTED) == text
  {
  }

  /** What the cut leaves, and the notice, and what the two spell. */
  lemma ShownAtTheCut(text: Text, value: Text, cut: nat, i: nat)
    requires |value| >= MIN_REDACTABLE && !Contains(text, value)
    requires |text| > MAX_OUTPUT_BYTES && CutFrom(text, MAX_OUTPUT_BYTES) == cut
    requires OccursAt(text[..cut] + NOTICE, value, i)
    ensures Contains(Cleaned(text, value), value)
  {
    Untouched(text, value);
  }

  lemma NoticeLeaks(secret: Text) returns (text: Text)
    requires |secret| >= MIN_REDACTABLE && Contains(NOTICE, secret)
    ensures Leaks(secret, text)
  {
    text := Filler(MAX_OUTPUT_BYTES + 1);
    hide Utf8, Replace, Cleaned;
    AsciiIsUtf8(text);
    var i: nat :| OccursAt(NOTICE, secret, i);
    FirstByteSettles(NOTICE, secret, i, 0);
    forall k: nat ensures !OccursAt(text, secret, k) {
      if k + |secret| <= |text| {
        FirstByteSettles(text, secret, k, 0);
      }
    }
    var cut := CutFrom(text, MAX_OUTPUT_BYTES);
    OccursInSecond(text[..cut], NOTICE, secret, i);
    ShownAtTheCut(text, secret, cut, cut + i);
  }

  lemma OccursInSecond(a: Text, b: Text, value: Text, i: nat)
    requires OccursAt(b, value, i)
    ensures OccursAt(a + b, value, |a| + i)
  {
    assert (a + b)[|a| + i..|a| + i + |value|] == b[i..i + |value|];
  }

  lemma BeforeNoticeLeaks(secret: Text, k: nat) returns (text: Text)
    requires |secret| >= MIN_REDACTABLE && EndsInNotice(secret, k) && k <= MAX_OUTPUT_BYTES
    ensures Leaks(secret, text)
  {
    var a := MAX_OUTPUT_BYTES - k;
    text := Filler(a) + secret[..k] + Filler(1);
    hide Utf8, Replace, Cleaned;
    NeverInFiller(secret, k, a, 1);
    assert Boundary(text, MAX_OUTPUT_BYTES);
    assert text[..MAX_OUTPUT_BYTES] == Filler(a) + secret[..k];
    assert secret == secret[..k] + secret[k..];
    SpelledAtTheCut(Filler(a), secret[..k], secret);
    ShownAtTheCut(text, secret, MAX_OUTPUT_BYTES, a);
    if Utf8(secret) {
      Utf8BeforeNotice(secret, k, a);
    }
  }

  lemma Utf8BeforeNotice(secret: Text, k: nat, a: nat)
    requires Utf8(secret) && EndsInNotice(secret, k)
    ensures Utf8(Filler(a) + secret[..k] + Filler(1))
  {
    hide Utf8, Filler;
    assert secret[k..][0] == NOTICE[0];
    Utf8Cut(secret, k);
    AsciiIsUtf8(Filler(a));
    AsciiIsUtf8(Filler(1));
    Utf8Append(Filler(a), secret[..k]);
    Utf8Append(Filler(a) + secret[..k], Filler(1));
  }

  lemma SpelledAtTheCut(before: Text, beginning: Text, value: Text)
    requires |beginning| <= |value| <= |beginning| + |NOTICE|
    requires value == beginning + NOTICE[..|value| - |beginning|]
    ensures OccursAt(before + beginning + NOTICE, value, |before|)
  {
    assert (before + beginning + NOTICE)[|before|..|before| + |value|] == beginning + NOTICE[..|value| - |beginning|];
  }

  /** Where it would begin before its own beginning, it would repeat the filler for ever. */
  lemma NeverInFiller(value: Text, k: nat, a: nat, b: nat)
    requires EndsInNotice(value, k)
    ensures !Contains(Filler(a) + value[..k] + Filler(b), value)
  {
    var text := Filler(a) + value[..k] + Filler(b);
    assert value[k..][0] == NOTICE[0];
    if i: nat :| OccursAt(text, value, i) {
      forall p | 0 <= p < |value| ensures value[p] == text[i + p] {
        assert text[i..i + |value|][p] == text[i + p];
      }
      assert a <= i + k < a + k;
      RepeatsFiller(value, a - i, k);
    }
  }

  lemma {:induction false} RepeatsFiller(value: Text, d: nat, p: nat)
    requires 0 < d && p < |value|
    requires forall q :: 0 <= q < d && q <= p ==> value[q] == 0
    requires forall q :: d <= q <= p ==> value[q] == value[q - d]
    ensures value[p] == 0
  {
    if p >= d {
      RepeatsFiller(value, d, p - d);
    }
  }

  predicate WithoutSeams(value: Text) {
    '[' as int !in value && ']' as int !in value && '\n' as int !in value
  }

  /** So a redactable secret without brackets and line breaks is gone unless one of the two texts
      spells it whole. */
  lemma PlainSecretsAreGone(secret: Text)
    requires |secret| >= MIN_REDACTABLE && WithoutSeams(secret)
    ensures (forall text: Text :: !Contains(Cleaned(text, secret), secret))
            <==> !Contains(REDACTED, secret) && !Contains(NOTICE, secret)
  {
    hide Contains, Cleaned, Find;
    GoneFromEveryOutputExactly(secret);
    forall k: nat ensures !EndsInMarker(secret, k) && !BeginsInMarker(secret, k) && !EndsInNotice(secret, k) {
      if k < |secret| {
        assert secret[k..][0] == secret[k];
      }
      if 0 < k < |secret| && k <= |REDACTED| {
        assert secret[..k][k - 1] == secret[k - 1];
        assert REDACTED[|REDACTED| - k..][k - 1] == REDACTED[|REDACTED| - 1];
      }
    }
  }

  /** A secret some output shows: `]abcdef`, after a marker. */
  lemma ClosingBracketLeaks()
    ensures var secret: Text := [93, 97, 98, 99, 100, 101, 102];
            exists text: Text :: Utf8(text) && Contains(Cleaned(text, secret), secret)
  {
    var secret: Text := [93, 97, 98, 99, 100, 101, 102];
    AsciiIsUtf8(secret);
    assert BeginsInMarker(secret, 1);
    hide Utf8, Contains, Cleaned, BeginsInMarker;
    var text := AfterMarkerLeaks(secret, 1);
  }

  /** And another: `abcdef[`, before a marker. */
  lemma OpeningBracketLeaks()
    ensures var secret: Text := [97, 98, 99, 100, 101, 102, 91];
            exists text: Text :: Utf8(text) && Contains(Cleaned(text, secret), secret)
  {
    var secret: Text := [97, 98, 99, 100, 101, 102, 91];
    AsciiIsUtf8(secret);
    FoundAtItself(secret, 6);
    assert Meets(secret[6..], REDACTED);
    hide Utf8, Contains, Cleaned, Meets;
    var text := BeforeMarkerLeaks(secret, 6);
  }

  /** An occurrence shows the value's bytes in their places. */
  lemma FirstByteSettles(text: Text, value: Text, i: nat, k: nat)
    requires k < |value| && i + |value| <= |text|
    ensures OccursAt(text, value, i) ==> text[i] == value[0] && text[i + k] == value[k]
  {
    if OccursAt(text, value, i) {
      assert text[i..i + |value|][0] == text[i] && text[i..i + |value|][k] == text[i + k];
    }
  }

  /** Found first where it follows its beginning, if its first byte comes but once. */
  lemma FoundAtItself(value: Text, k: nat)
    requires 0 < k < |value| && forall j :: 0 < j < |value| ==> value[j] != value[0]
    ensures Find(value[..k] + value, value) == Some(k)
  {
    var joined := value[..k] + value;
    assert joined[k..k + |value|] == value;
    assert OccursAt(joined, value, k);
    forall j: nat | j < k ensures !OccursAt(joined, value, j) {
      FirstByteSettles(joined, value, j, k);
    }
  }

  // ---- what is handed on is text --------------------------------------

  lemma {:induction false} ReplaceKeepsUtf8(text: Text, value: Text, marker: Text)
    requires value != [] && Utf8(text) && Utf8(value) && Utf8(marker)
    ensures Utf8(Replace(text, value, marker))
    decreases |text|
  {
    hide Utf8;
    var found := Find(text, value);
    if found.Some? {
      var i := found.value;
      var rest := text[i + |value|..];
      Utf8Around(text, value, i);
      ReplaceKeepsUtf8(rest, value, marker);
      Utf8Append(marker, Replace(rest, value, marker));
      Utf8Append(text[..i], marker + Replace(rest, value, marker));
    }
  }

  /** An occurrence of well-formed text begins and ends on boundaries. */
  lemma Utf8Around(text: Text, value: Text, i: nat)
    requires value != [] && Utf8(text) && Utf8(value) && OccursAt(text, value, i)
    ensures Utf8(text[..i]) && Utf8(text[i + |value|..])
  {
    hide Utf8;
    LeadDoesNotContinue(value);
    assert text[i] == text[i..i + |value|][0];
    Utf8Cut(text, i);
    assert text[i..] == value + text[i + |value|..];
    Utf8Rest(value, text[i + |value|..]);
  }

  lemma LeadDoesNotContinue(text: Text)
    requires Utf8(text) && text != []
    ensures !Continues(text[0])
  {
  }

  lemma NoticeIsUtf8()
    ensures Utf8(NOTICE)
  {
    hide Utf8;
    var words: Text := [32, 111, 117, 116, 112, 117, 116, 32, 116, 114, 117, 110, 99, 97, 116, 101, 100];
    var dots: Text := [226, 128, 166];
    AsciiIsUtf8([10]);
    AsciiIsUtf8(words);
    EllipsisIsUtf8();
    Utf8Append(dots, words);
    Utf8Append([10], dots + words);
    NoticeInParts(dots, words);
  }

  lemma NoticeInParts(dots: Text, words: Text)
    requires dots == NOTICE[1..4] && words == NOTICE[4..]
    ensures NOTICE == [10] + (dots + words)
  {
    SplitThree(NOTICE, 1, 4);
  }

  lemma MarkerIsUtf8()
    ensures Utf8(REDACTED)
  {
    hide Utf8;
    AsciiIsUtf8(REDACTED);
  }

  lemma EllipsisIsUtf8()
    ensures Utf8([226, 128, 166])
  {
    var c: Text := [226, 128, 166];
    assert c[..3] == c && c[3..] == [];
    assert IsCharacter(c);
  }

  lemma {:induction false} AsciiIsUtf8(text: Text)
    requires forall k :: 0 <= k < |text| ==> text[k] <= 0x7F
    ensures Utf8(text)
  {
    if text != [] {
      assert IsCharacter(text[..1]);
      AsciiIsUtf8(text[1..]);
      Utf8Cons(text[..1], text[1..]);
      assert text == text[..1] + text[1..];
    }
  }

  /** Whatever is replaced and wherever the cut falls, well-formed text comes out of well-formed text,
      at most the limit of it besides the notice. */
  lemma CleanedIsUtf8(text: Text, secret: Text)
    requires Utf8(text) && Utf8(secret)
    ensures Utf8(Cleaned(text, secret))
    ensures |Cleaned(text, secret)| <= 65536 + 21
  {
    hide Utf8;
    MarkerIsUtf8();
    NoticeIsUtf8();
    if |secret| >= MIN_REDACTABLE {
      ReplaceKeepsUtf8(text, secret, REDACTED);
    }
    var kept := if |secret| >= MIN_REDACTABLE then Replace(text, secret, REDACTED) else text;
    if |kept| > MAX_OUTPUT_BYTES {
      var cut := CutFrom(kept, MAX_OUTPUT_BYTES);
      Utf8Cut(kept, cut);
      Utf8Append(kept[..cut], NOTICE);
    }
  }

  lemma {:induction false} BoundaryNearby(text: Text, k: nat)
    requires Utf8(text) && k <= |text|
    ensures exists j :: k - 3 <= j <= k && 0 <= j && Boundary(text, j)
  {
    if k > 0 {
      var n := Width(text[0]);
      if k < n {
        assert Boundary(text, 0);
      } else {
        BoundaryNearby(text[n..], k - n);
        var j :| k - n - 3 <= j <= k - n && 0 <= j && Boundary(text[n..], j);
        if j == 0 && text[n..] != [] {
          LeadDoesNotContinue(text[n..]);
        }
        assert Boundary(text, j + n);
      }
    } else {
      assert Boundary(text, 0);
    }
  }

  /** The marker and the notice, as they read. */
  lemma TextsRead()
    ensures |REDACTED| == 18 && forall i :: 0 <= i < 18 ==> REDACTED[i] == "[redacted by yara]"[i] as int
    ensures |NOTICE| == 21 && NOTICE[..5] == [10, 0xE2, 0x80, 0xA6, 32]
    ensures forall i :: 0 <= i < 16 ==> NOTICE[i + 5] == "output truncated"[i] as int
  {
  }

  /** And the cut costs at most three bytes. */
  lemma CutKeepsNearlyAll(text: Text)
    requires Utf8(text) && |text| > 65536
    ensures Truncated(text) == text[..|Truncated(text)| - 21] + NOTICE
    ensures 65533 <= |Truncated(text)| - 21 <= 65536
  {
    BoundaryNearby(text, MAX_OUTPUT_BYTES);
  }
}
