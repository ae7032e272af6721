/** Before the shuffle: which texts the drawn characters make, and why none is favoured. */
module Picks {
  import opened Crypto
  import opened RandomIndex
  import opened Shuffles
  import opened Generate
  import opened Sequences

  // ---- the alphabets --------------------------------------------------

  predicate IsLower(c: char) { 'a' <= c <= 'z' }

  predicate IsUpper(c: char) { 'A' <= c <= 'Z' }

  predicate IsDigit(c: char) { '0' <= c <= '9' }

  /** The printable ASCII characters that are neither letters nor digits nor the space. */
  predicate IsSymbol(c: char) {
    '!' <= c <= '/' || ':' <= c <= '@' || '[' <= c <= '`' || '{' <= c <= '~'
  }

  predicate EnabledCharacter(recipe: Recipe, c: char) {
    || (recipe.lowercase && IsLower(c)) || (recipe.uppercase && IsUpper(c))
    || (recipe.digits && IsDigit(c)) || (recipe.symbols && IsSymbol(c))
  }

  function Count(enabled: bool, n: nat): nat {
    if enabled then n else 0
  }

  function ClassCount(recipe: Recipe): nat {
    Count(recipe.lowercase, 1) + Count(recipe.uppercase, 1) + Count(recipe.digits, 1) + Count(recipe.symbols, 1)
  }

  /** How many characters the enabled classes have together. */
  function AlphabetSize(recipe: Recipe): nat {
    Count(recipe.lowercase, 26) + Count(recipe.uppercase, 26) + Count(recipe.digits, 10) + Count(recipe.symbols, 32)
  }

  lemma LowerLetters(c: char)
    ensures |LOWERCASE| == 26 && Distinct(LOWERCASE) && (c in LOWERCASE <==> IsLower(c))
  {
    assert forall i :: 0 <= i < 26 ==> LOWERCASE[i] as int == 97 + i;
    assert IsLower(c) ==> LOWERCASE[c as int - 97] == c;
  }

  lemma UpperLetters(c: char)
    ensures |UPPERCASE| == 26 && Distinct(UPPERCASE) && (c in UPPERCASE <==> IsUpper(c))
  {
    assert forall i :: 0 <= i < 26 ==> UPPERCASE[i] as int == 65 + i;
    assert IsUpper(c) ==> UPPERCASE[c as int - 65] == c;
  }

  lemma DigitFigures(c: char)
    ensures |DIGITS| == 10 && Distinct(DIGITS) && (c in DIGITS <==> IsDigit(c))
  {
    assert forall i :: 0 <= i < 10 ==> DIGITS[i] as int == 48 + i;
    assert IsDigit(c) ==> DIGITS[c as int - 48] == c;
  }

  function SymbolCode(i: nat): nat {
    if i < 15 then 33 + i else if i < 22 then 43 + i else if i < 28 then 69 + i else 95 + i
  }

  predicate SpelledOut(letters: string) {
    |letters| == 32 && forall i :: 0 <= i < 32 ==> letters[i] as int == SymbolCode(i)
  }

  lemma CodesDecide(letters: string, c: char)
    requires SpelledOut(letters)
    ensures Distinct(letters) && (c in letters <==> IsSymbol(c))
  {
    var n := c as int;
    var i := if n <= 47 then n - 33 else if n <= 64 then n - 43 else if n <= 96 then n - 69 else n - 95;
    assert IsSymbol(c) ==> 0 <= i < 32 && SymbolCode(i) == n && letters[i] == c;
  }

  lemma SymbolMarks(c: char)
    ensures |SYMBOLS| == 32 && Distinct(SYMBOLS) && (c in SYMBOLS <==> IsSymbol(c))
  {
    assert SpelledOut(SYMBOLS);
    CodesDecide(SYMBOLS, c);
  }

  lemma {:induction false} JoinedAppend(a: seq<string>, b: seq<string>)
    ensures Joined(a + b) == Joined(a) + Joined(b)
  {
    if b == [] {
      assert a + b == a;
    } else {
      var u := |b| - 1;
      assert (a + b)[..|a + b| - 1] == a + b[..u];
      JoinedAppend(a, b[..u]);
      JoinAssociates(Joined(a), Joined(b[..u]), b[u]);
    }
  }

  function Chosen(enabled: bool, letters: string): string {
    if enabled then letters else ""
  }

  lemma JoinedWhen(enabled: bool, letters: string)
    ensures Joined(When(enabled, letters)) == Chosen(enabled, letters)
  {
    if enabled {
      assert [letters][..0] == [];
      assert "" + letters == letters;
    }
  }

  /** All characters enabled, class by class. */
  lemma JoinedClasses(recipe: Recipe)
    ensures Joined(Classes(recipe))
            == Chosen(recipe.lowercase, LOWERCASE) + Chosen(recipe.uppercase, UPPERCASE)
               + Chosen(recipe.digits, DIGITS) + Chosen(recipe.symbols, SYMBOLS)
  {
    var a, b := When(recipe.lowercase, LOWERCASE), When(recipe.uppercase, UPPERCASE);
    var c, d := When(recipe.digits, DIGITS), When(recipe.symbols, SYMBOLS);
    JoinedAppend(a + b + c, d);
    JoinedAppend(a + b, c);
    JoinedAppend(a, b);
    JoinedWhen(recipe.lowercase, LOWERCASE);
    JoinedWhen(recipe.uppercase, UPPERCASE);
    JoinedWhen(recipe.digits, DIGITS);
    JoinedWhen(recipe.symbols, SYMBOLS);
  }

  lemma DistinctJoin(a: string, b: string)
    requires Distinct(a) && Distinct(b) && forall c :: c in a ==> c !in b
    ensures Distinct(a + b)
  {
    var ab := a + b;
    forall i, j | 0 <= i < j < |ab| ensures ab[i] != ab[j] {
      if i < |a| <= j {
        assert ab[i] == a[i] && ab[j] == b[j - |a|] && a[i] in a && b[j - |a|] in b;
      }
    }
  }

  lemma ChosenLetters(enabled: bool, letters: string, c: char)
    requires Distinct(letters)
    ensures Distinct(Chosen(enabled, letters)) && |Chosen(enabled, letters)| == Count(enabled, |letters|)
    ensures c in Chosen(enabled, letters) <==> enabled && c in letters
  {
  }

  /** The alphabet of the positions past the first few holds each enabled character once and no other. */
  lemma AlphabetExactly(recipe: Recipe, c: char)
    ensures var alphabet := Joined(Classes(recipe));
            && Distinct(alphabet) && |alphabet| == AlphabetSize(recipe)
            && (c in alphabet <==> EnabledCharacter(recipe, c))
  {
    hide Classes, Joined;
    JoinedClasses(recipe);
    var l, u := Chosen(recipe.lowercase, LOWERCASE), Chosen(recipe.uppercase, UPPERCASE);
    var d, s := Chosen(recipe.digits, DIGITS), Chosen(recipe.symbols, SYMBOLS);
    PartsOf(recipe, c);
    forall x: char
      ensures x in l ==> x !in u && x !in d && x !in s
      ensures x in u ==> x !in d && x !in s
      ensures x in d ==> x !in s
    {
      PartsOf(recipe, x);
    }
    hide Chosen, Distinct;
    DistinctJoin(l, u);
    DistinctJoin(l + u, d);
    DistinctJoin(l + u + d, s);
  }

  lemma PartsOf(recipe: Recipe, c: char)
    ensures var l, u := Chosen(recipe.lowercase, LOWERCASE), Chosen(recipe.uppercase, UPPERCASE);
            var d, s := Chosen(recipe.digits, DIGITS), Chosen(recipe.symbols, SYMBOLS);
            && Distinct(l) && Distinct(u) && Distinct(d) && Distinct(s)
            && |l| == Count(recipe.lowercase, 26) && |u| == Count(recipe.uppercase, 26)
            && |d| == Count(recipe.digits, 10) && |s| == Count(recipe.symbols, 32)
            && (c in l <==> recipe.lowercase && IsLower(c)) && (c in u <==> recipe.uppercase && IsUpper(c))
            && (c in d <==> recipe.digits && IsDigit(c)) && (c in s <==> recipe.symbols && IsSymbol(c))
  {
    LowerLetters(c);
    UpperLetters(c);
    DigitFigures(c);
    SymbolMarks(c);
    hide Distinct;
    ChosenLetters(recipe.lowercase, LOWERCASE, c);
    ChosenLetters(recipe.uppercase, UPPERCASE, c);
    ChosenLetters(recipe.digits, DIGITS, c);
    ChosenLetters(recipe.symbols, SYMBOLS, c);
  }

  // ---- what each position may show ------------------------------------

  /** The texts the recipe allows before the shuffle: a character of each enabled class, lower case first,
      then upper case, digits and symbols, and after them any enabled characters. */
  predicate Pickable(recipe: Recipe, text: string) {
    && |text| == recipe.length && ClassCount(recipe) <= |text|
    && forall k :: 0 <= k < |text| ==> MayStand(recipe, k, text[k])
  }

  /** Whether this character may stand at this place. */
  predicate MayStand(recipe: Recipe, k: nat, c: char) {
    var l := Count(recipe.lowercase, 1);
    var u := l + Count(recipe.uppercase, 1);
    var d := u + Count(recipe.digits, 1);
    if k < l then IsLower(c)
    else if k < u then IsUpper(c)
    else if k < d then IsDigit(c)
    else if k < ClassCount(recipe) then IsSymbol(c)
    else EnabledCharacter(recipe, c)
  }

  /** And how many characters may. */
  function Choices(recipe: Recipe, k: nat): nat {
    var l := Count(recipe.lowercase, 1);
    var u := l + Count(recipe.uppercase, 1);
    var d := u + Count(recipe.digits, 1);
    if k < u then 26 else if k < d then 10 else if k < ClassCount(recipe) then 32 else AlphabetSize(recipe)
  }

  lemma ClassesAt(recipe: Recipe, k: nat)
    ensures |Classes(recipe)| == ClassCount(recipe)
    ensures k < ClassCount(recipe) ==>
              var l := Count(recipe.lowercase, 1);
              var u := l + Count(recipe.uppercase, 1);
              var d := u + Count(recipe.digits, 1);
              Classes(recipe)[k] == if k < l then LOWERCASE else if k < u then UPPERCASE else if k < d then DIGITS
                                    else SYMBOLS
  {
  }

  /** What a position is drawn from holds each character that may stand there once, and no other. */
  lemma SourcesExactly(recipe: Recipe, k: nat, c: char)
    requires Refusal(recipe) == None && k < recipe.length
    ensures var source := Sources(recipe)[k];
            Distinct(source) && |source| == Choices(recipe, k) && (c in source <==> MayStand(recipe, k, c))
  {
    ClassesAt(recipe, k);
    if k < ClassCount(recipe) {
      LowerLetters(c);
      UpperLetters(c);
      DigitFigures(c);
      SymbolMarks(c);
    } else {
      AlphabetExactly(recipe, c);
    }
    hide Classes, Joined, Distinct;
  }

  // ---- counting the bytes behind a text -------------------------------

  /** The accepted bytes that draw this character. */
  ghost function Choosers(source: string, c: char): set<Byte>
    requires 1 <= |source| <= 256
  {
    set b: Byte | b < Limit(|source|) && source[b % |source|] == c
  }

  /** Every character of a source is drawn from the same number of accepted bytes, and no other ever. */
  lemma EveryCharacterHasEqualWeight(source: string, c: char)
    requires 1 <= |source| <= 256 && Distinct(source)
    ensures |Choosers(source, c)| == if c in source then 256 / |source| else 0
  {
    if c in source {
      var r := IndexOf(source, c);
      EveryIndexHasEqualWeight(|source|, r);
      assert Choosers(source, c) == Hits(|source|, r);
    } else {
      assert Choosers(source, c) == {};
    }
  }

  /** Past the first few positions each enabled character is drawn from as many accepted bytes as every
      other, 256 divided by the number of enabled characters; before them, from its class alone. */
  lemma EveryPositionIsFair(recipe: Recipe, k: nat, c: char)
    requires Refusal(recipe) == None && k < recipe.length
    ensures 1 <= |Sources(recipe)[k]| <= 94
    ensures |Choosers(Sources(recipe)[k], c)| == if MayStand(recipe, k, c) then 256 / Choices(recipe, k) else 0
  {
    SourcesExactly(recipe, k, c);
    SourcesDrawable(recipe);
    hide Sources, Distinct, Choosers, Classes;
    EveryCharacterHasEqualWeight(Sources(recipe)[k], c);
  }

  /** The byte vectors, one accepted byte a position, that draw this text. */
  ghost function WaysToPick(sources: seq<string>, text: string): set<seq<Byte>>
    requires Drawable(sources) && |text| == |sources|
  {
    if sources == [] then {[]} else
      var u := |sources| - 1;
      Extended(WaysToPick(sources[..u], text[..u]), Choosers(sources[u], text[u]))
  }

  /** These bytes, all accepted, draw this text. */
  ghost predicate Draws(sources: seq<string>, v: seq<Byte>, text: string)
    requires Drawable(sources)
  {
    && |v| == |sources| == |text|
    && forall k :: 0 <= k < |v| ==> v[k] in Choosers(sources[k], text[k])
  }

  lemma {:induction false} WaysExactly(sources: seq<string>, text: string, v: seq<Byte>)
    requires Drawable(sources) && |text| == |sources|
    ensures v in WaysToPick(sources, text) <==> Draws(sources, v, text)
  {
    hide Choosers;
    if sources != [] {
      var u := |sources| - 1;
      InExtended(WaysToPick(sources[..u], text[..u]), Choosers(sources[u], text[u]), v);
      if v != [] {
        WaysExactly(sources[..u], text[..u], v[..|v| - 1]);
        DrawsLast(sources, v, text);
      }
    }
  }

  lemma DrawsLast(sources: seq<string>, v: seq<Byte>, text: string)
    requires Drawable(sources) && |text| == |sources| > 0 && v != []
    ensures var u, w := |sources| - 1, |v| - 1;
            Draws(sources, v, text)
            <==> |v| == |sources| && Draws(sources[..u], v[..w], text[..u]) && v[w] in Choosers(sources[u], text[u])
  {
    hide Choosers;
    var u, w := |sources| - 1, |v| - 1;
    if |v| == |sources| && Draws(sources[..u], v[..w], text[..u]) && v[w] in Choosers(sources[u], text[u]) {
      forall k | 0 <= k < |v| ensures v[k] in Choosers(sources[k], text[k]) {
        if k < w {
          assert v[..w][k] in Choosers(sources[..u][k], text[..u][k]);
        }
      }
    }
  }

  /** How many byte vectors draw any one text. */
  function Shares(recipe: Recipe, n: nat): nat {
    if n == 0 then 1
    else
      var before, choices := Shares(recipe, n - 1), Choices(recipe, n - 1);
      if choices == 0 then 0 else before * (256 / choices)
  }

  lemma WaysNext(sources: seq<string>, text: string)
    requires Drawable(sources) && |text| == |sources| > 0
    ensures var u := |sources| - 1;
            |WaysToPick(sources, text)|
            == |WaysToPick(sources[..u], text[..u])| * |Choosers(sources[u], text[u])|
  {
    var u := |sources| - 1;
    var before, chosen := WaysToPick(sources[..u], text[..u]), Choosers(sources[u], text[u]);
    assert WaysToPick(sources, text) == Extended(before, chosen);
    hide *;
    ExtendedCount(before, chosen);
  }

  lemma SharesNext(recipe: Recipe, n: nat)
    requires Choices(recipe, n) > 0
    ensures Shares(recipe, n + 1) == Shares(recipe, n) * (256 / Choices(recipe, n))
  {
  }

  lemma ChoicesFit(recipe: Recipe, k: nat)
    requires Refusal(recipe) == None && k < recipe.length
    ensures 1 <= Choices(recipe, k) <= 94 && 256 / Choices(recipe, k) > 0
  {
    ClassesAt(recipe, 0);
  }

  lemma {:induction false} WaysCount(recipe: Recipe, text: string, n: nat)
    requires Refusal(recipe) == None && n <= |text| == recipe.length
    requires forall k :: 0 <= k < n ==> MayStand(recipe, k, text[k])
    ensures Drawable(Sources(recipe)[..n])
    ensures |WaysToPick(Sources(recipe)[..n], text[..n])| == Shares(recipe, n) > 0
  {
    SourcesDrawable(recipe);
    if n > 0 {
      hide Sources, MayStand, Choices, Choosers, WaysToPick, Shares, Refusal;
      WaysCount(recipe, text, n - 1);
      TakeTake(Sources(recipe), n - 1, n);
      TakeTake(text, n - 1, n);
      EveryPositionIsFair(recipe, n - 1, text[n - 1]);
      ChoicesFit(recipe, n - 1);
      WaysNext(Sources(recipe)[..n], text[..n]);
      SharesNext(recipe, n - 1);
      Positive(Shares(recipe, n - 1), 256 / Choices(recipe, n - 1));
    }
  }

  lemma Positive(a: nat, b: nat)
    requires a > 0 && b > 0
    ensures a * b > 0
  {
  }

  /** The stream shows these bytes in order, each after any number of bytes its position refuses, and goes
      on with `rest`. */
  ghost predicate InStream(sources: seq<string>, stream: seq<Byte>, v: seq<Byte>, rest: seq<Byte>)
    requires Drawable(sources)
    decreases |v|
  {
    if v == [] then sources == [] && stream == rest
    else
      && sources != []
      && exists k :: 0 <= k < |stream| && ComesAt(sources[0], stream, v[0], k)
           && InStream(sources[1..], stream[k + 1..], v[1..], rest)
  }

  ghost predicate ComesAt(source: string, stream: seq<Byte>, b: Byte, k: nat)
    requires 1 <= |source| <= 256 && k < |stream|
  {
    stream[k] == b < Limit(|source|) && forall i :: 0 <= i < k ==> stream[i] >= Limit(|source|)
  }

  lemma DrawsFirst(sources: seq<string>, v: seq<Byte>, text: string)
    requires Drawable(sources) && sources != [] && v != [] && text != []
    ensures Draws(sources, v, text)
            <==> v[0] in Choosers(sources[0], text[0]) && Draws(sources[1..], v[1..], text[1..])
  {
    hide Choosers;
    if v[0] in Choosers(sources[0], text[0]) && Draws(sources[1..], v[1..], text[1..]) {
      forall k | 0 <= k < |v| ensures v[k] in Choosers(sources[k], text[k]) {
        if k > 0 {
          assert v[1..][k - 1] in Choosers(sources[1..][k - 1], text[1..][k - 1]);
        }
      }
    }
  }

  lemma PickedFirst(sources: seq<string>, stream: seq<Byte>, b: Byte, k: nat, text: string, rest: seq<Byte>)
    requires Drawable(sources) && sources != [] && k < |stream| && ComesAt(sources[0], stream, b, k) && text != []
    ensures Picked(sources, stream) == Some((text, rest))
            <==> b in Choosers(sources[0], text[0]) && Picked(sources[1..], stream[k + 1..]) == Some((text[1..], rest))
  {
    PickedUnrolls(sources, stream, b, k);
    assert b in Choosers(sources[0], text[0]) <==> sources[0][b % |sources[0]|] == text[0];
    var inner := Picked(sources[1..], stream[k + 1..]);
    if inner.Some? {
      var c, tail := sources[0][b % |sources[0]|], inner.value.0;
      hide *;
      HeadAndTail(c, tail, text);
    }
  }

  lemma PickedUnrolls(sources: seq<string>, stream: seq<Byte>, b: Byte, k: nat)
    requires Drawable(sources) && sources != [] && k < |stream| && ComesAt(sources[0], stream, b, k)
    ensures var inner := Picked(sources[1..], stream[k + 1..]);
            Picked(sources, stream)
            == if inner.None? then None
               else Some(([sources[0][b % |sources[0]|]] + inner.value.0, inner.value.1))
  {
    DrawsFirstAcceptable(|sources[0]|, stream, k);
    hide Drawn, Limit;
  }

  lemma HeadAndTail(c: char, tail: string, text: string)
    requires text != ""
    ensures [c] + tail == text <==> c == text[0] && tail == text[1..]
  {
    assert ([c] + tail)[1..] == tail;
    assert text == [text[0]] + text[1..];
  }

  /** The accepted bytes alone decide the text, whatever refused bytes lie between. */
  lemma {:induction false} StreamPicks(sources: seq<string>, stream: seq<Byte>, v: seq<Byte>, rest: seq<Byte>,
                                       text: string)
    requires Drawable(sources) && InStream(sources, stream, v, rest)
    ensures Picked(sources, stream) == Some((text, rest)) <==> Draws(sources, v, text)
    decreases |v|
  {
    if v != [] && text != [] {
      hide Choosers, Draws, Picked;
      var k :| 0 <= k < |stream| && ComesAt(sources[0], stream, v[0], k)
        && InStream(sources[1..], stream[k + 1..], v[1..], rest);
      StreamPicks(sources[1..], stream[k + 1..], v[1..], rest, text[1..]);
      DrawsFirst(sources, v, text);
      PickedFirst(sources, stream, v[0], k, text, rest);
    }
  }

  /** Every completed pick comes from such a stream. */
  lemma {:induction false} PicksInStream(sources: seq<string>, stream: seq<Byte>) returns (v: seq<Byte>)
    requires Drawable(sources) && Picked(sources, stream).Some?
    ensures InStream(sources, stream, v, Picked(sources, stream).value.1)
    ensures Draws(sources, v, Picked(sources, stream).value.0)
  {
    v := [];
    if sources != [] {
      var k := FirstAcceptable(|sources[0]|, stream);
      DrawsFirstAcceptable(|sources[0]|, stream, k);
      var w := PicksInStream(sources[1..], stream[k + 1..]);
      v := [stream[k]] + w;
      assert v[1..] == w && ComesAt(sources[0], stream, v[0], k);
    }
    StreamPicks(sources, stream, v, Picked(sources, stream).value.1, Picked(sources, stream).value.0);
  }

  /** No text is favoured.  A text the recipe allows before the shuffle is drawn by exactly the byte vectors
      of `WaysToPick`, and by as many of them as every other such text; a text it does not allow by none. */
  lemma EveryTextHasEqualWeight(recipe: Recipe, text: string, v: seq<Byte>, stream: seq<Byte>, rest: seq<Byte>)
    requires Refusal(recipe) == None && |text| == recipe.length
    ensures Drawable(Sources(recipe))
    ensures InStream(Sources(recipe), stream, v, rest) ==>
              (Picked(Sources(recipe), stream) == Some((text, rest)) <==> v in WaysToPick(Sources(recipe), text))
    ensures Pickable(recipe, text) ==> |WaysToPick(Sources(recipe), text)| == Shares(recipe, recipe.length) > 0
    ensures !Pickable(recipe, text) ==> v !in WaysToPick(Sources(recipe), text)
  {
    SourcesDrawable(recipe);
    hide Sources, Picked, InStream, MayStand;
    WaysExactly(Sources(recipe), text, v);
    if InStream(Sources(recipe), stream, v, rest) {
      StreamPicks(Sources(recipe), stream, v, rest, text);
    }
    if Pickable(recipe, text) {
      WaysCount(recipe, text, recipe.length);
      TakeAll(Sources(recipe));
      TakeAll(text);
    } else if v in WaysToPick(Sources(recipe), text) {
      OnlyPickable(recipe, text, v);
    }
  }

  lemma OnlyPickable(recipe: Recipe, text: string, v: seq<Byte>)
    requires Refusal(recipe) == None && Drawable(Sources(recipe)) && Draws(Sources(recipe), v, text)
    ensures Pickable(recipe, text)
  {
    hide Sources, MayStand, Distinct;
    ClassesAt(recipe, 0);
    forall k | 0 <= k < |text| ensures MayStand(recipe, k, text[k]) {
      SourcesExactly(recipe, k, text[k]);
      assert v[k] in Choosers(Sources(recipe)[k], text[k]);
    }
  }

  // ---- and then it is shuffled ----------------------------------------

  function Places(n: nat): seq<nat> {
    seq(n, i => i)
  }

  predicate Within(q: seq<nat>, n: nat) {
    forall i :: 0 <= i < |q| ==> q[i] < n
  }

  /** The text with the character from place `q[i]` at place `i`. */
  function Taken(text: string, q: seq<nat>): string
    requires Within(q, |text|)
  {
    seq(|q|, i requires 0 <= i < |q| => text[q[i]])
  }

  /** A shuffle moves places and does not look at what stands there. */
  lemma {:induction false} ShuffleIsBlind(text: string, q: seq<nat>, c: seq<nat>, n: nat)
    requires |q| == |c| <= n == |text| && Within(q, n) && ValidChoices(c)
    ensures Within(Shuffled(q, c), n)
    ensures forall i :: 0 <= i < |q| ==> Shuffled(Taken(text, q), c)[i] == text[Shuffled(q, c)[i]]
    decreases |q|
  {
    if q != [] {
      var u := |q| - 1;
      var t := Swapped(q, u, c[u]);
      ShuffledUnrolls(q, c);
      ShuffledUnrolls(Taken(text, q), c);
      ShuffleIsBlind(text, t[..u], c[..u], n);
      assert Swapped(Taken(text, q), u, c[u])[..u] == Taken(text, t[..u]);
    }
  }

  lemma PlacesDiffer(n: nat, q: seq<nat>)
    requires multiset(q) == multiset(Places(n))
    ensures Distinct(Places(n)) && |q| == n && Within(q, n)
  {
    SameLength(Places(n), q);
    forall i | 0 <= i < |q| ensures q[i] < n {
      assert q[i] in multiset(q);
      assert q[i] in Places(n);
    }
  }

  /** The whole password.  Once the bytes have drawn a text, each order of its places comes from as many
      accepted byte vectors for the shuffle as every other, whatever characters stand there, and the
      password is the text in that order. */
  lemma EveryOrderHasEqualWeight(recipe: Recipe, stream: seq<Byte>, v: seq<Byte>, mid: seq<Byte>, w: seq<Byte>,
                                 rest: seq<Byte>, text: string, q: seq<nat>)
    requires Refusal(recipe) == None && Drawable(Sources(recipe))
    requires InStream(Sources(recipe), stream, v, mid) && Draws(Sources(recipe), v, text)
    requires |w| + 1 == recipe.length && Acceptable(w) && Streams(mid, w, rest)
    requires multiset(q) == multiset(Places(recipe.length))
    ensures |q| == |text| == recipe.length && Within(q, |text|)
    ensures w in WaysTo(Places(recipe.length), q) ==> Generated(recipe, stream) == Some((Taken(text, q), rest))
    ensures |WaysTo(Places(recipe.length), q)| == Weight(recipe.length)
  {
    var n, places := recipe.length, Places(recipe.length);
    hide Sources, InStream, Picked, Streams, WaysTo, Acceptable, Residues, DrawnChoices, Weight;
    PlacesDiffer(n, q);
    StreamPicks(Sources(recipe), stream, v, mid, text);
    StreamDraws(mid, w, rest);
    EveryArrangementHasEqualWeight(places, q, w, mid, rest);
    if w in WaysTo(places, q) {
      ShuffleIsBlind(text, places, Residues(w), n);
      assert Taken(text, places) == text;
      assert Shuffled(text, Residues(w)) == Taken(text, q);
    }
  }
}
