/** Password generation: one character of every enabled class, the rest from all of them, shuffled. */
module Generate {
  import opened Crypto
  import opened RandomIndex
  import opened Shuffles
  import opened Sequences

  const LOWERCASE := "abcdefghijklmnopqrstuvwxyz"
  const UPPERCASE := "ABCDEFGHIJKLMNOPQRSTUVWXYZ"
  const DIGITS := "0123456789"
  const SYMBOLS := "!\"#$%&'()*+,-./:;<=>?@[\\]^_`{|}~"

  const MINIMUM_LENGTH: nat := 12
  const MAXIMUM_LENGTH: nat := 128

  datatype Recipe = Recipe(length: nat, lowercase: bool, uppercase: bool, digits: bool, symbols: bool)

  datatype Reason = BelowMinimum | AboveMaximum | NoClasses

  /** Waiting stands for a generator whose random bytes have run out. */
  datatype Outcome = Password(text: string) | InvalidRecipe(reason: Reason) | Waiting

  function When(enabled: bool, letters: string): seq<string> {
    if enabled then [letters] else []
  }

  function Classes(recipe: Recipe): (classes: seq<string>)
    ensures |classes| <= 4
    ensures forall k :: 0 <= k < |classes| ==> 1 <= |classes[k]| <= 32
  {
    When(recipe.lowercase, LOWERCASE) + When(recipe.uppercase, UPPERCASE)
    + When(recipe.digits, DIGITS) + When(recipe.symbols, SYMBOLS)
  }

  function Joined(classes: seq<string>): string {
    if classes == [] then "" else Joined(classes[..|classes| - 1]) + classes[|classes| - 1]
  }

  function Refusal(recipe: Recipe): Option<Reason> {
    if recipe.length < MINIMUM_LENGTH then Some(BelowMinimum)
    else if recipe.length > MAXIMUM_LENGTH then Some(AboveMaximum)
    else if Classes(recipe) == [] then Some(NoClasses)
    else None
  }

  /** What each position is drawn from before the shuffle. */
  function Sources(recipe: Recipe): (sources: seq<string>)
    requires Refusal(recipe) == None
    ensures |sources| == recipe.length
  {
    var classes := Classes(recipe);
    classes + seq(recipe.length - |classes|, _ => Joined(classes))
  }

  predicate Drawable(sources: seq<string>) {
    forall k :: 0 <= k < |sources| ==> 1 <= |sources[k]| <= 256
  }

  lemma {:induction false} JoinedLength(classes: seq<string>)
    requires forall k :: 0 <= k < |classes| ==> 1 <= |classes[k]| <= 32
    ensures |classes| <= |Joined(classes)| <= 32 * |classes|
  {
    if classes != [] {
      JoinedLength(classes[..|classes| - 1]);
    }
  }

  lemma SourcesDrawable(recipe: Recipe)
    requires Refusal(recipe) == None
    ensures Drawable(Sources(recipe))
  {
    JoinedLength(Classes(recipe));
  }

  /** One character from each source in turn. */
  function Picked(sources: seq<string>, bytes: seq<Byte>): (r: Option<(string, seq<Byte>)>)
    requires Drawable(sources)
    ensures r.Some? ==> |r.value.0| == |sources|
  {
    if sources == [] then Some(("", bytes))
    else
      match Drawn(|sources[0]|, bytes)
      case None => None
      case Some((k, rest)) =>
        match Picked(sources[1..], rest)
        case None => None
        case Some((text, left)) => Some(([sources[0][k]] + text, left))
  }

  /** The password these random bytes make, and the bytes left. */
  function Generated(recipe: Recipe, bytes: seq<Byte>): Option<(string, seq<Byte>)>
    requires Refusal(recipe) == None
  {
    SourcesDrawable(recipe);
    match Picked(Sources(recipe), bytes)
    case None => None
    case Some((text, rest)) => DrawnShuffle(text, rest)
  }

  function Preceded(text: string, r: Option<(string, seq<Byte>)>): Option<(string, seq<Byte>)> {
    match r
    case None => None
    case Some((rest, left)) => Some((text + rest, left))
  }

  lemma PickNext(text: string, sources: seq<string>, bytes: seq<Byte>)
    requires Drawable(sources) && sources != []
    ensures Preceded(text, Picked(sources, bytes)) ==
      match Drawn(|sources[0]|, bytes)
      case None => None
      case Some((k, rest)) => Preceded(text + [sources[0][k]], Picked(sources[1..], rest))
  {
    hide Drawn;
    var drawn := Drawn(|sources[0]|, bytes);
    if drawn.Some? {
      var inner := Picked(sources[1..], drawn.value.1);
      if inner.Some? {
        assert text + ([sources[0][drawn.value.0]] + inner.value.0)
            == text + [sources[0][drawn.value.0]] + inner.value.0;
      }
    }
  }

  method Generate(recipe: Recipe, source: RandomBytes) returns (r: Outcome)
    requires source.Valid()
    modifies source
    ensures source.Valid()
    ensures r == InvalidRecipe(BelowMinimum) <==> recipe.length < 12
    ensures r == InvalidRecipe(AboveMaximum) <==> recipe.length > 128
    ensures r == InvalidRecipe(NoClasses) <==>
              12 <= recipe.length <= 128
              && !recipe.lowercase && !recipe.uppercase && !recipe.digits && !recipe.symbols
    ensures Refusal(recipe).Some? ==> r == InvalidRecipe(Refusal(recipe).value) && source.Left() == old(source.Left())
    ensures Refusal(recipe) == None ==>
      match Generated(recipe, old(source.Left()))
      case None => r == Waiting
      case Some((text, left)) => r == Password(text) && source.Left() == left
  {
    if recipe.length < MINIMUM_LENGTH {
      return InvalidRecipe(BelowMinimum);
    }
    if recipe.length > MAXIMUM_LENGTH {
      return InvalidRecipe(AboveMaximum);
    }
    var classes := Classes(recipe);
    if classes == [] {
      return InvalidRecipe(NoClasses);
    }
    ghost var sources := Sources(recipe);
    SourcesDrawable(recipe);
    var characters := PickAll(recipe, classes, source);
    if characters.None? {
      return Waiting;
    }
    var buffer := new char[|characters.value|](i requires 0 <= i < |characters.value| => characters.value[i]);
    assert buffer[..] == characters.value;
    var done := ShuffleInPlace(buffer, source);
    r := if done then Password(buffer[..]) else Waiting;
  }

  /** The two filling loops: a character of every class, then characters of any. */
  method PickAll(recipe: Recipe, classes: seq<string>, source: RandomBytes) returns (r: Option<string>)
    requires source.Valid() && Refusal(recipe) == None && classes == Classes(recipe) && Drawable(Sources(recipe))
    modifies source
    ensures source.Valid()
    ensures match Picked(Sources(recipe), old(source.Left()))
      case None => r == None
      case Some((text, left)) => r == Some(text) && source.Left() == left
  {
    hide Drawn, Picked, Joined, Classes;
    ghost var sources := Sources(recipe);
    ghost var target := Picked(sources, source.Left());
    var characters := "";
    assert sources[0..] == sources;
    assert target == Preceded(characters, Picked(sources[0..], source.Left())) by {
      if target.Some? { assert "" + target.value.0 == target.value.0; }
    }
    for i := 0 to |classes|
      invariant source.Valid() && |characters| == i
      invariant target == Preceded(characters, Picked(sources[i..], source.Left()))
    {
      assert sources[i] == classes[i];
      PickNext(characters, sources[i..], source.Left());
      var at := source.Index(|classes[i]|);
      if at.None? {
        return None;
      }
      characters := characters + [classes[i][at.value]];
      DropDrop(sources, i);
    }
    var alphabet := Joined(classes);
    while |characters| < recipe.length
      invariant source.Valid() && |classes| <= |characters| <= recipe.length
      invariant target == Preceded(characters, Picked(sources[|characters|..], source.Left()))
    {
      ghost var i := |characters|;
      assert sources[i] == alphabet;
      PickNext(characters, sources[i..], source.Left());
      var at := source.Index(|alphabet|);
      if at.None? {
        return None;
      }
      characters := characters + [alphabet[at.value]];
      DropDrop(sources, i);
    }
    assert sources[recipe.length..] == [];
    PickNone(characters, source.Left());
    r := Some(characters);
  }

  lemma PickNone(text: string, bytes: seq<Byte>)
    ensures Preceded(text, Picked([], bytes)) == Some((text, bytes))
  {
    assert text + "" == text;
  }

  // ---- what every password is -----------------------------------------

  lemma {:induction false} PickedFromSources(sources: seq<string>, bytes: seq<Byte>)
    requires Drawable(sources) && Picked(sources, bytes).Some?
    ensures forall k :: 0 <= k < |sources| ==> Picked(sources, bytes).value.0[k] in sources[k]
  {
    if sources != [] {
      PickedFromSources(sources[1..], Drawn(|sources[0]|, bytes).value.1);
    }
  }

  lemma {:induction false} JoinedMember(classes: seq<string>, c: char)
    ensures c in Joined(classes) <==> exists k :: 0 <= k < |classes| && c in classes[k]
  {
    if classes != [] {
      var high := classes[..|classes| - 1];
      JoinedMember(high, c);
      assert classes == high + [classes[|classes| - 1]];
      if c in Joined(high) {
        var k :| 0 <= k < |high| && c in high[k];
        assert classes[k] == high[k];
      } else if k :| 0 <= k < |classes| && c in classes[k] {
        assert k < |high| ==> c in high[k];
      }
    }
  }

  ghost predicate Shows(text: string, letters: string) {
    exists c :: c in text && c in letters
  }

  ghost predicate ShowsEvery(text: string, classes: seq<string>) {
    forall k :: 0 <= k < |classes| ==> Shows(text, classes[k])
  }

  ghost predicate ShowsOnly(text: string, classes: seq<string>) {
    forall c :: c in text ==> exists k :: 0 <= k < |classes| && c in classes[k]
  }

  lemma PickedShows(recipe: Recipe, picked: string)
    requires Refusal(recipe) == None && |picked| == recipe.length
    requires forall k :: 0 <= k < recipe.length ==> picked[k] in Sources(recipe)[k]
    ensures ShowsEvery(picked, Classes(recipe)) && ShowsOnly(picked, Classes(recipe))
  {
    hide Classes, Joined;
    var classes, sources := Classes(recipe), Sources(recipe);
    forall k | 0 <= k < |classes| ensures Shows(picked, classes[k]) {
      assert picked[k] in sources[k] && sources[k] == classes[k];
    }
    forall c | c in picked ensures exists k :: 0 <= k < |classes| && c in classes[k] {
      var i :| 0 <= i < |picked| && picked[i] == c;
      if i >= |classes| {
        assert sources[i] == Joined(classes);
        JoinedMember(classes, c);
      } else {
        assert sources[i] == classes[i];
      }
    }
  }

  lemma SameMembers(a: string, b: string, c: char)
    requires multiset(a) == multiset(b)
    ensures c in a <==> c in b
  {
    assert c in a <==> c in multiset(a);
    assert c in b <==> c in multiset(b);
  }

  lemma ShowsSame(a: string, b: string, letters: string)
    requires multiset(a) == multiset(b) && Shows(a, letters)
    ensures Shows(b, letters)
  {
    var c :| c in a && c in letters;
    SameMembers(a, b, c);
  }

  lemma SameCharacters(a: string, b: string, classes: seq<string>)
    requires multiset(a) == multiset(b) && ShowsEvery(a, classes) && ShowsOnly(a, classes)
    ensures ShowsEvery(b, classes) && ShowsOnly(b, classes)
  {
    hide Shows;
    forall k | 0 <= k < |classes| ensures Shows(b, classes[k]) {
      ShowsSame(a, b, classes[k]);
    }
    forall c | c in b ensures exists k :: 0 <= k < |classes| && c in classes[k] {
      SameMembers(a, b, c);
    }
  }

  /** Length, presence and absence.  A generated password has the length asked for, shows every
      enabled class, and shows nothing else. */
  lemma PasswordMeetsRecipe(recipe: Recipe, bytes: seq<Byte>)
    requires Refusal(recipe) == None && Generated(recipe, bytes).Some?
    ensures var text := Generated(recipe, bytes).value.0;
      |text| == recipe.length && ShowsEvery(text, Classes(recipe)) && ShowsOnly(text, Classes(recipe))
  {
    hide Classes, Joined, Drawn, Picked, Sources, ShowsEvery, ShowsOnly, Shuffled, DrawnChoices;
    SourcesDrawable(recipe);
    var classes, sources := Classes(recipe), Sources(recipe);
    var picked, rest := Picked(sources, bytes).value.0, Picked(sources, bytes).value.1;
    PickedFromSources(sources, bytes);
    PickedShows(recipe, picked);
    ShuffleKeepsContents(picked, DrawnChoices(|picked|, rest).value.0);
    SameCharacters(picked, Generated(recipe, bytes).value.0, classes);
  }

  lemma LowercaseRange(c: char)
    requires c in LOWERCASE
    ensures 'a' <= c <= 'z'
  {
  }

  lemma UppercaseRange(c: char)
    requires c in UPPERCASE
    ensures 'A' <= c <= 'Z'
  {
  }

  lemma DigitsRange(c: char)
    requires c in DIGITS
    ensures '0' <= c <= '9'
  {
  }

  lemma SymbolsRange(c: char)
    requires c in SYMBOLS
    ensures '!' <= c <= '/' || ':' <= c <= '@' || '[' <= c <= '`' || '{' <= c <= '~'
  {
  }

  /** The classes do not overlap, so a character of a class means that class is enabled. */
  lemma NothingFromADisabledClass(recipe: Recipe, bytes: seq<Byte>, c: char)
    requires Refusal(recipe) == None && Generated(recipe, bytes).Some?
    requires c in Generated(recipe, bytes).value.0
    ensures c in LOWERCASE ==> recipe.lowercase
    ensures c in UPPERCASE ==> recipe.uppercase
    ensures c in DIGITS ==> recipe.digits
    ensures c in SYMBOLS ==> recipe.symbols
  {
    hide Generated, Classes;
    PasswordMeetsRecipe(recipe, bytes);
    var k :| 0 <= k < |Classes(recipe)| && c in Classes(recipe)[k];
    var letters := Classes(recipe)[k];
    ClassIsEnabled(recipe, letters);
    ClassesAreDisjoint(c, letters);
  }

  lemma ClassesAreDisjoint(c: char, letters: string)
    requires letters in [LOWERCASE, UPPERCASE, DIGITS, SYMBOLS] && c in letters
    ensures c in LOWERCASE ==> letters == LOWERCASE
    ensures c in UPPERCASE ==> letters == UPPERCASE
    ensures c in DIGITS ==> letters == DIGITS
    ensures c in SYMBOLS ==> letters == SYMBOLS
  {
    if c in LOWERCASE { LowercaseRange(c); }
    if c in UPPERCASE { UppercaseRange(c); }
    if c in DIGITS { DigitsRange(c); }
    if c in SYMBOLS { SymbolsRange(c); }
  }

  /** And every class the recipe enables shows in the password. */
  lemma EveryEnabledClassShows(recipe: Recipe, bytes: seq<Byte>)
    requires Refusal(recipe) == None && Generated(recipe, bytes).Some?
    ensures var text := Generated(recipe, bytes).value.0;
      && (recipe.lowercase ==> Shows(text, LOWERCASE))
      && (recipe.uppercase ==> Shows(text, UPPERCASE))
      && (recipe.digits ==> Shows(text, DIGITS))
      && (recipe.symbols ==> Shows(text, SYMBOLS))
  {
    hide Generated, Shows, Classes, Refusal;
    PasswordMeetsRecipe(recipe, bytes);
    EnabledIsListed(recipe);
  }

  lemma EnabledIsListed(recipe: Recipe)
    ensures recipe.lowercase ==> exists k :: 0 <= k < |Classes(recipe)| && Classes(recipe)[k] == LOWERCASE
    ensures recipe.uppercase ==> exists k :: 0 <= k < |Classes(recipe)| && Classes(recipe)[k] == UPPERCASE
    ensures recipe.digits ==> exists k :: 0 <= k < |Classes(recipe)| && Classes(recipe)[k] == DIGITS
    ensures recipe.symbols ==> exists k :: 0 <= k < |Classes(recipe)| && Classes(recipe)[k] == SYMBOLS
  {
    var a, b := When(recipe.lowercase, LOWERCASE), When(recipe.uppercase, UPPERCASE);
    var c, d := When(recipe.digits, DIGITS), When(recipe.symbols, SYMBOLS);
    var all := Classes(recipe);
    assert recipe.lowercase ==> all[0] == a[0];
    assert recipe.uppercase ==> all[|a|] == b[0];
    assert recipe.digits ==> all[|a| + |b|] == c[0];
    assert recipe.symbols ==> all[|a| + |b| + |c|] == d[0];
  }

  lemma ClassIsEnabled(recipe: Recipe, letters: string)
    requires letters in Classes(recipe)
    ensures
      || (letters == LOWERCASE && recipe.lowercase)
      || (letters == UPPERCASE && recipe.uppercase)
      || (letters == DIGITS && recipe.digits)
      || (letters == SYMBOLS && recipe.symbols)
  {
  }
}
