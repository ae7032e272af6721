/** The descending swap loop, and why it favours no arrangement. */
module Shuffles {
  import opened Crypto
  import opened RandomIndex
  import Sequences

  /** One choice a position: position `i` trades places with one of `0..=i`.  Position 0 has no say. */
  predicate ValidChoices(c: seq<nat>) {
    forall i :: 0 <= i < |c| ==> c[i] <= i
  }

  function Swapped<T>(s: seq<T>, i: nat, j: nat): (t: seq<T>)
    requires i < |s| && j < |s|
    ensures |t| == |s|
  {
    s[i := s[j]][j := s[i]]
  }

  /** What the loop makes of `s`: the last position is settled first. */
  function Shuffled<T>(s: seq<T>, c: seq<nat>): (t: seq<T>)
    requires |s| == |c| && ValidChoices(c)
    ensures |t| == |s|
    decreases |s|
  {
    if s == [] then [] else
      var u := |s| - 1;
      var t := Swapped(s, u, c[u]);
      Shuffled(t[..u], c[..u]) + [t[u]]
  }

  /** The choices of a whole shuffle as they are drawn, highest position first; position 0 draws none. */
  function DrawnChoices(n: nat, bytes: seq<Byte>): (r: Option<(seq<nat>, seq<Byte>)>)
    requires n <= 256
    ensures r.Some? ==> |r.value.0| == n && ValidChoices(r.value.0)
  {
    if n == 0 then Some(([], bytes))
    else if n == 1 then Some(([0], bytes))
    else
      match Drawn(n, bytes)
      case None => None
      case Some((k, rest)) =>
        match DrawnChoices(n - 1, rest)
        case None => None
        case Some((c, left)) => Some((c + [k], left))
  }

  /** A shuffle by the choices these bytes make, and the bytes left. */
  function DrawnShuffle<T>(s: seq<T>, bytes: seq<Byte>): (r: Option<(seq<T>, seq<Byte>)>)
    requires |s| <= 256
    ensures r.Some? ==> |r.value.0| == |s|
  {
    match DrawnChoices(|s|, bytes)
    case None => None
    case Some((c, left)) => Some((Shuffled(s, c), left))
  }

  function Followed<T>(r: Option<(seq<T>, seq<Byte>)>, tail: seq<T>): Option<(seq<T>, seq<Byte>)> {
    match r
    case None => None
    case Some((s, left)) => Some((s + tail, left))
  }

  lemma ShuffledUnrolls<T>(s: seq<T>, c: seq<nat>)
    requires |s| == |c| > 0 && ValidChoices(c)
    ensures var u := |s| - 1;
      var t := Swapped(s, u, c[u]);
      Shuffled(s, c) == Shuffled(t[..u], c[..u]) + [t[u]]
  {
  }

  lemma ShuffledStep<T>(s: seq<T>, high: seq<nat>, k: nat, tail: seq<T>)
    requires |s| == |high| + 1 && k < |s| && ValidChoices(high)
    ensures var u := |s| - 1;
      var t := Swapped(s, u, k);
      Shuffled(s, high + [k]) + tail == Shuffled(t[..u], high) + ([t[u]] + tail)
  {
    hide Shuffled, Swapped;
    var c := high + [k];
    assert c[..|s| - 1] == high;
    ShuffledUnrolls(s, c);
  }

  lemma SettleLast<T>(s: seq<T>, bytes: seq<Byte>, tail: seq<T>)
    requires 2 <= |s| <= 256
    ensures var u := |s| - 1;
      Followed(DrawnShuffle(s, bytes), tail) ==
      match Drawn(|s|, bytes)
      case None => None
      case Some((k, rest)) =>
        var t := Swapped(s, u, k);
        Followed(DrawnShuffle(t[..u], rest), [t[u]] + tail)
  {
    hide Shuffled, Swapped, Drawn;
    var drawn := Drawn(|s|, bytes);
    if drawn.Some? {
      var inner := DrawnChoices(|s| - 1, drawn.value.1);
      if inner.Some? {
        ShuffledStep(s, inner.value.0, drawn.value.0, tail);
      }
    }
  }

  lemma ShuffledSingle<T>(s: seq<T>)
    requires |s| == 1
    ensures Shuffled(s, [0]) == s
  {
    ShuffledUnrolls(s, [0]);
    var t := Swapped(s, 0, 0);
    assert t == s && t[..0] == [];
    assert [0][..0] == [];
    assert Shuffled(t[..0], [0][..0]) == [];
  }

  lemma SettledFirst<T>(s: seq<T>, bytes: seq<Byte>, tail: seq<T>)
    requires |s| <= 1
    ensures Followed(DrawnShuffle(s, bytes), tail) == Some((s + tail, bytes))
  {
    if |s| == 1 {
      hide Shuffled, Swapped, Drawn;
      ShuffledSingle(s);
    }
  }

  /** The swaps in place, highest position first, each index drawn when it is needed. */
  method ShuffleInPlace<T>(a: array<T>, source: RandomBytes) returns (done: bool)
    requires a.Length <= 256 && source.Valid() && source as object != a as object
    modifies a, source
    ensures source.Valid()
    ensures match DrawnShuffle(old(a[..]), old(source.Left()))
      case None => !done
      case Some((s, left)) => done && a[..] == s && source.Left() == left
  {
    hide DrawnShuffle, DrawnChoices, Swapped, Shuffled, Drawn;
    ghost var target := DrawnShuffle(a[..], source.Left());
    var left := a.Length;
    assert a[..left] == a[..] && a[left..] == [];
    assert target == Followed(DrawnShuffle(a[..left], source.Left()), a[left..]) by {
      if target.Some? { assert target.value.0 + [] == target.value.0; }
    }
    while left > 1
      invariant 0 <= left <= a.Length && source.Valid()
      invariant target == Followed(DrawnShuffle(a[..left], source.Left()), a[left..])
    {
      var upper := left - 1;
      ghost var before, tail := a[..left], a[left..];
      SettleLast(before, source.Left(), tail);
      var other := source.Index(left);
      assert a[..left] == before && a[left..] == tail;
      if other.None? {
        return false;
      }
      SwapElements(a, upper, other.value, left);
      assert a[..left][..upper] == a[..upper];
      assert a[upper..] == [a[upper]] + tail;
      left := upper;
    }
    SettledFirst(a[..left], source.Left(), a[left..]);
    assert a[..] == a[..left] + a[left..];
    done := true;
  }

  method SwapElements<T>(a: array<T>, i: nat, j: nat, left: nat)
    requires j <= i < left <= a.Length
    modifies a
    ensures a[..left] == Swapped(old(a[..left]), i, j) && a[left..] == old(a[left..])
  {
    a[i], a[j] := a[j], a[i];
  }

  lemma SwapPermutes<T>(s: seq<T>, i: nat, j: nat)
    requires i < |s| && j < |s|
    ensures multiset(Swapped(s, i, j)) == multiset(s)
  {
  }

  /** The shuffle moves and neither drops nor invents. */
  lemma {:induction false} ShuffleKeepsContents<T>(s: seq<T>, c: seq<nat>)
    requires |s| == |c| && ValidChoices(c)
    ensures multiset(Shuffled(s, c)) == multiset(s)
    decreases |s|
  {
    if s != [] {
      hide Shuffled, Swapped;
      var u := |s| - 1;
      var t := Swapped(s, u, c[u]);
      SwapPermutes(s, u, c[u]);
      ShuffledUnrolls(s, c);
      ShuffleKeepsContents(t[..u], c[..u]);
      assert t == t[..u] + [t[u]];
    } else {
      assert Shuffled(s, c) == [];
    }
  }

  // ---- the choices behind an arrangement ------------------------------

  ghost predicate Distinct<T>(s: seq<T>) {
    forall i, j :: 0 <= i < j < |s| ==> s[i] != s[j]
  }

  ghost function IndexOf<T>(s: seq<T>, x: T): (k: nat)
    requires x in s
    ensures k < |s| && s[k] == x
  {
    if s[0] == x then 0 else IndexOf(s[1..], x) + 1
  }

  /** Reads the choices off a result: whatever ended last was picked from where it stood. */
  ghost function ChoicesBehind<T>(s: seq<T>, p: seq<T>): (c: seq<nat>)
    requires multiset(p) == multiset(s)
    ensures |c| == |s| && ValidChoices(c)
    decreases |s|
  {
    SameLength(s, p);
    if s == [] then [] else
      var u := |s| - 1;
      LastIsThere(s, p);
      var k := IndexOf(s, p[u]);
      RestMatches(s, p, k);
      ChoicesBehind(Swapped(s, u, k)[..u], p[..u]) + [k]
  }

  lemma SameLength<T>(s: seq<T>, p: seq<T>)
    requires multiset(p) == multiset(s)
    ensures |p| == |s|
  {
    assert |multiset(p)| == |p| && |multiset(s)| == |s|;
  }

  lemma LastIsThere<T>(s: seq<T>, p: seq<T>)
    requires multiset(p) == multiset(s) && |p| == |s| > 0
    ensures p[|s| - 1] in s
  {
    assert p[|s| - 1] in multiset(p);
  }

  lemma WithoutLast<T>(s: seq<T>)
    requires s != []
    ensures multiset(s[..|s| - 1]) == multiset(s) - multiset{s[|s| - 1]}
  {
    assert s == s[..|s| - 1] + [s[|s| - 1]];
  }

  lemma SameWithoutLast<T>(t: seq<T>, p: seq<T>)
    requires multiset(t) == multiset(p) && t != [] && p != [] && t[|t| - 1] == p[|p| - 1]
    ensures multiset(t[..|t| - 1]) == multiset(p[..|p| - 1])
  {
    WithoutLast(t);
    WithoutLast(p);
  }

  lemma RestMatches<T>(s: seq<T>, p: seq<T>, k: nat)
    requires multiset(p) == multiset(s) && |p| == |s| > 0
    requires k < |s| && s[k] == p[|s| - 1]
    ensures multiset(p[..|s| - 1]) == multiset(Swapped(s, |s| - 1, k)[..|s| - 1])
  {
    hide Swapped;
    var t := Swapped(s, |s| - 1, k);
    SwappedLast(s, k);
    SwapPermutes(s, |s| - 1, k);
    SameWithoutLast(t, p);
    assert |t| == |p| == |s|;
  }

  lemma SwappedLast<T>(s: seq<T>, k: nat)
    requires k < |s|
    ensures Swapped(s, |s| - 1, k)[|s| - 1] == s[k]
  {
  }

  lemma ChoicesUnroll<T>(s: seq<T>, p: seq<T>) returns (k: nat)
    requires multiset(p) == multiset(s) && s != []
    ensures var u := |s| - 1;
      && |p| == |s| && k <= u && s[k] == p[u]
      && multiset(p[..u]) == multiset(Swapped(s, u, k)[..u])
      && ChoicesBehind(s, p)[..u] == ChoicesBehind(Swapped(s, u, k)[..u], p[..u])
      && ChoicesBehind(s, p)[u] == k
  {
    SameLength(s, p);
    LastIsThere(s, p);
    k := IndexOf(s, p[|s| - 1]);
    RestMatches(s, p, k);
  }

  /** Every arrangement is reached. */
  lemma {:induction false} EveryArrangementIsReached<T>(s: seq<T>, p: seq<T>)
    requires multiset(p) == multiset(s)
    ensures Shuffled(s, ChoicesBehind(s, p)) == p
    decreases |s|
  {
    if s == [] {
      SameLength(s, p);
    } else {
      var k := ChoicesUnroll(s, p);
      EveryArrangementIsReached(Swapped(s, |s| - 1, k)[..|s| - 1], p[..|s| - 1]);
      hide Shuffled, Swapped, ChoicesBehind;
      ShuffledBack(s, ChoicesBehind(s, p), p);
    }
  }

  lemma ShuffledBack<T>(s: seq<T>, c: seq<nat>, p: seq<T>)
    requires |s| == |c| == |p| > 0 && ValidChoices(c)
    requires var u := |s| - 1;
      s[c[u]] == p[u] && Shuffled(Swapped(s, u, c[u])[..u], c[..u]) == p[..u]
    ensures Shuffled(s, c) == p
  {
    LastChoice(s, c);
    var r := Shuffled(s, c);
    hide *;
    Sequences.SameEnds(r, p);
  }

  lemma DistinctAfterSwap<T>(s: seq<T>, i: nat, j: nat)
    requires Distinct(s) && i < |s| && j < |s|
    ensures Distinct(Swapped(s, i, j))
  {
  }

  /** The last choice can be read off the result, and what is left is a shuffle by the rest. */
  lemma LastChoice<T>(s: seq<T>, c: seq<nat>)
    requires |s| == |c| > 0 && ValidChoices(c)
    ensures var u := |s| - 1;
      && Shuffled(s, c)[u] == s[c[u]]
      && Shuffled(s, c)[..u] == Shuffled(Swapped(s, u, c[u])[..u], c[..u])
  {
    SwappedLast(s, c[|s| - 1]);
    ShuffledUnrolls(s, c);
    hide Shuffled, Swapped;
  }

  /** And by one vector of choices only, when the elements differ. */
  lemma {:induction false} NoArrangementIsReachedTwice<T>(s: seq<T>, c: seq<nat>, d: seq<nat>)
    requires Distinct(s) && |s| == |c| == |d| && ValidChoices(c) && ValidChoices(d)
    requires Shuffled(s, c) == Shuffled(s, d)
    ensures c == d
    decreases |s|
  {
    if s != [] {
      var u := |s| - 1;
      LastChoice(s, c);
      LastChoice(s, d);
      DistinctPins(s, c[u], d[u]);
      RestIsDistinct(s, c[u]);
      hide Distinct, Shuffled, Swapped;
      NoArrangementIsReachedTwice(Swapped(s, u, c[u])[..u], c[..u], d[..u]);
      hide *;
      Sequences.SameEnds(c, d);
    }
  }

  lemma DistinctPins<T>(s: seq<T>, i: nat, j: nat)
    requires Distinct(s) && i < |s| && j < |s| && s[i] == s[j]
    ensures i == j
  {
  }

  lemma RestIsDistinct<T>(s: seq<T>, k: nat)
    requires Distinct(s) && k < |s|
    ensures Distinct(Swapped(s, |s| - 1, k)[..|s| - 1])
  {
    DistinctAfterSwap(s, |s| - 1, k);
    DistinctTake(Swapped(s, |s| - 1, k), |s| - 1);
  }

  lemma DistinctTake<T>(s: seq<T>, k: nat)
    requires Distinct(s) && k <= |s|
    ensures Distinct(s[..k])
  {
  }

  /** Choice vectors and arrangements correspond one to one. */
  lemma {:induction false} ChoicesAndArrangementsCorrespond<T>(s: seq<T>, c: seq<nat>, p: seq<T>)
    requires Distinct(s) && |c| == |s| && ValidChoices(c) && multiset(p) == multiset(s)
    ensures Shuffled(s, c) == p <==> c == ChoicesBehind(s, p)
  {
    EveryArrangementIsReached(s, p);
    if Shuffled(s, c) == p {
      NoArrangementIsReachedTwice(s, c, ChoicesBehind(s, p));
    }
  }

  // ---- counting the bytes behind an arrangement -----------------------

  /** The choices that bytes stand for: `v[i]` decides position `i + 1`, and position 0 has no byte. */
  ghost function Residues(v: seq<Byte>): (c: seq<nat>)
    requires |v| < 256
    ensures |c| == |v| + 1 && ValidChoices(c)
  {
    seq(|v| + 1, i requires 0 <= i <= |v| => if i == 0 then 0 else v[i - 1] % (i + 1))
  }

  ghost predicate Acceptable(v: seq<Byte>) {
    |v| < 256 && forall i :: 0 <= i < |v| ==> v[i] < Limit(i + 2)
  }

  lemma LastResidue(v: seq<Byte>)
    requires 0 < |v| < 256
    ensures var w, b := v[..|v| - 1], v[|v| - 1];
      && (Acceptable(v) <==> Acceptable(w) && b < Limit(|v| + 1))
      && Residues(v) == Residues(w) + [b % (|v| + 1)]
      && Residues(v)[..|v|] == Residues(w)
  {
    var w := v[..|v| - 1];
    assert forall i :: 0 <= i < |w| ==> w[i] == v[i];
  }

  /** The stream shows the bytes of `v`, that of the highest position first, each after any number of
      bytes that position refuses, and goes on with `rest`. */
  ghost predicate Streams(stream: seq<Byte>, v: seq<Byte>, rest: seq<Byte>)
    requires |v| < 256
    decreases |v|
  {
    if v == [] then stream == rest
    else exists k :: 0 <= k < |stream| && ShowsAt(stream, v, k) && Streams(stream[k + 1..], v[..|v| - 1], rest)
  }

  ghost predicate ShowsAt(stream: seq<Byte>, v: seq<Byte>, k: nat)
    requires 0 < |v| < 256 && k < |stream|
  {
    stream[k] == v[|v| - 1] && forall i :: 0 <= i < k ==> stream[i] >= Limit(|v| + 1)
  }

  /** Such a stream draws the choices its accepted bytes stand for, and leaves the rest. */
  lemma {:induction false} StreamDraws(stream: seq<Byte>, v: seq<Byte>, rest: seq<Byte>)
    requires Acceptable(v) && Streams(stream, v, rest)
    ensures DrawnChoices(|v| + 1, stream) == Some((Residues(v), rest))
    decreases |v|
  {
    if v == [] {
      assert Residues([]) == [0];
    } else {
      LastResidue(v);
      var k :| 0 <= k < |stream| && ShowsAt(stream, v, k) && Streams(stream[k + 1..], v[..|v| - 1], rest);
      DrawsFirstAcceptable(|v| + 1, stream, k);
      StreamDraws(stream[k + 1..], v[..|v| - 1], rest);
    }
  }

  /** And every completed draw is of that kind. */
  lemma {:induction false} DrawsStream(n: nat, stream: seq<Byte>) returns (v: seq<Byte>)
    requires 1 <= n <= 256 && DrawnChoices(n, stream).Some?
    ensures |v| + 1 == n && Acceptable(v) && Streams(stream, v, DrawnChoices(n, stream).value.1)
    ensures Residues(v) == DrawnChoices(n, stream).value.0
  {
    if n == 1 {
      v := [];
      assert Residues([]) == [0];
    } else {
      var k := FirstAcceptable(n, stream);
      DrawsFirstAcceptable(n, stream, k);
      var w := DrawsStream(n - 1, stream[k + 1..]);
      v := w + [stream[k]];
      assert v[..|v| - 1] == w;
      LastResidue(v);
      assert ShowsAt(stream, v, k);
    }
  }

  lemma {:induction false} FirstAcceptable(n: nat, stream: seq<Byte>) returns (k: nat)
    requires 1 <= n <= 256 && Drawn(n, stream).Some?
    ensures k < |stream| && stream[k] < Limit(n) && forall i :: 0 <= i < k ==> stream[i] >= Limit(n)
  {
    k := 0;
    if stream[0] >= Limit(n) {
      k := FirstAcceptable(n, stream[1..]);
      k := k + 1;
    }
  }

  ghost function Extended(vs: set<seq<Byte>>, bs: set<Byte>): set<seq<Byte>> {
    set v, b | v in vs && b in bs :: v + [b]
  }

  ghost function Row(v: seq<Byte>, bs: set<Byte>): set<seq<Byte>> {
    set b | b in bs :: v + [b]
  }

  lemma InExtended(vs: set<seq<Byte>>, bs: set<Byte>, x: seq<Byte>)
    ensures x in Extended(vs, bs) <==> x != [] && x[..|x| - 1] in vs && x[|x| - 1] in bs
  {
    if x != [] {
      assert x == x[..|x| - 1] + [x[|x| - 1]];
    }
    if x in Extended(vs, bs) {
      var v, b :| v in vs && b in bs && x == v + [b];
      assert x[..|x| - 1] == v && x[|x| - 1] == b;
    }
  }

  lemma InRow(v: seq<Byte>, bs: set<Byte>, x: seq<Byte>)
    ensures x in Row(v, bs) <==> x != [] && x[..|x| - 1] == v && x[|x| - 1] in bs
  {
    if x != [] {
      assert x == x[..|x| - 1] + [x[|x| - 1]];
    }
    if x in Row(v, bs) {
      var b :| b in bs && x == v + [b];
      assert x[..|x| - 1] == v && x[|x| - 1] == b;
    }
  }

  /** The byte vectors, one accepted byte for each position but 0, that make these choices. */
  ghost function BytesFor(c: seq<nat>): set<seq<Byte>>
    requires 1 <= |c| <= 256
  {
    if |c| == 1 then {[]} else
      var u := |c| - 1;
      Extended(BytesFor(c[..u]), Hits(|c|, c[u]))
  }

  lemma {:induction false} BytesForExactly(c: seq<nat>, v: seq<Byte>)
    requires 1 <= |c| <= 256 && c[0] == 0
    ensures v in BytesFor(c) <==> |v| + 1 == |c| && Acceptable(v) && Residues(v) == c
    decreases |c|
  {
    if |c| == 1 {
      assert Residues([]) == c;
    } else {
      var u := |c| - 1;
      InExtended(BytesFor(c[..u]), Hits(|c|, c[u]), v);
      if v != [] {
        var w, b := v[..|v| - 1], v[|v| - 1];
        BytesForExactly(c[..u], w);
        if |v| + 1 == |c| {
          LastResidue(v);
          assert c == c[..u] + [c[u]];
        }
      }
    }
  }

  /** How many byte vectors make any one vector of `n` choices. */
  function Weight(n: nat): nat
    requires n <= 256
  {
    if n <= 1 then 1 else
      var before: nat, share: nat := Weight(n - 1), 256 / n;
      before * share
  }

  lemma {:induction false} ExtendedCount(vs: set<seq<Byte>>, bs: set<Byte>)
    ensures |Extended(vs, bs)| == |vs| * |bs|
    decreases |vs|
  {
    hide Extended, Row;
    if vs == {} {
      forall x ensures x !in Extended(vs, bs) { InExtended(vs, bs, x); }
      assert Extended(vs, bs) == {};
    } else {
      var v0 :| v0 in vs;
      var others := vs - {v0};
      ExtendedCount(others, bs);
      RowCount(v0, bs);
      forall x
        ensures x in Extended(vs, bs) <==> x in Extended(others, bs) || x in Row(v0, bs)
        ensures !(x in Extended(others, bs) && x in Row(v0, bs))
      {
        InExtended(vs, bs, x);
        InExtended(others, bs, x);
        InRow(v0, bs, x);
      }
      assert Extended(vs, bs) == Extended(others, bs) + Row(v0, bs);
      assert Extended(others, bs) !! Row(v0, bs);
      OneMoreRow(|vs|, |bs|);
    }
  }

  lemma OneMoreRow(rows: nat, width: nat)
    requires rows > 0
    ensures rows * width == (rows - 1) * width + width
  {
  }

  lemma {:induction false} RowCount(v: seq<Byte>, bs: set<Byte>)
    ensures |Row(v, bs)| == |bs|
    decreases |bs|
  {
    hide Row;
    if bs == {} {
      forall x ensures x !in Row(v, bs) { InRow(v, bs, x); }
      assert Row(v, bs) == {};
    } else {
      var b0 :| b0 in bs;
      var others := bs - {b0};
      RowCount(v, others);
      var last := v + [b0];
      assert last[..|v|] == v && last[|v|] == b0;
      forall x
        ensures x in Row(v, bs) <==> x in Row(v, others) || x == last
      {
        InRow(v, bs, x);
        InRow(v, others, x);
        if x != [] { assert x == x[..|x| - 1] + [x[|x| - 1]]; }
      }
      InRow(v, others, last);
      assert Row(v, bs) == Row(v, others) + {last};
    }
  }

  lemma {:induction false} EveryChoiceVectorHasEqualWeight(c: seq<nat>)
    requires 1 <= |c| <= 256 && ValidChoices(c)
    ensures |BytesFor(c)| == Weight(|c|)
    decreases |c|
  {
    if |c| > 1 {
      var u := |c| - 1;
      EveryChoiceVectorHasEqualWeight(c[..u]);
      EveryIndexHasEqualWeight(|c|, c[u]);
      ExtendedCount(BytesFor(c[..u]), Hits(|c|, c[u]));
    }
  }

  /** A stream showing these bytes, all accepted, shuffles `s` into `p`. */
  ghost predicate Arranges<T>(v: seq<Byte>, s: seq<T>, p: seq<T>) {
    |v| + 1 == |s| && Acceptable(v) && Shuffled(s, Residues(v)) == p
  }

  /** Whatever bytes a stream shows in between, the accepted ones alone decide the shuffle. */
  lemma ArrangesExactly<T>(stream: seq<Byte>, v: seq<Byte>, rest: seq<Byte>, s: seq<T>, p: seq<T>)
    requires 1 <= |s| <= 256 && |v| + 1 == |s| && Acceptable(v) && Streams(stream, v, rest)
    ensures DrawnShuffle(s, stream) == Some((p, rest)) <==> Arranges(v, s, p)
  {
    StreamDraws(stream, v, rest);
  }

  /** The byte vectors that make the choices behind an arrangement. */
  ghost function WaysTo<T>(s: seq<T>, p: seq<T>): set<seq<Byte>>
    requires 1 <= |s| <= 256 && multiset(p) == multiset(s)
  {
    BytesFor(ChoicesBehind(s, p))
  }

  /** They are exactly the accepted byte vectors, one byte for each position but 0, whose streams shuffle
      `s` into `p`, and as many of them as for every other arrangement. */
  lemma {:induction false} EveryArrangementHasEqualWeight<T>(s: seq<T>, p: seq<T>, v: seq<Byte>, stream: seq<Byte>,
                                                             rest: seq<Byte>)
    requires Distinct(s) && 1 <= |s| <= 256 && multiset(p) == multiset(s)
    ensures v in WaysTo(s, p) <==> Arranges(v, s, p)
    ensures |v| + 1 == |s| && Acceptable(v) && Streams(stream, v, rest) ==>
              (DrawnShuffle(s, stream) == Some((p, rest)) <==> v in WaysTo(s, p))
    ensures |WaysTo(s, p)| == Weight(|s|)
  {
    var c := ChoicesBehind(s, p);
    hide BytesFor, Residues, ChoicesBehind, Shuffled, Acceptable, Streams, DrawnShuffle;
    EveryChoiceVectorHasEqualWeight(c);
    BytesForExactly(c, v);
    if |v| + 1 == |s| && Acceptable(v) {
      ChoicesAndArrangementsCorrespond(s, Residues(v), p);
      if Streams(stream, v, rest) {
        ArrangesExactly(stream, v, rest, s, p);
      }
    }
  }
}
