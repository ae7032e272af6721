/** Facts of plain sequences, kept apart from the definitions that use them. */
module Sequences {

  lemma SameEnds<T>(a: seq<T>, b: seq<T>)
    requires |a| == |b| > 0 && a[..|a| - 1] == b[..|b| - 1] && a[|a| - 1] == b[|b| - 1]
    ensures a == b
  {
    assert a == a[..|a| - 1] + [a[|a| - 1]];
    assert b == b[..|b| - 1] + [b[|b| - 1]];
  }

  lemma Uncons<T>(a: seq<T>)
    requires a != []
    ensures a == [a[0]] + a[1..]
  {
  }

  lemma ConsAppend<T>(x: T, a: seq<T>, b: seq<T>)
    ensures ([x] + a) + b == [x] + (a + b)
  {
  }

  lemma JoinAssociates<T>(a: seq<T>, b: seq<T>, c: seq<T>)
    ensures (a + b) + c == a + (b + c)
  {
  }

  lemma UnconsAppend<T>(a: seq<T>, b: seq<T>)
    requires a != []
    ensures a == [a[0]] + a[1..] && a + b == [a[0]] + (a[1..] + b)
  {
    Uncons(a);
    ConsAppend(a[0], a[1..], b);
  }

  lemma TakeTake<T>(a: seq<T>, j: nat, k: nat)
    requires j <= k <= |a|
    ensures a[..k][..j] == a[..j]
  {
  }

  lemma DropDrop<T>(a: seq<T>, k: nat)
    requires k < |a|
    ensures a[k..][1..] == a[k + 1..]
  {
  }

  lemma TakeAll<T>(a: seq<T>)
    ensures a[..|a|] == a
  {
  }

  lemma SliceOfSlice<T>(a: seq<T>, i: nat, m: nat, j: nat, n: nat)
    requires i <= m <= |a| && j <= n <= m - i
    ensures a[i..m][j..n] == a[i + j..i + n]
  {
    var slice, direct := a[i..m][j..n], a[i + j..i + n];
    assert |slice| == |direct|;
    forall k | 0 <= k < n - j ensures slice[k] == direct[k] {
      assert a[i..m][j + k] == a[i + j + k];
    }
  }

  lemma SliceSplits<T>(a: seq<T>, i: nat, k: nat, n: nat)
    requires i <= k <= n <= |a|
    ensures a[i..n] == a[i..k] + a[k..n]
  {
  }

  lemma SplitAt<T>(a: seq<T>, n: nat)
    requires n <= |a|
    ensures a == a[..n] + a[n..]
  {
  }

  lemma SplitThree<T>(a: seq<T>, i: nat, k: nat)
    requires i <= k <= |a|
    ensures a == a[..i] + (a[i..k] + a[k..])
  {
    SplitAt(a, i);
    SplitAt(a[i..], k - i);
  }

  lemma EndOfJoin<T>(a: seq<T>, b: seq<T>)
    ensures (a + b)[|a|..|a| + |b|] == b
  {
  }
}
