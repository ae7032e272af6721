/** Unbiased indices from random bytes by rejection sampling.

    The operating system's randomness is a supply of 64-byte blocks fixed in advance.  The supply is
    finite, so a draw can be left waiting for a byte it may use. */
module RandomIndex {
  import opened Crypto

  const BLOCK: nat := 64

  type Block = b: seq<Byte> | |b| == BLOCK witness seq(BLOCK, _ => 0)

  function Flat(blocks: seq<Block>): seq<Byte> {
    if blocks == [] then [] else blocks[0] + Flat(blocks[1..])
  }

  /** The first byte of the zone that would favour the low indices. */
  function Limit(len: nat): (limit: nat)
    requires 1 <= len <= 256
    ensures 0 < limit <= 256
  {
    256 - 256 % len
  }

  /** The index drawn from these bytes, and the bytes left. */
  function Drawn(len: nat, bytes: seq<Byte>): (r: Option<(nat, seq<Byte>)>)
    requires 1 <= len <= 256
    ensures r.Some? ==> r.value.0 < len && |r.value.1| < |bytes|
  {
    if bytes == [] then None
    else if bytes[0] < Limit(len) then Some((bytes[0] % len, bytes[1..]))
    else Drawn(len, bytes[1..])
  }

  /** The bytes left for a reader that holds one of them already. */
  ghost function Pending(byte: Option<Byte>, left: seq<Byte>): seq<Byte> {
    match byte
    case None => []
    case Some(b) => [b] + left
  }

  class RandomBytes {
    var bytes: seq<Byte>
    var at: nat
    var supply: seq<Block>

    ghost predicate Valid()
      reads this
    {
      at <= |bytes|
    }

    /** Every byte still to come. */
    ghost function Left(): seq<Byte>
      requires Valid()
      reads this
    {
      bytes[at..] + Flat(supply)
    }

    constructor (first: Block, supply: seq<Block>)
      ensures Valid() && Left() == first + Flat(supply)
    {
      bytes, at, this.supply := first, 0, supply;
    }

    /** The next byte; refilling the buffer is invisible. */
    method Next() returns (r: Option<Byte>)
      requires Valid()
      modifies this
      ensures Valid()
      ensures old(Left()) == [] ==> r == None && Left() == []
      ensures old(Left()) != [] ==> r == Some(old(Left())[0]) && Left() == old(Left())[1..]
    {
      if at == |bytes| {
        if supply == [] {
          return None;
        }
        bytes, supply, at := supply[0], supply[1..], 0;
        assert Left() == old(Left());
      }
      r := Some(bytes[at]);
      at := at + 1;
    }

    /** Reads until a byte lies below the limit.  None for a length outside a byte's range, nothing
        read, and also when the bytes run out. */
    method Index(len: nat) returns (r: Option<nat>)
      requires Valid()
      modifies this
      ensures Valid()
      ensures !(1 <= len <= 256) ==> r == None && Left() == old(Left())
      ensures 1 <= len <= 256 ==>
          match Drawn(len, old(Left()))
          case None => r == None && Left() == []
          case Some(draw) => r == Some(draw.0) && Left() == draw.1
    {
      if len == 0 || len > 256 {
        return None;
      }
      var accepted := 256 - 256 % len;
      var byte: Option<Byte> := Next();
      while byte.Some?
        invariant Valid()
        invariant byte == None ==> Left() == []
        invariant Drawn(len, old(Left())) == Drawn(len, Pending(byte, Left()))
        decreases byte.Some?, |Left()|
      {
        ghost var all := Pending(byte, Left());
        assert all[1..] == Left();
        if byte.value < accepted {
          return Some(byte.value % len);
        }
        byte := Next();
        assert all[1..] == Pending(byte, Left());
      }
      r := None;
    }
  }

  /** A draw takes the first acceptable byte and nothing after it. */
  lemma {:induction false} DrawsFirstAcceptable(len: nat, bytes: seq<Byte>, k: nat)
    requires 1 <= len <= 256 && k < |bytes|
    requires forall i :: 0 <= i < k ==> bytes[i] >= Limit(len)
    requires bytes[k] < Limit(len)
    ensures Drawn(len, bytes) == Some((bytes[k] % len, bytes[k + 1..]))
  {
    if k > 0 {
      DrawsFirstAcceptable(len, bytes[1..], k - 1);
      assert bytes[1..][k..] == bytes[k + 1..];
    }
  }

  /** A draw waits exactly when no byte is acceptable. */
  lemma {:induction false} WaitsForAcceptable(len: nat, bytes: seq<Byte>)
    requires 1 <= len <= 256
    ensures Drawn(len, bytes) == None <==> forall i :: 0 <= i < |bytes| ==> bytes[i] >= Limit(len)
  {
    if bytes != [] {
      WaitsForAcceptable(len, bytes[1..]);
      if Drawn(len, bytes) == None {
        forall i | 0 <= i < |bytes| ensures bytes[i] >= Limit(len) {
          if i > 0 { assert bytes[1..][i - 1] == bytes[i]; }
        }
      } else if bytes[0] >= Limit(len) {
        var i :| 0 <= i < |bytes[1..]| && bytes[1..][i] < Limit(len);
        assert bytes[i + 1] < Limit(len);
      }
    }
  }

  // ---- no index is favoured -------------------------------------------

  /** The acceptable bytes that give index `r`. */
  ghost function Hits(len: nat, r: nat): set<Byte>
    requires 1 <= len <= 256
  {
    set b: Byte | b < Limit(len) && b % len == r
  }

  lemma Quotient(len: nat)
    requires 1 <= len <= 256
    ensures Limit(len) == 256 / len * len
  {
  }

  ghost function HitsBelow(len: nat, r: nat, k: nat): set<Byte>
    requires 1 <= len
  {
    set b: Byte | b < k * len && b % len == r
  }

  lemma Residue(len: nat, r: nat, k: nat, b: nat)
    requires r < len && k * len <= b < (k + 1) * len
    ensures b % len == r <==> b == k * len + r
  {
    var q, m := b / len, b % len;
    assert b == q * len + m;
    assert q < k ==> (q + 1) * len <= k * len;
    assert q > k ==> (k + 1) * len <= q * len;
    assert q == k;
  }

  lemma {:induction false} HitsBelowCount(len: nat, r: nat, k: nat)
    requires r < len && k * len <= 256
    ensures |HitsBelow(len, r, k)| == k
  {
    if k == 0 {
      assert HitsBelow(len, r, 0) == {};
    } else {
      var lower := k - 1;
      assert lower * len + len == k * len;
      HitsBelowCount(len, r, lower);
      var next: Byte := lower * len + r;
      forall b: Byte
        ensures b in HitsBelow(len, r, k) <==> b in HitsBelow(len, r, lower) + {next}
      {
        if lower * len <= b < k * len { Residue(len, r, lower, b); }
        Residue(len, r, lower, next);
      }
      assert HitsBelow(len, r, k) == HitsBelow(len, r, lower) + {next};
    }
  }

  /** Every index is drawn from the same number of bytes, `256 / len`. */
  lemma EveryIndexHasEqualWeight(len: nat, r: nat)
    requires 1 <= len <= 256 && r < len
    ensures |Hits(len, r)| == 256 / len
  {
    Quotient(len);
    HitsBelowCount(len, r, 256 / len);
    assert Hits(len, r) == HitsBelow(len, r, 256 / len);
  }
}
