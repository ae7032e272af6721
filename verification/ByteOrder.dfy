/** Numbers as bytes, most significant first. */
module ByteOrder {
  import opened Crypto
  import opened Text

  function BigEndian(value: nat, width: nat): (bytes: seq<Byte>)
    ensures |bytes| == width
  {
    if width == 0 then [] else BigEndian(value / 256, width - 1) + [value % 256]
  }

  function ValueOf(bytes: seq<Byte>): nat {
    if bytes == [] then 0 else ValueOf(bytes[..|bytes| - 1]) * 256 + bytes[|bytes| - 1]
  }

  lemma {:induction false} ValueOfBigEndian(value: nat, width: nat)
    requires value < Pow(256, width)
    ensures ValueOf(BigEndian(value, width)) == value
  {
    if width > 0 {
      ValueOfBigEndian(value / 256, width - 1);
      var bytes := BigEndian(value, width);
      assert bytes[..width - 1] == BigEndian(value / 256, width - 1);
    }
  }

  /** Different numbers that fit the width are different bytes. */
  lemma BigEndianPins(a: nat, b: nat, width: nat)
    requires a < Pow(256, width) && b < Pow(256, width)
    ensures BigEndian(a, width) == BigEndian(b, width) <==> a == b
  {
    ValueOfBigEndian(a, width);
    ValueOfBigEndian(b, width);
  }
}
