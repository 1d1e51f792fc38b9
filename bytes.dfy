/** Fixed-width unsigned integers and their big-endian byte layout
    (Rust's `to_be_bytes` / `from_be_bytes`). */
module Bytes {

  type uint8 = x: int | 0 <= x < 0x100
  type uint32 = x: int | 0 <= x < 0x1_0000_0000
  type uint64 = x: int | 0 <= x < 0x1_0000_0000_0000_0000
  type uint128 = x: int | 0 <= x < 0x1_0000_0000_0000_0000_0000_0000_0000_0000

  /** 256 to the power n: the number of values that fit in n bytes. */
  function Pow256(n: nat): (p: nat)
    ensures p >= 1
  {
    if n == 0 then 1 else 256 * Pow256(n - 1)
  }

  /** The widths of the source's integer types, in bytes, match their ranges. */
  lemma Pow256Of4()
    ensures Pow256(4) == 0x1_0000_0000
  {
  }

  lemma Pow256Of8()
    ensures Pow256(8) == 0x1_0000_0000_0000_0000
  {
  }

  lemma Pow256Of16()
    ensures Pow256(16) == 0x1_0000_0000_0000_0000_0000_0000_0000_0000
  {
    Pow256Of8();
    assert Pow256(16) == Pow256(8) * Pow256(8) by {
      assert Pow256(16) == 256 * 256 * 256 * 256 * 256 * 256 * 256 * 256 * Pow256(8);
    }
  }

  /** Big-endian layout of x in exactly `width` bytes: most significant byte first. */
  function ToBeBytes(x: nat, width: nat): (r: seq<uint8>)
    requires x < Pow256(width)
    ensures |r| == width
    ensures width > 0 ==> r[width - 1] == x % 256
    decreases width
  {
    if width == 0 then []
    else
      assert x / 256 < Pow256(width - 1);
      ToBeBytes(x / 256, width - 1) + [x % 256]
  }

  /** The unsigned integer whose big-endian layout is s. */
  function FromBeBytes(s: seq<uint8>): (x: nat)
    ensures x < Pow256(|s|)
  {
    if s == [] then 0
    else
      var hi := FromBeBytes(s[..|s| - 1]);
      assert hi * 256 + s[|s| - 1] < Pow256(|s|) by {
        assert hi <= Pow256(|s| - 1) - 1;
        assert hi * 256 <= (Pow256(|s| - 1) - 1) * 256;
      }
      hi * 256 + s[|s| - 1]
  }

  /** Reading back a big-endian layout yields the integer that was written. */
  lemma {:induction false} FromToBeBytes(x: nat, width: nat)
    requires x < Pow256(width)
    ensures FromBeBytes(ToBeBytes(x, width)) == x
    decreases width
  {
    if width > 0 {
      var r := ToBeBytes(x, width);
      assert r[..width - 1] == ToBeBytes(x / 256, width - 1);
      FromToBeBytes(x / 256, width - 1);
    }
  }

  /** Every byte string is the big-endian layout of the integer read from it. */
  lemma {:induction false} ToFromBeBytes(s: seq<uint8>)
    ensures ToBeBytes(FromBeBytes(s), |s|) == s
  {
    if s != [] {
      var init := s[..|s| - 1];
      var x := FromBeBytes(s);
      assert x / 256 == FromBeBytes(init);
      ToFromBeBytes(init);
      assert s == init + [s[|s| - 1]];
    }
  }

  /** A one-byte big-endian layout is the byte itself. */
  lemma OneByte(b: uint8)
    ensures ToBeBytes(b, 1) == [b]
    ensures FromBeBytes([b]) == b
  {
  }
}
