/**
 * Big-endian fixed-width integers, as Python's struct module unpacks them with the
 * formats 'B'/'b' (1 byte), '>H'/'>h' (2 bytes) and '>I'/'>i' (4 bytes).
 */
module BigEndian {

  type byte = b: int | 0 <= b < 256

  function Pow256(n: nat): (r: int)
    ensures r > 0
  {
    if n == 0 then 1 else 256 * Pow256(n - 1)
  }

  lemma Pow256Widths()
    ensures Pow256(1) == 0x100
    ensures Pow256(2) == 0x1_0000
    ensures Pow256(4) == 0x1_0000_0000
  {
    assert Pow256(2) == 256 * Pow256(1);
    assert Pow256(3) == 256 * Pow256(2);
    assert Pow256(4) == 256 * Pow256(3);
  }

  /** The unsigned value of a byte string whose first byte is the most significant. */
  function Unsigned(bs: seq<byte>): (r: nat)
    ensures r < Pow256(|bs|)
  {
    if bs == [] then 0 else Unsigned(bs[..|bs| - 1]) * 256 + bs[|bs| - 1]
  }

  /** The leading byte weighs 256^(n-1): the value splits at the front as well as at the back. */
  lemma {:induction false} UnsignedFront(bs: seq<byte>)
    requires |bs| > 0
    ensures Unsigned(bs) == bs[0] * Pow256(|bs| - 1) + Unsigned(bs[1..])
  {
    if |bs| > 1 {
      var init := bs[..|bs| - 1];
      var last: int := bs[|bs| - 1];
      UnsignedFront(init);
      assert init[1..] == bs[1..][..|bs[1..]| - 1];
      var a: int := bs[0];
      var q := Pow256(|bs| - 2);
      var u := Unsigned(init[1..]);
      assert Unsigned(init) == a * q + u;
      assert Unsigned(bs[1..]) == u * 256 + last;
      assert Pow256(|bs| - 1) == q * 256;
      ShiftByte(a, q, u);
    } else {
      assert bs[..0] == [] && bs[1..] == [];
    }
  }

  /** Shifting a leading term one byte left distributes over the sum. */
  lemma ShiftByte(a: int, q: int, u: int)
    ensures (a * q + u) * 256 == a * (q * 256) + u * 256
  {
  }

  lemma MulMonotone(a: int, b: int, q: int)
    requires a <= b && q >= 0
    ensures a * q <= b * q
  {
    assert b * q - a * q == (b - a) * q;
  }

  /** The top bit of the leading byte is exactly the upper half of the unsigned range. */
  lemma SignBit(bs: seq<byte>)
    requires |bs| > 0
    ensures Pow256(|bs|) / 2 == 128 * Pow256(|bs| - 1)
    ensures Unsigned(bs) >= Pow256(|bs|) / 2 <==> bs[0] >= 0x80
  {
    UnsignedFront(bs);
    var q := Pow256(|bs| - 1);
    var rest := Unsigned(bs[1..]);
    var b: int := bs[0];
    assert Unsigned(bs) == b * q + rest;
    if b >= 0x80 {
      MulMonotone(128, b, q);
    } else {
      MulMonotone(b, 127, q);
    }
  }

  /** The two's-complement value of a non-empty big-endian byte string. */
  function Signed(bs: seq<byte>): (r: int)
    requires |bs| > 0
    ensures -(Pow256(|bs|) / 2) <= r < Pow256(|bs|) / 2
    ensures r < 0 <==> bs[0] >= 0x80
    ensures r == Unsigned(bs) || r == Unsigned(bs) - Pow256(|bs|)
  {
    SignBit(bs);
    var u := Unsigned(bs);
    if u >= Pow256(|bs|) / 2 then u - Pow256(|bs|) else u
  }

  /** The big-endian bytes of an unsigned value that fits in width bytes (struct.pack '>I' and kin). */
  function EncodeUnsigned(x: nat, width: nat): (bs: seq<byte>)
    requires x < Pow256(width)
    ensures |bs| == width
  {
    if width == 0 then [] else EncodeUnsigned(x / 256, width - 1) + [x % 256]
  }

  /** The two's-complement big-endian bytes of a signed value that fits in width bytes. */
  function EncodeSigned(x: int, width: nat): (bs: seq<byte>)
    requires width > 0
    requires -(Pow256(width) / 2) <= x < Pow256(width) / 2
    ensures |bs| == width
  {
    EncodeUnsigned(if x < 0 then x + Pow256(width) else x, width)
  }

  lemma {:induction false} UnsignedOfEncode(x: nat, width: nat)
    requires x < Pow256(width)
    ensures Unsigned(EncodeUnsigned(x, width)) == x
  {
    if width > 0 {
      UnsignedOfEncode(x / 256, width - 1);
      var bs := EncodeUnsigned(x, width);
      assert bs[..|bs| - 1] == EncodeUnsigned(x / 256, width - 1);
    }
  }

  lemma {:induction false} EncodeOfUnsigned(bs: seq<byte>)
    ensures EncodeUnsigned(Unsigned(bs), |bs|) == bs
  {
    if bs != [] {
      var init := bs[..|bs| - 1];
      EncodeOfUnsigned(init);
      var u := Unsigned(bs);
      assert u / 256 == Unsigned(init) && u % 256 == bs[|bs| - 1];
      assert bs == init + [bs[|bs| - 1]];
    }
  }

  lemma SignedOfEncode(x: int, width: nat)
    requires width > 0
    requires -(Pow256(width) / 2) <= x < Pow256(width) / 2
    ensures Signed(EncodeSigned(x, width)) == x
  {
    UnsignedOfEncode(if x < 0 then x + Pow256(width) else x, width);
  }

  lemma EncodeOfSigned(bs: seq<byte>)
    requires |bs| > 0
    ensures EncodeSigned(Signed(bs), |bs|) == bs
  {
    EncodeOfUnsigned(bs);
  }
}
