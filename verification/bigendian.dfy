/** Python's `int.from_bytes(buf, byteorder="big", signed=...)`, together with
    the encoders that invert it. */
module BigEndian {
  import opened Base

  /** `int.from_bytes(s, "big", signed=False)`: the empty string reads as 0. */
  function Unsigned(s: Bytes): (r: nat)
    ensures r < Pow(256, |s|)
  {
    if s == [] then 0
    else
      var r := Unsigned(s[..|s| - 1]) * 256 + s[|s| - 1];
      assert r < Pow(256, |s|) by {
        MulBound(Unsigned(s[..|s| - 1]), Pow(256, |s| - 1));
      }
      r
  }

  /** `int.from_bytes(s, "big", signed=True)`: two's complement, so a leading
      byte of 0x80 or more makes the value negative. */
  function Signed(s: Bytes): (r: int)
    ensures s == [] ==> r == 0
    ensures s != [] ==> -Pow(256, |s|) / 2 <= r < Pow(256, |s|) / 2
    ensures s != [] ==> (r < 0 <==> s[0] >= 0x80)
  {
    if s == [] then 0
    else
      var u := Unsigned(s);
      UnsignedFront(s);
      SignBit(s[0], Unsigned(s[1..]), Pow(256, |s| - 1));
      if s[0] >= 0x80 then u - Pow(256, |s|) else u
  }

  /** The `k`-byte big-endian representation of `v`. */
  function ToUnsigned(v: nat, k: nat): (s: Bytes)
    requires v < Pow(256, k)
    ensures |s| == k
  {
    if k == 0 then []
    else
      DivBound(v, Pow(256, k - 1));
      ToUnsigned(v / 256, k - 1) + [v % 256]
  }

  /** True when `v` fits a `k`-byte two's complement field. */
  predicate SignedFits(v: int, k: nat)
  {
    if k == 0 then v == 0 else -Pow(256, k) / 2 <= v < Pow(256, k) / 2
  }

  /** The `k`-byte two's complement big-endian representation of `v`. */
  function ToSigned(v: int, k: nat): (s: Bytes)
    requires SignedFits(v, k)
    ensures |s| == k
  {
    PowPositive(256, k);
    if v < 0 then ToUnsigned(v + Pow(256, k), k) else ToUnsigned(v, k)
  }

  lemma MulBound(a: nat, p: nat)
    requires a < p
    ensures a * 256 + 255 < 256 * p
  {
  }

  lemma DivBound(v: nat, p: nat)
    requires v < 256 * p
    ensures v / 256 < p
  {
  }

  /** The leading byte of a big-endian number decides which half of the
      range the number falls in. */
  lemma SignBit(lead: byte, rest: nat, p: nat)
    requires rest < p
    ensures lead >= 0x80 ==> 128 * p <= lead * p + rest < 256 * p
    ensures lead < 0x80 ==> lead * p + rest < 128 * p
    ensures (256 * p) / 2 == 128 * p
  {
    if lead >= 0x80 {
      assert lead * p >= 128 * p;
      assert lead * p <= 255 * p;
    } else {
      assert lead * p <= 127 * p;
    }
  }

  /** Shifting a sum of a leading digit and the rest by one byte. */
  lemma Regroup(a: int, p: int, u: int, x: int)
    ensures (a * p + u) * 256 + x == a * (p * 256) + (u * 256 + x)
  {
  }

  /** Reading the leading byte first: `s[0]` weighs `256^(|s|-1)`. */
  lemma {:induction false} UnsignedFront(s: Bytes)
    requires s != []
    ensures Unsigned(s) == s[0] * Pow(256, |s| - 1) + Unsigned(s[1..])
  {
    if |s| == 1 {
      assert s[..0] == [];
      assert s[1..] == [];
    } else {
      var init := s[..|s| - 1];
      UnsignedFront(init);
      assert init[0] == s[0];
      assert init[1..] == s[1..][..|s[1..]| - 1];
      assert s[1..][|s[1..]| - 1] == s[|s| - 1];
      var p, u, x := Pow(256, |s| - 2), Unsigned(init[1..]), s[|s| - 1];
      assert Unsigned(s) == (s[0] * p + u) * 256 + x;
      assert Unsigned(s[1..]) == u * 256 + x;
      assert Pow(256, |s| - 1) == p * 256;
      Regroup(s[0], p, u, x);
    }
  }

  /** Unsigned decoding inverts the unsigned encoder. */
  lemma {:induction false} UnsignedRoundTrip(v: nat, k: nat)
    requires v < Pow(256, k)
    ensures Unsigned(ToUnsigned(v, k)) == v
  {
    if k > 0 {
      DivBound(v, Pow(256, k - 1));
      var s := ToUnsigned(v, k);
      assert s[..|s| - 1] == ToUnsigned(v / 256, k - 1);
      UnsignedRoundTrip(v / 256, k - 1);
    }
  }

  /** Signed decoding inverts the two's complement encoder. */
  lemma SignedRoundTrip(v: int, k: nat)
    requires SignedFits(v, k)
    ensures Signed(ToSigned(v, k)) == v
  {
    PowPositive(256, k);
    var s := ToSigned(v, k);
    if k > 0 {
      var u := if v < 0 then v + Pow(256, k) else v;
      UnsignedRoundTrip(u, k);
      assert Unsigned(s) == u;
      UnsignedFront(s);
      var p := Pow(256, k - 1);
      assert Pow(256, k) == 256 * p;
      SignBit(s[0], Unsigned(s[1..]), p);
      // The sign bit of the leading byte tracks the sign of `v`.
      assert s[0] >= 0x80 <==> v < 0;
    }
  }
}
