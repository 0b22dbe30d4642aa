/** `utils.hexlify`: a byte string rendered as space-separated pairs of
    lower-case hex digits, and the parser that reads such a rendering back. */
module Hex {
  import opened Base

  /** The lower-case hex digit of a nibble. */
  function HexDigit(d: int): (c: char)
    requires 0 <= d < 16
  {
    if d < 10 then ('0' as int + d) as char else ('a' as int + d - 10) as char
  }

  /** True of the characters `hexlify` can produce. */
  predicate IsHexlifyChar(c: char)
  {
    c == ' ' || '0' <= c <= '9' || 'a' <= c <= 'f'
  }

  function HexPair(b: byte): (r: string)
    ensures |r| == 2
  {
    [HexDigit(b / 16), HexDigit(b % 16)]
  }

  /** `hexlify(msg)`: `msg.hex()` cut into two-character tokens joined by
      single spaces. */
  function Hexlify(bs: Bytes): (r: string)
    ensures bs == [] ==> r == ""
    ensures bs != [] ==> |r| == 3 * |bs| - 1
  {
    if bs == [] then ""
    else if |bs| == 1 then HexPair(bs[0])
    else HexPair(bs[0]) + " " + Hexlify(bs[1..])
  }

  /** The value of one hex digit; both letter cases are accepted, as
      Python's hex parsing does. */
  function DigitValue(c: char): Option<int>
  {
    if '0' <= c <= '9' then Some(c as int - '0' as int)
    else if 'a' <= c <= 'f' then Some(c as int - 'a' as int + 10)
    else if 'A' <= c <= 'F' then Some(c as int - 'A' as int + 10)
    else None
  }

  function ParsePair(hi: char, lo: char): (r: Option<byte>)
  {
    match (DigitValue(hi), DigitValue(lo))
    case (Some(h), Some(l)) => Some(h * 16 + l)
    case _ => None
  }

  /** Splits a non-empty rendering on single spaces and parses each token,
      which must be exactly two hex digits. */
  function ParseTokens(s: string): Option<Bytes>
    decreases |s|
  {
    if |s| < 2 then None
    else
      match ParsePair(s[0], s[1])
      case None => None
      case Some(b) =>
        if |s| == 2 then Some([b])
        else if s[2] != ' ' || |s| == 3 then None
        else
          match ParseTokens(s[3..])
          case None => None
          case Some(rest) => Some([b] + rest)
  }

  /** The inverse of `Hexlify`: the empty string reads as no bytes. */
  function Unhexlify(s: string): Option<Bytes>
  {
    if s == "" then Some([]) else ParseTokens(s)
  }

  /** The rendering uses only lower-case hex digits and spaces. */
  lemma {:induction false} HexlifyAlphabet(bs: Bytes)
    ensures forall i :: 0 <= i < |Hexlify(bs)| ==> IsHexlifyChar(Hexlify(bs)[i])
  {
    if |bs| > 1 {
      HexlifyAlphabet(bs[1..]);
      var p, tail := HexPair(bs[0]), Hexlify(bs[1..]);
      assert Hexlify(bs) == p + " " + tail;
      forall i | 0 <= i < |Hexlify(bs)|
        ensures IsHexlifyChar(Hexlify(bs)[i])
      {
        if i >= 3 {
          assert Hexlify(bs)[i] == tail[i - 3];
        }
      }
    }
  }

  lemma DigitRoundTrip(d: int)
    requires 0 <= d < 16
    ensures DigitValue(HexDigit(d)) == Some(d)
  {
  }

  /** Each token parses back to the byte it renders. */
  lemma PairRoundTrip(b: byte)
    ensures ParsePair(HexPair(b)[0], HexPair(b)[1]) == Some(b)
  {
    DigitRoundTrip(b / 16);
    DigitRoundTrip(b % 16);
  }

  /** Token `i` of the rendering is the pair of byte `i`, and tokens are
      separated by exactly one space. */
  lemma {:induction false} HexlifyTokens(bs: Bytes, i: nat)
    requires i < |bs|
    ensures Hexlify(bs)[3 * i..3 * i + 2] == HexPair(bs[i])
    ensures i + 1 < |bs| ==> Hexlify(bs)[3 * i + 2] == ' '
  {
    var p := HexPair(bs[0]);
    if |bs| == 1 {
      assert Hexlify(bs) == p;
    } else {
      var tail := Hexlify(bs[1..]);
      var r := p + " " + tail;
      assert Hexlify(bs) == r;
      if i == 0 {
        assert r[0..2] == p && r[2] == ' ';
      } else {
        HexlifyTokens(bs[1..], i - 1);
        ShiftedTokens(p, tail, i);
        assert bs[1..][i - 1] == bs[i];
      }
    }
  }

  /** Past the first token and its separator, the rendering is the tail's. */
  lemma ShiftedTokens(p: string, tail: string, i: nat)
    requires |p| == 2 && 0 < i && 3 * i <= |tail| + 1
    ensures (p + " " + tail)[3 * i..3 * i + 2] == tail[3 * (i - 1)..3 * (i - 1) + 2]
    ensures 3 * i + 2 < |p + " " + tail| ==> (p + " " + tail)[3 * i + 2] == tail[3 * (i - 1) + 2]
  {
    var r := p + " " + tail;
    assert r[3..] == tail;
  }

  /** Splitting the rendering on spaces and parsing every token recovers
      the input bytes. */
  lemma {:induction false} HexlifyRoundTrip(bs: Bytes)
    ensures Unhexlify(Hexlify(bs)) == Some(bs)
  {
    if bs != [] {
      TokensRoundTrip(bs);
    }
  }

  lemma {:induction false} TokensRoundTrip(bs: Bytes)
    requires bs != []
    ensures ParseTokens(Hexlify(bs)) == Some(bs)
  {
    var s := Hexlify(bs);
    var p := HexPair(bs[0]);
    PairRoundTrip(bs[0]);
    if |bs| == 1 {
      assert s == p;
      assert s[0] == p[0] && s[1] == p[1] && |s| == 2;
      assert [bs[0]] == bs;
    } else {
      var tail := Hexlify(bs[1..]);
      assert s == p + " " + tail;
      assert s[0] == p[0] && s[1] == p[1] && s[2] == ' ';
      assert s[3..] == tail;
      TokensRoundTrip(bs[1..]);
      assert ParseTokens(s) == Some([bs[0]] + bs[1..]);
      assert [bs[0]] + bs[1..] == bs;
    }
  }

  /** `hexlify` is injective, since it has a left inverse. */
  lemma HexlifyInjective(a: Bytes, b: Bytes)
    requires Hexlify(a) == Hexlify(b)
    ensures a == b
  {
    HexlifyRoundTrip(a);
    HexlifyRoundTrip(b);
  }
}
