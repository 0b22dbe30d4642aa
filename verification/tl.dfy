/** The type-length (TL) byte of an SML field: bit 7 flags an extended
    length, bits 6-4 give the field type, bits 3-0 the length nibble. */
module TypeLength {
  import opened Base

  const TypeList := 0x70
  const TypeOctetString := 0x00
  const TypeSignedInt := 0x50
  const TypeUnsignedInt := 0x60
  const TypeBool := 0x40

  /** `b & MASK_TYPE` (mask 0x70): bits 6-4 of the byte. */
  function TypeOf(b: byte): int
  {
    (b / 16) % 8 * 16
  }

  /** `b & MASK_LENGTH` (mask 0x0F): the low nibble. */
  function LengthOf(b: byte): int
  {
    b % 16
  }

  /** `b & MASK_EXTENDED_TYPE == 0x80`: bit 7 is set. */
  predicate IsExtended(b: byte)
  {
    b >= 0x80
  }

  /** The decoded length and the index of the last TL byte read. */
  datatype FieldLength = FieldLength(length: int, last: nat)

  /** The number of bytes a field spans, TL bytes included, as the nibbles
      at `pos` state it: one nibble, or two when bit 7 is set. */
  function Span(msg: Bytes, pos: nat): int
    requires pos < |msg|
    requires IsExtended(msg[pos]) ==> pos + 1 < |msg|
  {
    if IsExtended(msg[pos]) then LengthOf(msg[pos]) * 16 + LengthOf(msg[pos + 1])
    else LengthOf(msg[pos])
  }

  /** `get_field_length(msg, pos)`. With bit 7 set the next byte's nibble is
      appended below the first, shifted up four bits (the two nibbles do not
      overlap, so combining them is a sum), and one is subtracted for the extra
      byte read. `None` is the IndexError raised when that next byte lies
      past the end. */
  function GetFieldLength(msg: Bytes, pos: nat): (r: Option<FieldLength>)
    requires pos < |msg|
    ensures r.None? <==> IsExtended(msg[pos]) && pos + 1 == |msg|
    ensures r.Some? ==> r.value.last == if IsExtended(msg[pos]) then pos + 1 else pos
    ensures r.Some? ==> r.value.last < |msg|
    ensures r.Some? ==> -1 <= r.value.length <= 254
    ensures r.Some? ==> r.value.last + r.value.length == pos + Span(msg, pos)
  {
    var b := msg[pos];
    if !IsExtended(b) then Some(FieldLength(LengthOf(b), pos))
    else if pos + 1 >= |msg| then None
    else
      var shifted := (LengthOf(b) * 16) % 0x100;
      assert shifted == LengthOf(b) * 16 by { NibbleNoWrap(LengthOf(b)); }
      Some(FieldLength(shifted + LengthOf(msg[pos + 1]) - 1, pos + 1))
  }

  predicate IsFieldType(t: int)
  {
    t in {TypeOctetString, TypeBool, TypeSignedInt, TypeUnsignedInt, TypeList}
  }

  /** The shortest TL encoding of a field of type `t` whose decoded length
      is `length`: one byte up to 15, otherwise an extended pair whose
      nibbles hold `length + 1`. */
  function EncodeTL(t: int, length: int): (r: Bytes)
    requires IsFieldType(t) && -1 <= length <= 254
    ensures |r| == if 0 <= length <= 15 then 1 else 2
  {
    if 0 <= length <= 15 then [t + length]
    else
      var total := length + 1;
      [0x80 + t + total / 16, total % 16]
  }

  /** `get_field_length` reads back what `EncodeTL` wrote, and the type bits
      of the first byte are the field type. */
  lemma TLRoundTrip(t: int, length: int, msg: Bytes, pos: nat)
    requires IsFieldType(t) && -1 <= length <= 254
    requires pos + |EncodeTL(t, length)| <= |msg|
    requires msg[pos..pos + |EncodeTL(t, length)|] == EncodeTL(t, length)
    ensures GetFieldLength(msg, pos) == Some(FieldLength(length, pos + |EncodeTL(t, length)| - 1))
    ensures TypeOf(msg[pos]) == t
  {
    var enc := EncodeTL(t, length);
    assert msg[pos] == enc[0];
    var hi := t / 16;
    assert t == hi * 16 && 0 <= hi < 8;
    if |enc| == 1 {
      ShortTL(msg[pos], hi, length);
      assert GetFieldLength(msg, pos) == Some(FieldLength(length, pos));
    } else {
      assert msg[pos + 1] == enc[1];
      LongTL(msg[pos], msg[pos + 1], hi, length);
      assert GetFieldLength(msg, pos) == Some(FieldLength(length, pos + 1));
    }
  }

  /** A one-byte TL splits into its type bits and its length. */
  lemma ShortTL(b: byte, hi: int, length: int)
    requires 0 <= hi < 8 && 0 <= length <= 15 && b == hi * 16 + length
    ensures !IsExtended(b) && TypeOf(b) == hi * 16 && LengthOf(b) == length
  {
    Nibbles(b, hi, length);
  }

  /** An extended TL pair splits into its type bits and nibbles that
      rebuild `length + 1`. */
  lemma LongTL(b0: byte, b1: byte, hi: int, length: int)
    requires 0 <= hi < 8 && -1 <= length <= 254
    requires b0 == 0x80 + hi * 16 + (length + 1) / 16 && b1 == (length + 1) % 16
    ensures IsExtended(b0) && TypeOf(b0) == hi * 16
    ensures LengthOf(b0) * 16 + LengthOf(b1) == length + 1
    ensures (LengthOf(b0) * 16) % 0x100 == LengthOf(b0) * 16
  {
    var total := length + 1;
    var q, r := total / 16, total % 16;
    Nibbles(total, q, r);
    Nibbles(b0, 8 + hi, q);
    Nibbles(b1, 0, r);
    NibbleNoWrap(q);
  }

  /** A byte built from two nibbles splits back into them. */
  lemma Nibbles(b: int, hi: int, lo: int)
    requires 0 <= lo < 16 && b == hi * 16 + lo
    ensures b / 16 == hi && b % 16 == lo
  {
  }

  /** Shifting a nibble up four bits stays inside a byte. */
  lemma NibbleNoWrap(n: int)
    requires 0 <= n < 16
    ensures (n * 16) % 0x100 == n * 16
  {
  }

  /** The extended example `82 34`: nibbles 2 and 4 make 0x24 = 36, minus
      the extra byte read gives 35, and the last TL byte is `pos + 1`. */
  lemma ExtendedExample(msg: Bytes, pos: nat)
    requires pos + 1 < |msg| && msg[pos] == 0x82 && msg[pos + 1] == 0x34
    ensures GetFieldLength(msg, pos) == Some(FieldLength(35, pos + 1))
  {
  }
}
