/**
 The one-byte type tags of igbinary version 2 and the width, in bytes, of the
 field (magnitude, length, index or count) that follows each tag.
 */
module Tags {
  import opened ByteOrder

  const NULL: byte := 0x00
  const REF8: byte := 0x01
  const REF16: byte := 0x02
  const REF32: byte := 0x03
  const BOOL_FALSE: byte := 0x04
  const BOOL_TRUE: byte := 0x05
  const LONG8P: byte := 0x06
  const LONG8N: byte := 0x07
  const LONG16P: byte := 0x08
  const LONG16N: byte := 0x09
  const LONG32P: byte := 0x0a
  const LONG32N: byte := 0x0b
  const DOUBLE: byte := 0x0c
  const STRING_EMPTY: byte := 0x0d
  const STRING_ID8: byte := 0x0e
  const STRING_ID16: byte := 0x0f
  const STRING_ID32: byte := 0x10
  const STRING8: byte := 0x11
  const STRING16: byte := 0x12
  const STRING32: byte := 0x13
  const ARRAY8: byte := 0x14
  const ARRAY16: byte := 0x15
  const ARRAY32: byte := 0x16
  const OBJECT8: byte := 0x17
  const OBJECT16: byte := 0x18
  const OBJECT32: byte := 0x19
  const OBJECT_ID8: byte := 0x1a
  const OBJECT_ID16: byte := 0x1b
  const OBJECT_ID32: byte := 0x1c
  const OBJECT_SER8: byte := 0x1d
  const OBJECT_SER16: byte := 0x1e
  const OBJECT_SER32: byte := 0x1f
  const LONG64P: byte := 0x20
  const LONG64N: byte := 0x21
  const OBJREF8: byte := 0x22
  const OBJREF16: byte := 0x23
  const OBJREF32: byte := 0x24
  const REF: byte := 0x25

  /** The only header version the reader accepts. */
  const VERSION: nat := 2

  /** Integer tags: a magnitude follows, and an odd tag means a negative value. */
  predicate IsLong(t: byte) {
    t in {LONG8P, LONG8N, LONG16P, LONG16N, LONG32P, LONG32N, LONG64P, LONG64N}
  }

  predicate IsStringId(t: byte) {
    t in {STRING_ID8, STRING_ID16, STRING_ID32}
  }

  /** Literal string tags, including `string32`, which only `readchararray` knows. */
  predicate IsCharArray(t: byte) {
    t in {STRING8, STRING16, STRING32}
  }

  predicate IsArray(t: byte) {
    t in {ARRAY8, ARRAY16, ARRAY32}
  }

  /**
   The tags a top-level read decodes successfully when enough bytes follow.
   The reference, object and object-reference families are absent, and so is
   `string32`: the value dispatcher hands it to the string reader, whose
   literal range stops at `string16`.
   */
  predicate Decodable(t: byte) {
    t == NULL || t == BOOL_FALSE || t == BOOL_TRUE || IsLong(t) || t == DOUBLE
    || t == STRING_EMPTY || IsStringId(t) || t == STRING8 || t == STRING16 || IsArray(t)
  }

  /** Byte width of the field following tag `t`, or 0 for tags without one. */
  function Width(t: byte): (w: nat)
    ensures IsLong(t) ==> w in {1, 2, 4, 8}
    ensures IsStringId(t) || IsCharArray(t) || IsArray(t) ==> w in {1, 2, 4}
    ensures t == DOUBLE ==> w == 8
  {
    if t in {LONG8P, LONG8N, STRING_ID8, STRING8, ARRAY8} then 1
    else if t in {LONG16P, LONG16N, STRING_ID16, STRING16, ARRAY16} then 2
    else if t in {LONG32P, LONG32N, STRING_ID32, STRING32, ARRAY32} then 4
    else if t in {LONG64P, LONG64N, DOUBLE} then 8
    else 0
  }
}
