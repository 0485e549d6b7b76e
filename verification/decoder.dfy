/**
 The igbinary version 2 decoding engine: header check, tag dispatch and the
 sub-decoders for null, booleans, integers, doubles, strings and arrays. Each
 reader takes the tag already read and the state just after it, and returns
 the decoded item with the state after it.
 */
module Decoder {
  import opened ByteOrder
  import opened Outcome
  import opened Tags
  import opened Values
  import opened Reader
  import opened Collections

  /**
   Reads the 4-byte big-endian version at the start of the input. Decoding
   proceeds only when it equals 2, from position 4 with an empty string
   table; otherwise nothing past the header is looked at.
   */
  function Header(data: seq<byte>): (r: Result<State>)
    ensures r.Ok? <==> |data| >= 4 && BigEndian(data[..4]) == VERSION
    ensures r.Ok? ==> r.value == State(4, [])
    ensures |data| < 4 ==> r == Err(UnexpectedEof)
    ensures |data| >= 4 && BigEndian(data[..4]) != VERSION ==> r == Err(UnsupportedVersion(BigEndian(data[..4])))
  {
    var version :- ReadUInt(data, State(0, []), 4);
    assert data[0..4] == data[..4];
    if version.v == VERSION then Ok(version.st) else Err(UnsupportedVersion(version.v))
  }

  function ReadNull(t: byte): (v: Value)
    requires t == NULL
    ensures v.Null?
  {
    Null
  }

  /** True exactly for the `bool_true` tag. */
  function ReadBool(t: byte): (b: bool)
    requires t == BOOL_FALSE || t == BOOL_TRUE
    ensures b <==> t == BOOL_TRUE
  {
    t == BOOL_TRUE
  }

  /**
   Reads the unsigned magnitude of the tag's width (1, 2, 4 or 8 bytes) and
   negates it when the tag is odd. Fails when fewer bytes remain; the string
   table is never touched.
   */
  function ReadLong(data: seq<byte>, st: State, t: byte): (r: Result<Parsed<int>>)
    requires st.pos <= |data|
    requires IsLong(t)
    ensures r.Ok? <==> st.pos + Width(t) <= |data|
    ensures r.Err? ==> r.error == UnexpectedEof
    ensures r.Ok? ==> r.value.st == st.(pos := st.pos + Width(t))
    ensures r.Ok? ==> -(Pow256(Width(t)) as int) < r.value.v < Pow256(Width(t))
    ensures r.Ok? && t % 2 == 0 ==> r.value.v >= 0
    ensures r.Ok? && t % 2 == 1 ==> r.value.v <= 0
  {
    var m :- ReadUInt(data, st, Width(t));
    var multiplier := if t % 2 == 1 then -1 else 1;
    Ok(Parsed(multiplier * m.v, m.st))
  }

  /** A double is its eight raw bytes; the string table is never touched. */
  function ReadDouble(data: seq<byte>, st: State): (r: Result<Parsed<seq<byte>>>)
    requires st.pos <= |data|
    ensures r.Ok? <==> st.pos + 8 <= |data|
    ensures r.Err? ==> r.error == UnexpectedEof
    ensures r.Ok? ==> |r.value.v| == 8 && r.value.st == st.(pos := st.pos + 8)
  {
    ReadBytes(data, st, 8)
  }

  /**
   A literal string: a length field of the tag's width, then that many bytes,
   which are appended to the string table as its new last entry. A body that
   runs past the end of the input is an error (compare `ReadCharArrayAsWritten`).
   */
  function ReadCharArray(data: seq<byte>, st: State, t: byte): (r: Result<Parsed<seq<byte>>>)
    requires st.pos <= |data|
    requires IsCharArray(t)
    ensures st.pos + Width(t) > |data| ==> r == Err(UnexpectedEof)
    ensures st.pos + Width(t) <= |data| ==>
      var start := st.pos + Width(t);
      var end := start + BigEndian(data[st.pos .. start]);
      && (r.Ok? <==> end <= |data|)
      && (r.Err? ==> r.error == UnexpectedEof)
      && (end <= |data| ==> r.value == Parsed(data[start .. end], State(end, st.strings + [data[start .. end]])))
  {
    var len :- ReadUInt(data, st, Width(t));
    var body :- ReadBytes(data, len.st, len.v);
    Ok(Parsed(body.v, body.st.(strings := body.st.strings + [body.v])))
  }

  /**
   The literal string read of `igbin.py`, which takes whatever bytes are left
   when the body is short and interns that shorter string. Only a cut-short
   length field fails.
   */
  function ReadCharArrayAsWritten(data: seq<byte>, st: State, t: byte): (r: Result<Parsed<seq<byte>>>)
    requires st.pos <= |data|
    requires IsCharArray(t)
    ensures st.pos + Width(t) > |data| ==> r == Err(UnexpectedEof)
    ensures st.pos + Width(t) <= |data| ==>
      var start := st.pos + Width(t);
      var len := BigEndian(data[st.pos .. start]);
      var end := if start + len <= |data| then start + len else |data|;
      && r.Ok?
      && r.value == Parsed(data[start .. end], State(end, st.strings + [data[start .. end]]))
      && (|r.value.v| < len <==> start + len > |data|)
  {
    var len :- ReadUInt(data, st, Width(t));
    var body := ReadBytesAsWritten(data, len.st, len.v);
    Ok(Parsed(body.v, body.st.(strings := body.st.strings + [body.v])))
  }

  /** Where the declared body fits, the read of `igbin.py` and the corrected read agree. */
  lemma ReadCharArrayAgree(data: seq<byte>, st: State, t: byte)
    requires st.pos <= |data| && IsCharArray(t)
    requires st.pos + Width(t) <= |data| && st.pos + Width(t) + BigEndian(data[st.pos .. st.pos + Width(t)]) <= |data|
    ensures ReadCharArrayAsWritten(data, st, t) == ReadCharArray(data, st, t)
    ensures ReadCharArray(data, st, t).Ok?
  {
  }

  /**
   As written, a `string8` field declaring three bytes with only one left
   decodes to a one-byte string and interns it; the corrected read fails.
   */
  lemma ShortStringBodyAcceptedAsWritten()
    ensures ReadCharArrayAsWritten([STRING8, 3, 0x61], State(1, []), STRING8) == Ok(Parsed([0x61], State(3, [[0x61]])))
    ensures ReadCharArray([STRING8, 3, 0x61], State(1, []), STRING8) == Err(UnexpectedEof)
  {
    var data: seq<byte> := [STRING8, 3, 0x61];
    assert Width(STRING8) == 1;
    assert data[1..2] == [3];
    assert BigEndian([3]) == 3;
    assert ReadUInt(data, State(1, []), 1) == Ok(Parsed(3, State(2, [])));
    assert data[2..3] == [0x61];
    assert ReadBytesAsWritten(data, State(2, []), 3) == Parsed([0x61], State(3, []));
    var body := ReadBytesAsWritten(data, State(2, []), 3);
    assert body.st.strings + [body.v] == [[0x61]];
    assert Parsed(body.v, body.st.(strings := body.st.strings + [body.v])) == Parsed([0x61], State(3, [[0x61]]));
    assert ReadCharArrayAsWritten(data, State(1, []), STRING8) == Ok(Parsed([0x61], State(3, [[0x61]])));
  }

  /**
   A back-reference: an index field of the tag's width selecting an earlier
   literal string. Fails with `OutOfRange` when the index is not below the
   table length; never changes the table.
   */
  function ReadStringId(data: seq<byte>, st: State, t: byte): (r: Result<Parsed<seq<byte>>>)
    requires st.pos <= |data|
    requires IsStringId(t)
    ensures st.pos + Width(t) > |data| ==> r == Err(UnexpectedEof)
    ensures st.pos + Width(t) <= |data| ==>
      var k := BigEndian(data[st.pos .. st.pos + Width(t)]);
      && (r.Ok? <==> k < |st.strings|)
      && (r.Ok? ==> r.value == Parsed(st.strings[k], st.(pos := st.pos + Width(t))))
      && (r.Err? ==> r.error == OutOfRange(k, |st.strings|))
  {
    var k :- ReadUInt(data, st, Width(t));
    if k.v < |k.st.strings| then Ok(Parsed(k.st.strings[k.v], k.st))
    else Err(OutOfRange(k.v, |k.st.strings|))
  }

  /**
   The string reader: the empty-string tag, literals `string8`/`string16`, and
   back-references. `string32`, which the value dispatcher also routes here,
   is outside the literal range and rejected, as is every other tag.
   */
  function ReadString(data: seq<byte>, st: State, t: byte): (r: Result<Parsed<seq<byte>>>)
    requires st.pos <= |data|
    ensures t == STRING_EMPTY ==> r == Ok(Parsed([], st))
    ensures t == STRING8 || t == STRING16 ==> r == ReadCharArray(data, st, t)
    ensures IsStringId(t) ==> r == ReadStringId(data, st, t)
    ensures t == STRING32 ==> r == Err(UnsupportedType(STRING32))
    ensures r.Ok? ==> st.pos <= r.value.st.pos <= |data|
    ensures r.Ok? ==> st.strings <= r.value.st.strings
  {
    if t == STRING_EMPTY then Ok(Parsed([], st))
    else if STRING8 <= t <= STRING16 then ReadCharArray(data, st, t)
    else if STRING_ID8 <= t <= STRING_ID32 then ReadStringId(data, st, t)
    else Err(UnsupportedType(t))
  }

  /**
   Reads one value: a tag byte, then the decoder it selects. Every successful
   read consumes at least the tag byte and only ever appends to the string
   table.
   */
  function ReadValue(data: seq<byte>, st: State): (r: Result<Parsed<Value>>)
    requires st.pos <= |data|
    ensures r.Ok? ==> st.pos < r.value.st.pos <= |data|
    ensures r.Ok? ==> st.strings <= r.value.st.strings
    decreases |data| - st.pos, 1
  {
    var tag :- ReadUInt(data, st, 1);
    assert data[st.pos .. st.pos + 1] == [data[st.pos]];
    var t: byte := data[st.pos];
    assert tag.v == t;
    var s := tag.st;
    if t == NULL then Ok(Parsed(ReadNull(t), s))
    else if t == BOOL_FALSE || t == BOOL_TRUE then Ok(Parsed(Bool(ReadBool(t)), s))
    else if LONG8P <= t <= LONG32N || t == LONG64P || t == LONG64N then
      var n :- ReadLong(data, s, t);
      Ok(Parsed(Int(n.v), n.st))
    else if t == DOUBLE then
      var d :- ReadDouble(data, s);
      Ok(Parsed(Double(d.v), d.st))
    else if STRING_EMPTY <= t <= STRING32 then
      var x :- ReadString(data, s, t);
      Ok(Parsed(Str(x.v), x.st))
    else if ARRAY8 <= t <= ARRAY32 then ReadArray(data, s, t)
    else Err(UnsupportedType(t))
  }

  /** With no byte left there is no tag to read. */
  lemma ReadValueAtEnd(data: seq<byte>, st: State)
    requires st.pos == |data|
    ensures ReadValue(data, st) == Err(UnexpectedEof)
  {
  }

  /** A tag the decoder does not know is rejected, naming the tag. */
  lemma ReadValueUnsupported(data: seq<byte>, st: State)
    requires st.pos < |data| && !Decodable(data[st.pos])
    ensures ReadValue(data, st) == Err(UnsupportedType(data[st.pos]))
  {
  }

  /** The null and boolean tags stand alone: one byte, no payload, no string table change. */
  lemma ReadValueScalar(data: seq<byte>, st: State)
    requires st.pos < |data|
    requires data[st.pos] == NULL || data[st.pos] == BOOL_FALSE || data[st.pos] == BOOL_TRUE
    ensures ReadValue(data, st) == Ok(Parsed(
      if data[st.pos] == NULL then Null else Bool(data[st.pos] == BOOL_TRUE),
      st.(pos := st.pos + 1)))
  {
  }

  /** An integer tag hands the rest of the input to `ReadLong`. */
  lemma ReadValueLong(data: seq<byte>, st: State)
    requires st.pos < |data| && IsLong(data[st.pos])
    ensures ReadValue(data, st) ==
      match ReadLong(data, st.(pos := st.pos + 1), data[st.pos])
      case Ok(n) => Ok(Parsed(Int(n.v), n.st))
      case Err(e) => Err(e)
  {
  }

  /** The double tag hands the rest of the input to `ReadDouble`. */
  lemma ReadValueDouble(data: seq<byte>, st: State)
    requires st.pos < |data| && data[st.pos] == DOUBLE
    ensures ReadValue(data, st) ==
      match ReadDouble(data, st.(pos := st.pos + 1))
      case Ok(d) => Ok(Parsed(Double(d.v), d.st))
      case Err(e) => Err(e)
  {
  }

  /** The string tags, `string32` included, hand the rest of the input to `ReadString`. */
  lemma ReadValueString(data: seq<byte>, st: State)
    requires st.pos < |data| && STRING_EMPTY <= data[st.pos] <= STRING32
    ensures ReadValue(data, st) ==
      match ReadString(data, st.(pos := st.pos + 1), data[st.pos])
      case Ok(x) => Ok(Parsed(Str(x.v), x.st))
      case Err(e) => Err(e)
  {
  }

  /** The array tags hand the rest of the input to `ReadArray`. */
  lemma ReadValueArray(data: seq<byte>, st: State)
    requires st.pos < |data| && IsArray(data[st.pos])
    ensures ReadValue(data, st) == ReadArray(data, st.(pos := st.pos + 1), data[st.pos])
  {
  }

  /**
   An array: a count of the tag's width, then that many key-then-value pairs
   in stream order, rebuilt by `Reconstruct`. A zero count yields an empty
   list without reading further.
   */
  function ReadArray(data: seq<byte>, st: State, t: byte): (r: Result<Parsed<Value>>)
    requires st.pos <= |data|
    requires IsArray(t)
    ensures r.Ok? ==> st.pos + Width(t) <= r.value.st.pos <= |data|
    ensures r.Ok? ==> st.strings <= r.value.st.strings
    ensures r.Ok? ==> r.value.v.List? || r.value.v.Map?
    ensures st.pos + Width(t) <= |data| && BigEndian(data[st.pos .. st.pos + Width(t)]) == 0 ==>
      r == Ok(Parsed(List([]), st.(pos := st.pos + Width(t))))
    decreases |data| - st.pos, 3
  {
    var count :- ReadUInt(data, st, Width(t));
    if count.v == 0 then Ok(Parsed(List([]), count.st))
    else
      var pairs :- ReadPairs(data, count.st, count.v);
      var v :- Reconstruct(count.v, pairs.v);
      Ok(Parsed(v, pairs.st))
  }

  /** Reads `n` key-then-value pairs, each a full value, in stream order. */
  function ReadPairs(data: seq<byte>, st: State, n: nat): (r: Result<Parsed<seq<Pair>>>)
    requires st.pos <= |data|
    ensures r.Ok? ==> |r.value.v| == n
    ensures r.Ok? ==> st.pos + 2 * n <= r.value.st.pos <= |data|
    ensures r.Ok? ==> st.strings <= r.value.st.strings
    decreases |data| - st.pos, 2
  {
    if n == 0 then Ok(Parsed([], st))
    else
      var key :- ReadValue(data, st);
      var val :- ReadValue(data, key.st);
      var rest :- ReadPairs(data, val.st, n - 1);
      Ok(Parsed([Pair(key.v, val.v)] + rest.v, rest.st))
  }

  /** A failed key read fails the pairs with the same error. */
  lemma ReadPairsKeyErr(data: seq<byte>, st: State, m: nat, e: Error)
    requires st.pos <= |data|
    requires ReadValue(data, st) == Err(e)
    ensures ReadPairs(data, st, m + 1) == Err(e)
  {
  }

  /** A failed value read, after a successful key read, fails the pairs with the same error. */
  lemma ReadPairsValErr(data: seq<byte>, st: State, m: nat, kv: Value, st1: State, e: Error)
    requires st.pos <= |data| && st1.pos <= |data|
    requires ReadValue(data, st) == Ok(Parsed(kv, st1))
    requires ReadValue(data, st1) == Err(e)
    ensures ReadPairs(data, st, m + 1) == Err(e)
  {
  }

  /** A failure among the remaining pairs fails the whole with the same error. */
  lemma ReadPairsTailErr(data: seq<byte>, st: State, m: nat, kv: Value, vv: Value, st1: State, st2: State, e: Error)
    requires st.pos <= |data| && st1.pos <= |data| && st2.pos <= |data|
    requires ReadValue(data, st) == Ok(Parsed(kv, st1))
    requires ReadValue(data, st1) == Ok(Parsed(vv, st2))
    requires ReadPairs(data, st2, m) == Err(e)
    ensures ReadPairs(data, st, m + 1) == Err(e)
  {
  }

  /**
   The first pair is the key read at the cursor and the value read right
   after it; the remaining pairs follow from where the value ends.
   */
  lemma ReadPairsOk(data: seq<byte>, st: State, m: nat, kv: Value, vv: Value, t: seq<Pair>,
                      st1: State, st2: State, end: State)
    requires st.pos <= |data| && st1.pos <= |data| && st2.pos <= |data|
    requires ReadValue(data, st) == Ok(Parsed(kv, st1))
    requires ReadValue(data, st1) == Ok(Parsed(vv, st2))
    requires ReadPairs(data, st2, m) == Ok(Parsed(t, end))
    ensures ReadPairs(data, st, m + 1) == Ok(Parsed([Pair(kv, vv)] + t, end))
  {
  }

  /**
   The entry point: header, then exactly one value from position 4 with an
   empty string table. Trailing bytes are not read.
   */
  function Decode(data: seq<byte>): (r: Result<Value>)
    ensures r.Ok? ==> |data| >= 5 && BigEndian(data[..4]) == VERSION
    ensures |data| < 4 ==> r == Err(UnexpectedEof)
    ensures |data| >= 4 && BigEndian(data[..4]) != VERSION ==> r == Err(UnsupportedVersion(BigEndian(data[..4])))
  {
    var st :- Header(data);
    var x :- ReadValue(data, st);
    Ok(x.v)
  }
}
