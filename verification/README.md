# igbinary version 2 decoder — a Dafny model

This project models `IgBinaryReader` from `igbin.py`. The reader decodes PHP
values serialized in the igbinary format, version 2. The input is a 4-byte
big-endian version, which must be 2, followed by exactly one value. Each value
starts with a one-byte tag:

- null and the two booleans stand alone;
- the integer tags (8, 16, 32 and 64 bit) are followed by an unsigned
  big-endian magnitude, and an odd tag negates it;
- a double is eight raw bytes;
- the empty-string tag stands alone and is not interned;
- a literal string (`string8`, `string16`) is a length field and a body,
  and the body is appended to the reader's string table;
- a back-reference (`string_id8/16/32`) is an index into that table;
- an array is a count followed by that many key-then-value pairs. It becomes
  a Null-filled list of the declared length when every key is an integer,
  and a map otherwise. Later pairs overwrite earlier ones.

Every other tag is rejected, including `string32`, which the value dispatcher
routes to the string reader and the string reader does not accept.

The model is functional. The input is a `seq<byte>`. The cursor and the string
table travel together in a `State`. Every exception the Python reader can
raise on malformed input becomes one case of `Outcome.Error`. The exceptions
are memory and stack exhaustion, which are listed under "Left out":

| Error case | Raised by the Python reader when |
|---|---|
| `UnsupportedVersion` | the header `assert` fails |
| `UnexpectedEof` | `struct.unpack` gets a short buffer |
| `UnsupportedType` | a dispatcher reaches `assert(0)` |
| `OutOfRange` | a back-reference index is past the end of the table |
| `KeyOutOfBounds` | a list slot index is out of range |
| `UnhashableKey` | a list or dictionary is used as a dictionary key |

Modules, one per file:

- `ByteOrder` (`byteorder.dfy`): bytes and big-endian unsigned integers.
- `Outcome` (`outcome.dfy`): errors, `Option` and `Result`.
- `Tags` (`tags.dfy`): tag constants and field widths.
- `Values` (`values.dfy`): the decoded value graph.
- `Reader` (`reader.dfy`): the cursor state and the raw field reads.
- `Collections` (`collections.dfy`): reconstructs lists and maps from the pairs.
- `Decoder` (`decoder.dfy`): the decoding engine itself.
- `Encoding` (`encoding.dfy`): the writer's side of the format, and the main
  theorem.

A `Node` records what a writer emitted: its tag choices, magnitudes, literals
and back-references. The main theorem says that decoding the bytes of any
well-formed `Node` yields the value the node denotes. The decode consumes
exactly the node's bytes. It appends exactly the node's literal strings to the
table, in stream order.

## Model

| member | source | states |
|---|---|---|
| `ByteOrder.BigEndianOfEncoding` | igbin.py:18-21 | a value below 256^w, encoded in w big-endian bytes, unpacks back to itself |
| `ByteOrder.EncodingOfBigEndian` | igbin.py:18-21 | every w-byte field is the w-byte encoding of the unsigned value it unpacks to, so the encoding is onto |
| `Reader.ReadUInt` | igbin.py:13-21 | a fixed-width read succeeds exactly when w bytes remain; it then consumes exactly w bytes and returns a value below 256^w; otherwise it fails with UnexpectedEof |
| `Reader.ReadUIntOfEncoding` | igbin.py:13-21 | a field holding the big-endian encoding of m reads back as m and advances the cursor by the width |
| `Reader.ReadBytesAsWritten` | igbin.py:9-11 | the stream read as written never fails: it returns the n bytes at the cursor when they are there, and otherwise everything left, moving the cursor to the end |
| `Reader.ReadBytesAgree` | igbin.py:9-11 | when n bytes remain, the stream read as written and the corrected raw read return the same bytes and cursor; they differ only on a short read |
| `Tags.Width` | igbin.py:97-104 | integer tags carry a 1, 2, 4 or 8 byte field; string, back-reference and array tags carry a 1, 2 or 4 byte field; a double is 8 bytes |
| `Decoder.Header` | igbin.py:84-86 | decoding proceeds from position 4 with an empty table exactly when the 4-byte big-endian version is 2; a shorter input is UnexpectedEof, and any other version is UnsupportedVersion carrying that version |
| `Decoder.ReadLong` | igbin.py:94-105 | succeeds exactly when the tag's width of bytes remains and consumes exactly that width; the result is non-negative for even tags and non-positive for odd ones, with magnitude below 256^width; the string table is unchanged |
| `Decoder.ReadDouble` | igbin.py:107-108 | a double consumes exactly 8 bytes and fails with UnexpectedEof when fewer remain |
| `Decoder.ReadCharArray` | igbin.py:110-122 | a literal string fails with UnexpectedEof when the length field or the body it declares does not fit; otherwise it returns the declared number of bytes after the field and appends them to the table as its new last entry (corrected behaviour) |
| `Decoder.ReadCharArrayAsWritten` | igbin.py:110-122 | as written, only a cut-short length field fails; otherwise the body is the declared number of bytes after the field, cut at the end of the input, it is shorter than declared exactly when the input runs out, the cursor ends after it, and it is appended to the table |
| `Decoder.ReadCharArrayAgree` | igbin.py:110-122 | where the declared body fits, the literal read as written and the corrected read give the same result, and it succeeds |
| `Decoder.ShortStringBodyAcceptedAsWritten` | igbin.py:120-121 | a string8 field that declares 3 bytes with 1 left decodes, as written, to a 1-byte string and interns it; the corrected read fails |
| `Decoder.ReadStringId` | igbin.py:124-134 | a back-reference k returns table entry k exactly when k is below the table length, and otherwise fails with OutOfRange(k, length); the table is unchanged; a cut-short index field is UnexpectedEof |
| `Decoder.ReadString` | igbin.py:136-143 | the empty-string tag yields "" and consumes nothing; string8 and string16 go to the literal reader; the back-reference tags go to the index reader; string32 is rejected |
| `Decoder.ReadValue` | igbin.py:177-194 | every successful value read consumes at least the tag byte and only appends to the string table |
| `Decoder.ReadValueAtEnd` | igbin.py:178 | with no byte left, reading a value fails with UnexpectedEof |
| `Decoder.ReadValueUnsupported` | igbin.py:193-194 | a tag outside the decodable families (references, objects, string32, unassigned bytes) is rejected with UnsupportedType naming the tag |
| `Decoder.ReadValueScalar` | igbin.py:179-182 | null and boolean tags decode to Null and Bool and consume one byte |
| `Decoder.ReadValueLong` | igbin.py:183-186 | all eight integer tags, in both dispatch branches, go to the integer reader with the tag |
| `Decoder.ReadValueDouble` | igbin.py:187-188 | the double tag goes to the double reader |
| `Decoder.ReadValueString` | igbin.py:189-190 | tags from string_empty to string32 go to the string reader with the tag |
| `Decoder.ReadValueArray` | igbin.py:191-192 | array tags go to the array reader with the tag |
| `Decoder.ReadArray` | igbin.py:145-175 | a zero count yields an empty list right after the count field; a successful array is a List or a Map, consumes at least its count field, and only grows the table |
| `Decoder.ReadPairs` | igbin.py:159-163 | n pairs read n (key, value) pairs and consume at least two bytes per pair |
| `Decoder.ReadPairsOk` | igbin.py:159-163 | the first pair is the key read at the cursor followed by the value read where the key ends; the remaining pairs start where the value ends |
| `Decoder.Decode` | igbin.py:79-82 | a decode succeeds only on a version-2 header followed by at least one byte; header failures are reported as in `Header` |
| `Collections.Place` | igbin.py:172-174 | writing a pair into list slots succeeds exactly for keys 0 <= k < count; it changes only slot k, to the pair's value; any other key is KeyOutOfBounds(k, count) (corrected behaviour) |
| `Collections.PlaceAsWritten` | igbin.py:174 | as written, the slot assignment accepts keys from -count to count-1; a negative key k writes slot k + count, a non-negative key writes slot k, every other slot is unchanged; any other key is KeyOutOfBounds(k, count) |
| `Collections.PlaceAgree` | igbin.py:174 | for keys 0 <= k < count, the assignment as written and the corrected placement give the same slots |
| `Collections.NegativeKeyWrapsAsWritten` | igbin.py:174 | as written, key -1 in a two-slot list overwrites slot 1; the corrected placement rejects the key |
| `Collections.Fill` | igbin.py:171-174 | applying pairs in arrival order succeeds exactly when every key is in range; each slot then holds the value of the last pair with that index, or its old content (corrected behaviour: negative keys are rejected) |
| `Collections.BuildList` | igbin.py:168-174 | a list of length count, slot i holding the last value keyed i, or Null when no pair names i (corrected behaviour: negative keys are rejected) |
| `Collections.Insert` | igbin.py:174 | dictionary assignment: the key then maps to the value, every other key keeps its lookup, keys stay distinct; an existing key keeps its position and a new key goes last |
| `Collections.InsertAll` | igbin.py:171-174 | inserting pairs in arrival order fails exactly when some key is unhashable; afterwards each key maps to its last pair's value, and untouched keys keep theirs |
| `Collections.BuildMap` | igbin.py:165-174 | the map has distinct keys, and each key looks up the value of the last pair with that key; it fails when some key is a list or a map |
| `Collections.Reconstruct` | igbin.py:155-175 | the result is a Map exactly when some key is not an integer (booleans included), and a List otherwise; it succeeds exactly when the keys are in range (list) or hashable (map); the list or map contents are last-write-wins (corrected behaviour: negative keys are rejected) |
| `Encoding.ReadSerialized` | igbin.py:177-194 | decoding the bytes of any well-formed node yields the value it denotes under the current table; it consumes exactly its bytes and appends exactly its literals in stream order |
| `Encoding.ReadSerializedLong` | igbin.py:94-105 | an integer written as tag plus magnitude reads back as the magnitude, negated for odd tags |
| `Encoding.ReadSerializedStr` | igbin.py:110-122 | a literal written as tag, length and body reads back as the body, and it is interned |
| `Encoding.ReadSerializedStrId` | igbin.py:124-134 | a back-reference reads back as the table entry it names, or OutOfRange when there is none |
| `Encoding.ReadSerializedArray` | igbin.py:145-175 | an array written as tag, count and serialized pairs reads back as the reconstruction of the pairs' values |
| `Encoding.ReadSerializedPairs` | igbin.py:159-163 | serialized pairs read back as their values in stream order; each key and value sees the literals before it |
| `Encoding.DecodeSerialized` | igbin.py:79-82 | the header 0,0,0,2, then the bytes of a well-formed node, then any trailing bytes, decode to what the node denotes under an empty table |
| `Encoding.NegativeKeyArrayRejected` | igbin.py:155-175 | a whole input whose list-shaped array of count 2 carries the pairs (-1, true) and (0, null) is rejected with KeyOutOfBounds(-1, 2) rather than decoded as a list (corrected behaviour) |

## Left out

- Stream I/O: the `BinaryReader` wrapper and the `__main__` block. The input
  is a byte sequence and the position is explicit.
- IEEE-754 doubles: a double is kept as its 8 raw bytes. Its numeric value
  is not interpreted.
- Reference, object, serialized-object and object-reference tags: they are
  never decoded, only rejected with `UnsupportedType`, as `igbin.py` does.
- Python equality and hashing of keys: map keys compare as decoded values,
  so `1`, `1.0` and `True` are three different keys. Python would merge
  them into one dictionary entry.
- Dictionary order: `Map` keeps insertion order. The Python 2 dictionary
  promises no order. The contracts about content are stated through
  `Lookup`, which does not depend on order.
- Integer width and the Python 2 `int`/`long` split: integers are
  unbounded, and the magnitude of a 64-bit tag is not narrowed to a signed
  64-bit range. `igbin.py` runs on Python 2, where `struct.unpack("!Q")`
  returns a `long` above the largest `int`, and `type(k) != int` then makes
  the array a dictionary. In the model an "integer key" is any key decoded
  by the integer reader, so such an array is a list here, and a key that
  large is out of bounds.
- Memory exhaustion: `range(0, c)` and `[None]*c` raise `MemoryError` on a
  huge count. The model has no such error; it reads pairs until the input
  runs out.
- Recursion depth: deeply nested arrays that would exhaust Python's stack
  decode like any others.
- `Decoder.ReadNull`: the null reader returns Null. Its contract says no
  more than that.
- `Decoder.Decode`: its contract states only the header conditions. The
  success case for well-formed input is `Encoding.DecodeSerialized`.

## Findings

| source | as written | input that shows it | evidently intended | confidence | as-written member | corrected member |
|---|---|---|---|---|---|---|
| igbin.py:120-121 | the string body is read with the stream's `read`, which returns fewer bytes at the end of the input, and the shorter string is interned | a `string8` tag, length 3, then one byte `a` | fail with an end-of-input error, as the fixed-width fields do | medium, not executed | `Decoder.ShortStringBodyAcceptedAsWritten` | `Decoder.ReadCharArray` |
| igbin.py:174 | `retval[k] = v` on a Python list accepts negative keys down to `-c` and writes slot `k + c` | after the header, the array `0x14 0x02 0x07 0x01 0x05 0x06 0x00 0x00`: count 2, the pairs (-1, true) and (0, null); as written it decodes to `[None, True]`, and the model rejects it with KeyOutOfBounds(-1, 2) (`Encoding.NegativeKeyArrayRejected`) | reject the key as out of bounds, as keys of `c` and above are | medium, not executed | `Collections.NegativeKeyWrapsAsWritten` | `Collections.Place` |
