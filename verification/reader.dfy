/**
 The decoding state and the raw field readers underneath it. The stream
 wrapper of `igbin.py` becomes an immutable byte sequence `data` plus a
 cursor; the reader's mutable string table travels with the cursor.
 */
module Reader {
  import opened ByteOrder
  import opened Outcome

  /** Cursor into the input and the table of literal strings seen so far. */
  datatype State = State(pos: nat, strings: seq<seq<byte>>)

  /** A decoded item together with the state after it. */
  datatype Parsed<+T> = Parsed(v: T, st: State)

  /**
   Reads an unsigned big-endian field of `width` bytes (`unpack` with the
   "B", "!H", "!I" or "!Q" format). Fails, consuming nothing, when fewer
   than `width` bytes remain; otherwise consumes exactly `width` bytes.
   */
  function ReadUInt(data: seq<byte>, st: State, width: nat): (r: Result<Parsed<nat>>)
    requires st.pos <= |data|
    ensures r.Ok? <==> st.pos + width <= |data|
    ensures r.Err? ==> r.error == UnexpectedEof
    ensures r.Ok? ==> r.value.st == st.(pos := st.pos + width)
    ensures r.Ok? ==> r.value.v < Pow256(width)
  {
    if st.pos + width <= |data| then
      Ok(Parsed(BigEndian(data[st.pos .. st.pos + width]), st.(pos := st.pos + width)))
    else
      Err(UnexpectedEof)
  }

  /** A field written by the big-endian encoder is read back as the value encoded. */
  lemma ReadUIntOfEncoding(data: seq<byte>, st: State, m: nat, width: nat)
    requires m < Pow256(width)
    requires st.pos + width <= |data|
    requires data[st.pos .. st.pos + width] == ToBigEndian(m, width)
    ensures ReadUInt(data, st, width) == Ok(Parsed(m, st.(pos := st.pos + width)))
  {
    BigEndianOfEncoding(m, width);
  }

  /**
   Reads `n` raw bytes, failing when fewer than `n` remain. This is the
   corrected reading of a string body; the reading of `igbin.py` is
   `ReadBytesAsWritten`.
   */
  function ReadBytes(data: seq<byte>, st: State, n: nat): (r: Result<Parsed<seq<byte>>>)
    requires st.pos <= |data|
    ensures r.Ok? <==> st.pos + n <= |data|
    ensures r.Err? ==> r.error == UnexpectedEof
    ensures r.Ok? ==> r.value.st == st.(pos := st.pos + n)
    ensures r.Ok? ==> st.pos + n <= |data| && r.value.v == data[st.pos .. st.pos + n]
  {
    if st.pos + n <= |data| then Ok(Parsed(data[st.pos .. st.pos + n], st.(pos := st.pos + n)))
    else Err(UnexpectedEof)
  }

  /**
   The raw read of `igbin.py`: the stream returns whatever is left when fewer
   than `n` bytes remain, and never fails.
   */
  function ReadBytesAsWritten(data: seq<byte>, st: State, n: nat): (r: Parsed<seq<byte>>)
    requires st.pos <= |data|
    ensures st.pos + n <= |data| ==> r == Parsed(data[st.pos .. st.pos + n], st.(pos := st.pos + n))
    ensures st.pos + n > |data| ==> r == Parsed(data[st.pos..], st.(pos := |data|))
    ensures |r.v| < n <==> st.pos + n > |data|
  {
    var end := if st.pos + n <= |data| then st.pos + n else |data|;
    assert data[st.pos .. |data|] == data[st.pos..];
    Parsed(data[st.pos .. end], st.(pos := end))
  }

  /** Where enough bytes remain, the raw read of `igbin.py` and the corrected one agree. */
  lemma ReadBytesAgree(data: seq<byte>, st: State, n: nat)
    requires st.pos + n <= |data|
    ensures ReadBytes(data, st, n) == Ok(ReadBytesAsWritten(data, st, n))
  {
  }
}
