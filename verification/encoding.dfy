/**
 The wire format from the writer's side, and the decoder proved against it.
 A `Node` records what a writer emitted for one value (tag choices, integer
 magnitudes, literal strings versus back-references); `Serialize` lays it out
 as bytes, `Literals` lists the literal strings it contains in stream order,
 and `Eval` says what value it stands for given the string table in force.
 The main theorem: reading the bytes of any well-formed node yields `Eval`
 of it, consumes exactly its bytes, and grows the string table by exactly its
 literals, in stream order.
 */
module Encoding {
  import opened ByteOrder
  import opened Outcome
  import opened Tags
  import opened Values
  import opened Reader
  import opened Collections
  import opened Decoder

  datatype Node =
    | NNull
    | NBool(b: bool)
    | NLong(tag: byte, magnitude: nat)
    | NDouble(raw: seq<byte>)
    | NEmpty
    | NStrId(tag: byte, index: nat)
    | NStr(tag: byte, body: seq<byte>)
    | NArray(tag: byte, pairs: Pairs)

  /** The key-then-value pairs of an encoded array, in stream order. */
  datatype Pairs = PNil | PCons(key: Node, val: Node, rest: Pairs)

  function Count(ps: Pairs): nat {
    match ps
    case PNil => 0
    case PCons(_, _, rest) => 1 + Count(rest)
  }

  /** Every field fits the width its tag announces, and every tag is one the reader decodes. */
  predicate WellFormed(n: Node) {
    match n
    case NLong(t, m) => IsLong(t) && m < Pow256(Width(t))
    case NDouble(raw) => |raw| == 8
    case NStrId(t, k) => IsStringId(t) && k < Pow256(Width(t))
    case NStr(t, body) => (t == STRING8 || t == STRING16) && |body| < Pow256(Width(t))
    case NArray(t, ps) => IsArray(t) && Count(ps) < Pow256(Width(t)) && WellFormedPairs(ps)
    case _ => true
  }

  predicate WellFormedPairs(ps: Pairs) {
    match ps
    case PNil => true
    case PCons(k, v, rest) => WellFormed(k) && WellFormed(v) && WellFormedPairs(rest)
  }

  /** The bytes written for a node: its tag, the big-endian field of the tag's width, then any payload. */
  function Serialize(n: Node): seq<byte> {
    match n
    case NNull => [NULL]
    case NBool(b) => [if b then BOOL_TRUE else BOOL_FALSE]
    case NLong(t, m) => [t] + ToBigEndian(m, Width(t))
    case NDouble(raw) => [DOUBLE] + raw
    case NEmpty => [STRING_EMPTY]
    case NStrId(t, k) => [t] + ToBigEndian(k, Width(t))
    case NStr(t, body) => [t] + ToBigEndian(|body|, Width(t)) + body
    case NArray(t, ps) => [t] + ToBigEndian(Count(ps), Width(t)) + SerializePairs(ps)
  }

  /** Each key's bytes followed by its value's bytes, pair after pair. */
  function SerializePairs(ps: Pairs): seq<byte> {
    match ps
    case PNil => []
    case PCons(k, v, rest) => Serialize(k) + Serialize(v) + SerializePairs(rest)
  }

  /** The literal strings of a node in stream order; the empty-string tag contributes none. */
  function Literals(n: Node): seq<seq<byte>> {
    match n
    case NStr(_, body) => [body]
    case NArray(_, ps) => PairLiterals(ps)
    case _ => []
  }

  function PairLiterals(ps: Pairs): seq<seq<byte>> {
    match ps
    case PNil => []
    case PCons(k, v, rest) => Literals(k) + Literals(v) + PairLiterals(rest)
  }

  /**
   The value a node denotes when `table` holds the literal strings seen
   before it. A sibling sees the literals of the siblings before it.
   */
  function Eval(n: Node, table: seq<seq<byte>>): Result<Value> {
    match n
    case NNull => Ok(Null)
    case NBool(b) => Ok(Bool(b))
    case NLong(t, m) => Ok(Int(if t % 2 == 1 then -(m as int) else m))
    case NDouble(raw) => Ok(Double(raw))
    case NEmpty => Ok(Str([]))
    case NStrId(_, k) => if k < |table| then Ok(Str(table[k])) else Err(OutOfRange(k, |table|))
    case NStr(_, body) => Ok(Str(body))
    case NArray(_, ps) =>
      if Count(ps) == 0 then Ok(List([]))
      else
        var pairs :- EvalPairs(ps, table);
        Reconstruct(Count(ps), pairs)
  }

  /** The pairs a node's pairs denote; each key and value sees the literals before it. */
  function EvalPairs(ps: Pairs, table: seq<seq<byte>>): (r: Result<seq<Pair>>)
    ensures r.Ok? ==> |r.value| == Count(ps)
  {
    match ps
    case PNil => Ok([])
    case PCons(k, v, rest) =>
      var key :- Eval(k, table);
      var val :- Eval(v, table + Literals(k));
      var tail :- EvalPairs(rest, table + Literals(k) + Literals(v));
      Ok([Pair(key, val)] + tail)
  }

  /** A result paired with the state a decoder should end in. */
  function Landing<T>(r: Result<T>, end: State): Result<Parsed<T>> {
    match r
    case Ok(v) => Ok(Parsed(v, end))
    case Err(e) => Err(e)
  }

  /** Where reading a node leaves the cursor and the table: past its bytes, grown by its literals. */
  function After(n: Node, st: State): State {
    State(st.pos + |Serialize(n)|, st.strings + Literals(n))
  }

  function AfterPairs(ps: Pairs, st: State): State {
    State(st.pos + |SerializePairs(ps)|, st.strings + PairLiterals(ps))
  }

  /** The bytes `bytes` occur in `data` from position `pos` on. */
  predicate At(data: seq<byte>, pos: nat, bytes: seq<byte>)
    decreases |bytes|
  {
    pos + |bytes| <= |data| && (|bytes| == 0 || (data[pos] == bytes[0] && At(data, pos + 1, bytes[1..])))
  }

  /** `At` is a statement about a slice of the input. */
  lemma {:induction false} AtSlice(data: seq<byte>, pos: nat, bytes: seq<byte>)
    ensures At(data, pos, bytes) <==> pos + |bytes| <= |data| && data[pos .. pos + |bytes|] == bytes
    decreases |bytes|
  {
    if |bytes| > 0 && pos + |bytes| <= |data| {
      AtSlice(data, pos + 1, bytes[1..]);
      assert data[pos .. pos + |bytes|] == [data[pos]] + data[pos + 1 .. pos + |bytes|];
      assert bytes == [bytes[0]] + bytes[1..];
    }
  }

  /** Bytes written one after another occur one after another. */
  lemma {:induction false} AtAppend(data: seq<byte>, pos: nat, a: seq<byte>, b: seq<byte>)
    ensures At(data, pos, a + b) <==> At(data, pos, a) && At(data, pos + |a|, b)
    decreases |a|
  {
    if |a| == 0 {
      assert a + b == b;
    } else {
      assert (a + b)[1..] == a[1..] + b;
      AtAppend(data, pos + 1, a[1..], b);
    }
  }

  /** A piece of a piece of the input is a piece of the input. */
  lemma {:induction false} SliceOfSlice(data: seq<byte>, pos: nat, whole: seq<byte>, off: nat, part: seq<byte>, at: nat)
    requires pos + |whole| <= |data| && data[pos .. pos + |whole|] == whole
    requires off + |part| <= |whole| && whole[off .. off + |part|] == part
    requires at == pos + off
    ensures at + |part| <= |data| && data[at .. at + |part|] == part
  {
    assert forall i :: 0 <= i < |part| ==> data[at + i] == whole[off + i] == part[i];
  }

  /** Decoding the bytes of a well-formed node. */
  lemma {:induction false} ReadSerialized(n: Node, data: seq<byte>, st: State)
    requires WellFormed(n)
    requires At(data, st.pos, Serialize(n))
    ensures ReadValue(data, st) == Landing(Eval(n, st.strings), After(n, st))
    decreases n, 2
  {
    match n
    case NArray(_, _) => ReadSerializedArray(n, data, st);
    case NStr(_, _) => ReadSerializedStr(n, data, st);
    case _ => ReadSerializedLeaf(n, data, st);
  }

  /** The tag byte of a serialized node is where the node starts. */
  lemma {:induction false} TagAt(n: Node, data: seq<byte>, st: State)
    requires At(data, st.pos, Serialize(n))
    ensures st.pos + |Serialize(n)| <= |data| && data[st.pos .. st.pos + |Serialize(n)|] == Serialize(n)
    ensures |Serialize(n)| >= 1 && data[st.pos] == Serialize(n)[0]
  {
    AtSlice(data, st.pos, Serialize(n));
    assert data[st.pos .. st.pos + |Serialize(n)|][0] == data[st.pos];
  }

  /** Nodes without literals or children: null, booleans, integers, doubles, the empty string, back-references. */
  lemma {:induction false} ReadSerializedLeaf(n: Node, data: seq<byte>, st: State)
    requires WellFormed(n) && !n.NArray? && !n.NStr?
    requires At(data, st.pos, Serialize(n))
    ensures ReadValue(data, st) == Landing(Eval(n, st.strings), After(n, st))
  {
    match n
    case NLong(_, _) => ReadSerializedLong(n, data, st);
    case NDouble(_) => ReadSerializedDouble(n, data, st);
    case NStrId(_, _) => ReadSerializedStrId(n, data, st);
    case _ => ReadSerializedScalar(n, data, st);
  }

  /** Null, the booleans and the empty string: a tag byte alone. */
  lemma {:induction false} ReadSerializedScalar(n: Node, data: seq<byte>, st: State)
    requires n.NNull? || n.NBool? || n.NEmpty?
    requires At(data, st.pos, Serialize(n))
    ensures ReadValue(data, st) == Landing(Eval(n, st.strings), After(n, st))
  {
    TagAt(n, data, st);
    assert st.strings + [] == st.strings;
    if n.NEmpty? {
      ReadValueString(data, st);
    } else {
      ReadValueScalar(data, st);
    }
  }

  /** An integer: its magnitude field, negated for the odd tags. */
  lemma {:induction false} ReadSerializedLong(n: Node, data: seq<byte>, st: State)
    requires WellFormed(n) && n.NLong?
    requires At(data, st.pos, Serialize(n))
    ensures ReadValue(data, st) == Landing(Eval(n, st.strings), After(n, st))
  {
    TagAt(n, data, st);
    var s := st.(pos := st.pos + 1);
    assert st.strings + [] == st.strings;
    SliceOfSlice(data, st.pos, Serialize(n), 1, ToBigEndian(n.magnitude, Width(n.tag)), s.pos);
    ReadUIntOfEncoding(data, s, n.magnitude, Width(n.tag));
    ReadValueLong(data, st);
  }

  /** A double: its eight raw bytes. */
  lemma {:induction false} ReadSerializedDouble(n: Node, data: seq<byte>, st: State)
    requires WellFormed(n) && n.NDouble?
    requires At(data, st.pos, Serialize(n))
    ensures ReadValue(data, st) == Landing(Eval(n, st.strings), After(n, st))
  {
    TagAt(n, data, st);
    var s := st.(pos := st.pos + 1);
    assert st.strings + [] == st.strings;
    SliceOfSlice(data, st.pos, Serialize(n), 1, n.raw, s.pos);
    ReadValueDouble(data, st);
  }

  /** A back-reference: its index field, looked up in the table in force. */
  lemma {:induction false} ReadSerializedStrId(n: Node, data: seq<byte>, st: State)
    requires WellFormed(n) && n.NStrId?
    requires At(data, st.pos, Serialize(n))
    ensures ReadValue(data, st) == Landing(Eval(n, st.strings), After(n, st))
  {
    TagAt(n, data, st);
    var s := st.(pos := st.pos + 1);
    assert st.strings + [] == st.strings;
    SliceOfSlice(data, st.pos, Serialize(n), 1, ToBigEndian(n.index, Width(n.tag)), s.pos);
    ReadUIntOfEncoding(data, s, n.index, Width(n.tag));
    ReadValueString(data, st);
  }

  /** A literal string: its length field, then its body, which joins the table. */
  lemma {:induction false} ReadSerializedStr(n: Node, data: seq<byte>, st: State)
    requires WellFormed(n) && n.NStr?
    requires At(data, st.pos, Serialize(n))
    ensures ReadValue(data, st) == Landing(Eval(n, st.strings), After(n, st))
  {
    StrLayout(n, data, st);
    var s2 := State(st.pos + 1 + Width(n.tag), st.strings);
    AtSlice(data, s2.pos, n.body);
    ReadStrGlue(data, st, n.tag, n.body, s2, After(n, st));
  }

  /** Where the tag, the length field and the body of a serialized string sit in the input. */
  lemma {:induction false} StrLayout(n: Node, data: seq<byte>, st: State)
    requires WellFormed(n) && n.NStr?
    requires At(data, st.pos, Serialize(n))
    ensures st.pos < |data| && data[st.pos] == n.tag
    ensures ReadUInt(data, st.(pos := st.pos + 1), Width(n.tag)) ==
      Ok(Parsed(|n.body|, State(st.pos + 1 + Width(n.tag), st.strings)))
    ensures At(data, st.pos + 1 + Width(n.tag), n.body)
    ensures After(n, st) == State(st.pos + 1 + Width(n.tag) + |n.body|, st.strings + [n.body])
  {
    var len := ToBigEndian(|n.body|, Width(n.tag));
    assert Serialize(n) == [n.tag] + len + n.body;
    AtSplit3(data, st.pos, [n.tag], len, n.body);
    AtField(data, st.(pos := st.pos + 1), |n.body|, Width(n.tag));
  }

  /** A string tag, a length field and that many body bytes read as a literal string. */
  lemma {:induction false} ReadStrGlue(data: seq<byte>, st: State, t: byte, body: seq<byte>, s2: State, end: State)
    requires st.pos < |data| && data[st.pos] == t && (t == STRING8 || t == STRING16)
    requires s2 == State(st.pos + 1 + Width(t), st.strings)
    requires ReadUInt(data, st.(pos := st.pos + 1), Width(t)) == Ok(Parsed(|body|, s2))
    requires s2.pos + |body| <= |data| && data[s2.pos .. s2.pos + |body|] == body
    requires end == State(s2.pos + |body|, st.strings + [body])
    ensures ReadValue(data, st) == Ok(Parsed(Str(body), end))
  {
    ReadValueString(data, st);
  }


  /** Three pieces written one after another occur one after another. */
  lemma {:induction false} AtSplit3(data: seq<byte>, pos: nat, a: seq<byte>, b: seq<byte>, c: seq<byte>)
    requires At(data, pos, a + b + c)
    ensures At(data, pos, a) && At(data, pos + |a|, b) && At(data, pos + |a| + |b|, c)
  {
    AtAppend(data, pos, a + b, c);
    AtAppend(data, pos, a, b);
  }

  /** A big-endian field written at the cursor is read back as the value written. */
  lemma {:induction false} AtField(data: seq<byte>, s: State, m: nat, w: nat)
    requires m < Pow256(w) && At(data, s.pos, ToBigEndian(m, w))
    ensures ReadUInt(data, s, w) == Ok(Parsed(m, s.(pos := s.pos + w)))
  {
    AtSlice(data, s.pos, ToBigEndian(m, w));
    ReadUIntOfEncoding(data, s, m, w);
  }

  /** Where the tag, the count field and the pairs of a serialized array sit in the input. */
  lemma {:induction false} ArrayLayout(n: Node, data: seq<byte>, st: State)
    requires WellFormed(n) && n.NArray?
    requires At(data, st.pos, Serialize(n))
    ensures st.pos < |data| && data[st.pos] == n.tag
    ensures ReadUInt(data, st.(pos := st.pos + 1), Width(n.tag)) ==
      Ok(Parsed(Count(n.pairs), State(st.pos + 1 + Width(n.tag), st.strings)))
    ensures At(data, st.pos + 1 + Width(n.tag), SerializePairs(n.pairs))
    ensures After(n, st) == AfterPairs(n.pairs, State(st.pos + 1 + Width(n.tag), st.strings))
  {
    var t, ps := n.tag, n.pairs;
    assert Serialize(n) == [t] + ToBigEndian(Count(ps), Width(t)) + SerializePairs(ps);
    AtSplit3(data, st.pos, [t], ToBigEndian(Count(ps), Width(t)), SerializePairs(ps));
    AtField(data, st.(pos := st.pos + 1), Count(ps), Width(t));
  }

  /** The array decoder on a count field that reads zero. */
  lemma {:induction false} ReadEmptyArray(data: seq<byte>, st: State, t: byte, s2: State, value: Result<Value>)
    requires st.pos < |data| && data[st.pos] == t && IsArray(t)
    requires ReadUInt(data, st.(pos := st.pos + 1), Width(t)) == Ok(Parsed(0, s2))
    requires value == Ok(List([]))
    ensures ReadValue(data, st) == Landing(value, s2)
  {
    ReadValueArray(data, st);
  }

  /** The array decoder once its non-zero count field has been read and its pairs decoded. */
  lemma {:induction false} ReadArrayParts(data: seq<byte>, st: State, t: byte, c: nat, s2: State,
                      pairs: Result<seq<Pair>>, end: State, value: Result<Value>)
    requires st.pos < |data| && data[st.pos] == t && IsArray(t) && c > 0
    requires ReadUInt(data, st.(pos := st.pos + 1), Width(t)) == Ok(Parsed(c, s2))
    requires ReadPairs(data, s2, c) == Landing(pairs, end)
    requires pairs.Ok? ==> |pairs.value| == c
    requires value == if pairs.Err? then Err(pairs.error) else Reconstruct(c, pairs.value)
    ensures ReadValue(data, st) == Landing(value, end)
  {
    ReadValueArray(data, st);
  }

  /** An array: its count field, then its pairs. */
  lemma {:induction false} ReadSerializedArray(n: Node, data: seq<byte>, st: State)
    requires WellFormed(n) && n.NArray?
    requires At(data, st.pos, Serialize(n))
    ensures ReadValue(data, st) == Landing(Eval(n, st.strings), After(n, st))
    decreases n, 1
  {
    if Count(n.pairs) == 0 {
      ReadSerializedEmptyArray(n, data, st);
    } else {
      ReadSerializedFullArray(n, data, st);
    }
  }

  /** An array with a zero count field: an empty list. */
  lemma {:induction false} ReadSerializedEmptyArray(n: Node, data: seq<byte>, st: State)
    requires WellFormed(n) && n.NArray? && Count(n.pairs) == 0
    requires At(data, st.pos, Serialize(n))
    ensures ReadValue(data, st) == Landing(Eval(n, st.strings), After(n, st))
  {
    ArrayLayout(n, data, st);
    var s2 := State(st.pos + 1 + Width(n.tag), st.strings);
    EvalEmptyArray(n, s2);
    ReadEmptyArray(data, st, n.tag, s2, Eval(n, st.strings));
  }

  /** An array with a non-zero count field: its pairs, rebuilt. */
  lemma {:induction false} ReadSerializedFullArray(n: Node, data: seq<byte>, st: State)
    requires WellFormed(n) && n.NArray? && Count(n.pairs) > 0
    requires At(data, st.pos, Serialize(n))
    ensures ReadValue(data, st) == Landing(Eval(n, st.strings), After(n, st))
    decreases n, 0
  {
    ArrayLayout(n, data, st);
    var s2 := State(st.pos + 1 + Width(n.tag), st.strings);
    ReadSerializedPairs(n.pairs, data, s2);
    FullArrayGlue(n, data, st, s2);
  }

  /** A non-empty array read as its count field followed by its pairs' reads. */
  lemma {:induction false} FullArrayGlue(n: Node, data: seq<byte>, st: State, s2: State)
    requires n.NArray? && Count(n.pairs) > 0 && IsArray(n.tag)
    requires st.pos < |data| && data[st.pos] == n.tag
    requires s2 == State(st.pos + 1 + Width(n.tag), st.strings) && s2.pos <= |data|
    requires ReadUInt(data, st.(pos := st.pos + 1), Width(n.tag)) == Ok(Parsed(Count(n.pairs), s2))
    requires After(n, st) == AfterPairs(n.pairs, s2)
    requires ReadPairs(data, s2, Count(n.pairs)) == Landing(EvalPairs(n.pairs, s2.strings), AfterPairs(n.pairs, s2))
    ensures ReadValue(data, st) == Landing(Eval(n, st.strings), After(n, st))
  {
    EvalArray(n, st.strings);
    ReadArrayParts(data, st, n.tag, Count(n.pairs), s2, EvalPairs(n.pairs, st.strings), After(n, st), Eval(n, st.strings));
  }

  /** An array node with no pairs: an empty list, and nothing after the count field. */
  lemma {:induction false} EvalEmptyArray(n: Node, st: State)
    requires n.NArray? && Count(n.pairs) == 0
    ensures forall table :: Eval(n, table) == Ok(List([]))
    ensures AfterPairs(n.pairs, st) == st
  {
    assert n.pairs == PNil;
    assert st.strings + [] == st.strings;
  }

  /** The value of a non-empty array node: its pairs, rebuilt. */
  lemma {:induction false} EvalArray(n: Node, table: seq<seq<byte>>)
    requires n.NArray? && Count(n.pairs) > 0
    ensures var pairs := EvalPairs(n.pairs, table);
      Eval(n, table) == if pairs.Err? then Err(pairs.error) else Reconstruct(Count(n.pairs), pairs.value)
  {
  }

  /** Decoding the bytes of well-formed array pairs. */
  lemma {:induction false} ReadSerializedPairs(ps: Pairs, data: seq<byte>, st: State)
    requires WellFormedPairs(ps)
    requires At(data, st.pos, SerializePairs(ps))
    ensures ReadPairs(data, st, Count(ps)) == Landing(EvalPairs(ps, st.strings), AfterPairs(ps, st))
    decreases ps, 0
  {
    match ps
    case PNil =>
      assert st.strings + [] == st.strings;
    case PCons(k, v, rest) =>
      var st1 := After(k, st);
      var st2 := After(v, st1);
      PairsLayout(ps, k, v, rest, data, st, st1, st2);
      ReadSerialized(k, data, st);
      ReadSerialized(v, data, st1);
      ReadSerializedPairs(rest, data, st2);
      ReadPairsCons(data, st, ps, k, v, rest, st1, st2);
  }

  /** Where the key, the value and the remaining pairs of serialized pairs sit in the input. */
  lemma {:induction false} PairsLayout(ps: Pairs, k: Node, v: Node, rest: Pairs, data: seq<byte>, st: State, st1: State, st2: State)
    requires ps == PCons(k, v, rest) && WellFormedPairs(ps)
    requires At(data, st.pos, SerializePairs(ps))
    requires st1 == After(k, st) && st2 == After(v, st1)
    ensures WellFormed(k) && WellFormed(v) && WellFormedPairs(rest)
    ensures At(data, st.pos, Serialize(k)) && At(data, st1.pos, Serialize(v)) && At(data, st2.pos, SerializePairs(rest))
    ensures st1.pos <= |data| && st2.pos <= |data|
  {
    AtSplit3(data, st.pos, Serialize(k), Serialize(v), SerializePairs(rest));
  }

  /** The value of pairs whose key, value and remaining pairs evaluate to `key`, `val` and `tail`. */
  function Chain(key: Result<Value>, val: Result<Value>, tail: Result<seq<Pair>>): Result<seq<Pair>> {
    match key
    case Err(e) => Err(e)
    case Ok(k) =>
      match val
      case Err(e) => Err(e)
      case Ok(v) =>
        match tail
        case Err(e) => Err(e)
        case Ok(t) => Ok([Pair(k, v)] + t)
  }

  /** Reading pairs chains a key read, a value read and the remaining pairs' read. */
  lemma {:induction false} ReadPairsStep(data: seq<byte>, st: State, m: nat, n: nat,
                      key: Result<Value>, val: Result<Value>, tail: Result<seq<Pair>>, chained: Result<seq<Pair>>,
                      st1: State, st2: State, end: State)
    requires st.pos <= |data| && st1.pos <= |data| && st2.pos <= |data|
    requires n == m + 1 && chained == Chain(key, val, tail)
    requires ReadValue(data, st) == Landing(key, st1)
    requires ReadValue(data, st1) == Landing(val, st2)
    requires ReadPairs(data, st2, m) == Landing(tail, end)
    ensures ReadPairs(data, st, n) == Landing(chained, end)
  {
    match key
    case Err(e) => ReadPairsKeyErr(data, st, m, e);
    case Ok(kv) =>
      match val
      case Err(e) => ReadPairsValErr(data, st, m, kv, st1, e);
      case Ok(vv) =>
        match tail
        case Err(e) => ReadPairsTailErr(data, st, m, kv, vv, st1, st2, e);
        case Ok(t) => ReadPairsOk(data, st, m, kv, vv, t, st1, st2, end);
  }

  /** Reading the pairs `PCons(k, v, rest)` chains the reads of `k`, `v` and `rest`. */
  lemma {:induction false} ReadPairsCons(data: seq<byte>, st: State, ps: Pairs, k: Node, v: Node, rest: Pairs,
                      st1: State, st2: State)
    requires ps == PCons(k, v, rest)
    requires st1 == After(k, st) && st2 == After(v, st1)
    requires st.pos <= |data| && st1.pos <= |data| && st2.pos <= |data|
    requires ReadValue(data, st) == Landing(Eval(k, st.strings), st1)
    requires ReadValue(data, st1) == Landing(Eval(v, st1.strings), st2)
    requires ReadPairs(data, st2, Count(rest)) == Landing(EvalPairs(rest, st2.strings), AfterPairs(rest, st2))
    ensures ReadPairs(data, st, Count(ps)) == Landing(EvalPairs(ps, st.strings), AfterPairs(ps, st))
  {
    EvalPairsStep(ps, k, v, rest, st, st1, st2);
    AfterPairsCons(ps, k, v, rest, st, st1, st2);
    var n, m := Count(ps), Count(rest);
    var key, val, tail, chained := Eval(k, st.strings), Eval(v, st1.strings), EvalPairs(rest, st2.strings), EvalPairs(ps, st.strings);
    var end := AfterPairs(rest, st2);
    ReadPairsStep(data, st, m, n, key, val, tail, chained, st1, st2, end);
  }

  /** Pairs end where their last pair ends: after the key, the value, then the remaining pairs. */
  lemma {:induction false} AfterPairsCons(ps: Pairs, k: Node, v: Node, rest: Pairs, st: State, st1: State, st2: State)
    requires ps == PCons(k, v, rest)
    requires st1 == After(k, st) && st2 == After(v, st1)
    ensures Count(ps) == Count(rest) + 1
    ensures AfterPairs(ps, st) == AfterPairs(rest, st2)
  {
    assert |SerializePairs(ps)| == |Serialize(k)| + |Serialize(v)| + |SerializePairs(rest)|;
    assert PairLiterals(ps) == Literals(k) + Literals(v) + PairLiterals(rest);
    AppendAssoc(st.strings, Literals(k), Literals(v), PairLiterals(rest));
  }

  /** Regrouping appends onto a table. */
  lemma {:induction false} AppendAssoc<T>(x: seq<T>, a: seq<T>, b: seq<T>, c: seq<T>)
    ensures x + (a + b + c) == x + a + b + c
  {
  }

  /** Evaluating pairs chains the key, the value and the remaining pairs, each seeing the literals before it. */
  lemma {:induction false} EvalPairsStep(ps: Pairs, k: Node, v: Node, rest: Pairs, st: State, st1: State, st2: State)
    requires ps == PCons(k, v, rest)
    requires st1 == After(k, st) && st2 == After(v, st1)
    ensures EvalPairs(ps, st.strings) == Chain(Eval(k, st.strings), Eval(v, st1.strings), EvalPairs(rest, st2.strings))
  {
  }

  /**
   A whole input: the version-2 header, the bytes of a well-formed node, and
   any trailing bytes, decodes to what the node denotes with an empty table.
   */
  lemma {:induction false} DecodeSerialized(n: Node, trailing: seq<byte>)
    requires WellFormed(n)
    ensures Decode([0, 0, 0, 2] + Serialize(n) + trailing) == Eval(n, [])
  {
    var data := [0, 0, 0, 2] + Serialize(n) + trailing;
    assert data[..4] == [0, 0, 0, 2];
    assert data[..4] == ToBigEndian(2, 4);
    BigEndianOfEncoding(2, 4);
    assert Header(data) == Ok(State(4, []));
    assert data[4 .. 4 + |Serialize(n)|] == Serialize(n);
    AtSlice(data, 4, Serialize(n));
    ReadSerialized(n, data, State(4, []));
  }

  /** The array of the pairs (-1, true) and (0, null), written with one-byte fields. */
  function NegativeKeyArray(): Node {
    NArray(ARRAY8, PCons(NLong(LONG8N, 1), NBool(true), PCons(NLong(LONG8P, 0), NNull, PNil)))
  }

  lemma {:induction false} NegativeKeyArrayBytes(data: seq<byte>)
    requires data == [0, 0, 0, 2, 0x14, 0x02, 0x07, 0x01, 0x05, 0x06, 0x00, 0x00]
    ensures WellFormed(NegativeKeyArray())
    ensures data == [0, 0, 0, 2] + Serialize(NegativeKeyArray()) + []
  {
    assert ToBigEndian(1, 1) == [1] && ToBigEndian(0, 1) == [0] && ToBigEndian(2, 1) == [2];
    assert Serialize(NegativeKeyArray()) == [0x14, 0x02, 0x07, 0x01, 0x05, 0x06, 0x00, 0x00];
  }

  lemma {:induction false} NegativeKeyArrayValue()
    ensures Eval(NegativeKeyArray(), []) == Err(KeyOutOfBounds(-1, 2))
  {
    var key1 := NLong(LONG8N, 1);
    var pairs := [Pair(Int(-1), Bool(true)), Pair(Int(0), Null)];
    var empty: seq<seq<byte>> := [];
    assert EvalPairs(PNil, empty) == Ok([]);
    assert [Pair(Int(0), Null)] + [] == [Pair(Int(0), Null)];
    assert EvalPairs(PCons(NLong(LONG8P, 0), NNull, PNil), empty) == Ok([Pair(Int(0), Null)]);
    assert Eval(key1, empty) == Ok(Int(-1));
    assert [Pair(Int(-1), Bool(true))] + [Pair(Int(0), Null)] == pairs;
    assert EvalPairs(NegativeKeyArray().pairs, empty) == Ok(pairs);
    assert Reconstruct(2, pairs) == Err(KeyOutOfBounds(-1, 2));
  }

  /**
   A whole input whose list-shaped array carries the key -1 is rejected:
   the array `0x14 0x02 0x07 0x01 0x05 0x06 0x00 0x00` holds the pairs
   (-1, true) and (0, null).
   */
  lemma {:induction false} NegativeKeyArrayRejected()
    ensures Decode([0, 0, 0, 2, 0x14, 0x02, 0x07, 0x01, 0x05, 0x06, 0x00, 0x00]) == Err(KeyOutOfBounds(-1, 2))
  {
    var data: seq<byte> := [0, 0, 0, 2, 0x14, 0x02, 0x07, 0x01, 0x05, 0x06, 0x00, 0x00];
    NegativeKeyArrayBytes(data);
    DecodeInput(data, NegativeKeyArray(), []);
    NegativeKeyArrayValue();
  }

  /** `DecodeSerialized` for an input given as a whole. */
  lemma {:induction false} DecodeInput(data: seq<byte>, n: Node, trailing: seq<byte>)
    requires WellFormed(n) && data == [0, 0, 0, 2] + Serialize(n) + trailing
    ensures Decode(data) == Eval(n, [])
  {
    DecodeSerialized(n, trailing);
  }

}
