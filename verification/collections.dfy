/**
 Reconstruction of a decoded array from its (key, value) pairs: a Null-filled
 list of the declared length when every key is an integer, otherwise an
 associative map. Later pairs overwrite earlier ones with the same key.
 */
module Collections {
  import opened Outcome
  import opened Values

  /**
   The value of the last pair keyed `k`, if any. Read from the back, this is
   an independent statement of "later writes overwrite earlier ones".
   */
  function LastFor(pairs: seq<Pair>, k: Value): Option<Value> {
    if |pairs| == 0 then None
    else if pairs[|pairs| - 1].key == k then Some(pairs[|pairs| - 1].val)
    else LastFor(pairs[..|pairs| - 1], k)
  }

  /** Splitting off the first pair: its value counts only when no later pair has the key. */
  lemma {:induction false} LastForFirst(pairs: seq<Pair>, k: Value)
    requires |pairs| > 0
    ensures LastFor(pairs, k) ==
      (match LastFor(pairs[1..], k)
       case Some(v) => Some(v)
       case None => if pairs[0].key == k then Some(pairs[0].val) else None)
  {
    if |pairs| > 1 {
      var init := pairs[..|pairs| - 1];
      assert pairs[1..][..|pairs[1..]| - 1] == init[1..];
      assert pairs[1..][|pairs[1..]| - 1] == pairs[|pairs| - 1];
      assert init[0] == pairs[0];
      LastForFirst(init, k);
    }
  }

  /** Every integer key addresses one of `count` slots. */
  predicate KeysInRange(pairs: seq<Pair>, count: nat)
    requires AllIntKeys(pairs)
  {
    forall j :: 0 <= j < |pairs| ==> 0 <= pairs[j].key.i < count
  }

  // ---------------------------------------------------------------- lists

  /**
   Writes `p.val` into the slot `p.key` addresses. A key outside the slots
   is an error: no negative-index wrap-around (compare `PlaceAsWritten`).
   */
  function Place(slots: seq<Value>, p: Pair): (r: Result<seq<Value>>)
    requires p.key.Int?
    ensures r.Ok? <==> 0 <= p.key.i < |slots|
    ensures r.Err? ==> r.error == KeyOutOfBounds(p.key.i, |slots|)
    ensures r.Ok? ==> |r.value| == |slots| && r.value[p.key.i] == p.val
    ensures r.Ok? ==> forall j :: 0 <= j < |slots| && j != p.key.i ==> r.value[j] == slots[j]
  {
    if 0 <= p.key.i < |slots| then Ok(slots[p.key.i := p.val])
    else Err(KeyOutOfBounds(p.key.i, |slots|))
  }

  /**
   The slot assignment `retval[k] = v` of `igbin.py` on a Python list: a
   negative key down to `-|slots|` silently addresses slot `k + |slots|`.
   */
  function PlaceAsWritten(slots: seq<Value>, p: Pair): (r: Result<seq<Value>>)
    requires p.key.Int?
    ensures r.Ok? <==> -|slots| <= p.key.i < |slots|
    ensures r.Err? ==> r.error == KeyOutOfBounds(p.key.i, |slots|)
    ensures r.Ok? ==> |r.value| == |slots|
    ensures r.Ok? ==>
      var slot := if p.key.i < 0 then p.key.i + |slots| else p.key.i;
      && r.value[slot] == p.val
      && forall j :: 0 <= j < |slots| && j != slot ==> r.value[j] == slots[j]
  {
    if 0 <= p.key.i < |slots| then Ok(slots[p.key.i := p.val])
    else if -|slots| <= p.key.i < 0 then Ok(slots[p.key.i + |slots| := p.val])
    else Err(KeyOutOfBounds(p.key.i, |slots|))
  }

  /** For keys in range the assignment of `igbin.py` and the corrected placement agree. */
  lemma PlaceAgree(slots: seq<Value>, p: Pair)
    requires p.key.Int? && 0 <= p.key.i < |slots|
    ensures PlaceAsWritten(slots, p) == Place(slots, p)
  {
  }

  /**
   As written, key -1 in a two-slot list silently overwrites slot 1; the
   corrected placement rejects the key as out of bounds.
   */
  lemma NegativeKeyWrapsAsWritten()
    ensures PlaceAsWritten([Null, Null], Pair(Int(-1), Bool(true))) == Ok([Null, Bool(true)])
    ensures Place([Null, Null], Pair(Int(-1), Bool(true))) == Err(KeyOutOfBounds(-1, 2))
  {
    assert [Null, Null][1 := Bool(true)] == [Null, Bool(true)];
  }

  /**
   Applies the pairs to `slots` in arrival order. Succeeds exactly when every
   key is in range; each slot then holds the value of the last pair keyed by
   its index, or its old content when no pair addresses it.
   */
  function Fill(slots: seq<Value>, pairs: seq<Pair>): (r: Result<seq<Value>>)
    requires AllIntKeys(pairs)
    ensures r.Ok? <==> KeysInRange(pairs, |slots|)
    ensures r.Ok? ==> |r.value| == |slots|
    ensures r.Ok? ==> forall i :: 0 <= i < |slots| ==> r.value[i] == LastFor(pairs, Int(i)).GetOr(slots[i])
    decreases |pairs|
  {
    if |pairs| == 0 then Ok(slots)
    else
      match Place(slots, pairs[0])
      case Err(e) => Err(e)
      case Ok(next) =>
        var r := Fill(next, pairs[1..]);
        assert r.Ok? ==> forall i :: 0 <= i < |slots| ==> r.value[i] == LastFor(pairs, Int(i)).GetOr(slots[i]) by {
          if r.Ok? {
            forall i | 0 <= i < |slots|
              ensures r.value[i] == LastFor(pairs, Int(i)).GetOr(slots[i])
            {
              LastForFirst(pairs, Int(i));
            }
          }
        }
        assert KeysInRange(pairs, |slots|) <==> 0 <= pairs[0].key.i < |slots| && KeysInRange(pairs[1..], |slots|) by {
          if 0 <= pairs[0].key.i < |slots| && KeysInRange(pairs[1..], |slots|) {
            forall j | 0 <= j < |pairs| ensures 0 <= pairs[j].key.i < |slots| {
              if j > 0 { assert pairs[j] == pairs[1..][j - 1]; }
            }
          }
        }
        r
  }

  /**
   The list case of array reconstruction: `count` Null slots, filled in
   arrival order.
   */
  function BuildList(count: nat, pairs: seq<Pair>): (r: Result<seq<Value>>)
    requires AllIntKeys(pairs)
    ensures r.Ok? <==> KeysInRange(pairs, count)
    ensures r.Ok? ==> |r.value| == count
    ensures r.Ok? ==> forall i :: 0 <= i < count ==> r.value[i] == LastFor(pairs, Int(i)).GetOr(Null)
  {
    Fill(seq(count, _ => Null), pairs)
  }

  // ----------------------------------------------------------------- maps

  /** No key occurs twice among the entries. */
  predicate DistinctKeys(entries: seq<Pair>) {
    forall i, j :: 0 <= i < j < |entries| ==> entries[i].key != entries[j].key
  }

  /** The value stored under `k`, found by scanning the entries from the front. */
  function Lookup(entries: seq<Pair>, k: Value): Option<Value> {
    if |entries| == 0 then None
    else if entries[0].key == k then Some(entries[0].val)
    else Lookup(entries[1..], k)
  }

  /**
   Dictionary assignment `m[p.key] = p.val`: an existing key keeps its
   position and takes the new value; a new key goes to the end.
   */
  function Insert(entries: seq<Pair>, p: Pair): (r: seq<Pair>)
    requires DistinctKeys(entries)
    ensures DistinctKeys(r)
    ensures Lookup(r, p.key) == Some(p.val)
    ensures forall k :: k != p.key ==> Lookup(r, k) == Lookup(entries, k)
    ensures |entries| <= |r| <= |entries| + 1
    ensures forall i :: 0 <= i < |entries| ==> r[i].key == entries[i].key
    ensures |r| == |entries| + 1 <==> Lookup(entries, p.key).None?
    ensures |r| == |entries| + 1 ==> r[|entries|] == p
  {
    if |entries| == 0 then [p]
    else if entries[0].key == p.key then [p] + entries[1..]
    else
      var rest := Insert(entries[1..], p);
      InsertBehind(entries, p, rest);
      [entries[0]] + rest
  }

  /** Inserting behind a first entry whose key differs keeps that entry in front. */
  lemma InsertBehind(entries: seq<Pair>, p: Pair, rest: seq<Pair>)
    requires DistinctKeys(entries) && |entries| > 0 && entries[0].key != p.key
    requires DistinctKeys(rest)
    requires Lookup(rest, p.key) == Some(p.val)
    requires forall k :: k != p.key ==> Lookup(rest, k) == Lookup(entries[1..], k)
    requires |entries| - 1 <= |rest| <= |entries|
    requires forall i :: 0 <= i < |entries| - 1 ==> rest[i].key == entries[i + 1].key
    requires |rest| == |entries| <==> Lookup(entries[1..], p.key).None?
    requires |rest| == |entries| ==> rest[|entries| - 1] == p
    ensures var r := [entries[0]] + rest;
      && DistinctKeys(r)
      && Lookup(r, p.key) == Some(p.val)
      && (forall k :: k != p.key ==> Lookup(r, k) == Lookup(entries, k))
      && |entries| <= |r| <= |entries| + 1
      && (forall i :: 0 <= i < |entries| ==> r[i].key == entries[i].key)
      && (|r| == |entries| + 1 <==> Lookup(entries, p.key).None?)
      && (|r| == |entries| + 1 ==> r[|entries|] == p)
  {
    LaterKeysDiffer(entries);
    LookupCons(entries[0], rest);
    forall i | 0 <= i < |rest| ensures rest[i].key != entries[0].key {
      if i < |entries| - 1 {
        assert rest[i].key == entries[i + 1].key;
      }
    }
    DistinctCons(entries[0], rest);
  }

  /** In entries with distinct keys, no key found behind the first entry is the first entry's key. */
  lemma LaterKeysDiffer(entries: seq<Pair>)
    requires DistinctKeys(entries) && |entries| > 0
    ensures DistinctKeys(entries[1..])
    ensures forall k :: Lookup(entries[1..], k).Some? ==> k != entries[0].key
    ensures forall k :: k != entries[0].key ==> Lookup(entries, k) == Lookup(entries[1..], k)
  {
    forall k | Lookup(entries[1..], k).Some? ensures k != entries[0].key {
      LookupFound(entries[1..], k);
      var i :| 0 <= i < |entries[1..]| && entries[1..][i].key == k;
      assert entries[i + 1].key == k;
    }
  }

  /** Looking up in entries with one entry put in front. */
  lemma LookupCons(e: Pair, rest: seq<Pair>)
    ensures forall k :: Lookup([e] + rest, k) == if k == e.key then Some(e.val) else Lookup(rest, k)
  {
    assert ([e] + rest)[1..] == rest;
  }

  /** Putting an entry with a new key in front keeps the keys distinct. */
  lemma DistinctCons(e: Pair, rest: seq<Pair>)
    requires DistinctKeys(rest)
    requires forall i :: 0 <= i < |rest| ==> rest[i].key != e.key
    ensures DistinctKeys([e] + rest)
  {
    var r := [e] + rest;
    forall i, j | 0 <= i < j < |r| ensures r[i].key != r[j].key {
      assert r[j] == rest[j - 1];
      if i > 0 { assert r[i] == rest[i - 1]; }
    }
  }

  /** A key that is found is the key of some entry. */
  lemma {:induction false} LookupFound(entries: seq<Pair>, k: Value)
    requires Lookup(entries, k).Some?
    ensures exists i :: 0 <= i < |entries| && entries[i].key == k
  {
    if entries[0].key != k {
      LookupFound(entries[1..], k);
      var i :| 0 <= i < |entries[1..]| && entries[1..][i].key == k;
      assert entries[i + 1].key == k;
    }
  }

  /**
   Inserts the pairs in arrival order into `entries`. Fails exactly when some
   key is unhashable; otherwise every key then maps to the value of its last
   pair, and keys no pair mentions keep their old value.
   */
  function InsertAll(entries: seq<Pair>, pairs: seq<Pair>): (r: Result<seq<Pair>>)
    requires DistinctKeys(entries)
    ensures r.Ok? <==> forall j :: 0 <= j < |pairs| ==> Hashable(pairs[j].key)
    ensures r.Err? ==> r.error == UnhashableKey
    ensures r.Ok? ==> DistinctKeys(r.value)
    ensures r.Ok? ==> forall k :: Lookup(r.value, k) == (match LastFor(pairs, k) case Some(v) => Some(v) case None => Lookup(entries, k))
    decreases |pairs|
  {
    if |pairs| == 0 then Ok(entries)
    else if !Hashable(pairs[0].key) then Err(UnhashableKey)
    else
      var r := InsertAll(Insert(entries, pairs[0]), pairs[1..]);
      assert (forall j :: 0 <= j < |pairs| ==> Hashable(pairs[j].key)) <==> (forall j :: 0 <= j < |pairs[1..]| ==> Hashable(pairs[1..][j].key)) by {
        if forall j :: 0 <= j < |pairs[1..]| ==> Hashable(pairs[1..][j].key) {
          forall j | 0 <= j < |pairs| ensures Hashable(pairs[j].key) {
            if j > 0 { assert pairs[j] == pairs[1..][j - 1]; }
          }
        }
      }
      assert r.Ok? ==> forall k :: Lookup(r.value, k) == (match LastFor(pairs, k) case Some(v) => Some(v) case None => Lookup(entries, k)) by {
        if r.Ok? {
          forall k ensures Lookup(r.value, k) == (match LastFor(pairs, k) case Some(v) => Some(v) case None => Lookup(entries, k)) {
            LastForFirst(pairs, k);
          }
        }
      }
      r
  }

  /** The map case of array reconstruction. */
  function BuildMap(pairs: seq<Pair>): (r: Result<seq<Pair>>)
    ensures r.Ok? <==> forall j :: 0 <= j < |pairs| ==> Hashable(pairs[j].key)
    ensures r.Ok? ==> DistinctKeys(r.value)
    ensures r.Ok? ==> forall k :: Lookup(r.value, k) == LastFor(pairs, k)
  {
    InsertAll([], pairs)
  }

  /**
   Array reconstruction from `count` pairs read in stream order: a `Map` when
   some key is not an integer (a boolean key included), a Null-filled `List`
   of length `count` otherwise.
   */
  function Reconstruct(count: nat, pairs: seq<Pair>): (r: Result<Value>)
    requires |pairs| == count
    ensures r.Ok? ==> (r.value.Map? <==> !AllIntKeys(pairs))
    ensures r.Ok? ==> (r.value.List? <==> AllIntKeys(pairs))
    ensures AllIntKeys(pairs) ==> (r.Ok? <==> KeysInRange(pairs, count))
    ensures !AllIntKeys(pairs) ==> (r.Ok? <==> forall j :: 0 <= j < count ==> Hashable(pairs[j].key))
    ensures r.Ok? && r.value.List? ==>
      |r.value.items| == count && forall i :: 0 <= i < count ==> r.value.items[i] == LastFor(pairs, Int(i)).GetOr(Null)
    ensures r.Ok? && r.value.Map? ==>
      DistinctKeys(r.value.entries) && forall k :: Lookup(r.value.entries, k) == LastFor(pairs, k)
  {
    if AllIntKeys(pairs) then
      var items :- BuildList(count, pairs);
      Ok(List(items))
    else
      var entries :- BuildMap(pairs);
      Ok(Map(entries))
  }
}
