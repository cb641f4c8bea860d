/** The key-value store over an object store kept in key order. */
module KvStore {
  import opened Sequences
  import opened Text
  import opened KvKeys

  datatype Row<V> = Row(at: Str, value: V)
  datatype KV<V> = KV(key: Key, value: V)

  // The object store: rows in strictly increasing order.

  ghost predicate Sorted<V>(rows: seq<Row<V>>) {
    forall i, j | 0 <= i < j < |rows| :: Before(rows[i].at, rows[j].at)
  }

  function Get<V>(rows: seq<Row<V>>, at: Str): Option<V> {
    if rows == [] then None
    else if rows[0].at == at then Some(rows[0].value)
    else Get(rows[1..], at)
  }

  function Put<V>(rows: seq<Row<V>>, at: Str, value: V): seq<Row<V>> {
    if rows == [] || Before(at, rows[0].at) then [Row(at, value)] + rows
    else if rows[0].at == at then [Row(at, value)] + rows[1..]
    else [rows[0]] + Put(rows[1..], at, value)
  }

  function Remove<V>(rows: seq<Row<V>>, at: Str): seq<Row<V>> {
    if rows == [] then []
    else if rows[0].at == at then rows[1..]
    else [rows[0]] + Remove(rows[1..], at)
  }

  // Order.

  lemma {:induction false} BeforeTransitive(a: Str, b: Str, c: Str)
    requires Before(a, b) && Before(b, c)
    ensures Before(a, c)
  {
    if a != [] && b[0] == a[0] && c[0] == b[0] { BeforeTransitive(a[1..], b[1..], c[1..]); }
  }

  lemma {:induction false} BeforeIsStrict(a: Str, b: Str)
    ensures Before(a, b) || a == b || Before(b, a)
    ensures !(Before(a, b) && Before(b, a)) && !Before(a, a)
  {
    if a != [] {
      BeforeIsStrict(a[1..], a[1..]);
      if b != [] {
        BeforeIsStrict(a[1..], b[1..]);
        if a[0] == b[0] && a[1..] == b[1..] {
          assert a == [a[0]] + a[1..] && b == [b[0]] + b[1..];
        }
      }
    }
  }

  lemma SortedTail<V>(rows: seq<Row<V>>)
    requires Sorted(rows) && rows != []
    ensures Sorted(rows[1..]) && forall r <- rows[1..] :: Before(rows[0].at, r.at)
  {
  }

  lemma SortedCons<V>(row: Row<V>, rows: seq<Row<V>>)
    requires Sorted(rows) && forall r <- rows :: Before(row.at, r.at)
    ensures Sorted([row] + rows)
  {
  }

  lemma {:induction false} PutKeeps<V>(rows: seq<Row<V>>, at: Str, value: V)
    requires Sorted(rows)
    ensures Sorted(Put(rows, at, value))
    ensures forall r <- Put(rows, at, value) :: r in rows || r.at == at
  {
    hide Before;
    if rows == [] {
    } else if Before(at, rows[0].at) {
      SortedTail(rows);
      forall r <- rows ensures Before(at, r.at) {
        if r != rows[0] {
          assert r in rows[1..];
          BeforeTransitive(at, rows[0].at, r.at);
        }
      }
      SortedCons(Row(at, value), rows);
    } else if rows[0].at == at {
      SortedTail(rows);
      SortedCons(Row(at, value), rows[1..]);
    } else {
      SortedTail(rows);
      BeforeIsStrict(at, rows[0].at);
      PutKeeps(rows[1..], at, value);
      SortedCons(rows[0], Put(rows[1..], at, value));
    }
  }

  lemma {:induction false} RemoveKeeps<V>(rows: seq<Row<V>>, at: Str)
    requires Sorted(rows)
    ensures Sorted(Remove(rows, at)) && forall r <- Remove(rows, at) :: r in rows
  {
    hide Before;
    if rows != [] {
      SortedTail(rows);
      if rows[0].at != at {
        RemoveKeeps(rows[1..], at);
        SortedCons(rows[0], Remove(rows[1..], at));
      }
    }
  }

  lemma {:induction false} GetBefore<V>(rows: seq<Row<V>>, at: Str)
    requires forall r <- rows :: Before(at, r.at)
    ensures Get(rows, at).None?
  {
    hide Before;
    if rows != [] {
      BeforeIsStrict(at, at);
      GetBefore(rows[1..], at);
    }
  }

  /** A put changes one key. */
  lemma {:induction false} GetPut<V>(rows: seq<Row<V>>, at: Str, value: V, other: Str)
    requires Sorted(rows)
    ensures Get(Put(rows, at, value), other) == if other == at then Some(value) else Get(rows, other)
  {
    hide Before;
    if rows == [] || Before(at, rows[0].at) {
      assert ([Row(at, value)] + rows)[1..] == rows;
    } else if rows[0].at != at {
      SortedTail(rows);
      GetPut(rows[1..], at, value, other);
      assert ([rows[0]] + Put(rows[1..], at, value))[1..] == Put(rows[1..], at, value);
    } else {
      assert ([Row(at, value)] + rows[1..])[1..] == rows[1..];
    }
  }

  /** A removal drops one key. */
  lemma {:induction false} GetRemove<V>(rows: seq<Row<V>>, at: Str, other: Str)
    requires Sorted(rows)
    ensures Get(Remove(rows, at), other) == if other == at then None else Get(rows, other)
  {
    hide Before;
    if rows != [] {
      SortedTail(rows);
      if rows[0].at == at {
        GetBefore(rows[1..], at);
      } else {
        GetRemove(rows[1..], at, other);
        assert ([rows[0]] + Remove(rows[1..], at))[1..] == Remove(rows[1..], at);
      }
    }
  }

  lemma {:induction false} GetIsMember<V>(rows: seq<Row<V>>, at: Str, value: V)
    requires Sorted(rows)
    ensures Get(rows, at) == Some(value) <==> Row(at, value) in rows
  {
    hide Before;
    if rows != [] {
      SortedTail(rows);
      GetIsMember(rows[1..], at, value);
      BeforeIsStrict(at, at);
    }
  }

  // The store.

  /** The rows a query for `prefix` yields. */
  function Yielded<V>(rows: seq<Row<V>>, prefix: Key): seq<KV<V>> {
    if rows == [] then []
    else (if InRange(prefix, rows[0].at) then [KV(ExtractKey(rows[0].at), rows[0].value)] else []) +
         Yielded(rows[1..], prefix)
  }

  /** The rows after storing entries in turn, up to the first key that is
      refused. */
  function AfterSets<V>(rows: seq<Row<V>>, entries: seq<KV<V>>): seq<Row<V>>
    decreases |entries|
  {
    if entries == [] then rows
    else match Built(entries[0].key)
      case None => rows
      case Some(at) => AfterSets(Put(rows, at, entries[0].value), entries[1..])
  }

  function AfterDeletes<V>(rows: seq<Row<V>>, keys: seq<Key>): seq<Row<V>>
    decreases |keys|
  {
    if keys == [] then rows
    else match Built(keys[0])
      case None => rows
      case Some(at) => AfterDeletes(Remove(rows, at), keys[1..])
  }

  class IndexedDBKvPrimitives<V> {
    var rows: seq<Row<V>>

    ghost predicate Valid()
      reads this
    {
      Sorted(rows)
    }

    constructor ()
      ensures Valid() && rows == []
    {
      rows := [];
    }

    method Clear()
      modifies this
      ensures Valid() && rows == []
    {
      rows := [];
    }

    /** The values in the order of the keys, None for a missing one; no result
        at all when a key is refused. */
    method BatchGet(keys: seq<Key>) returns (r: Option<seq<Option<V>>>)
      ensures r.Some? <==> forall k <- keys :: Clean(k)
      ensures r.Some? ==> |r.value| == |keys| &&
                          forall i | 0 <= i < |keys| :: r.value[i] == Get(rows, Joined(keys[i]))
    {
      var values: seq<Option<V>> := [];
      for i := 0 to |keys|
        invariant |values| == i && forall j | 0 <= j < i :: Clean(keys[j])
        invariant forall j | 0 <= j < i :: values[j] == Get(rows, Joined(keys[j]))
      {
        var at := BuildKey(keys[i]);
        if at.None? {
          return None;
        }
        values := values + [Get(rows, at.value)];
      }
      return Some(values);
    }

    method BatchSet(entries: seq<KV<V>>) returns (ok: bool)
      requires Valid()
      modifies this
      ensures Valid() && rows == AfterSets(old(rows), entries)
      ensures ok <==> forall e <- entries :: Clean(e.key)
    {
      for i := 0 to |entries|
        invariant Valid() && AfterSets(rows, entries[i..]) == AfterSets(old(rows), entries)
        invariant forall j | 0 <= j < i :: Clean(entries[j].key)
      {
        assert entries[i..][1..] == entries[i + 1..];
        var at := BuildKey(entries[i].key);
        if at.None? {
          return false;
        }
        PutKeeps(rows, at.value, entries[i].value);
        rows := Put(rows, at.value, entries[i].value);
      }
      return true;
    }

    method BatchDelete(keys: seq<Key>) returns (ok: bool)
      requires Valid()
      modifies this
      ensures Valid() && rows == AfterDeletes(old(rows), keys)
      ensures ok <==> forall k <- keys :: Clean(k)
    {
      for i := 0 to |keys|
        invariant Valid() && AfterDeletes(rows, keys[i..]) == AfterDeletes(old(rows), keys)
        invariant forall j | 0 <= j < i :: Clean(keys[j])
      {
        assert keys[i..][1..] == keys[i + 1..];
        var at := BuildKey(keys[i]);
        if at.None? {
          return false;
        }
        RemoveKeeps(rows, at.value);
        rows := Remove(rows, at.value);
      }
      return true;
    }

    method Query(prefix: Key) returns (r: Option<seq<KV<V>>>)
      ensures r == if Clean(prefix) then Some(Yielded(rows, prefix)) else None
    {
      var lower := BuildKey(prefix + [[]]);
      var upper := BuildKey(prefix + [[HIGH]]);
      BoundsAreClean(prefix);
      if lower.None? || upper.None? {
        return None;
      }
      hide Yielded, AtMost, Joined, ExtractKey, Clean;
      var found: seq<KV<V>> := [];
      assert rows[0..] == rows;
      for i := 0 to |rows|
        invariant found + Yielded(rows[i..], prefix) == Yielded(rows, prefix)
      {
        YieldedFrom(rows, i, prefix);
        if AtMost(lower.value, rows[i].at) && AtMost(rows[i].at, upper.value) {
          Assoc(found, [KV(ExtractKey(rows[i].at), rows[i].value)], Yielded(rows[i + 1..], prefix));
          found := found + [KV(ExtractKey(rows[i].at), rows[i].value)];
        }
      }
      YieldedNone(rows, prefix);
      NothingAdded(found);
      return Some(found);
    }

    method CountQuery(prefix: Key) returns (r: Option<nat>)
      ensures r == if Clean(prefix) then Some(|Yielded(rows, prefix)|) else None
    {
      var lower := BuildKey(prefix + [[]]);
      var upper := BuildKey(prefix + [[HIGH]]);
      BoundsAreClean(prefix);
      if lower.None? || upper.None? {
        return None;
      }
      var n: nat := 0;
      for i := 0 to |rows|
        invariant n + |Yielded(rows[i..], prefix)| == |Yielded(rows, prefix)|
      {
        assert rows[i..][1..] == rows[i + 1..];
        if AtMost(lower.value, rows[i].at) && AtMost(rows[i].at, upper.value) {
          n := n + 1;
        }
      }
      return Some(n);
    }
  }

  lemma YieldedFrom<V>(rows: seq<Row<V>>, i: nat, prefix: Key)
    requires i < |rows|
    ensures Yielded(rows[i..], prefix) ==
            if InRange(prefix, rows[i].at)
            then [KV(ExtractKey(rows[i].at), rows[i].value)] + Yielded(rows[i + 1..], prefix)
            else Yielded(rows[i + 1..], prefix)
  {
    hide InRange, ExtractKey;
    assert rows[i..][1..] == rows[i + 1..];
    NothingAdded(Yielded(rows[i + 1..], prefix));
  }

  lemma YieldedNone<V>(rows: seq<Row<V>>, prefix: Key)
    ensures Yielded(rows[|rows|..], prefix) == []
  {
  }

  lemma BoundsAreClean(prefix: Key)
    ensures Clean(prefix + [[]]) <==> Clean(prefix)
    ensures Clean(prefix + [[HIGH]]) <==> Clean(prefix)
  {
    assert forall k <- prefix :: k in prefix + [[]] && k in prefix + [[HIGH]];
  }

  lemma {:induction false} YieldedRows<V>(rows: seq<Row<V>>, prefix: Key, kv: KV<V>)
    ensures kv in Yielded(rows, prefix) <==>
            exists row <- rows :: InRange(prefix, row.at) && kv == KV(ExtractKey(row.at), row.value)
  {
    hide InRange, ExtractKey;
    if rows != [] {
      YieldedRows(rows[1..], prefix, kv);
      assert rows == [rows[0]] + rows[1..];
    }
  }

  /** A query for `prefix` yields exactly the stored entries it selects. */
  lemma QuerySelects<V>(rows: seq<Row<V>>, prefix: Key, key: Key, value: V)
    requires Sorted(rows) && Clean(prefix) && Clean(key) && key != []
    ensures KV(key, value) in Yielded(rows, prefix) <==>
            Get(rows, Built(key).value) == Some(value) && Selects(prefix, key)
  {
    hide Sorted, InRange, Selects, ExtractKey, Joined;
    var at := Joined(key);
    ExtractUndoesBuild(key);
    RangeIsPrefixFilter(prefix, key);
    GetIsMember(rows, at, value);
    YieldedRows(rows, prefix, KV(key, value));
    if Row(at, value) in rows && InRange(prefix, at) {
      assert KV(key, value) == KV(ExtractKey(Row(at, value).at), value);
    }
    if row: Row<V> :| row in rows && KV(key, value) == KV(ExtractKey(row.at), row.value) && InRange(prefix, row.at) {
      BuildUndoesExtract(row.at);
      assert row == Row(at, value);
    }
  }

  /** ... each once, in key order: the strings of the keys increase. */
  lemma {:induction false} QueryIsOrdered<V>(rows: seq<Row<V>>, prefix: Key, i: nat, j: nat)
    requires Sorted(rows) && i < j < |Yielded(rows, prefix)|
    ensures Before(Joined(Yielded(rows, prefix)[i].key), Joined(Yielded(rows, prefix)[j].key))
  {
    hide InRange, ExtractKey, Joined, Before;
    SortedTail(rows);
    var rest := Yielded(rows[1..], prefix);
    var k := |Yielded(rows, prefix)| - |rest|;
    if i >= k {
      QueryIsOrdered(rows[1..], prefix, i - k, j - k);
    } else {
      var kv := rest[j - k];
      YieldedRows(rows[1..], prefix, kv);
      var row :| row in rows[1..] && InRange(prefix, row.at) && kv == KV(ExtractKey(row.at), row.value);
      JoinExtract(row.at);
      JoinExtract(rows[0].at);
    }
  }

  /** Nothing is stored from the first key on that has a unit 0 in it. */
  lemma {:induction false} SetsStopAtRefused<V>(rows: seq<Row<V>>, entries: seq<KV<V>>, i: nat)
    requires i < |entries| && (exists part <- entries[i].key :: (0 as Unit) in part)
    requires forall j | 0 <= j < i :: forall part <- entries[j].key :: (0 as Unit) !in part
    ensures AfterSets(rows, entries) == AfterSets(rows, entries[..i])
    decreases |entries|
  {
    if i > 0 {
      var at := Built(entries[0].key).value;
      SetsStopAtRefused(Put(rows, at, entries[0].value), entries[1..], i - 1);
      assert entries[1..][..i - 1] == entries[..i][1..];
    }
  }

  lemma {:induction false} DeletesStopAtRefused<V>(rows: seq<Row<V>>, keys: seq<Key>, i: nat)
    requires i < |keys| && (exists part <- keys[i] :: (0 as Unit) in part)
    requires forall j | 0 <= j < i :: forall part <- keys[j] :: (0 as Unit) !in part
    ensures AfterDeletes(rows, keys) == AfterDeletes(rows, keys[..i])
    decreases |keys|
  {
    if i > 0 {
      DeletesStopAtRefused(Remove(rows, Built(keys[0]).value), keys[1..], i - 1);
      assert keys[1..][..i - 1] == keys[..i][1..];
    }
  }

  /** The value the last entry for a key gives it. */
  function LastValue<V>(entries: seq<KV<V>>, key: Key, before: Option<V>): Option<V> {
    if entries == [] then before
    else LastValue(entries[1..], key, if entries[0].key == key then Some(entries[0].value) else before)
  }

  /** Entries stored are found again under their keys; other keys keep theirs. */
  lemma {:induction false} GetAfterSets<V>(rows: seq<Row<V>>, entries: seq<KV<V>>, key: Key)
    requires Sorted(rows) && Clean(key) && key != [] && forall e <- entries :: Clean(e.key) && e.key != []
    ensures Sorted(AfterSets(rows, entries))
    ensures Get(AfterSets(rows, entries), Joined(key)) == LastValue(entries, key, Get(rows, Joined(key)))
    decreases |entries|
  {
    hide Sorted, Joined;
    if entries != [] {
      var e := entries[0];
      PutKeeps(rows, Joined(e.key), e.value);
      GetPut(rows, Joined(e.key), e.value, Joined(key));
      if Joined(e.key) == Joined(key) { SameString(e.key, key); }
      GetAfterSets(Put(rows, Joined(e.key), e.value), entries[1..], key);
    }
  }

  /** Deleted keys are gone; other keys keep their values. */
  lemma {:induction false} GetAfterDeletes<V>(rows: seq<Row<V>>, keys: seq<Key>, key: Key)
    requires Sorted(rows) && Clean(key) && key != [] && forall k <- keys :: Clean(k) && k != []
    ensures Sorted(AfterDeletes(rows, keys))
    ensures Get(AfterDeletes(rows, keys), Joined(key)) == if key in keys then None else Get(rows, Joined(key))
    decreases |keys|
  {
    hide Sorted, Joined;
    if keys != [] {
      var k := keys[0];
      assert k in keys && keys == [k] + keys[1..];
      RemoveKeeps(rows, Joined(k));
      GetRemove(rows, Joined(k), Joined(key));
      if Joined(k) == Joined(key) { SameString(k, key); }
      GetAfterDeletes(Remove(rows, Joined(k)), keys[1..], key);
    }
  }
}
