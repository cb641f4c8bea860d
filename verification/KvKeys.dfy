/** Path keys as strings, and a string range that stands in for a prefix. */
module KvKeys {
  import opened Text

  /** A UTF-16 code unit: what strings of the language are ordered by. */
  newtype Unit = x: int | 0 <= x < 0x1_0000

  type Str = seq<Unit>
  type Key = seq<Str>

  const SEP: Unit := 0
  const HIGH: Unit := 0xFFFF

  /** Order of strings as keys: Indexed Database API 3.0, section 2.4. */
  predicate Before(a: Str, b: Str) {
    b != [] && (a == [] || a[0] < b[0] || (a[0] == b[0] && Before(a[1..], b[1..])))
  }

  predicate AtMost(a: Str, b: Str) {
    a == b || Before(a, b)
  }

  /** The two agree up to `k`; there the first ends, or has the smaller unit. */
  predicate DiffersAt(a: Str, b: Str, k: nat) {
    k <= |a| && k < |b| && (forall i | 0 <= i < k :: a[i] == b[i]) && (k == |a| || a[k] < b[k])
  }

  lemma {:induction false} BeforeIff(a: Str, b: Str)
    ensures Before(a, b) <==> exists k :: 0 <= k < |b| && DiffersAt(a, b, k)
  {
    if b == [] {
    } else if a == [] || a[0] != b[0] {
      assert DiffersAt(a, b, 0) <==> a == [] || a[0] < b[0];
    } else {
      BeforeIff(a[1..], b[1..]);
      forall k | 0 < k < |b| ensures DiffersAt(a, b, k) <==> DiffersAt(a[1..], b[1..], k - 1) {
        DiffersLater(a, b, k);
      }
      if k :| 0 <= k < |b[1..]| && DiffersAt(a[1..], b[1..], k) {
        assert DiffersAt(a, b, k + 1);
      }
    }
  }

  lemma DiffersLater(a: Str, b: Str, k: nat)
    requires 0 < k < |b| && a != [] && a[0] == b[0]
    ensures DiffersAt(a, b, k) <==> DiffersAt(a[1..], b[1..], k - 1)
  {
    if DiffersAt(a[1..], b[1..], k - 1) {
      forall i | 0 <= i < k ensures a[i] == b[i] {
        if i > 0 {
          assert a[i] == a[1..][i - 1] && b[i] == b[1..][i - 1];
        }
      }
    }
  }

  predicate Clean(key: Key) {
    forall k <- key :: SEP !in k
  }

  /** `key.join(sep)`. */
  function Joined(key: Key): Str {
    if key == [] then []
    else if |key| == 1 then key[0]
    else key[0] + [SEP] + Joined(key[1..])
  }

  /** `key.split(sep)`. */
  function ExtractKey(s: Str): (key: Key)
    ensures key != [] && Clean(key)
  {
    if s == [] then [[]]
    else
      var rest := ExtractKey(s[1..]);
      if s[0] == SEP then [[]] + rest else [[s[0]] + rest[0]] + rest[1..]
  }

  /** The string for a key, or None where the source throws. */
  function Built(key: Key): Option<Str> {
    if Clean(key) then Some(Joined(key)) else None
  }

  method BuildKey(key: Key) returns (r: Option<Str>)
    ensures r == Built(key)
  {
    for i := 0 to |key|
      invariant forall j | 0 <= j < i :: SEP !in key[j]
    {
      if SEP in key[i] {
        return None;
      }
    }
    return Some(Joined(key));
  }

  /** Between the two bounds a query for `prefix` asks for. */
  predicate InRange(prefix: Key, s: Str) {
    AtMost(Joined(prefix + [[]]), s) && AtMost(s, Joined(prefix + [[HIGH]]))
  }

  // Keys and strings are the same thing, but for the empty key.

  lemma {:induction false} JoinCons(part: Str, rest: Key)
    requires rest != []
    ensures Joined([part] + rest) == part + [SEP] + Joined(rest)
  {
    assert ([part] + rest)[1..] == rest;
  }

  lemma {:induction false} JoinExtract(s: Str)
    ensures Joined(ExtractKey(s)) == s
  {
    if s != [] {
      var rest := ExtractKey(s[1..]);
      JoinExtract(s[1..]);
      if s[0] == SEP {
        JoinCons([], rest);
        assert s == [] + [SEP] + s[1..];
      } else if |rest| == 1 {
        assert s == [s[0]] + s[1..];
      } else {
        JoinCons([s[0]] + rest[0], rest[1..]);
        assert rest == [rest[0]] + rest[1..];
        JoinCons(rest[0], rest[1..]);
        assert s == [s[0]] + (rest[0] + [SEP] + Joined(rest[1..]));
      }
    }
  }

  lemma {:induction false} ExtractPart(part: Str)
    requires SEP !in part
    ensures ExtractKey(part) == [part]
  {
    if part != [] {
      ExtractPart(part[1..]);
      assert [part[0]] + part[1..] == part;
    }
  }

  lemma {:induction false} ExtractCons(part: Str, s: Str)
    requires SEP !in part
    ensures ExtractKey(part + [SEP] + s) == [part] + ExtractKey(s)
  {
    var t := part + [SEP] + s;
    if part == [] {
      assert t[1..] == s;
    } else {
      ExtractCons(part[1..], s);
      assert t[1..] == part[1..] + [SEP] + s;
      assert [part[0]] + part[1..] == part;
    }
  }

  /** Refused is exactly a key with a unit 0 in a part; the parts of any other are
      joined by single units 0. */
  lemma BuiltIff(key: Key, part: Str)
    ensures Built(key).None? <==> exists k <- key :: (0 as Unit) in k
    ensures Built([]) == Some([]) && ((0 as Unit) !in part ==> Built([part]) == Some(part))
    ensures key != [] && Built(key).Some? && (0 as Unit) !in part ==>
              Built(key + [part]) == Some(Built(key).value + [0] + part)
  {
    if key != [] && Built(key).Some? && (0 as Unit) !in part {
      JoinAppend(key, [part]);
      assert forall k <- key + [part] :: k in key || k == part;
    }
  }

  /** Reading a key back from its string gives the key, unless it is empty: the
      string of the empty key is that of the key of one empty part. */
  lemma ExtractUndoesBuild(key: Key)
    requires Clean(key)
    ensures Built(key).Some? && (ExtractKey(Built(key).value) == key <==> key != [])
    ensures Built([]) == Built([[]])
  {
    if key != [] { ReadsBack(key); }
  }

  lemma {:induction false} ReadsBack(key: Key)
    requires key != [] && Clean(key)
    ensures Built(key).Some? && ExtractKey(Built(key).value) == key
  {
    if |key| == 1 {
      ExtractPart(key[0]);
      assert key == [key[0]];
    } else {
      assert Clean(key[1..]);
      ReadsBack(key[1..]);
      ExtractCons(key[0], Joined(key[1..]));
      assert key == [key[0]] + key[1..];
    }
  }

  /** Every string is the string of the key read from it. */
  lemma BuildUndoesExtract(s: Str)
    ensures Built(ExtractKey(s)) == Some(s)
  {
    JoinExtract(s);
  }

  lemma {:induction false} JoinAppend(a: Key, b: Key)
    requires a != [] && b != []
    ensures Joined(a + b) == Joined(a) + [SEP] + Joined(b)
  {
    if |a| == 1 {
      assert a == [a[0]];
      JoinCons(a[0], b);
    } else {
      JoinAppend(a[1..], b);
      assert a + b == [a[0]] + (a[1..] + b);
      JoinCons(a[0], a[1..] + b);
      assert a[0] + [SEP] + (Joined(a[1..]) + [SEP] + Joined(b)) == a[0] + [SEP] + Joined(a[1..]) + [SEP] + Joined(b);
    }
  }

  /** What the string of a key below `prefix` starts with. */
  function Stem(prefix: Key): Str {
    if prefix == [] then [] else Joined(prefix) + [SEP]
  }

  lemma JoinBelow(prefix: Key, rest: Key)
    requires rest != []
    ensures Joined(prefix + rest) == Stem(prefix) + Joined(rest)
  {
    if prefix == [] {
      assert prefix + rest == rest;
    } else {
      JoinAppend(prefix, rest);
    }
  }

  lemma {:induction false} BoundsOfStem(stem: Str, s: Str)
    ensures AtMost(stem, s) && AtMost(s, stem + [HIGH]) <==>
            stem <= s && AtMost(s[|stem|..], [HIGH])
  {
    if stem == [] {
      assert s[0..] == s && stem + [HIGH] == [HIGH];
    } else if s != [] && s[0] == stem[0] {
      BoundsOfStem(stem[1..], s[1..]);
      assert (stem + [HIGH])[1..] == stem[1..] + [HIGH];
      assert s == [s[0]] + s[1..] && stem == [stem[0]] + stem[1..];
      assert stem <= s <==> stem[1..] <= s[1..];
      if stem <= s { assert s[|stem|..] == s[1..][|stem| - 1..]; }
    }
  }

  /** Strings up to a single U+FFFF: all that do not start with it, and it. */
  lemma AtMostHigh(t: Str)
    ensures AtMost(t, [HIGH]) <==> t == [] || t[0] != HIGH || t == [HIGH]
  {
    var high: Str := [HIGH];
    assert high[1..] == [];
    if t != [] && t[0] == HIGH {
      assert !Before(t[1..], high[1..]);
    }
  }

  /** A query for `prefix` asks for the keys strictly below it, except those
      whose next part starts with U+FFFF and is not that alone, at the end. */
  predicate Selects(prefix: Key, key: Key) {
    && prefix < key
    && (var next := key[|prefix|]; next == [] || next[0] != HIGH || (next == [HIGH] && |key| == |prefix| + 1))
  }

  lemma FirstPart(t: Str)
    ensures var rest := ExtractKey(t);
            (t == [] || t[0] != HIGH || t == [HIGH]) <==>
            (rest[0] == [] || rest[0][0] != HIGH || rest == [[HIGH]])
  {
    if t != [] && t[0] == HIGH {
      assert t == [HIGH] + t[1..];
      JoinExtract(t[1..]);
    }
  }

  /** A key in the range: its string starts with the stem, and the next part
      sorts up to the bound. */
  lemma RangeIsPrefixFilter(prefix: Key, key: Key)
    requires Clean(prefix) && Clean(key) && key != []
    ensures InRange(prefix, Built(key).value) <==> Selects(prefix, key)
  {
    var stem, s := Stem(prefix), Joined(key);
    JoinBelow(prefix, [[]]);
    JoinBelow(prefix, [[HIGH]]);
    assert stem + [] == stem;
    BoundsOfStem(stem, s);
    if stem <= s {
      var t := s[|stem|..];
      var rest := ExtractKey(t);
      JoinExtract(t);
      JoinBelow(prefix, rest);
      assert stem + t == s;
      SameString(prefix + rest, key);
      AtMostHigh(t);
      FirstPart(t);
    } else if prefix < key {
      var rest := key[|prefix|..];
      assert key == prefix + rest;
      JoinBelow(prefix, rest);
    }
  }

  lemma SameString(a: Key, b: Key)
    requires a != [] && b != [] && Clean(a) && Clean(b) && Joined(a) == Joined(b)
    ensures a == b
  {
    ExtractUndoesBuild(a);
    ExtractUndoesBuild(b);
  }

  /** Where no part starts with U+FFFF, the range is the prefix filter. */
  lemma PlainRangeIsPrefixFilter(prefix: Key, key: Key)
    requires Clean(prefix) && Clean(key) && key != []
    requires forall k <- key :: k == [] || k[0] != HIGH
    ensures InRange(prefix, Built(key).value) <==> prefix < key
  {
    RangeIsPrefixFilter(prefix, key);
    if prefix < key { assert key[|prefix|] in key; }
  }

  /** Elsewhere it is not: a part that starts with U+FFFF can be missed. */
  lemma HighPartIsMissed()
    ensures var key: Key := [[HIGH, 1]]; [] < key && Clean(key) && !InRange([], Built(key).value)
  {
    var key: Key := [[HIGH, 1]];
    assert SEP !in key[0];
    RangeIsPrefixFilter([], key);
  }
}
