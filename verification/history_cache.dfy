/**
 The terminal's persisted command history (`TerminalPersistedHistory`): an
 insertion-ordered key/value cache, oldest entry first, holding at most
 `limit` entries. The limit comes from configuration and may change at any
 time; the entries are written to storage after each change and read back
 when a new instance is created for the same storage key.
 */
module PersistedHistory {
  import opened Strings

  datatype Cache<V> = Cache(entries: seq<(string, V)>, limit: nat)


  predicate DistinctKeys<V>(entries: seq<(string, V)>) {
    forall i, j :: 0 <= i < j < |entries| ==> entries[i].0 != entries[j].0
  }

  /** What every reachable cache satisfies: no key twice, and no more entries than the limit. */
  predicate Valid<V>(c: Cache<V>) {
    DistinctKeys(c.entries) && |c.entries| <= c.limit
  }

  predicate HasKey<V>(entries: seq<(string, V)>, key: string) {
    exists i :: 0 <= i < |entries| && entries[i].0 == key
  }

  /** The entries without the one for `key`, the others in their order. */
  function WithoutKey<V>(entries: seq<(string, V)>, key: string): (r: seq<(string, V)>)
    ensures |r| <= |entries|
    ensures forall i :: 0 <= i < |r| ==> r[i].0 != key && r[i] in entries
    ensures !HasKey(entries, key) ==> r == entries
    ensures DistinctKeys(entries) && HasKey(entries, key) ==> |r| == |entries| - 1
    ensures DistinctKeys(entries) ==> DistinctKeys(r)
    ensures forall e :: e in entries && e.0 != key ==> e in r
    decreases |entries|
  {
    if |entries| == 0 then []
    else
      var rest := WithoutKey(entries[1..], key);
      assert HasKey(entries[1..], key) ==> HasKey(entries, key) by {
        if HasKey(entries[1..], key) {
          var i :| 0 <= i < |entries[1..]| && entries[1..][i].0 == key;
          assert entries[i + 1].0 == key;
        }
      }
      assert DistinctKeys(entries) && entries[0].0 == key ==> !HasKey(entries[1..], key);
      if entries[0].0 == key then rest else [entries[0]] + rest
  }

  /** The newest `n` entries: the oldest ones are dropped until at most `n` remain. */
  function TrimOldest<V>(entries: seq<(string, V)>, n: nat): (r: seq<(string, V)>)
    ensures |r| == if |entries| <= n then |entries| else n
    ensures r == entries[|entries| - |r|..]
  {
    if |entries| <= n then entries else entries[|entries| - n..]
  }

  /**
   `add(key, value)`: the pair becomes the newest entry; an existing entry for
   the key is removed first, and the oldest entries are dropped to respect the limit.
   */
  function Add<V>(c: Cache<V>, key: string, value: V): (r: Cache<V>)
    ensures r.limit == c.limit
    ensures |r.entries| <= c.limit
    ensures c.limit > 0 ==> |r.entries| > 0 && r.entries[|r.entries| - 1] == (key, value)
    ensures forall i :: 0 <= i < |r.entries| - 1 ==> r.entries[i] in c.entries && r.entries[i].0 != key
    ensures Valid(c) ==> Valid(r)
  {
    var kept := WithoutKey(c.entries, key) + [(key, value)];
    var r := Cache(TrimOldest(kept, c.limit), c.limit);
    assert DistinctKeys(c.entries) ==> DistinctKeys(kept);
    r
  }

  /**
   A configuration change of the history size: the oldest entries are dropped
   at once when the new limit is smaller; a larger limit changes no entry.
   */
  function SetLimit<V>(c: Cache<V>, limit: nat): (r: Cache<V>)
    ensures r.limit == limit
    ensures |r.entries| == if |c.entries| <= limit then |c.entries| else limit
    ensures r.entries == c.entries[|c.entries| - |r.entries|..]
    ensures Valid(c) && limit >= c.limit ==> r.entries == c.entries
    ensures DistinctKeys(c.entries) ==> Valid(r)
  {
    Cache(TrimOldest(c.entries, limit), limit)
  }

  function Empty<V>(limit: nat): Cache<V> {
    Cache([], limit)
  }

  /** Adds the pairs one after another, as a new instance does with the stored entries. */
  function AddAll<V>(c: Cache<V>, pairs: seq<(string, V)>): (r: Cache<V>)
    ensures r.limit == c.limit
    decreases |pairs|
  {
    if |pairs| == 0 then c else AddAll(Add(c, pairs[0].0, pairs[0].1), pairs[1..])
  }

  /** What is written to storage after every change: the entries, oldest first. */
  function Persisted<V>(c: Cache<V>): seq<(string, V)> {
    c.entries
  }

  /**
   A new instance for a storage key: it starts empty with the configured limit
   and adds the stored entries in order. A missing or unreadable stored value
   (`None`) gives an empty cache.
   */
  function Load<V>(stored: Option<seq<(string, V)>>, limit: nat): (r: Cache<V>)
    ensures r.limit == limit
    ensures stored.None? ==> r.entries == []
  {
    if stored.None? then Empty(limit) else AddAll(Empty(limit), stored.value)
  }

  lemma {:induction false} AddAllValid<V>(c: Cache<V>, pairs: seq<(string, V)>)
    requires Valid(c)
    ensures Valid(AddAll(c, pairs)) && AddAll(c, pairs).limit == c.limit
    decreases |pairs|
  {
    if |pairs| > 0 {
      AddAllValid(Add(c, pairs[0].0, pairs[0].1), pairs[1..]);
    }
  }

  /** Whatever was stored, a loaded cache is valid. */
  lemma LoadValid<V>(stored: Option<seq<(string, V)>>, limit: nat)
    ensures Valid(Load(stored, limit))
  {
    if stored.Some? {
      AddAllValid(Empty<V>(limit), stored.value);
    }
  }

  lemma {:induction false} AddAllAppends<V>(c: Cache<V>, pairs: seq<(string, V)>)
    requires DistinctKeys(c.entries + pairs)
    requires |c.entries + pairs| <= c.limit
    ensures AddAll(c, pairs).entries == c.entries + pairs
    decreases |pairs|
  {
    if |pairs| > 0 {
      var (k, v) := pairs[0];
      forall i | 0 <= i < |c.entries|
        ensures c.entries[i].0 != k
      {
        assert (c.entries + pairs)[i] == c.entries[i];
        assert (c.entries + pairs)[|c.entries|] == pairs[0];
      }
      var next := Add(c, k, v);
      assert next.entries == c.entries + [pairs[0]];
      assert next.entries + pairs[1..] == c.entries + pairs;
      AddAllAppends(next, pairs[1..]);
    }
  }

  /** A second instance over the same storage key reloads exactly the entries the first one persisted. */
  lemma ReloadRestores<V>(c: Cache<V>)
    requires Valid(c)
    ensures Load(Some(Persisted(c)), c.limit) == c
  {
    assert Empty<V>(c.limit).entries + c.entries == c.entries;
    AddAllAppends(Empty<V>(c.limit), c.entries);
  }

  /** Adding a key not yet present appends it after all existing entries (below the limit). */
  lemma AddNewKeyAppends<V>(c: Cache<V>, key: string, value: V)
    requires !HasKey(c.entries, key)
    requires |c.entries| < c.limit
    ensures Add(c, key, value).entries == c.entries + [(key, value)]
  {
  }

  /** Re-adding a key moves it to the newest position; the other entries keep their order. */
  lemma {:induction false} ReAddMovesToEnd<V>(c: Cache<V>, key: string, value: V)
    requires Valid(c)
    requires HasKey(c.entries, key)
    ensures Add(c, key, value).entries == WithoutKey(c.entries, key) + [(key, value)]
    ensures |Add(c, key, value).entries| == |c.entries|
  {
  }

  lemma DistinctTail<V>(entries: seq<(string, V)>)
    requires |entries| > 0 && DistinctKeys(entries)
    ensures DistinctKeys(entries[1..])
  {
    forall i, j | 0 <= i < j < |entries[1..]|
      ensures entries[1..][i].0 != entries[1..][j].0
    {
      assert entries[1..][i] == entries[i + 1] && entries[1..][j] == entries[j + 1];
    }
  }

  lemma WithoutKeyOfHead<V>(entries: seq<(string, V)>, key: string)
    requires |entries| > 0 && DistinctKeys(entries) && entries[0].0 == key
    ensures WithoutKey(entries, key) == entries[1..]
  {
    assert !HasKey(entries[1..], key) by {
      forall i | 0 <= i < |entries[1..]|
        ensures entries[1..][i].0 != key
      {
        assert entries[1..][i] == entries[i + 1];
      }
    }
  }

  lemma SplitAroundTail<X>(s: seq<X>, p: nat)
    requires 0 < p < |s|
    ensures s[..p] + s[p + 1..] == [s[0]] + (s[1..][..p - 1] + s[1..][p..])
  {
    assert s[..p] == [s[0]] + s[1..][..p - 1];
    assert s[p + 1..] == s[1..][p..];
  }

  /** With distinct keys, dropping a key removes exactly its one entry and keeps the order of the rest. */
  lemma {:induction false} WithoutKeyRemovesAt<V>(entries: seq<(string, V)>, key: string, p: nat)
    requires DistinctKeys(entries)
    requires p < |entries| && entries[p].0 == key
    ensures WithoutKey(entries, key) == entries[..p] + entries[p + 1..]
    decreases p
  {
    if p == 0 {
      WithoutKeyOfHead(entries, key);
    } else {
      assert entries[0].0 != key;
      DistinctTail(entries);
      calc {
        WithoutKey(entries, key);
        [entries[0]] + WithoutKey(entries[1..], key);
        { WithoutKeyRemovesAt(entries[1..], key, p - 1); }
        [entries[0]] + (entries[1..][..p - 1] + entries[1..][p..]);
        { SplitAroundTail(entries, p); }
        entries[..p] + entries[p + 1..];
      }
    }
  }

  /** At the limit, adding a key not yet present evicts the oldest entry. */
  lemma AddNewKeyEvicts<V>(c: Cache<V>, key: string, value: V)
    requires !HasKey(c.entries, key)
    requires 0 < |c.entries| == c.limit
    ensures Add(c, key, value).entries == c.entries[1..] + [(key, value)]
  {
  }

  /** The LRU test: re-adding `foo` moves it behind `bar`. */
  lemma LruScenario()
    ensures Add(Add(Add(Empty<int>(5), "foo", 1), "bar", 2), "foo", 1).entries == [("bar", 2), ("foo", 1)]
  {
    assert "foo"[0] != "bar"[0];
    ReAddReorders(5, "foo", 1, "bar", 2);
  }

  /** Two distinct keys added in turn, then the first again: the second now comes first. */
  lemma ReAddReorders<V>(limit: nat, a: string, va: V, b: string, vb: V)
    requires limit >= 2 && a != b
    ensures Add(Add(Add(Empty<V>(limit), a, va), b, vb), a, va).entries == [(b, vb), (a, va)]
  {
    var c1 := Add(Empty<V>(limit), a, va);
    assert c1.entries == [(a, va)];
    AddNewKeyAppends(c1, b, vb);
    var c2 := Add(c1, b, vb);
    assert c2.entries == [(a, va), (b, vb)];
    assert WithoutKey(c2.entries, a) == [(b, vb)];
  }

  /** One-character keys that differ in their character are different keys. */
  lemma FreshOneCharKey<V>(es: seq<(string, V)>, key: string)
    requires |key| == 1
    requires forall i :: 0 <= i < |es| ==> |es[i].0| == 1 && es[i].0[0] != key[0]
    ensures !HasKey(es, key)
  {
  }

  lemma FiveEntries()
    ensures AddAll(Empty<int>(5), [("1", 1), ("2", 2), ("3", 3), ("4", 4), ("5", 5)]).entries
      == [("1", 1), ("2", 2), ("3", 3), ("4", 4), ("5", 5)]
  {
    var pairs := [("1", 1), ("2", 2), ("3", 3), ("4", 4), ("5", 5)];
    assert DistinctKeys(Empty<int>(5).entries + pairs) by {
      forall i, j | 0 <= i < j < |pairs| ensures pairs[i].0 != pairs[j].0 {
        assert pairs[i].0[0] != pairs[j].0[0];
      }
    }
    AddAllAppends(Empty<int>(5), pairs);
  }

  lemma SixthEvicts()
    ensures Add(Cache([("1", 1), ("2", 2), ("3", 3), ("4", 4), ("5", 5)], 5), "6", 6).entries
      == [("2", 2), ("3", 3), ("4", 4), ("5", 5), ("6", 6)]
  {
    FreshOneCharKey([("1", 1), ("2", 2), ("3", 3), ("4", 4), ("5", 5)], "6");
    AddNewKeyEvicts(Cache([("1", 1), ("2", 2), ("3", 3), ("4", 4), ("5", 5)], 5), "6", 6);
  }

  lemma SeventhEvicts()
    ensures Add(Cache([("5", 5), ("6", 6)], 2), "7", 7).entries == [("6", 6), ("7", 7)]
  {
    FreshOneCharKey([("5", 5), ("6", 6)], "7");
    AddNewKeyEvicts(Cache([("5", 5), ("6", 6)], 2), "7", 7);
  }

  lemma EighthAppends()
    ensures Add(Cache([("6", 6), ("7", 7)], 3), "8", 8).entries == [("6", 6), ("7", 7), ("8", 8)]
  {
    FreshOneCharKey([("6", 6), ("7", 7)], "8");
    AddNewKeyAppends(Cache([("6", 6), ("7", 7)], 3), "8", 8);
  }

  lemma NinthEvicts()
    ensures Add(Cache([("6", 6), ("7", 7), ("8", 8)], 3), "9", 9).entries == [("7", 7), ("8", 8), ("9", 9)]
  {
    FreshOneCharKey([("6", 6), ("7", 7), ("8", 8)], "9");
    AddNewKeyEvicts(Cache([("6", 6), ("7", 7), ("8", 8)], 3), "9", 9);
  }

  /** The limit test: five entries fit, a sixth evicts, the limit drops to two and rises to three. */
  lemma LimitScenario()
    ensures var c5 := AddAll(Empty<int>(5), [("1", 1), ("2", 2), ("3", 3), ("4", 4), ("5", 5)]);
      var c6 := Add(c5, "6", 6);
      var c7 := Add(SetLimit(c6, 2), "7", 7);
      var c9 := Add(Add(SetLimit(c7, 3), "8", 8), "9", 9);
      && |c5.entries| == 5 && |c6.entries| == 5
      && |SetLimit(c6, 2).entries| == 2 && |c7.entries| == 2
      && |SetLimit(c7, 3).entries| == 2 && |Add(SetLimit(c7, 3), "8", 8).entries| == 3
      && c9.entries == [("7", 7), ("8", 8), ("9", 9)]
  {
    FiveEntries();
    var c5 := AddAll(Empty<int>(5), [("1", 1), ("2", 2), ("3", 3), ("4", 4), ("5", 5)]);
    assert c5 == Cache([("1", 1), ("2", 2), ("3", 3), ("4", 4), ("5", 5)], 5);
    SixthEvicts();
    var c6 := Add(c5, "6", 6);
    assert SetLimit(c6, 2) == Cache([("5", 5), ("6", 6)], 2);
    SeventhEvicts();
    var c7 := Add(SetLimit(c6, 2), "7", 7);
    assert SetLimit(c7, 3) == Cache([("6", 6), ("7", 7)], 3);
    EighthAppends();
    NinthEvicts();
  }
}
