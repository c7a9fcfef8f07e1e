/**
 * A `std::map<std::string, V>` as a sequence of entries kept strictly sorted by key:
 * iterating the map from `begin()` to `end()` visits the sequence from left to right.
 */
module SortedMap {
  import opened Wrappers
  import opened StringOrder

  datatype Entry<V> = Entry(key: string, value: V)

  /** Keys strictly increase, so no key occurs twice. */
  predicate Sorted<V>(m: seq<Entry<V>>) {
    forall i, j :: 0 <= i < j < |m| ==> Less(m[i].key, m[j].key)
  }

  function Keys<V>(m: seq<Entry<V>>): set<string> {
    set i | 0 <= i < |m| :: m[i].key
  }

  /** `map::find`: the value stored under `k`, if any (the leftmost one). */
  function Find<V>(m: seq<Entry<V>>, k: string): (r: Option<V>)
    ensures r.Some? <==> k in Keys(m)
    ensures r.Some? ==> exists i :: 0 <= i < |m| && m[i] == Entry(k, r.value)
  {
    if m == [] then None
    else if m[0].key == k then Some(m[0].value)
    else
      var r := Find(m[1..], k);
      assert Keys(m) == {m[0].key} + Keys(m[1..]) by {
        forall x | x in Keys(m) ensures x in {m[0].key} + Keys(m[1..]) {
          var i :| 0 <= i < |m| && m[i].key == x;
          if i > 0 { assert m[1..][i - 1].key == x; }
        }
      }
      assert r.Some? ==> exists i :: 0 <= i < |m| && m[i] == Entry(k, r.value) by {
        if r.Some? {
          var i :| 0 <= i < |m[1..]| && m[1..][i] == Entry(k, r.value);
          assert m[i + 1] == Entry(k, r.value);
        }
      }
      r
  }

  /** In a sorted map the entry holding a key is the only one with that key. */
  lemma FindSorted<V>(m: seq<Entry<V>>, i: int)
    requires Sorted(m) && 0 <= i < |m|
    ensures Find(m, m[i].key) == Some(m[i].value)
  {
    var r := Find(m, m[i].key);
    var j :| 0 <= j < |m| && m[j] == Entry(m[i].key, r.value);
    if j < i {
      LessIrreflexive(m[i].key);
    } else if i < j {
      LessIrreflexive(m[i].key);
    }
  }

  lemma KeysCons<V>(m: seq<Entry<V>>)
    requires |m| > 0
    ensures Keys(m) == {m[0].key} + Keys(m[1..])
  {
    forall x | x in Keys(m) ensures x in {m[0].key} + Keys(m[1..]) {
      var i :| 0 <= i < |m| && m[i].key == x;
      if i > 0 { assert m[1..][i - 1].key == x; }
    }
    forall x | x in Keys(m[1..]) ensures x in Keys(m) {
      var i :| 0 <= i < |m[1..]| && m[1..][i].key == x;
      assert m[i + 1].key == x;
    }
  }

  /**
   * `map[k] = v` for a key not yet present: the entry goes in front of the first
   * larger key.
   */
  function Insert<V>(m: seq<Entry<V>>, k: string, v: V): seq<Entry<V>>
    decreases |m|
  {
    if m == [] then [Entry(k, v)]
    else if Less(k, m[0].key) then [Entry(k, v)] + m
    else [m[0]] + Insert(m[1..], k, v)
  }

  /** Inserting adds exactly the key `k`, bound to `v`, and leaves every other key's value alone. */
  lemma {:induction false} InsertContents<V>(m: seq<Entry<V>>, k: string, v: V)
    requires k !in Keys(m)
    ensures |Insert(m, k, v)| == |m| + 1
    ensures Keys(Insert(m, k, v)) == Keys(m) + {k}
    ensures Find(Insert(m, k, v), k) == Some(v)
    ensures forall k' :: k' != k ==> Find(Insert(m, k, v), k') == Find(m, k')
    decreases |m|
  {
    var r := Insert(m, k, v);
    KeysCons(r);
    if m == [] {
    } else if Less(k, m[0].key) {
      assert r[1..] == m;
    } else {
      KeysCons(m);
      assert m[0].key in Keys(m);
      InsertContents(m[1..], k, v);
      assert r[1..] == Insert(m[1..], k, v);
    }
  }

  /** Inserting a fresh key into a sorted map keeps it sorted. */
  lemma {:induction false} InsertSorted<V>(m: seq<Entry<V>>, k: string, v: V)
    requires Sorted(m) && k !in Keys(m)
    ensures Sorted(Insert(m, k, v))
    decreases |m|
  {
    if m == [] {
    } else if Less(k, m[0].key) {
      InsertFrontSorted(m, k, v);
    } else {
      assert m[0].key in Keys(m);
      LessTotal(k, m[0].key);
      KeysCons(m);
      InsertSorted(m[1..], k, v);
      InsertContents(m[1..], k, v);
      ConsSorted(m[0], Insert(m[1..], k, v), m[1..], k);
    }
  }

  lemma InsertFrontSorted<V>(m: seq<Entry<V>>, k: string, v: V)
    requires Sorted(m) && |m| > 0 && Less(k, m[0].key)
    ensures Sorted([Entry(k, v)] + m)
  {
    var r := [Entry(k, v)] + m;
    forall i, j | 0 <= i < j < |r| ensures Less(r[i].key, r[j].key) {
      if i == 0 && j > 1 {
        LessTransitive(k, m[0].key, m[j - 1].key);
      } else if i > 0 {
        assert r[i] == m[i - 1] && r[j] == m[j - 1];
      }
    }
  }

  /** A head smaller than every key of a sorted sequence can be put in front of it. */
  lemma ConsSorted<V>(e: Entry<V>, rest: seq<Entry<V>>, tail: seq<Entry<V>>, k: string)
    requires Sorted(rest) && Sorted([e] + tail) && Less(e.key, k)
    requires Keys(rest) == Keys(tail) + {k}
    ensures Sorted([e] + rest)
  {
    var r := [e] + rest;
    forall j | 0 <= j < |rest| ensures Less(e.key, rest[j].key) {
      assert rest[j].key in Keys(rest);
      if rest[j].key != k {
        var i :| 0 <= i < |tail| && tail[i].key == rest[j].key;
        var et := [e] + tail;
        assert et[0] == e && et[i + 1].key == rest[j].key;
        assert Less(et[0].key, et[i + 1].key);
      }
    }
    forall i, j | 0 <= i < j < |r| ensures Less(r[i].key, r[j].key) {
      if i == 0 {
        assert r[j] == rest[j - 1];
      } else {
        assert r[i] == rest[i - 1] && r[j] == rest[j - 1];
      }
    }
  }
}
