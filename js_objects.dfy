/**
 * Plain JavaScript objects used as dictionaries: their own properties in
 * insertion order, `o[k]` lookup and `o[k] = v` update, and the order in
 * which `Object.entries` lists integer-like keys (ascending numeric order,
 * whatever the order of insertion).  The charts key objects by year and
 * rely on that order for their x axis.
 */
module JsObjects {
  import opened Wrappers

  /** A plain object: its own properties, in insertion order. */
  type JsObject<K, V> = seq<(K, V)>

  function Keys<K, V>(o: JsObject<K, V>): seq<K> {
    seq(|o|, i requires 0 <= i < |o| => o[i].0)
  }

  predicate UniqueKeys<K(==), V>(o: JsObject<K, V>) {
    forall i, j :: 0 <= i < j < |o| ==> o[i].0 != o[j].0
  }

  /** Appending a property appends its key. */
  lemma KeysSnoc<K, V>(o: JsObject<K, V>, k: K, v: V)
    ensures Keys(o + [(k, v)]) == Keys(o) + [k]
  {
  }

  /** `o[k]`: the value stored under `k`, or None for `undefined`. */
  function Get<K(==), V>(o: JsObject<K, V>, k: K): Option<V> {
    if o == [] then None
    else if o[|o| - 1].0 == k then Some(o[|o| - 1].1)
    else Get(o[..|o| - 1], k)
  }

  /** `o[k]` is `undefined` exactly when no property has key `k`. */
  lemma {:induction false} Absent<K, V>(o: JsObject<K, V>, k: K)
    ensures Get(o, k).None? <==> forall i :: 0 <= i < |o| ==> o[i].0 != k
  {
    if o != [] && o[|o| - 1].0 != k {
      Absent(o[..|o| - 1], k);
    }
  }

  /** In an object with unique keys, every stored property is what `o[k]` returns. */
  lemma {:induction false} GetStored<K, V>(o: JsObject<K, V>, i: int)
    requires UniqueKeys(o) && 0 <= i < |o|
    ensures Get(o, o[i].0) == Some(o[i].1)
  {
    if i < |o| - 1 {
      GetStored(o[..|o| - 1], i);
    }
  }

  /** `o[k] = v`: overwrites an existing property in place, or appends a new one. */
  function Put<K(==,!new), V>(o: JsObject<K, V>, k: K, v: V): (r: JsObject<K, V>)
    ensures Get(r, k) == Some(v)
    ensures forall j :: j != k ==> Get(r, j) == Get(o, j)
  {
    if Get(o, k).None? then o + [(k, v)]
    else
      var init, last := o[..|o| - 1], o[|o| - 1];
      if last.0 == k then init + [(k, v)]
      else
        assert o == init + [last];
        Put(init, k, v) + [last]
  }

  /** Overwriting keeps every key where it was; a new key goes last; keys stay unique. */
  lemma {:induction false} PutKeys<K(!new), V>(o: JsObject<K, V>, k: K, v: V)
    ensures Get(o, k).None? ==> Put(o, k, v) == o + [(k, v)]
    ensures Get(o, k).Some? ==>
      |Put(o, k, v)| == |o| && forall i :: 0 <= i < |o| ==> Put(o, k, v)[i].0 == o[i].0
    ensures UniqueKeys(o) ==> UniqueKeys(Put(o, k, v))
  {
    Absent(o, k);
    if Get(o, k).Some? {
      var init, last := o[..|o| - 1], o[|o| - 1];
      if last.0 != k {
        PutKeys(init, k, v);
        var r := Put(init, k, v) + [last];
        assert forall i :: 0 <= i < |o| ==> r[i].0 == o[i].0;
      }
    }
  }

  predicate Ascending(s: seq<int>) {
    forall i, j :: 0 <= i < j < |s| ==> s[i] < s[j]
  }

  predicate AscendingKeys<V>(o: JsObject<int, V>) {
    forall i, j :: 0 <= i < j < |o| ==> o[i].0 < o[j].0
  }

  /** How many entries of an ascending object have a key below `k`. */
  function Position<V>(s: JsObject<int, V>, k: int): (p: nat)
    requires AscendingKeys(s)
    ensures p <= |s|
    ensures forall i :: 0 <= i < p ==> s[i].0 < k
    ensures forall i :: p <= i < |s| ==> s[i].0 >= k
  {
    if s == [] || s[|s| - 1].0 < k then |s| else Position(s[..|s| - 1], k)
  }

  function InsertEntry<V(==)>(s: JsObject<int, V>, e: (int, V)): (r: JsObject<int, V>)
    requires AscendingKeys(s) && forall i :: 0 <= i < |s| ==> s[i].0 != e.0
    ensures AscendingKeys(r)
    ensures multiset(r) == multiset(s) + multiset{e}
  {
    var p := Position(s, e.0);
    assert s == s[..p] + s[p..];
    s[..p] + [e] + s[p..]
  }

  /**
   * `Object.entries(o)` for an object whose keys are all integer-like: the
   * same properties, listed in ascending key order.
   */
  function Entries<V(==)>(o: JsObject<int, V>): (r: JsObject<int, V>)
    requires UniqueKeys(o)
    ensures AscendingKeys(r)
    ensures multiset(r) == multiset(o)
  {
    if o == [] then []
    else
      var init, last := o[..|o| - 1], o[|o| - 1];
      assert o == init + [last];
      var sorted := Entries(init);
      assert forall i :: 0 <= i < |sorted| ==> sorted[i].0 != last.0 by {
        forall i | 0 <= i < |sorted| ensures sorted[i].0 != last.0 {
          assert sorted[i] in multiset(init);
          var j :| 0 <= j < |init| && init[j] == sorted[i];
          assert o[j] == init[j];
        }
      }
      InsertEntry(sorted, last)
  }

  /** Every listed entry is a stored property: `o[k]` is its value. */
  lemma EntryStored<V>(o: JsObject<int, V>, i: int)
    requires UniqueKeys(o) && 0 <= i < |Entries(o)|
    ensures Get(o, Entries(o)[i].0) == Some(Entries(o)[i].1)
  {
    var e := Entries(o);
    assert e[i] in multiset(o);
    var j :| 0 <= j < |o| && o[j] == e[i];
    GetStored(o, j);
  }

  lemma EntryListed<V>(o: JsObject<int, V>, k: int)
    requires UniqueKeys(o) && Get(o, k).Some?
    ensures k in Keys(Entries(o))
  {
    var e := Entries(o);
    Absent(o, k);
    var j :| 0 <= j < |o| && o[j].0 == k;
    assert o[j] in multiset(e);
    var i :| 0 <= i < |e| && e[i] == o[j];
    assert Keys(e)[i] == k;
  }

  /** `Object.entries` lists the defined keys, ascending, whatever the insertion order. */
  lemma EntryKeys<V>(o: JsObject<int, V>, ks: seq<int>)
    requires UniqueKeys(o) && Ascending(ks)
    requires forall k :: Get(o, k).Some? <==> k in ks
    ensures Keys(Entries(o)) == ks
  {
    var e := Entries(o);
    forall k ensures k in Keys(e) <==> k in ks {
      if k in ks {
        EntryListed(o, k);
      }
      if k in Keys(e) {
        var i :| 0 <= i < |e| && Keys(e)[i] == k;
        EntryStored(o, i);
      }
    }
    AscendingUnique(Keys(e), ks);
  }

  /** Adds `k` to an ascending sequence, keeping it ascending and duplicate-free. */
  function InsertAscending(s: seq<int>, k: int): (r: seq<int>)
    requires Ascending(s)
    ensures Ascending(r)
    ensures forall x :: x in r <==> x in s || x == k
  {
    if s == [] then [k]
    else if s[|s| - 1] < k then s + [k]
    else if s[|s| - 1] == k then s
    else
      var init, last := s[..|s| - 1], s[|s| - 1];
      assert s == init + [last];
      var r := InsertAscending(init, k);
      assert forall i :: 0 <= i < |r| ==> r[i] < last by {
        forall i | 0 <= i < |r| ensures r[i] < last {
          assert r[i] in r;
          if r[i] != k {
            var j :| 0 <= j < |init| && init[j] == r[i];
            assert s[j] == init[j];
          }
        }
      }
      r + [last]
  }

  /** The distinct values of `xs`, ascending: the key order of an object keyed by them. */
  function AscendingDistinct(xs: seq<int>): (r: seq<int>)
    ensures Ascending(r)
    ensures forall x :: x in r <==> x in xs
  {
    if xs == [] then []
    else
      var init := xs[..|xs| - 1];
      assert forall x :: x in xs <==> x in init || x == xs[|xs| - 1];
      InsertAscending(AscendingDistinct(init), xs[|xs| - 1])
  }

  lemma HeadIsMember(s: seq<int>)
    requires s != []
    ensures s[0] in s
  {
  }

  /** An ascending sequence is determined by its elements. */
  lemma {:induction false} AscendingUnique(a: seq<int>, b: seq<int>)
    requires Ascending(a) && Ascending(b)
    requires forall x :: x in a <==> x in b
    ensures a == b
  {
    if a == [] {
      if b != [] {
        HeadIsMember(b);
        assert false;
      }
    } else {
      assert a[0] in b && b[0] in a;
      assert a[0] == b[0];
      forall x
        ensures x in a[1..] <==> x in b[1..]
      {
        assert x in a[1..] <==> x in a && x != a[0];
        assert x in b[1..] <==> x in b && x != b[0];
      }
      AscendingUnique(a[1..], b[1..]);
      assert a == [a[0]] + a[1..];
      assert b == [b[0]] + b[1..];
    }
  }
}
