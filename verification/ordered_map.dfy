/**
  Insertion-ordered string-keyed maps: the shape of a JavaScript `Map` and of
  a plain object used as a dictionary. Writing an existing key replaces its
  value in place; writing a new key appends it. A `for ... in` loop over a
  plain object visits array-index keys first, in ascending numeric order, and
  then the other keys in insertion order (`ForInOrder`).
 */
module OrderedMap {
  import opened Wrappers
  import JsText

  datatype OMap<V> = OMap(keys: seq<string>, vals: map<string, V>) {

    /** The key sequence lists each bound key exactly once. */
    predicate Valid()
    {
      && (forall i, j | 0 <= i < j < |keys| :: keys[i] != keys[j])
      && (forall i | 0 <= i < |keys| :: keys[i] in vals)
      && (forall k | k in vals :: k in keys)
    }
  }

  function Empty<V>(): (m: OMap<V>)
    ensures m.Valid() && m.vals == map[]
  {
    OMap([], map[])
  }

  /** `m.get(k)`, with `None` for `undefined`. */
  function Get<V>(m: OMap<V>, k: string): Option<V>
  {
    if k in m.vals then Some(m.vals[k]) else None
  }

  /** `m.set(k, v)` / `obj[k] = v`. */
  function Put<V>(m: OMap<V>, k: string, v: V): (r: OMap<V>)
    requires m.Valid()
    ensures r.Valid()
    ensures r.vals == m.vals[k := v]
    ensures Get(r, k) == Some(v)
    ensures forall k' | k' != k :: Get(r, k') == Get(m, k')
    ensures k in m.vals ==> r.keys == m.keys
    ensures k !in m.vals ==> r.keys == m.keys + [k]
  {
    if k in m.vals then OMap(m.keys, m.vals[k := v])
    else OMap(m.keys + [k], m.vals[k := v])
  }

  /** `Array.from(m.values())`: the values in key order. */
  function Values<V>(m: OMap<V>): (vs: seq<V>)
    requires m.Valid()
    ensures |vs| == |m.keys|
    ensures forall i | 0 <= i < |vs| :: vs[i] == m.vals[m.keys[i]]
  {
    seq(|m.keys|, i requires 0 <= i < |m.keys| => m.vals[m.keys[i]])
  }

  // ------------------------------------------------------- for-in key order

  predicate AllDecimalDigits(k: string)
  {
    forall i | 0 <= i < |k| :: '0' <= k[i] <= '9'
  }

  /** A canonical numeral below 2^32 - 1: the keys an object keeps in numeric order. */
  predicate IsArrayIndex(k: string)
  {
    && |k| >= 1
    && AllDecimalDigits(k)
    && (k[0] != '0' || |k| == 1)
    && JsText.DigitsValue(k, 10) < 0xFFFF_FFFF
  }

  function IndexValue(k: string): nat
  {
    JsText.DigitsValue(k, 10)
  }

  predicate IndexSorted(ks: seq<string>)
  {
    forall i, j | 0 <= i < j < |ks| :: IndexValue(ks[i]) <= IndexValue(ks[j])
  }

  /** Inserts `k` into an ascending sequence, before the first larger entry. */
  function InsertByIndex(k: string, ks: seq<string>): (r: seq<string>)
    requires IndexSorted(ks)
    ensures IndexSorted(r)
    ensures multiset(r) == multiset(ks) + multiset{k}
  {
    if |ks| == 0 then [k]
    else if IndexValue(k) <= IndexValue(ks[0]) then
      ConsSorted(k, ks);
      [k] + ks
    else
      var rest := InsertByIndex(k, ks[1..]);
      HeadBelow(k, ks, rest);
      ConsSorted(ks[0], rest);
      assert ks == [ks[0]] + ks[1..];
      [ks[0]] + rest
  }

  /** A head no larger than any entry of a sorted tail keeps it sorted. */
  lemma {:induction false} ConsSorted(h: string, t: seq<string>)
    requires IndexSorted(t)
    requires |t| > 0 ==> IndexValue(h) <= IndexValue(t[0])
    ensures IndexSorted([h] + t)
  {
    var r := [h] + t;
    forall i, j | 0 <= i < j < |r|
      ensures IndexValue(r[i]) <= IndexValue(r[j])
    {
      if i == 0 {
        assert r[j] == t[j - 1];
        assert IndexValue(t[0]) <= IndexValue(t[j - 1]) || j == 1;
      } else {
        assert r[i] == t[i - 1] && r[j] == t[j - 1];
      }
    }
  }

  /** Inserting a larger `k` into the tail of a sorted sequence leaves its head the smallest. */
  lemma {:induction false} HeadBelow(k: string, ks: seq<string>, rest: seq<string>)
    requires IndexSorted(ks) && |ks| > 0 && IndexValue(ks[0]) < IndexValue(k)
    requires multiset(rest) == multiset(ks[1..]) + multiset{k}
    ensures |rest| > 0 ==> IndexValue(ks[0]) <= IndexValue(rest[0])
  {
    if |rest| > 0 {
      var x := rest[0];
      assert x in multiset(rest);
      if x != k {
        assert x in multiset(ks[1..]);
        var j :| 0 <= j < |ks[1..]| && ks[1..][j] == x;
        assert ks[j + 1] == x;
      }
    }
  }

  /** Insertion sort by numeric value. */
  function SortByIndex(ks: seq<string>): (r: seq<string>)
    ensures IndexSorted(r)
    ensures multiset(r) == multiset(ks)
  {
    if |ks| == 0 then []
    else
      assert ks == ks[..|ks| - 1] + [ks[|ks| - 1]];
      InsertByIndex(ks[|ks| - 1], SortByIndex(ks[..|ks| - 1]))
  }

  /** The keys of `ks` that are array indices (`want`) or that are not (`!want`), in order. */
  function FilterIndex(ks: seq<string>, want: bool): (r: seq<string>)
    ensures forall i | 0 <= i < |r| :: IsArrayIndex(r[i]) == want
  {
    if |ks| == 0 then []
    else
      assert ks == [ks[0]] + ks[1..];
      (if IsArrayIndex(ks[0]) == want then [ks[0]] else []) + FilterIndex(ks[1..], want)
  }

  lemma {:induction false} FilterIndexSplits(ks: seq<string>)
    ensures multiset(FilterIndex(ks, true)) + multiset(FilterIndex(ks, false)) == multiset(ks)
  {
    if |ks| > 0 {
      var k, rest := ks[0], ks[1..];
      FilterIndexSplits(rest);
      assert ks == [k] + rest;
      var a, b := FilterIndex(rest, true), FilterIndex(rest, false);
      if IsArrayIndex(k) {
        assert FilterIndex(ks, true) == [k] + a && FilterIndex(ks, false) == b;
      } else {
        assert FilterIndex(ks, true) == a && FilterIndex(ks, false) == [k] + b;
      }
    }
  }

  /**
    The order in which `for (k in obj)` visits the keys of an object whose
    keys were inserted in the order `ks`.
   */
  function ForInOrder(ks: seq<string>): (r: seq<string>)
    ensures multiset(r) == multiset(ks)
    ensures forall i, j | 0 <= i < j < |r| && IsArrayIndex(r[j]) ::
              IsArrayIndex(r[i]) && IndexValue(r[i]) <= IndexValue(r[j])
  {
    FilterIndexSplits(ks);
    var idx := SortByIndex(FilterIndex(ks, true));
    var other := FilterIndex(ks, false);
    SortedIndicesFirst(idx, other);
    idx + other
  }

  /** Sorted array indices followed by non-indices satisfy the enumeration order. */
  lemma {:induction false} SortedIndicesFirst(idx: seq<string>, other: seq<string>)
    requires IndexSorted(idx)
    requires forall x | x in multiset(idx) :: IsArrayIndex(x)
    requires forall i | 0 <= i < |other| :: !IsArrayIndex(other[i])
    ensures forall i, j | 0 <= i < j < |idx + other| && IsArrayIndex((idx + other)[j]) ::
              IsArrayIndex((idx + other)[i]) && IndexValue((idx + other)[i]) <= IndexValue((idx + other)[j])
  {
    var r := idx + other;
    assert forall k | |idx| <= k < |r| :: r[k] == other[k - |idx|];
    forall i, j | 0 <= i < j < |r| && IsArrayIndex(r[j])
      ensures IsArrayIndex(r[i]) && IndexValue(r[i]) <= IndexValue(r[j])
    {
      assert r[i] == idx[i] && r[j] == idx[j];
      assert idx[i] in multiset(idx);
    }
  }

  /** The keys that are not array indices keep their insertion order. */
  lemma {:induction false} ForInOrderKeepsOthers(ks: seq<string>)
    ensures FilterIndex(ForInOrder(ks), false) == FilterIndex(ks, false)
  {
    var idx := SortByIndex(FilterIndex(ks, true));
    FilterAppend(idx, FilterIndex(ks, false));
    assert forall x | x in idx :: IsArrayIndex(x) by {
      forall x | x in idx
        ensures IsArrayIndex(x)
      {
        assert x in multiset(FilterIndex(ks, true));
      }
    }
    FilterAll(idx, true);
    FilterAll(FilterIndex(ks, false), false);
  }

  lemma {:induction false} FilterAppend(a: seq<string>, b: seq<string>)
    ensures FilterIndex(a + b, false) == FilterIndex(a, false) + FilterIndex(b, false)
  {
    if |a| > 0 {
      FilterAppend(a[1..], b);
      assert (a + b)[1..] == a[1..] + b;
    } else {
      assert a + b == b;
    }
  }

  lemma {:induction false} FilterAll(a: seq<string>, want: bool)
    ensures (forall x | x in a :: IsArrayIndex(x) == want) ==> FilterIndex(a, want) == a
    ensures (forall x | x in a :: IsArrayIndex(x) == want) ==> FilterIndex(a, !want) == []
  {
    if |a| > 0 {
      FilterAll(a[1..], want);
      assert a == [a[0]] + a[1..];
      assert forall x | x in a[1..] :: x in a;
    }
  }

  /** Each key is visited exactly as often as it was inserted. */
  lemma {:induction false} ForInOrderMembers(ks: seq<string>)
    ensures forall k :: k in ForInOrder(ks) <==> k in ks
  {
    var r := ForInOrder(ks);
    forall k
      ensures k in r <==> k in ks
    {
      assert k in r <==> k in multiset(r);
      assert k in ks <==> k in multiset(ks);
    }
  }
}
