/**
 * The plain JavaScript object the indexer uses as its series map: own string-keyed
 * properties kept in creation order, `obj[k]` lookup, `obj[k] = v` assignment, and the key
 * order Object.keys reports (section 10.1.11.1 of ECMA-262, OrdinaryOwnPropertyKeys): first
 * the keys that are array indices, in ascending numeric order, then the other keys in the
 * order they were created.
 */
module JsObject {
  import opened Wrappers

  /** The own properties of an object, in creation order. */
  type Object<V> = seq<(string, V)>

  /** The property names in creation order. */
  function Keys<V>(m: Object<V>): (r: seq<string>)
    ensures |r| == |m|
  {
    if m == [] then [] else [m[0].0] + Keys(m[1..])
  }

  /** The i-th key is the name of the i-th property. */
  lemma {:induction false} KeysAt<V>(m: Object<V>)
    ensures |Keys(m)| == |m|
    ensures forall i :: 0 <= i < |m| ==> Keys(m)[i] == m[i].0
  {
    if m != [] {
      KeysAt(m[1..]);
      assert forall i :: 1 <= i < |m| ==> Keys(m)[i] == Keys(m[1..])[i - 1];
    }
  }

  /** No property name occurs twice: what every object built by Put satisfies. */
  ghost predicate DistinctKeys<V>(m: Object<V>)
  {
    forall i, j :: 0 <= i < j < |m| ==> m[i].0 != m[j].0
  }

  /** `obj[k]`: the value of property k, or None where JavaScript yields undefined. */
  function Get<V>(m: Object<V>, k: string): Option<V>
  {
    if m == [] then None
    else if m[0].0 == k then Some(m[0].1)
    else Get(m[1..], k)
  }

  /** A lookup finds a value exactly for the object's own keys, and the value stored with it. */
  lemma {:induction false} GetFindsKeys<V>(m: Object<V>, k: string)
    ensures Get(m, k).None? <==> k !in Keys(m)
    ensures Get(m, k).Some? ==> exists i :: 0 <= i < |m| && m[i] == (k, Get(m, k).value)
  {
    if m != [] && m[0].0 != k {
      GetFindsKeys(m[1..], k);
      if Get(m, k).Some? {
        var i :| 0 <= i < |m[1..]| && m[1..][i] == (k, Get(m, k).value);
        assert m[i + 1] == (k, Get(m, k).value);
      }
    }
  }

  /**
   * `obj[k] = v`: an existing property keeps its place and gets the new value; a new
   * property goes after all the existing ones.
   */
  function Put<V>(m: Object<V>, k: string, v: V): (r: Object<V>)
    ensures Get(r, k) == Some(v)
    ensures |m| <= |r| <= |m| + 1
  {
    if m == [] then [(k, v)]
    else if m[0].0 == k then [(k, v)] + m[1..]
    else [m[0]] + Put(m[1..], k, v)
  }

  /** Assignment changes no other property. */
  lemma {:induction false} GetPutOther<V>(m: Object<V>, k: string, v: V, k': string)
    requires k' != k
    ensures Get(Put(m, k, v), k') == Get(m, k')
  {
    if m != [] && m[0].0 != k {
      GetPutOther(m[1..], k, v, k');
      assert Put(m, k, v)[1..] == Put(m[1..], k, v);
    }
  }

  /** Assignment keeps the creation order, adding a new key at the end. */
  lemma {:induction false} KeysPut<V>(m: Object<V>, k: string, v: V)
    ensures k in Keys(m) ==> Keys(Put(m, k, v)) == Keys(m)
    ensures k !in Keys(m) ==> Keys(Put(m, k, v)) == Keys(m) + [k]
  {
    if m != [] {
      if m[0].0 == k {
        assert Put(m, k, v)[1..] == m[1..];
      } else {
        KeysPut(m[1..], k, v);
        assert Put(m, k, v)[1..] == Put(m[1..], k, v);
        assert Keys(m) == [m[0].0] + Keys(m[1..]);
      }
    }
  }

  /** Assigning a property twice leaves what assigning the second value once leaves. */
  lemma {:induction false} PutPut<V>(m: Object<V>, k: string, v: V, w: V)
    ensures Put(Put(m, k, v), k, w) == Put(m, k, w)
  {
    if m != [] && m[0].0 != k {
      PutPut(m[1..], k, v, w);
      assert Put(m, k, v)[1..] == Put(m[1..], k, v);
    }
  }

  /** Assignment never creates a second property with the same name. */
  lemma PutKeepsDistinct<V>(m: Object<V>, k: string, v: V)
    requires DistinctKeys(m)
    ensures DistinctKeys(Put(m, k, v))
  {
    var r := Put(m, k, v);
    KeysPut(m, k, v);
    KeysAt(m);
    KeysAt(r);
    if k !in Keys(m) {
      forall i, j | 0 <= i < j < |r| ensures r[i].0 != r[j].0 {
        if j == |m| {
          assert Keys(r)[j] == k;
          assert Keys(r)[i] == Keys(m)[i];
        } else {
          assert Keys(r)[i] == Keys(m)[i] && Keys(r)[j] == Keys(m)[j];
        }
      }
    } else {
      forall i, j | 0 <= i < j < |r| ensures r[i].0 != r[j].0 {
        assert Keys(r)[i] == Keys(m)[i] && Keys(r)[j] == Keys(m)[j];
      }
    }
  }

  predicate IsDigit(c: char)
  {
    '0' <= c <= '9'
  }

  /** The value of a string of decimal digits (a non-digit counts as 0). */
  function DecimalValue(s: string): nat
  {
    if s == [] then 0
    else
      var c := s[|s| - 1];
      DecimalValue(s[..|s| - 1]) * 10 + (if IsDigit(c) then c as int - '0' as int else 0)
  }

  /**
   * An array index: the canonical decimal form (no sign, no leading zero) of an integer
   * below 2^32 - 1.
   */
  predicate IsArrayIndex(s: string)
  {
    && |s| > 0
    && (forall i :: 0 <= i < |s| ==> IsDigit(s[i]))
    && (s[0] == '0' ==> |s| == 1)
    && DecimalValue(s) < 0xFFFF_FFFF
  }

  /** The array-index keys of ks, in the order of ks. */
  function IndexKeys(ks: seq<string>): (r: seq<string>)
    ensures forall i :: 0 <= i < |r| ==> IsArrayIndex(r[i])
  {
    if ks == [] then []
    else (if IsArrayIndex(ks[0]) then [ks[0]] else []) + IndexKeys(ks[1..])
  }

  /** The other keys of ks, in the order of ks. */
  function NamedKeys(ks: seq<string>): (r: seq<string>)
    ensures forall i :: 0 <= i < |r| ==> !IsArrayIndex(r[i])
  {
    if ks == [] then []
    else (if IsArrayIndex(ks[0]) then [] else [ks[0]]) + NamedKeys(ks[1..])
  }

  /** Splitting keys into array indices and the others loses and adds nothing. */
  lemma {:induction false} SplitKeysIsPartition(ks: seq<string>)
    ensures multiset(IndexKeys(ks)) + multiset(NamedKeys(ks)) == multiset(ks)
  {
    if ks != [] {
      SplitKeysIsPartition(ks[1..]);
      assert ks == [ks[0]] + ks[1..];
    }
  }

  /** Each key's numeric value is at most the next key's. */
  ghost predicate SortedByValue(ks: seq<string>)
  {
    forall i :: 0 < i < |ks| ==> DecimalValue(ks[i - 1]) <= DecimalValue(ks[i])
  }

  /** Inserts k into keys sorted by numeric value, before the first larger one. */
  function InsertByValue(k: string, ks: seq<string>): seq<string>
  {
    if ks == [] then [k]
    else if DecimalValue(k) <= DecimalValue(ks[0]) then [k] + ks
    else [ks[0]] + InsertByValue(k, ks[1..])
  }

  /** Insertion adds exactly k. */
  lemma {:induction false} InsertByValueAddsKey(k: string, ks: seq<string>)
    ensures multiset(InsertByValue(k, ks)) == multiset(ks) + multiset{k}
  {
    if ks != [] && DecimalValue(k) > DecimalValue(ks[0]) {
      InsertByValueAddsKey(k, ks[1..]);
      assert ks == [ks[0]] + ks[1..];
    }
  }

  /** Insertion into sorted keys keeps them sorted; the first key is k or the old first key. */
  lemma {:induction false} InsertByValueSorts(k: string, ks: seq<string>)
    requires SortedByValue(ks)
    ensures SortedByValue(InsertByValue(k, ks))
    ensures InsertByValue(k, ks)[0] == k || (ks != [] && InsertByValue(k, ks)[0] == ks[0])
  {
    if ks != [] && DecimalValue(k) > DecimalValue(ks[0]) {
      var t := InsertByValue(k, ks[1..]);
      InsertByValueSorts(k, ks[1..]);
      var r := [ks[0]] + t;
      assert r == InsertByValue(k, ks);
      assert DecimalValue(r[0]) <= DecimalValue(r[1]);
      forall i | 1 < i < |r| ensures DecimalValue(r[i - 1]) <= DecimalValue(r[i]) {
        assert r[i - 1] == t[i - 2] && r[i] == t[i - 1];
      }
    }
  }

  /** Insertion sort of keys by numeric value. */
  function SortByValue(ks: seq<string>): seq<string>
  {
    if ks == [] then [] else InsertByValue(ks[0], SortByValue(ks[1..]))
  }

  /** Sorting yields the same keys, in ascending numeric order. */
  lemma {:induction false} SortByValueSorts(ks: seq<string>)
    ensures multiset(SortByValue(ks)) == multiset(ks)
    ensures SortedByValue(SortByValue(ks))
  {
    if ks != [] {
      SortByValueSorts(ks[1..]);
      InsertByValueAddsKey(ks[0], SortByValue(ks[1..]));
      InsertByValueSorts(ks[0], SortByValue(ks[1..]));
      assert ks == [ks[0]] + ks[1..];
    }
  }

  /**
   * Object.keys: the array-index keys in ascending numeric order, then the other keys in
   * creation order.
   */
  function ObjectKeys<V>(m: Object<V>): (r: seq<string>)
    ensures |r| == |m|
  {
    var ks := Keys(m);
    SplitKeysIsPartition(ks);
    SortByValueSorts(IndexKeys(ks));
    assert |multiset(SortByValue(IndexKeys(ks)))| + |multiset(NamedKeys(ks))| == |multiset(ks)|;
    SortByValue(IndexKeys(Keys(m))) + NamedKeys(Keys(m))
  }

  /** Sorting the array-index keys keeps them array indices. */
  lemma SortedIndexKeysAreIndices(ks: seq<string>)
    ensures forall i :: 0 <= i < |SortByValue(IndexKeys(ks))| ==> IsArrayIndex(SortByValue(IndexKeys(ks))[i])
  {
    var ix := SortByValue(IndexKeys(ks));
    SortByValueSorts(IndexKeys(ks));
    forall i | 0 <= i < |ix| ensures IsArrayIndex(ix[i]) {
      assert ix[i] in multiset(IndexKeys(ks));
      var j :| 0 <= j < |IndexKeys(ks)| && IndexKeys(ks)[j] == ix[i];
    }
  }

  /** Object.keys lists every own key, each as often as it is a property name. */
  lemma ObjectKeysIsPermutation<V>(m: Object<V>)
    ensures multiset(ObjectKeys(m)) == multiset(Keys(m))
  {
    var ks := Keys(m);
    SplitKeysIsPartition(ks);
    SortByValueSorts(IndexKeys(ks));
    assert |multiset(SortByValue(IndexKeys(ks)))| + |multiset(NamedKeys(ks))| == |multiset(ks)|;
  }

  /**
   * Object.keys lists every own key once, array indices first and ascending, then the
   * other keys in creation order.
   */
  lemma ObjectKeysOrder<V>(m: Object<V>)
    ensures multiset(ObjectKeys(m)) == multiset(Keys(m))
    ensures exists p :: (0 <= p <= |ObjectKeys(m)|
      && SortedByValue(ObjectKeys(m)[..p])
      && (forall i :: 0 <= i < p ==> IsArrayIndex(ObjectKeys(m)[i]))
      && ObjectKeys(m)[p..] == NamedKeys(Keys(m)))
  {
    var ks := Keys(m);
    var ix := SortByValue(IndexKeys(ks));
    var r := ObjectKeys(m);
    ObjectKeysIsPermutation(m);
    SortByValueSorts(IndexKeys(ks));
    SortedIndexKeysAreIndices(ks);
    assert r == ix + NamedKeys(ks);
    assert r[..|ix|] == ix && r[|ix|..] == NamedKeys(ks);
    var p := |ix|;
    assert 0 <= p <= |r| && SortedByValue(r[..p]) && (forall i :: 0 <= i < p ==> IsArrayIndex(r[i]))
      && r[p..] == NamedKeys(Keys(m));
  }

  /** Every key Object.keys lists is a property of the object, and the other way round. */
  lemma ObjectKeysAreKeys<V>(m: Object<V>, k: string)
    ensures k in ObjectKeys(m) <==> k in Keys(m)
  {
    ObjectKeysOrder(m);
    assert k in ObjectKeys(m) <==> k in multiset(ObjectKeys(m));
    assert k in Keys(m) <==> k in multiset(Keys(m));
  }

  /** A sequence without repeats holds each value at most once. */
  lemma {:induction false} MultiplicityOfDistinct(s: seq<string>, x: string)
    requires forall i, j :: 0 <= i < j < |s| ==> s[i] != s[j]
    ensures multiset(s)[x] <= 1
  {
    if s != [] {
      var rest := s[1..];
      assert s == [s[0]] + rest;
      MultiplicityOfDistinct(rest, x);
      if s[0] == x {
        assert forall i :: 0 <= i < |rest| ==> rest[i] == s[i + 1];
        assert x !in rest;
      }
    }
  }

  /** A value at two positions is held at least twice. */
  lemma RepeatedMultiplicity(s: seq<string>, i: nat, j: nat)
    requires i < j < |s| && s[i] == s[j]
    ensures multiset(s)[s[i]] >= 2
  {
    assert s == s[..j] + [s[j]] + s[j + 1..];
    assert s[..j][i] == s[i];
    assert s[i] in multiset(s[..j]);
  }

  /** Object.keys never lists a key twice. */
  lemma ObjectKeysDistinct<V>(m: Object<V>)
    requires DistinctKeys(m)
    ensures forall i, j :: 0 <= i < j < |ObjectKeys(m)| ==> ObjectKeys(m)[i] != ObjectKeys(m)[j]
  {
    var ks := Keys(m);
    var r := ObjectKeys(m);
    KeysAt(m);
    ObjectKeysIsPermutation(m);
    forall i, j | 0 <= i < j < |r| ensures r[i] != r[j] {
      if r[i] == r[j] {
        RepeatedMultiplicity(r, i, j);
        MultiplicityOfDistinct(ks, r[i]);
        assert false;
      }
    }
  }
}
