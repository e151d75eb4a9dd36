/**
 * The ordinary JavaScript objects send_sample_request.js builds as
 * dictionaries (`inputValues`, `parameters.header`, `parameters.body`): own
 * string-valued properties, remembered in creation order, with the property
 * order `Object.entries` reports (section 10.1.11.1 of ECMA-262,
 * OrdinaryOwnPropertyKeys).
 */
module JsObject {
  import opened Wrappers

  /** `keys` lists the own properties in creation order; `values` holds their values. */
  datatype Object = Object(keys: seq<string>, values: map<string, string>)
  {
    ghost predicate Valid() {
      && Distinct(keys)
      && (forall k :: k in values <==> k in keys)
    }
  }

  ghost predicate Distinct(ks: seq<string>) {
    forall i, j :: 0 <= i < j < |ks| ==> ks[i] != ks[j]
  }

  /** `{}`. */
  const Empty := Object([], map[])

  /** The key whose assignment reaches the accessor inherited from `Object.prototype`. */
  const ProtoKey := "__proto__"

  lemma EmptyValid()
    ensures Empty.Valid()
  {
  }

  /** `o[k]` read as an own property: `None` stands for `undefined`. */
  function Get(o: Object, k: string): Option<string> {
    if k in o.values then Some(o.values[k]) else None
  }

  /**
   * `o[k] = v` for a string `v`. A new key goes to the end of the creation
   * order; an existing key keeps its place and takes the new value. The key
   * `__proto__` reaches the `Object.prototype.__proto__` setter, which ignores
   * a value that is not an object, so the object is left as it was.
   */
  function Assign(o: Object, k: string, v: string): (r: Object)
    requires o.Valid()
    ensures r.Valid()
    ensures Get(r, k) == if k == ProtoKey then Get(o, k) else Some(v)
    ensures forall k' :: k' != k ==> Get(r, k') == Get(o, k')
    ensures r.keys == if k == ProtoKey || k in o.keys then o.keys else o.keys + [k]
  {
    if k == ProtoKey then o
    else if k in o.values then Object(o.keys, o.values[k := v])
    else Object(o.keys + [k], o.values[k := v])
  }

  /** `ks` without `k`, the rest in their order. */
  function Without(ks: seq<string>, k: string): (r: seq<string>)
    ensures forall x :: x in r <==> x in ks && x != k
    ensures k !in ks ==> r == ks
  {
    if ks == [] then []
    else if ks[0] == k then Without(ks[1..], k)
    else [ks[0]] + Without(ks[1..], k)
  }

  lemma {:induction false} WithoutAt(ks: seq<string>, i: nat)
    requires Distinct(ks) && i < |ks|
    ensures Without(ks, ks[i]) == ks[..i] + ks[i + 1..]
  {
    if i == 0 {
      assert ks[..0] + ks[1..] == ks[1..];
    } else {
      WithoutAt(ks[1..], i - 1);
      assert ks[1..][i - 1] == ks[i];
      assert ks[1..][..i - 1] == ks[1..i];
      assert ks[1..][i..] == ks[i + 1..];
      assert ks[..i] == [ks[0]] + ks[1..i];
    }
  }

  lemma {:induction false} WithoutDistinct(ks: seq<string>, k: string)
    requires Distinct(ks)
    ensures Distinct(Without(ks, k))
  {
    if k in ks {
      var i :| 0 <= i < |ks| && ks[i] == k;
      WithoutAt(ks, i);
    }
  }

  /** `delete o[k]`: the property disappears and the others keep their order. */
  function Delete(o: Object, k: string): (r: Object)
    requires o.Valid()
    ensures r.Valid()
    ensures Get(r, k) == None
    ensures forall k' :: k' != k ==> Get(r, k') == Get(o, k')
    ensures k !in o.keys ==> r == o
  {
    WithoutDistinct(o.keys, k);
    Object(Without(o.keys, k), o.values - {k})
  }

  /** The properties left by `delete o[k]` keep their creation order. */
  lemma DeleteKeepsOrder(o: Object, k: string, i: nat)
    requires o.Valid() && i < |o.keys| && o.keys[i] == k
    ensures Delete(o, k).keys == o.keys[..i] + o.keys[i + 1..]
  {
    WithoutAt(o.keys, i);
  }

  /*
   * Property order. A key that is an array index (the canonical decimal
   * numeral of an integer below 2^32 - 1) is listed before every other key,
   * the array indices in ascending numeric order, the other keys in creation
   * order.
   */

  predicate IsDigit(c: char) {
    '0' <= c <= '9'
  }

  /** The number the decimal digits `s` stand for. */
  function DecimalValue(s: string): nat
    requires forall i :: 0 <= i < |s| ==> IsDigit(s[i])
  {
    if s == [] then 0
    else 10 * DecimalValue(s[..|s| - 1]) + DigitValue(s[|s| - 1])
  }

  function DigitValue(c: char): nat
    requires IsDigit(c)
  {
    c as int - '0' as int
  }

  /** Whether `k` is an array index: `ToString(ToUint32(k)) == k` and `ToUint32(k) != 2^32 - 1`. */
  predicate IsArrayIndex(k: string) {
    && |k| >= 1
    && (forall i :: 0 <= i < |k| ==> IsDigit(k[i]))
    && (k[0] == '0' ==> |k| == 1)
    && DecimalValue(k) < 0xFFFF_FFFF
  }

  /** The numeric value by which array indices are ordered; 0 for other keys. */
  function IndexValue(k: string): nat {
    if IsArrayIndex(k) then DecimalValue(k) else 0
  }

  function Pow10(n: nat): (r: nat)
    ensures r >= 1
  {
    if n == 0 then 1 else 10 * Pow10(n - 1)
  }

  /** `s` is below 10 to the power of its length. */
  lemma {:induction false} DecimalUpper(s: string)
    requires forall i :: 0 <= i < |s| ==> IsDigit(s[i])
    ensures DecimalValue(s) < Pow10(|s|)
  {
    if s != [] {
      DecimalUpper(s[..|s| - 1]);
    }
  }

  /** Without a leading zero, `s` is at least 10 to the power of its length less one. */
  lemma {:induction false} DecimalLower(s: string)
    requires |s| >= 1 && s[0] != '0'
    requires forall i :: 0 <= i < |s| ==> IsDigit(s[i])
    ensures DecimalValue(s) >= Pow10(|s| - 1)
  {
    if |s| > 1 {
      var p := s[..|s| - 1];
      assert p[0] == s[0];
      DecimalLower(p);
    }
  }

  /** Two digit strings of one length with one value are equal. */
  lemma {:induction false} DecimalSameLength(a: string, b: string)
    requires forall i :: 0 <= i < |a| ==> IsDigit(a[i])
    requires forall i :: 0 <= i < |b| ==> IsDigit(b[i])
    requires |a| == |b| && DecimalValue(a) == DecimalValue(b)
    ensures a == b
  {
    if a != [] {
      var n := |a| - 1;
      var pa, pb := DecimalValue(a[..n]), DecimalValue(b[..n]);
      var da, db := DigitValue(a[n]), DigitValue(b[n]);
      assert 10 * pa + da == 10 * pb + db;
      LastDigit(pa, da);
      LastDigit(pb, db);
      DecimalSameLength(a[..n], b[..n]);
      assert a == a[..n] + [a[n]] && b == b[..n] + [b[n]];
    }
  }

  lemma LastDigit(p: nat, d: nat)
    requires d < 10
    ensures (10 * p + d) / 10 == p && (10 * p + d) % 10 == d
  {
  }

  /** The only array index of value 0 is "0". */
  lemma ValueZeroIff(k: string)
    requires IsArrayIndex(k)
    ensures DecimalValue(k) == 0 <==> k[0] == '0'
    ensures k[0] == '0' ==> |k| == 1
  {
    if k[0] == '0' {
      assert k[..0] == [];
    } else {
      DecimalLower(k);
    }
  }

  lemma Pow10Monotone(m: nat, n: nat)
    requires m <= n
    ensures Pow10(m) <= Pow10(n)
    decreases n
  {
    if m < n {
      Pow10Monotone(m, n - 1);
    }
  }

  /**
   * An array index is a canonical numeral, so two array indices with the same
   * numeric value are the same key.
   */
  lemma ArrayIndexCanonical(a: string, b: string)
    requires IsArrayIndex(a) && IsArrayIndex(b) && IndexValue(a) == IndexValue(b)
    ensures a == b
  {
    ValueZeroIff(a);
    ValueZeroIff(b);
    if a[0] == '0' {
      DecimalSameLength(a, b);
    } else {
      DecimalLower(a);
      DecimalLower(b);
      DecimalUpper(a);
      DecimalUpper(b);
      if |a| < |b| {
        Pow10Monotone(|a|, |b| - 1);
      } else if |b| < |a| {
        Pow10Monotone(|b|, |a| - 1);
      }
      DecimalSameLength(a, b);
    }
  }

  ghost predicate Ascending(ks: seq<string>) {
    forall i, j :: 0 <= i < j < |ks| ==> IndexValue(ks[i]) <= IndexValue(ks[j])
  }

  function IndexKeys(ks: seq<string>): (r: seq<string>)
    ensures forall i :: 0 <= i < |r| ==> IsArrayIndex(r[i])
  {
    if ks == [] then []
    else (if IsArrayIndex(ks[0]) then [ks[0]] else []) + IndexKeys(ks[1..])
  }

  function OtherKeys(ks: seq<string>): (r: seq<string>)
    ensures forall i :: 0 <= i < |r| ==> !IsArrayIndex(r[i])
  {
    if ks == [] then []
    else (if IsArrayIndex(ks[0]) then [] else [ks[0]]) + OtherKeys(ks[1..])
  }

  lemma {:induction false} SplitKeys(ks: seq<string>)
    ensures multiset(IndexKeys(ks)) + multiset(OtherKeys(ks)) == multiset(ks)
  {
    if ks != [] {
      SplitKeys(ks[1..]);
      assert ks == [ks[0]] + ks[1..];
    }
  }

  /** `k` inserted into the ascending `ks` in front of the first key not below it. */
  function InsertIndex(k: string, ks: seq<string>): (r: seq<string>)
    requires Ascending(ks)
    ensures multiset(r) == multiset(ks) + multiset{k}
    ensures r[0] == k || (ks != [] && r[0] == ks[0])
    ensures Ascending(r)
  {
    if ks == [] then [k]
    else if IndexValue(k) <= IndexValue(ks[0]) then
      AscendingCons(k, ks);
      [k] + ks
    else
      AscendingTail(ks);
      var t := InsertIndex(k, ks[1..]);
      assert ks == [ks[0]] + ks[1..];
      AscendingCons(ks[0], t);
      [ks[0]] + t
  }

  lemma AscendingTail(ks: seq<string>)
    requires ks != [] && Ascending(ks)
    ensures Ascending(ks[1..])
    ensures |ks| > 1 ==> IndexValue(ks[0]) <= IndexValue(ks[1])
  {
    forall i, j | 0 <= i < j < |ks[1..]| ensures IndexValue(ks[1..][i]) <= IndexValue(ks[1..][j]) {
      assert ks[1..][i] == ks[i + 1] && ks[1..][j] == ks[j + 1];
    }
  }

  lemma AscendingCons(x: string, t: seq<string>)
    requires Ascending(t) && (t != [] ==> IndexValue(x) <= IndexValue(t[0]))
    ensures Ascending([x] + t)
  {
    var r := [x] + t;
    forall i, j | 0 <= i < j < |r| ensures IndexValue(r[i]) <= IndexValue(r[j]) {
      if i > 0 {
        assert r[i] == t[i - 1] && r[j] == t[j - 1];
      } else {
        assert r[j] == t[j - 1];
        assert IndexValue(t[0]) <= IndexValue(t[j - 1]) || j == 1;
      }
    }
  }

  /** Insertion sort on the numeric value of the keys. */
  function SortIndices(ks: seq<string>): (r: seq<string>)
    ensures multiset(r) == multiset(ks)
    ensures Ascending(r)
  {
    if ks == [] then []
    else
      assert ks == [ks[0]] + ks[1..];
      InsertIndex(ks[0], SortIndices(ks[1..]))
  }

  /** The order in which `Object.entries` lists keys created in the order `keys`. */
  function PropertyOrder(keys: seq<string>): seq<string> {
    SortIndices(IndexKeys(keys)) + OtherKeys(keys)
  }

  /** `Object.entries(o)`: every own property, as a (key, value) pair, in property order. */
  function Entries(o: Object): (r: seq<(string, string)>)
    requires o.Valid()
    ensures |r| == |o.keys|
  {
    var ks := PropertyOrder(o.keys);
    PropertyOrderPermutes(o.keys);
    assert forall i :: 0 <= i < |ks| ==> ks[i] in o.values by {
      forall i | 0 <= i < |ks| ensures ks[i] in o.values {
        assert ks[i] in multiset(ks);
      }
    }
    seq(|ks|, i requires 0 <= i < |ks| => (ks[i], o.values[ks[i]]))
  }

  /** The keys `Object.entries` lists are exactly the own keys, each once. */
  lemma PropertyOrderPermutes(keys: seq<string>)
    ensures multiset(PropertyOrder(keys)) == multiset(keys)
    ensures |PropertyOrder(keys)| == |keys|
  {
    SplitKeys(keys);
    assert |multiset(PropertyOrder(keys))| == |multiset(keys)|;
  }

  /** The keys of a list of entries, in order. */
  function KeysOf(es: seq<(string, string)>): (r: seq<string>)
    ensures |r| == |es|
  {
    seq(|es|, i requires 0 <= i < |es| => es[i].0)
  }

  /** Each entry pairs an own key with its value, and every own property is listed. */
  lemma EntriesComplete(o: Object)
    requires o.Valid()
    ensures forall i :: 0 <= i < |Entries(o)| ==> Entries(o)[i].0 in o.values && Entries(o)[i].1 == o.values[Entries(o)[i].0]
    ensures forall k :: k in o.values ==> k in KeysOf(Entries(o))
  {
    var ks := PropertyOrder(o.keys);
    assert KeysOf(Entries(o)) == ks;
    PropertyOrderPermutes(o.keys);
    forall i | 0 <= i < |Entries(o)| ensures Entries(o)[i].0 in o.values && Entries(o)[i].1 == o.values[Entries(o)[i].0] {
      assert ks[i] in multiset(ks);
      assert Entries(o)[i] == (ks[i], o.values[ks[i]]);
    }
    forall k | k in o.values ensures k in KeysOf(Entries(o)) {
      assert k in multiset(o.keys);
    }
  }

  /**
   * The property order: an array index is preceded only by array indices
   * with no greater value, and the other keys come in creation order.
   */
  lemma EntriesOrder(o: Object)
    requires o.Valid()
    ensures multiset(KeysOf(Entries(o))) == multiset(o.keys)
    ensures forall i, j :: 0 <= i < j < |Entries(o)| && IsArrayIndex(Entries(o)[j].0) ==>
              IsArrayIndex(Entries(o)[i].0) && IndexValue(Entries(o)[i].0) <= IndexValue(Entries(o)[j].0)
    ensures OtherKeys(KeysOf(Entries(o))) == OtherKeys(o.keys)
  {
    var ks := PropertyOrder(o.keys);
    assert KeysOf(Entries(o)) == ks;
    assert forall i :: 0 <= i < |ks| ==> Entries(o)[i].0 == ks[i];
    PropertyOrderPermutes(o.keys);
    PropertyOrderSorted(o.keys);
  }

  /**
   * With `ArrayIndexCanonical`, the order is fully determined: the array
   * indices of `Object.entries` are strictly ascending.
   */
  lemma EntriesIndicesStrict(o: Object)
    requires o.Valid()
    ensures forall i, j :: 0 <= i < j < |Entries(o)| && IsArrayIndex(Entries(o)[j].0) ==>
              IndexValue(Entries(o)[i].0) < IndexValue(Entries(o)[j].0)
  {
    EntriesOrder(o);
    var ks := KeysOf(Entries(o));
    DistinctByMultiset(ks, o.keys);
    forall i, j | 0 <= i < j < |Entries(o)| && IsArrayIndex(Entries(o)[j].0)
      ensures IndexValue(Entries(o)[i].0) < IndexValue(Entries(o)[j].0)
    {
      assert ks[i] == Entries(o)[i].0 && ks[j] == Entries(o)[j].0;
      if IndexValue(ks[i]) == IndexValue(ks[j]) {
        ArrayIndexCanonical(ks[i], ks[j]);
      }
    }
  }

  lemma {:induction false} DistinctCount(ts: seq<string>, x: string)
    requires Distinct(ts)
    ensures multiset(ts)[x] <= 1
  {
    if ts != [] {
      assert ts == [ts[0]] + ts[1..];
      assert Distinct(ts[1..]) by {
        forall i, j | 0 <= i < j < |ts[1..]| ensures ts[1..][i] != ts[1..][j] {
          assert ts[1..][i] == ts[i + 1] && ts[1..][j] == ts[j + 1];
        }
      }
      DistinctCount(ts[1..], x);
      if x == ts[0] {
        assert x !in ts[1..] by {
          forall i | 0 <= i < |ts[1..]| ensures ts[1..][i] != x {
            assert ts[1..][i] == ts[i + 1];
          }
        }
      }
    }
  }

  /** A permutation of distinct keys is distinct. */
  lemma DistinctByMultiset(ks: seq<string>, ts: seq<string>)
    requires multiset(ks) == multiset(ts) && Distinct(ts)
    ensures Distinct(ks)
  {
    forall i, j | 0 <= i < j < |ks| ensures ks[i] != ks[j] {
      if ks[i] == ks[j] {
        var x := ks[i];
        assert ks == ks[..i] + [x] + ks[i + 1..j] + [x] + ks[j + 1..];
        assert multiset(ks)[x] >= 2;
        DistinctCount(ts, x);
      }
    }
  }

  lemma PropertyOrderSorted(keys: seq<string>)
    ensures forall i, j :: 0 <= i < j < |PropertyOrder(keys)| && IsArrayIndex(PropertyOrder(keys)[j]) ==>
              IsArrayIndex(PropertyOrder(keys)[i]) && IndexValue(PropertyOrder(keys)[i]) <= IndexValue(PropertyOrder(keys)[j])
    ensures OtherKeys(PropertyOrder(keys)) == OtherKeys(keys)
  {
    var sorted, rest := SortIndices(IndexKeys(keys)), OtherKeys(keys);
    var ks := sorted + rest;
    assert forall i :: 0 <= i < |sorted| ==> IsArrayIndex(sorted[i]) by {
      forall i | 0 <= i < |sorted| ensures IsArrayIndex(sorted[i]) {
        assert sorted[i] in multiset(IndexKeys(keys));
      }
    }
    forall i, j | 0 <= i < j < |ks| && IsArrayIndex(ks[j])
      ensures IsArrayIndex(ks[i]) && IndexValue(ks[i]) <= IndexValue(ks[j])
    {
      assert j < |sorted|;
      assert ks[i] == sorted[i] && ks[j] == sorted[j];
    }
    OtherKeysAppend(sorted, rest);
    AllIndexKeys(sorted);
    NoIndexKeysCreationOrder(rest);
  }

  lemma {:induction false} OtherKeysAppend(a: seq<string>, b: seq<string>)
    ensures OtherKeys(a + b) == OtherKeys(a) + OtherKeys(b)
  {
    if a != [] {
      var x := if IsArrayIndex(a[0]) then [] else [a[0]];
      OtherKeysAppend(a[1..], b);
      assert (a + b)[0] == a[0];
      assert (a + b)[1..] == a[1..] + b;
      calc {
        OtherKeys(a + b);
        x + OtherKeys(a[1..] + b);
        x + (OtherKeys(a[1..]) + OtherKeys(b));
        (x + OtherKeys(a[1..])) + OtherKeys(b);
      }
    } else {
      assert a + b == b;
    }
  }

  lemma {:induction false} AllIndexKeys(ks: seq<string>)
    requires forall i :: 0 <= i < |ks| ==> IsArrayIndex(ks[i])
    ensures OtherKeys(ks) == []
  {
    if ks != [] {
      AllIndexKeys(ks[1..]);
    }
  }

  /** Without array-index keys, `Object.entries` follows creation order. */
  lemma {:induction false} NoIndexKeysCreationOrder(ks: seq<string>)
    requires forall i :: 0 <= i < |ks| ==> !IsArrayIndex(ks[i])
    ensures IndexKeys(ks) == [] && OtherKeys(ks) == ks
  {
    if ks != [] {
      NoIndexKeysCreationOrder(ks[1..]);
      assert ks == [ks[0]] + ks[1..];
    }
  }
}
