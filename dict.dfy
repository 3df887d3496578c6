/** A Python `dict` as the scripts use it: string keys mapped to values and
    remembered in insertion order. Assigning to a present key replaces its
    value where it stands; assigning to a new key appends it. */
module Dict {
  import opened Base

  type Dict<K, V> = seq<(K, V)>

  function Keys<K, V>(d: Dict<K, V>): (ks: seq<K>)
    ensures |ks| == |d|
    ensures forall k :: 0 <= k < |d| ==> ks[k] == d[k].0
  {
    seq(|d|, k requires 0 <= k < |d| => d[k].0)
  }

  lemma KeysAppend<K, V>(a: Dict<K, V>, b: Dict<K, V>)
    ensures Keys(a + b) == Keys(a) + Keys(b)
  {
  }

  predicate Has<K(==), V>(d: Dict<K, V>, key: K)
  {
    key in Keys(d)
  }

  /** `d.get(key)`: the value of the first entry under `key`. */
  function Get<K(==), V>(d: Dict<K, V>, key: K): (r: Option<V>)
    ensures r.None? <==> !Has(d, key)
  {
    if d == [] then None
    else if d[0].0 == key then Some(d[0].1)
    else
      assert Keys(d) == [d[0].0] + Keys(d[1..]);
      Get(d[1..], key)
  }

  /** `d[key] = value` */
  function Set<K(==, !new), V>(d: Dict<K, V>, key: K, value: V): (r: Dict<K, V>)
    ensures Get(r, key) == Some(value)
    ensures forall other :: other != key ==> Get(r, other) == Get(d, other)
    ensures Keys(r) == if Has(d, key) then Keys(d) else Keys(d) + [key]
  {
    if d == [] then [(key, value)]
    else if d[0].0 == key then
      SetHead(d, key, value);
      [(key, value)] + d[1..]
    else
      var rest := Set(d[1..], key, value);
      SetTail(d, key, value, rest);
      [d[0]] + rest
  }

  /** `Set` when the first entry holds `key`. */
  lemma SetHead<K(!new), V>(d: Dict<K, V>, key: K, value: V)
    requires d != [] && d[0].0 == key
    ensures var r := [(key, value)] + d[1..];
            && Get(r, key) == Some(value)
            && (forall other :: other != key ==> Get(r, other) == Get(d, other))
            && Has(d, key) && Keys(r) == Keys(d)
  {
    var r := [(key, value)] + d[1..];
    assert r[1..] == d[1..];
    GetCons(r, key);
    forall other | other != key ensures Get(r, other) == Get(d, other) {
      GetCons(r, other);
      GetCons(d, other);
    }
    assert Keys(d)[0] == key;
  }

  /** `Set` past a first entry with another key, from the facts about the
      rest. */
  lemma SetTail<K(!new), V>(d: Dict<K, V>, key: K, value: V, rest: Dict<K, V>)
    requires d != [] && d[0].0 != key
    requires Get(rest, key) == Some(value)
    requires forall other :: other != key ==> Get(rest, other) == Get(d[1..], other)
    requires Keys(rest) == if Has(d[1..], key) then Keys(d[1..]) else Keys(d[1..]) + [key]
    ensures var r := [d[0]] + rest;
            && Get(r, key) == Some(value)
            && (forall other :: other != key ==> Get(r, other) == Get(d, other))
            && Keys(r) == if Has(d, key) then Keys(d) else Keys(d) + [key]
  {
    var r := [d[0]] + rest;
    assert r[1..] == rest;
    GetCons(r, key);
    forall other | other != key ensures Get(r, other) == Get(d, other) {
      GetCons(r, other);
      GetCons(d, other);
    }
    SetTailKeys(d, key, rest);
  }

  lemma SetTailKeys<K, V>(d: Dict<K, V>, key: K, rest: Dict<K, V>)
    requires d != [] && d[0].0 != key
    requires Keys(rest) == if Has(d[1..], key) then Keys(d[1..]) else Keys(d[1..]) + [key]
    ensures Keys([d[0]] + rest) == if Has(d, key) then Keys(d) else Keys(d) + [key]
  {
    GetCons(d, key);
    assert Keys(d) == [d[0].0] + Keys(d[1..]);
    assert Keys([d[0]] + rest) == [d[0].0] + Keys(rest);
    if !Has(d[1..], key) {
      AppendAssoc([d[0].0], Keys(d[1..]), [key]);
    }
  }

  /** Assigning a key that is not there appends it at the end. */
  lemma {:induction false} SetNew<K(!new), V>(d: Dict<K, V>, key: K, value: V)
    requires !Has(d, key)
    ensures Set(d, key, value) == d + [(key, value)]
  {
    if d != [] {
      GetCons(d, key);
      SetNew(d[1..], key, value);
      calc {
        Set(d, key, value);
        [d[0]] + Set(d[1..], key, value);
        [d[0]] + (d[1..] + [(key, value)]);
        { AppendAssoc([d[0]], d[1..], [(key, value)]); }
        ([d[0]] + d[1..]) + [(key, value)];
        { assert [d[0]] + d[1..] == d; }
        d + [(key, value)];
      }
    }
  }

  /** The values of entries other than `key` stay exactly where they were. */
  lemma {:induction false} SetKeepsOthers<K(!new), V>(d: Dict<K, V>, key: K, value: V, k: nat)
    requires k < |d| && d[k].0 != key
    ensures k < |Set(d, key, value)| && Set(d, key, value)[k] == d[k]
  {
    if d[0].0 != key && k > 0 {
      SetKeepsOthers(d[1..], key, value, k - 1);
    }
  }

  /** In a dict whose keys are distinct, every entry is what `get` finds
      under its key. */
  lemma {:induction false} GetAt<K, V>(d: Dict<K, V>, k: nat)
    requires k < |d| && Distinct(Keys(d))
    ensures Get(d, d[k].0) == Some(d[k].1)
  {
    if k > 0 {
      assert Keys(d)[0] != Keys(d)[k];
      assert Keys(d[1..]) == Keys(d)[1..];
      GetAt(d[1..], k - 1);
    }
  }

  /** `d[k] = v` for each `(k, v)` of `ups`, in order. */
  function Assign<K(==, !new), V>(d: Dict<K, V>, ups: Dict<K, V>): Dict<K, V>
    decreases ups
  {
    if ups == [] then d else Assign(Set(d, ups[0].0, ups[0].1), ups[1..])
  }

  /** The keys of `ks` that are not in `present`, in order. */
  function Fresh<K(==, !new)>(ks: seq<K>, present: seq<K>): (r: seq<K>)
    ensures forall k :: k in r <==> k in ks && k !in present
  {
    if ks == [] then []
    else (if ks[0] in present then [] else [ks[0]]) + Fresh(ks[1..], present)
  }

  lemma {:induction false} AssignAppend<K(!new), V>(d: Dict<K, V>, a: Dict<K, V>, b: Dict<K, V>)
    ensures Assign(d, a + b) == Assign(Assign(d, a), b)
    decreases a
  {
    if a == [] {
      assert a + b == b;
    } else {
      assert (a + b)[0] == a[0] && (a + b)[1..] == a[1..] + b;
      AssignAppend(Set(d, a[0].0, a[0].1), a[1..], b);
    }
  }

  /** One more assignment at the end is one more `Set`. */
  lemma AssignSnoc<K(!new), V>(d: Dict<K, V>, ups: Dict<K, V>, key: K, value: V)
    ensures Assign(d, ups + [(key, value)]) == Set(Assign(d, ups), key, value)
  {
    AssignAppend(d, ups, [(key, value)]);
    var x := Assign(d, ups);
    assert [(key, value)][1..] == [];
    assert Assign(x, [(key, value)]) == Assign(Set(x, key, value), []);
  }

  /** The one assignment `d[key] = value` when `b` holds, and none otherwise. */
  function Opt<K, V>(b: bool, key: K, value: V): Dict<K, V>
  {
    if b then [(key, value)] else []
  }

  /** An assignment made only when `b` holds. */
  lemma AssignOpt<K(!new), V>(d: Dict<K, V>, ups: Dict<K, V>, b: bool, key: K, value: V)
    ensures Assign(d, ups + Opt(b, key, value))
            == if b then Set(Assign(d, ups), key, value) else Assign(d, ups)
  {
    if b {
      AssignSnoc(d, ups, key, value);
    } else {
      assert ups + [] == ups;
    }
  }

  /** Nothing is present yet: every key is fresh. */
  lemma {:induction false} FreshNone<K(!new)>(ks: seq<K>)
    ensures Fresh(ks, []) == ks
  {
    if ks != [] {
      FreshNone(ks[1..]);
      assert ks == [ks[0]] + ks[1..];
    }
  }

  lemma {:induction false} FreshSkips<K(!new)>(ks: seq<K>, present: seq<K>, k: K)
    requires k !in ks
    ensures Fresh(ks, present + [k]) == Fresh(ks, present)
  {
    if ks != [] {
      FreshSkips(ks[1..], present, k);
    }
  }

  lemma DistinctTail<K, V>(ups: Dict<K, V>)
    requires ups != [] && Distinct(Keys(ups))
    ensures Keys(ups[1..]) == Keys(ups)[1..]
    ensures Distinct(Keys(ups[1..])) && !Has(ups[1..], ups[0].0)
  {
    var rest := ups[1..];
    assert Keys(rest) == Keys(ups)[1..];
    forall j | 0 <= j < |rest| ensures rest[j].0 != ups[0].0 {
      assert Keys(ups)[0] != Keys(ups)[j + 1];
    }
  }

  lemma GetCons<K, V>(d: Dict<K, V>, key: K)
    requires d != []
    ensures Has(d, key) <==> d[0].0 == key || Has(d[1..], key)
    ensures Get(d, key) == if d[0].0 == key then Some(d[0].1) else Get(d[1..], key)
  {
    assert Keys(d) == [d[0].0] + Keys(d[1..]);
  }

  /** A lookup in `a + b` finds the entry of `a` first. */
  lemma {:induction false} GetAppend<K, V>(a: Dict<K, V>, b: Dict<K, V>, key: K)
    ensures Get(a + b, key) == if Has(a, key) then Get(a, key) else Get(b, key)
    decreases |a|
  {
    if a != [] {
      GetCons(a + b, key);
      GetCons(a, key);
      assert (a + b)[1..] == a[1..] + b;
      GetAppend(a[1..], b, key);
    } else {
      assert a + b == b;
    }
  }

  /** One more assignment of a key not assigned before keeps the keys of
      the assignments distinct. */
  lemma DistinctOpt<K, V>(ups: Dict<K, V>, b: bool, key: K, value: V)
    requires Distinct(Keys(ups)) && !Has(ups, key)
    ensures Distinct(Keys(ups + Opt(b, key, value)))
    ensures forall k :: Has(ups + Opt(b, key, value), k) <==> Has(ups, k) || (b && k == key)
  {
    KeysAppend(ups, Opt(b, key, value));
    assert Keys(Opt(b, key, value)) == if b then [key] else [];
  }

  /** After the assignments of `ups` (no key twice), a key holds its value
      from `ups` if it is assigned there and keeps its old value otherwise. */
  lemma {:induction false} AssignGet<K(!new), V>(d: Dict<K, V>, ups: Dict<K, V>, k: K)
    requires Distinct(Keys(ups))
    ensures Get(Assign(d, ups), k) == if Has(ups, k) then Get(ups, k) else Get(d, k)
    decreases ups
  {
    if ups != [] {
      DistinctTail(ups);
      GetCons(ups, k);
      AssignGet(Set(d, ups[0].0, ups[0].1), ups[1..], k);
    }
  }

  /** The keys already present keep their positions, and the newly assigned
      ones follow in the order they were assigned. */
  lemma {:induction false} AssignKeys<K(!new), V>(d: Dict<K, V>, ups: Dict<K, V>)
    requires Distinct(Keys(ups))
    ensures Keys(Assign(d, ups)) == Keys(d) + Fresh(Keys(ups), Keys(d))
    decreases ups
  {
    if ups == [] {
      assert Keys(d) + [] == Keys(d);
    } else {
      var (k0, v0) := ups[0];
      var d' := Set(d, k0, v0);
      var rest := ups[1..];
      DistinctTail(ups);
      AssignKeys(d', rest);
      assert Assign(d, ups) == Assign(d', rest);
      assert Keys(ups)[0] == k0;
      var f := Fresh(Keys(rest), Keys(d));
      assert Fresh(Keys(ups), Keys(d)) == (if k0 in Keys(d) then [] else [k0]) + f;
      if Has(d, k0) {
        assert Keys(d') == Keys(d);
        assert [] + f == f;
      } else {
        assert Keys(d') == Keys(d) + [k0];
        FreshSkips(Keys(rest), Keys(d), k0);
        AppendAssoc(Keys(d), [k0], Fresh(Keys(rest), Keys(d)));
      }
    }
  }
}
