/** Python's `dict` with `str` keys, with the insertion order its iteration follows. */
module PyDict {

  /** The keys in insertion order, and the key-to-value mapping. */
  datatype Dict<V> = Dict(order: seq<string>, entries: map<string, V>)

  /** The order lists every key exactly once. */
  ghost predicate Valid<V>(d: Dict<V>) {
    && Distinct(d.order)
    && (forall k :: k in d.entries <==> k in d.order)
  }

  /** No key appears twice. */
  ghost predicate Distinct(s: seq<string>) {
    forall i, j :: 0 <= i < j < |s| ==> s[i] != s[j]
  }

  lemma DistinctSnoc(s: seq<string>, k: string)
    requires Distinct(s) && k !in s
    ensures Distinct(s + [k])
  {
  }

  /** `{}` */
  function Empty<V>(): Dict<V> {
    Dict([], map[])
  }

  /** `d.order` is an initial part of `e.order`. */
  predicate OrderExtends<V>(d: Dict<V>, e: Dict<V>) {
    |d.order| <= |e.order| && e.order[..|d.order|] == d.order
  }

  /** `d[k] = v`: the value is replaced, and a key already present keeps its place in the order. */
  function Set<V>(d: Dict<V>, k: string, v: V): (r: Dict<V>)
    requires Valid(d)
    ensures Valid(r)
    ensures r.entries.Keys == d.entries.Keys + {k}
    ensures r.entries[k] == v
    ensures forall k' :: k' in d.entries && k' != k ==> r.entries[k'] == d.entries[k']
    ensures OrderExtends(d, r)
  {
    if k in d.entries then Dict(d.order, d.entries[k := v])
    else
      DistinctSnoc(d.order, k);
      assert (d.order + [k])[..|d.order|] == d.order;
      Dict(d.order + [k], d.entries[k := v])
  }

  /** Assigning a key already present leaves the order as it was; assigning a new
      key appends it at the end. */
  lemma SetOrder<V>(d: Dict<V>, k: string, v: V)
    requires Valid(d)
    ensures k in d.entries ==> Set(d, k, v).order == d.order
    ensures k !in d.entries ==> Set(d, k, v).order == d.order + [k]
  {
  }

  /** Assigning a new key appends it to the order. */
  lemma SetFresh<V>(d: Dict<V>, k: string, v: V)
    requires Valid(d) && k !in d.entries
    ensures Set(d, k, v) == Dict(d.order + [k], d.entries[k := v])
  {
  }

  /** `for k, v in pairs: d[k] = v` */
  function SetAll<V>(d: Dict<V>, pairs: seq<(string, V)>): (r: Dict<V>)
    requires Valid(d)
    ensures Valid(r)
    ensures OrderExtends(d, r)
    decreases |pairs|
  {
    if pairs == [] then d
    else
      var d' := Set(d, pairs[0].0, pairs[0].1);
      var r := SetAll(d', pairs[1..]);
      OrderExtendsTrans(d, d', r);
      r
  }

  lemma OrderExtendsTrans<V>(a: Dict<V>, b: Dict<V>, c: Dict<V>)
    requires OrderExtends(a, b) && OrderExtends(b, c)
    ensures OrderExtends(a, c)
  {
    assert c.order[..|a.order|] == c.order[..|b.order|][..|a.order|];
  }

  /** After the assignments, a key is present iff it was before or some pair assigns it. */
  lemma {:induction false} SetAllKeysOf<V>(d: Dict<V>, pairs: seq<(string, V)>, k: string)
    requires Valid(d)
    ensures k in SetAll(d, pairs).entries <==> k in d.entries || k in KeysOf(pairs)
    decreases |pairs|
  {
    if pairs != [] {
      SetAllKeysOf(Set(d, pairs[0].0, pairs[0].1), pairs[1..], k);
      KeysOfCons(pairs);
    }
  }

  lemma SetAllKeys<V>(d: Dict<V>, pairs: seq<(string, V)>, k: string)
    requires Valid(d)
    ensures k in SetAll(d, pairs).entries <==> k in d.entries || exists i :: 0 <= i < |pairs| && pairs[i].0 == k
  {
    SetAllKeysOf(d, pairs, k);
    if k in KeysOf(pairs) {
      var i :| 0 <= i < |pairs| && KeysOf(pairs)[i] == k;
    }
  }

  /** "Last assignment wins": a key ends up with the value of its last pair. */
  lemma {:induction false} SetAllLastWins<V>(d: Dict<V>, pairs: seq<(string, V)>, j: nat)
    requires Valid(d)
    requires j < |pairs|
    requires forall i :: j < i < |pairs| ==> pairs[i].0 != pairs[j].0
    ensures pairs[j].0 in SetAll(d, pairs).entries
    ensures SetAll(d, pairs).entries[pairs[j].0] == pairs[j].1
    decreases |pairs|
  {
    var d' := Set(d, pairs[0].0, pairs[0].1);
    if j == 0 {
      SetAllUntouched(d', pairs[1..], pairs[0].0);
    } else {
      SetAllLastWins(d', pairs[1..], j - 1);
    }
  }

  /** A key no pair assigns keeps its presence and value. */
  lemma {:induction false} SetAllUntouched<V>(d: Dict<V>, pairs: seq<(string, V)>, k: string)
    requires Valid(d)
    requires forall i :: 0 <= i < |pairs| ==> pairs[i].0 != k
    ensures k in SetAll(d, pairs).entries <==> k in d.entries
    ensures k in d.entries ==> SetAll(d, pairs).entries[k] == d.entries[k]
    decreases |pairs|
  {
    if pairs != [] {
      SetAllUntouched(Set(d, pairs[0].0, pairs[0].1), pairs[1..], k);
    }
  }

  /** The keys of `pairs`, in order. */
  function KeysOf<V>(pairs: seq<(string, V)>): (ks: seq<string>)
    ensures |ks| == |pairs|
    ensures forall i :: 0 <= i < |pairs| ==> ks[i] == pairs[i].0
  {
    seq(|pairs|, i requires 0 <= i < |pairs| => pairs[i].0)
  }

  /** Keys that are new and pairwise different. */
  predicate FreshKeys<V>(d: Dict<V>, pairs: seq<(string, V)>) {
    && (forall i, j :: 0 <= i < j < |pairs| ==> pairs[i].0 != pairs[j].0)
    && (forall i :: 0 <= i < |pairs| ==> pairs[i].0 !in d.entries)
  }

  /** After the first assignment the remaining keys are still fresh. */
  lemma FreshKeysStep<V>(d: Dict<V>, pairs: seq<(string, V)>)
    requires Valid(d) && pairs != [] && FreshKeys(d, pairs)
    ensures FreshKeys(Set(d, pairs[0].0, pairs[0].1), pairs[1..])
  {
    var tail := pairs[1..];
    forall i | 0 <= i < |tail|
      ensures tail[i].0 !in Set(d, pairs[0].0, pairs[0].1).entries
    {
      assert tail[i] == pairs[i + 1];
    }
    forall i, j | 0 <= i < j < |tail|
      ensures tail[i].0 != tail[j].0
    {
      assert tail[i] == pairs[i + 1] && tail[j] == pairs[j + 1];
    }
  }

  /** Assigning fresh keys appends them to the order. */
  lemma {:induction false} SetAllFreshOrder<V>(d: Dict<V>, pairs: seq<(string, V)>)
    requires Valid(d) && FreshKeys(d, pairs)
    ensures SetAll(d, pairs).order == d.order + KeysOf(pairs)
    decreases |pairs|
  {
    if pairs == [] {
      assert KeysOf(pairs) == [];
    } else {
      var k := pairs[0].0;
      var d' := Set(d, k, pairs[0].1);
      var ks := KeysOf(pairs[1..]);
      assert d'.order == d.order + [k] by {
        SetFresh(d, k, pairs[0].1);
      }
      assert SetAll(d', pairs[1..]).order == d'.order + ks by {
        FreshKeysStep(d, pairs);
        SetAllFreshOrder(d', pairs[1..]);
      }
      KeysOfCons(pairs);
      AppendAssoc(d.order, [k], ks);
    }
  }

  lemma KeysOfCons<V>(pairs: seq<(string, V)>)
    requires pairs != []
    ensures KeysOf(pairs) == [pairs[0].0] + KeysOf(pairs[1..])
  {
  }

  lemma AppendAssoc(a: seq<string>, b: seq<string>, c: seq<string>)
    ensures (a + b) + c == a + (b + c)
  {
  }

  /** ... and gives each its own value. */
  lemma SetAllFreshValues<V>(d: Dict<V>, pairs: seq<(string, V)>)
    requires Valid(d) && FreshKeys(d, pairs)
    ensures forall i :: 0 <= i < |pairs| ==> pairs[i].0 in SetAll(d, pairs).entries && SetAll(d, pairs).entries[pairs[i].0] == pairs[i].1
  {
    forall i | 0 <= i < |pairs|
      ensures pairs[i].0 in SetAll(d, pairs).entries && SetAll(d, pairs).entries[pairs[i].0] == pairs[i].1
    {
      SetAllLastWins(d, pairs, i);
    }
  }

}
