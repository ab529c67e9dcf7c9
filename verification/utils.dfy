/**
 * The extension helpers of Utils.kt: the logical key of a file name, grouping a
 * sequence of pairs into an insertion-ordered map of lists, and the two
 * identity-on-contents sequence wrappers `execute` and `peek`.
 */
module Utils {
  import opened KotlinText

  /**
   * `Path.filenameWithoutExtension`: the file name up to (excluding) its last '.',
   * or the whole name when it has no '.' (`substringBeforeLast('.')`).
   */
  function FilenameWithoutExtension(name: string): (r: string)
    ensures r <= name
    ensures '.' !in name ==> r == name
    ensures '.' in name ==> |r| < |name| && name == r + "." + name[|r| + 1..] && '.' !in name[|r| + 1..]
  {
    var i := LastIndexOf(name, '.');
    if i < 0 then name else name[..i]
  }

  /** Stripping the extension undoes appending one that holds no '.'. */
  lemma StripsLastExtension(base: string, ext: string)
    requires '.' !in ext
    ensures FilenameWithoutExtension(base + "." + ext) == base
  {
    var s := base + "." + ext;
    assert s[|base|] == '.';
    var i := LastIndexOf(s, '.');
    assert i >= |base|;
    assert s[..|base|] == base;
  }

  /** Kotlin `Sequence.execute()`: `toList().asSequence()`, forcing every element once, in order. */
  method Execute<T>(s: seq<T>) returns (r: seq<T>)
    ensures r == s
  {
    r := [];
    var i := 0;
    while i < |s|
      invariant 0 <= i <= |s|
      invariant r == s[..i]
    {
      r := r + [s[i]];
      i := i + 1;
    }
  }

  /**
   * Kotlin `Sequence.peek(peeker)`: hands every element to `peeker` and passes it on
   * unchanged. The peeker's side effect is not modelled; its result is discarded.
   */
  method Peek<T>(s: seq<T>, peeker: T -> ()) returns (r: seq<T>)
    ensures |r| == |s|
    ensures forall i :: 0 <= i < |s| ==> r[i] == s[i]
  {
    r := [];
    var i := 0;
    while i < |s|
      invariant 0 <= i <= |s|
      invariant r == s[..i]
    {
      var _ := peeker(s[i]);
      r := r + [s[i]];
      i := i + 1;
    }
  }

  /**
   * A `LinkedHashMap<K, List<V>>`: `keys` lists the keys in insertion order and
   * `values` holds each key's list.
   */
  datatype LinkedMap<K, V> = LinkedMap(keys: seq<K>, values: map<K, seq<V>>)

  /** The keys occurring in a sequence of pairs. */
  function KeysOf<K(==), V>(s: seq<(K, V)>): set<K>
  {
    set i | 0 <= i < |s| :: s[i].0
  }

  /** The values paired with `k` in `s`, in the order of `s`. */
  function ValuesFor<K(==), V>(s: seq<(K, V)>, k: K): (vs: seq<V>)
    ensures k in KeysOf(s) <==> |vs| > 0
  {
    if s == [] then []
    else
      var init := s[..|s| - 1];
      assert KeysOf(s) == KeysOf(init) + {s[|s| - 1].0};
      ValuesFor(init, k) + (if s[|s| - 1].0 == k then [s[|s| - 1].1] else [])
  }

  /** The position of the first pair of `s` whose key is `k`. */
  function FirstIndex<K(==), V>(s: seq<(K, V)>, k: K): (i: nat)
    requires k in KeysOf(s)
    ensures i < |s| && s[i].0 == k
    ensures forall j :: 0 <= j < i ==> s[j].0 != k
  {
    var init := s[..|s| - 1];
    assert KeysOf(s) == KeysOf(init) + {s[|s| - 1].0};
    if k in KeysOf(init) then FirstIndex(init, k) else |s| - 1
  }

  /** Every key appears at most once in `keys`. */
  predicate Distinct<K(==)>(keys: seq<K>)
  {
    forall i, j :: 0 <= i < j < |keys| ==> keys[i] != keys[j]
  }

  /** The set of elements of a key sequence. */
  function KeySet<K>(keys: seq<K>): set<K>
  {
    set i | 0 <= i < |keys| :: keys[i]
  }

  lemma KeySetSnoc<K>(keys: seq<K>, k: K)
    ensures KeySet(keys + [k]) == KeySet(keys) + {k}
  {
    var a := keys + [k];
    assert forall i :: 0 <= i < |keys| ==> a[i] == keys[i];
    assert a[|keys|] == k;
  }

  /** A linked map lists every key of its map exactly once. */
  predicate WellFormed<K(==), V>(g: LinkedMap<K, V>)
  {
    Distinct(g.keys) && KeySet(g.keys) == g.values.Keys
  }

  /** `map.computeIfAbsent(k) { mutableListOf() }.add(v)` on a linked map. */
  function ComputeIfAbsentAdd<K(==), V>(g: LinkedMap<K, V>, k: K, v: V): (r: LinkedMap<K, V>)
    requires WellFormed(g)
    ensures WellFormed(r)
    ensures r.values.Keys == g.values.Keys + {k}
  {
    if k in g.values then g.(values := g.values[k := g.values[k] + [v]])
    else
      KeySetSnoc(g.keys, k);
      LinkedMap(g.keys + [k], g.values[k := [v]])
  }

  /**
   * `Sequence<Pair<K, V>>.toMapWithListValues()`: groups the pairs by key. The keys are
   * those of the input, each once, in order of first occurrence, and each key's list holds
   * the input's values for that key in input order.
   */
  function ToMapWithListValues<K(==), V>(s: seq<(K, V)>): (g: LinkedMap<K, V>)
    ensures WellFormed(g)
    ensures g.values.Keys == KeysOf(s)
  {
    if s == [] then LinkedMap([], map[])
    else
      var init := s[..|s| - 1];
      assert KeysOf(s) == KeysOf(init) + {s[|s| - 1].0};
      ComputeIfAbsentAdd(ToMapWithListValues(init), s[|s| - 1].0, s[|s| - 1].1)
  }

  /** Each key's list is the input's values for that key, in input order, and is never empty. */
  lemma {:induction false} GroupedValues<K, V>(s: seq<(K, V)>, k: K)
    requires k in KeysOf(s)
    ensures k in ToMapWithListValues(s).values
    ensures ToMapWithListValues(s).values[k] == ValuesFor(s, k)
    ensures |ToMapWithListValues(s).values[k]| > 0
    decreases |s|
  {
    var init := s[..|s| - 1];
    assert KeysOf(s) == KeysOf(init) + {s[|s| - 1].0};
    if k in KeysOf(init) {
      GroupedValues(init, k);
    } else {
      assert ValuesFor(init, k) == [];
    }
  }

  lemma {:induction false} GroupedKeyOrderAt<K, V>(s: seq<(K, V)>, i: int, j: int)
    requires 0 <= i < j
    ensures var keys := ToMapWithListValues(s).keys;
            j < |keys| ==>
              keys[i] in KeysOf(s) && keys[j] in KeysOf(s) && FirstIndex(s, keys[i]) < FirstIndex(s, keys[j])
    decreases |s|
  {
    var keys := ToMapWithListValues(s).keys;
    if j < |keys| {
      var init := s[..|s| - 1];
      assert KeysOf(s) == KeysOf(init) + {s[|s| - 1].0};
      var g := ToMapWithListValues(init);
      assert keys[i] in ToMapWithListValues(s).values;
      assert keys[j] in ToMapWithListValues(s).values;
      if j < |g.keys| {
        assert keys[i] == g.keys[i] && keys[j] == g.keys[j];
        GroupedKeyOrderAt(init, i, j);
      } else {
        assert keys[i] == g.keys[i];
        assert keys[i] in g.values;
        assert keys[j] !in KeysOf(init);
      }
    }
  }

  /** The keys come out in the order of their first occurrence in the input. */
  lemma GroupedKeyOrder<K, V>(s: seq<(K, V)>)
    ensures var keys := ToMapWithListValues(s).keys;
            forall i, j :: 0 <= i < j < |keys| ==>
              keys[i] in KeysOf(s) && keys[j] in KeysOf(s) && FirstIndex(s, keys[i]) < FirstIndex(s, keys[j])
  {
    var keys := ToMapWithListValues(s).keys;
    forall i, j | 0 <= i < j < |keys|
      ensures keys[i] in KeysOf(s) && keys[j] in KeysOf(s) && FirstIndex(s, keys[i]) < FirstIndex(s, keys[j])
    {
      GroupedKeyOrderAt(s, i, j);
    }
  }

  /** The pairs `(k, v)` for every `v` in `vs`. */
  function Tag<K(==), V>(k: K, vs: seq<V>): (r: seq<(K, V)>)
    ensures |r| == |vs|
    ensures forall i :: 0 <= i < |vs| ==> r[i] == (k, vs[i])
  {
    if vs == [] then [] else [(k, vs[0])] + Tag(k, vs[1..])
  }

  /** The lists of `values` for `keys`, in key order, each value tagged with its key. */
  function FlattenKeys<K(==), V>(keys: seq<K>, values: map<K, seq<V>>): seq<(K, V)>
    requires forall i :: 0 <= i < |keys| ==> keys[i] in values
  {
    if keys == [] then [] else Tag(keys[0], values[keys[0]]) + FlattenKeys(keys[1..], values)
  }

  /** Concatenating the groups of a linked map, each value tagged with its key. */
  function Flatten<K(==), V>(g: LinkedMap<K, V>): seq<(K, V)>
    requires forall i :: 0 <= i < |g.keys| ==> g.keys[i] in g.values
  {
    FlattenKeys(g.keys, g.values)
  }

  lemma {:induction false} FlattenKeysAgree<K, V>(keys: seq<K>, m: map<K, seq<V>>, m': map<K, seq<V>>)
    requires forall i :: 0 <= i < |keys| ==> keys[i] in m && keys[i] in m' && m[keys[i]] == m'[keys[i]]
    ensures FlattenKeys(keys, m) == FlattenKeys(keys, m')
    decreases |keys|
  {
    if keys != [] {
      FlattenKeysAgree(keys[1..], m, m');
    }
  }

  lemma {:induction false} FlattenKeysSnoc<K, V>(keys: seq<K>, k: K, m: map<K, seq<V>>)
    requires forall i :: 0 <= i < |keys| ==> keys[i] in m
    requires k in m
    ensures FlattenKeys(keys + [k], m) == FlattenKeys(keys, m) + Tag(k, m[k])
    decreases |keys|
  {
    if keys == [] {
      assert [k][1..] == [];
    } else {
      assert (keys + [k])[1..] == keys[1..] + [k];
      FlattenKeysSnoc(keys[1..], k, m);
    }
  }

  lemma {:induction false} FlattenKeysAppendAt<K, V>(keys: seq<K>, k: K, v: V, m: map<K, seq<V>>)
    requires forall i :: 0 <= i < |keys| ==> keys[i] in m
    requires Distinct(keys)
    requires k in keys
    ensures multiset(FlattenKeys(keys, m[k := m[k] + [v]])) == multiset(FlattenKeys(keys, m)) + multiset{(k, v)}
    decreases |keys|
  {
    var m' := m[k := m[k] + [v]];
    if keys[0] == k {
      assert k !in keys[1..];
      FlattenKeysAgree(keys[1..], m, m');
      assert Tag(k, m'[k]) == Tag(k, m[k]) + [(k, v)];
    } else {
      FlattenKeysAppendAt(keys[1..], k, v, m);
    }
  }

  /** Adding one pair to a linked map adds exactly that pair to its flattening. */
  lemma FlattenComputeIfAbsentAdd<K, V>(g: LinkedMap<K, V>, k: K, v: V)
    requires WellFormed(g)
    ensures multiset(Flatten(ComputeIfAbsentAdd(g, k, v))) == multiset(Flatten(g)) + multiset{(k, v)}
  {
    if k in g.values {
      assert k in KeySet(g.keys);
      FlattenKeysAppendAt(g.keys, k, v, g.values);
    } else {
      var m' := g.values[k := [v]];
      FlattenKeysSnoc(g.keys, k, m');
      FlattenKeysAgree(g.keys, g.values, m');
      assert Tag(k, [v]) == [(k, v)];
    }
  }

  /**
   * Grouping loses and duplicates nothing: the concatenated groups are a
   * permutation of the input pairs.
   */
  lemma {:induction false} GroupingIsPermutation<K, V>(s: seq<(K, V)>)
    ensures multiset(Flatten(ToMapWithListValues(s))) == multiset(s)
    decreases |s|
  {
    if s != [] {
      var init := s[..|s| - 1];
      var k, v := s[|s| - 1].0, s[|s| - 1].1;
      assert s == init + [(k, v)];
      assert multiset(s) == multiset(init) + multiset{(k, v)};
      GroupingIsPermutation(init);
      FlattenComputeIfAbsentAdd(ToMapWithListValues(init), k, v);
    }
  }

  /** The values of a run of pairs, in order. */
  function Seconds<K(==), V>(t: seq<(K, V)>): (vs: seq<V>)
    ensures |vs| == |t|
    ensures forall i :: 0 <= i < |t| ==> vs[i] == t[i].1
  {
    if t == [] then [] else Seconds(t[..|t| - 1]) + [t[|t| - 1].1]
  }

  /** Grouping consumes the input left to right, one `computeIfAbsent(..).add(..)` per pair. */
  lemma ToMapSnoc<K, V>(s: seq<(K, V)>, k: K, v: V)
    ensures ToMapWithListValues(s + [(k, v)]) == ComputeIfAbsentAdd(ToMapWithListValues(s), k, v)
  {
    assert (s + [(k, v)])[..|s|] == s;
  }

  /** A pair with a key not seen before opens a new group at the end. */
  lemma GroupNewKey<K, V>(s: seq<(K, V)>, x: K, v: V)
    requires x !in KeysOf(s)
    ensures ToMapWithListValues(s + [(x, v)]) ==
      LinkedMap(ToMapWithListValues(s).keys + [x], ToMapWithListValues(s).values[x := [v]])
  {
    ToMapSnoc(s, x, v);
  }

  lemma AddToLastKey<K, V>(g: LinkedMap<K, V>, x: K, a: seq<V>, v: V)
    requires WellFormed(LinkedMap(g.keys + [x], g.values[x := a]))
    ensures ComputeIfAbsentAdd(LinkedMap(g.keys + [x], g.values[x := a]), x, v) ==
      LinkedMap(g.keys + [x], g.values[x := a + [v]])
  {
    assert g.values[x := a][x := a + [v]] == g.values[x := a + [v]];
  }

  /**
   * Appending a non-empty run of pairs that all carry one new key `x` appends `x` to the
   * keys and gives it the run's values.
   */
  lemma {:induction false} GroupAppendRun<K, V>(s: seq<(K, V)>, t: seq<(K, V)>, x: K)
    requires 0 < |t|
    requires forall i :: 0 <= i < |t| ==> t[i].0 == x
    requires x !in KeysOf(s)
    ensures ToMapWithListValues(s + t) ==
      LinkedMap(ToMapWithListValues(s).keys + [x], ToMapWithListValues(s).values[x := Seconds(t)])
    decreases |t|
  {
    var g := ToMapWithListValues(s);
    var v := t[|t| - 1].1;
    var t' := t[..|t| - 1];
    assert s + t == (s + t') + [(x, v)];
    if |t| == 1 {
      assert s + t' == s;
      assert Seconds(t) == [v];
      GroupNewKey(s, x, v);
    } else {
      GroupAppendRun(s, t', x);
      ToMapSnoc(s + t', x, v);
      AddToLastKey(g, x, Seconds(t'), v);
      assert Seconds(t) == Seconds(t') + [v];
    }
  }

  /**
   * If grouping `s` yields the keys `keys` with the expected lists, appending a run of
   * pairs for a new key `x` whose values are `x`'s expected list keeps that so for `keys + [x]`.
   */
  lemma GroupedAsExpectedAppend<K, V>(s: seq<(K, V)>, t: seq<(K, V)>, keys: seq<K>, x: K, expected: K -> seq<V>)
    requires ToMapWithListValues(s).keys == keys
    requires forall i :: 0 <= i < |keys| ==>
      keys[i] in ToMapWithListValues(s).values && ToMapWithListValues(s).values[keys[i]] == expected(keys[i])
    requires x !in KeySet(keys)
    requires 0 < |t|
    requires forall i :: 0 <= i < |t| ==> t[i].0 == x
    requires Seconds(t) == expected(x)
    ensures ToMapWithListValues(s + t).keys == keys + [x]
    ensures forall i :: 0 <= i < |keys + [x]| ==>
      (keys + [x])[i] in ToMapWithListValues(s + t).values &&
      ToMapWithListValues(s + t).values[(keys + [x])[i]] == expected((keys + [x])[i])
  {
    var g := ToMapWithListValues(s);
    assert KeysOf(s) == KeySet(keys);
    GroupAppendRun(s, t, x);
    var values := g.values[x := Seconds(t)];
    forall i | 0 <= i < |keys + [x]|
      ensures (keys + [x])[i] in values && values[(keys + [x])[i]] == expected((keys + [x])[i])
    {
      if i < |keys| {
        assert (keys + [x])[i] == keys[i];
        assert keys[i] in KeySet(keys);
      }
    }
  }
}
