/** The resolver: what a new instance computes from its raw record and its
    class's rule table. */
module InstanceMethods {
  import opened RuleTable
  import opened ClassMethods

  /** `mapper.keys & attributes.keys`: the table's keys that the record also
      has, in the table's order. */
  function SharedKeys<K(==)>(order: seq<K>, present: set<K>): (s: seq<K>)
    ensures forall k :: k in s ==> k in order && k in present
    ensures forall k :: k in order && k in present ==> k in s
    ensures forall i :: 0 <= i < |s| ==> s[i] in order && s[i] in present
    ensures |s| <= |order|
    ensures Distinct(order) ==> Distinct(s)
  {
    if order == [] then []
    else
      var rest := SharedKeys(order[1..], present);
      assert forall k :: k in order ==> k == order[0] || k in order[1..];
      if order[0] in present then [order[0]] + rest else rest
  }

  /** Lines 63-68: a `[target, f]` rule writes `f(value)` under `target`; a
      key-value lambda computes both the key and the value. */
  function Apply<K, V>(rule: Rule<K, V>, key: K, value: V): (K, V)
  {
    match rule
    case Retarget(target, f) => (target, f(value))
    case Rewrite(g) => g(key, value)
  }

  /** The entry that the rule for `key` writes for this record. */
  function Output<K, V>(rules: map<K, Rule<K, V>>, attributes: map<K, V>, key: K): (K, V)
    requires key in rules && key in attributes
  {
    Apply(rules[key], key, attributes[key])
  }

  ghost predicate Covered<K, V>(keys: seq<K>, rules: map<K, Rule<K, V>>, attributes: map<K, V>)
  {
    forall i :: 0 <= i < |keys| ==> keys[i] in rules && keys[i] in attributes
  }

  /** The `each` loop of `map_attributes!` after it has processed `keys`,
      starting from the hash `acc`. */
  function MapEach<K, V>(acc: map<K, V>, keys: seq<K>, rules: map<K, Rule<K, V>>, attributes: map<K, V>): map<K, V>
    requires Covered(keys, rules, attributes)
    decreases |keys|
  {
    if keys == [] then acc
    else
      var key := keys[|keys| - 1];
      var entry := Output(rules, attributes, key);
      MapEach(acc, keys[..|keys| - 1], rules, attributes)[entry.0 := entry.1]
  }

  /** The output keys that `keys` produce, whatever the order. */
  function OutputKeys<K, V>(keys: seq<K>, rules: map<K, Rule<K, V>>, attributes: map<K, V>): set<K>
    requires Covered(keys, rules, attributes)
    decreases |keys|
  {
    if keys == [] then {}
    else OutputKeys(keys[..|keys| - 1], rules, attributes) + {Output(rules, attributes, keys[|keys| - 1]).0}
  }

  /** The mapped attributes of an instance built from `attributes` under the
      rule table `t`. */
  function Resolve<K, V>(t: Table<K, V>, attributes: map<K, V>): map<K, V>
    requires t.Valid()
  {
    MapEach(map[], SharedKeys(t.order, attributes.Keys), t.rules, attributes)
  }

  /** The loop writes exactly one output key per visited key, on top of what
      was already there. */
  lemma {:induction false} MapEachDomain<K, V>(acc: map<K, V>, keys: seq<K>, rules: map<K, Rule<K, V>>, attributes: map<K, V>)
    requires Covered(keys, rules, attributes)
    ensures MapEach(acc, keys, rules, attributes).Keys == acc.Keys + OutputKeys(keys, rules, attributes)
    decreases |keys|
  {
    if keys != [] {
      var init := keys[..|keys| - 1];
      MapEachDomain(acc, init, rules, attributes);
      var entry := Output(rules, attributes, keys[|keys| - 1]);
      assert MapEach(acc, keys, rules, attributes) == MapEach(acc, init, rules, attributes)[entry.0 := entry.1];
      assert OutputKeys(keys, rules, attributes) == OutputKeys(init, rules, attributes) + {entry.0};
    }
  }

  /** Each visited key adds at most one output key. */
  lemma {:induction false} OutputKeysSize<K, V>(keys: seq<K>, rules: map<K, Rule<K, V>>, attributes: map<K, V>)
    requires Covered(keys, rules, attributes)
    ensures |OutputKeys(keys, rules, attributes)| <= |keys|
    decreases |keys|
  {
    if keys != [] {
      OutputKeysSize(keys[..|keys| - 1], rules, attributes);
    }
  }

  /** When several visited keys produce the same output key, the last of
      them decides its value. */
  lemma {:induction false} MapEachLastWins<K, V>(acc: map<K, V>, keys: seq<K>, rules: map<K, Rule<K, V>>, attributes: map<K, V>, i: nat)
    requires Covered(keys, rules, attributes)
    requires i < |keys|
    requires forall j :: i < j < |keys| ==> Output(rules, attributes, keys[j]).0 != Output(rules, attributes, keys[i]).0
    ensures Output(rules, attributes, keys[i]).0 in MapEach(acc, keys, rules, attributes)
    ensures MapEach(acc, keys, rules, attributes)[Output(rules, attributes, keys[i]).0] == Output(rules, attributes, keys[i]).1
    decreases |keys|
  {
    if i < |keys| - 1 {
      var init := keys[..|keys| - 1];
      assert forall j :: i < j < |init| ==> init[j] == keys[j];
      MapEachLastWins(acc, init, rules, attributes, i);
    }
  }

  lemma {:induction false} DistinctCard<K>(s: seq<K>)
    requires Distinct(s)
    ensures |set k | k in s| == |s|
    decreases |s|
  {
    if s != [] {
      var init := s[..|s| - 1];
      DistinctCard(init);
      assert (set k | k in s) == (set k | k in init) + {s[|s| - 1]};
    }
  }

  /** Every visited key's output key is among the loop's output keys. */
  lemma {:induction false} OutputKeysHas<K, V>(keys: seq<K>, rules: map<K, Rule<K, V>>, attributes: map<K, V>, i: nat)
    requires Covered(keys, rules, attributes) && i < |keys|
    ensures Output(rules, attributes, keys[i]).0 in OutputKeys(keys, rules, attributes)
    decreases |keys|
  {
    if i < |keys| - 1 {
      OutputKeysHas(keys[..|keys| - 1], rules, attributes, i);
    }
  }

  lemma {:induction false} OutputIndex<K, V>(keys: seq<K>, rules: map<K, Rule<K, V>>, attributes: map<K, V>, o: K) returns (i: nat)
    requires Covered(keys, rules, attributes)
    requires o in OutputKeys(keys, rules, attributes)
    ensures i < |keys| && Output(rules, attributes, keys[i]).0 == o
    decreases |keys|
  {
    var init := keys[..|keys| - 1];
    if o in OutputKeys(init, rules, attributes) {
      i := OutputIndex(init, rules, attributes, o);
    } else {
      i := |keys| - 1;
    }
  }

  /** There are at most as many mapped entries as keys that both the table
      and the record have. */
  lemma ResolveSize<K, V>(t: Table<K, V>, attributes: map<K, V>)
    requires t.Valid()
    ensures |Resolve(t, attributes)| <= |t.rules.Keys * attributes.Keys|
  {
    var shared := SharedKeys(t.order, attributes.Keys);
    MapEachDomain(map[], shared, t.rules, attributes);
    OutputKeysSize(shared, t.rules, attributes);
    DistinctCard(shared);
    assert (set k | k in shared) == t.rules.Keys * attributes.Keys;
  }

  /** Resolution visits only the keys both the table and the record have:
      the mapped keys are exactly the output keys of those keys' rules, so
      unruled record keys are dropped and declared keys the record lacks add
      nothing. */
  lemma ResolveDomain<K, V>(t: Table<K, V>, attributes: map<K, V>)
    requires t.Valid()
    ensures Resolve(t, attributes).Keys ==
      set k | k in t.rules && k in attributes :: Output(t.rules, attributes, k).0
  {
    var shared := SharedKeys(t.order, attributes.Keys);
    MapEachDomain(map[], shared, t.rules, attributes);
    var outs := set k | k in t.rules && k in attributes :: Output(t.rules, attributes, k).0;
    forall o | o in Resolve(t, attributes) ensures o in outs {
      var i := OutputIndex(shared, t.rules, attributes, o);
      assert shared[i] in t.rules && shared[i] in attributes;
    }
    forall o | o in outs ensures o in Resolve(t, attributes) {
      var k :| k in t.rules && k in attributes && Output(t.rules, attributes, k).0 == o;
      assert k in shared;
      var i :| 0 <= i < |shared| && shared[i] == k;
      OutputKeysHas(shared, t.rules, attributes, i);
    }
  }

  /** Filtering a concatenation filters each part. */
  lemma {:induction false} SharedKeysAppend<K>(xs: seq<K>, ys: seq<K>, present: set<K>)
    ensures SharedKeys(xs + ys, present) == SharedKeys(xs, present) + SharedKeys(ys, present)
    decreases |xs|
  {
    if xs == [] {
      assert xs + ys == ys;
    } else {
      assert (xs + ys)[0] == xs[0];
      assert (xs + ys)[1..] == xs[1..] + ys;
      SharedKeysAppend(xs[1..], ys, present);
    }
  }

  /** Rules are applied in the table's insertion order, so when several
      rules write the same mapped key the value of the last of them in that
      order stays. */
  lemma ResolveLastWins<K, V>(t: Table<K, V>, attributes: map<K, V>, i: nat)
    requires t.Valid() && i < |t.order| && t.order[i] in attributes
    requires forall j :: i < j < |t.order| && t.order[j] in attributes ==>
      Output(t.rules, attributes, t.order[j]).0 != Output(t.rules, attributes, t.order[i]).0
    ensures Output(t.rules, attributes, t.order[i]).0 in Resolve(t, attributes)
    ensures Resolve(t, attributes)[Output(t.rules, attributes, t.order[i]).0] == Output(t.rules, attributes, t.order[i]).1
  {
    var k := t.order[i];
    var present := attributes.Keys;
    var before, after := t.order[..i], t.order[i + 1..];
    assert t.order == before + [k] + after;
    SharedKeysAppend(before + [k], after, present);
    SharedKeysAppend(before, [k], present);
    assert SharedKeys([k], present) == [k] by {
      assert [k][1..] == [];
    }
    var s1, s2 := SharedKeys(before, present), SharedKeys(after, present);
    var shared := SharedKeys(t.order, present);
    assert shared == s1 + [k] + s2;
    var n := |s1|;
    forall j | n < j < |shared|
      ensures Output(t.rules, attributes, shared[j]).0 != Output(t.rules, attributes, shared[n]).0
    {
      assert shared[j] == s2[j - n - 1];
      assert shared[j] in after;
      var m :| 0 <= m < |after| && after[m] == shared[j];
      assert t.order[i + 1 + m] == shared[j];
    }
    MapEachLastWins(map[], shared, t.rules, attributes, n);
  }

  /** A shared key whose output key no other shared key produces keeps its
      entry in the mapped attributes exactly as its rule computed it. */
  lemma ResolveUniqueOutput<K, V>(t: Table<K, V>, attributes: map<K, V>, k: K)
    requires t.Valid() && k in t.rules && k in attributes
    requires forall k' :: k' in t.rules && k' in attributes && k' != k ==>
      Output(t.rules, attributes, k').0 != Output(t.rules, attributes, k).0
    ensures Output(t.rules, attributes, k).0 in Resolve(t, attributes)
    ensures Resolve(t, attributes)[Output(t.rules, attributes, k).0] == Output(t.rules, attributes, k).1
  {
    var i :| 0 <= i < |t.order| && t.order[i] == k;
    forall j | i < j < |t.order| && t.order[j] in attributes
      ensures Output(t.rules, attributes, t.order[j]).0 != Output(t.rules, attributes, k).0
    {
      assert t.order[j] in t.order;
    }
    ResolveLastWins(t, attributes, i);
  }

  /** An instance of a mapped class: the raw record and the mapped
      attributes computed from it when it was built. */
  class Instance<K(==), V> {
    var originalAttributes: map<K, V>
    var mappedAttributes: map<K, V>

    /** `initialize(attributes)`: keeps the record as it was given and maps
        it with the class's current rule table. */
    constructor (registry: Registry<K, V>, attributes: map<K, V>)
      requires registry.Valid()
      ensures originalAttributes == attributes
      ensures mappedAttributes == Resolve(registry.Contents(), attributes)
    {
      originalAttributes := attributes;
      mappedAttributes := map[];
      new;
      MapAttributes(registry, attributes);
    }

    /** `initialize` with its default argument `{}`: both hashes are empty,
        whatever the class's rules. */
    constructor Blank(registry: Registry<K, V>)
      requires registry.Valid()
      ensures originalAttributes == map[]
      ensures mappedAttributes == map[]
    {
      originalAttributes := map[];
      mappedAttributes := map[];
      new;
      MapAttributes(registry, map[]);
      ResolveSize(registry.Contents(), map[]);
    }

    function OriginalAttributes(): map<K, V>
      reads this
    {
      originalAttributes
    }

    function MappedAttributes(): map<K, V>
      reads this
    {
      mappedAttributes
    }

    /** `map_attributes!`: for each key the table and the record share, in
        the table's order, writes the entry its rule produces. */
    method MapAttributes(registry: Registry<K, V>, attributes: map<K, V>)
      requires registry.Valid()
      modifies this`mappedAttributes
      ensures mappedAttributes ==
        MapEach(old(mappedAttributes), SharedKeys(registry.order, attributes.Keys), registry.rules, attributes)
    {
      var keys := SharedKeys(registry.order, attributes.Keys);
      var i := 0;
      while i < |keys|
        invariant 0 <= i <= |keys|
        invariant Covered(keys, registry.rules, attributes)
        invariant mappedAttributes == MapEach(old(mappedAttributes), keys[..i], registry.rules, attributes)
      {
        var key := keys[i];
        var mappedKey, value;
        match registry.rules[key] {
          case Retarget(target, f) =>
            mappedKey, value := target, f(attributes[key]);
          case Rewrite(g) =>
            var pair := g(key, attributes[key]);
            mappedKey, value := pair.0, pair.1;
        }
        mappedAttributes := mappedAttributes[mappedKey := value];
        assert keys[..i + 1][..i] == keys[..i];
        i := i + 1;
      }
      assert keys[..i] == keys;
    }
  }
}
