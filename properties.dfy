/** What a class's declarations mean for the mapped attributes of its
    instances: each declaration form on a class with no other rules, and the
    cases where rules compete for a key. */
module Properties {
  import opened RuleTable
  import opened ClassMethods
  import opened InstanceMethods

  /** A record that shares no key with the rule table maps to nothing, and
      raises nothing; in particular a class that never called `map` maps
      every record to an empty hash. */
  lemma ResolveNoSharedKeys<K, V>(t: Table<K, V>, attributes: map<K, V>)
    requires t.Valid()
    requires t.rules.Keys * attributes.Keys == {}
    ensures Resolve(t, attributes) == map[]
  {
    ResolveSize(t, attributes);
  }

  /** A table holding one rule maps a record that has its key to that
      rule's single entry, and any other record to nothing. */
  lemma {:induction false} ResolveOneRule<K, V>(t: Table<K, V>, k: K, attributes: map<K, V>)
    requires t.Valid() && t.rules.Keys == {k}
    ensures k in attributes ==>
      Resolve(t, attributes) == map[Output(t.rules, attributes, k).0 := Output(t.rules, attributes, k).1]
    ensures k !in attributes ==> Resolve(t, attributes) == map[]
  {
    assert t.order == [k] by {
      forall i | 0 <= i < |t.order| ensures t.order[i] == k {
        assert t.order[i] in t.order;
      }
      assert k in t.order;
      DistinctCard(t.order);
      assert (set x | x in t.order) == {k};
      assert |t.order| == 1 && t.order[0] == k;
    }
    assert t.order[1..] == [];
    var shared := SharedKeys(t.order, attributes.Keys);
    if k in attributes {
      assert shared == [k];
      assert shared[..0] == [];
      assert Resolve(t, attributes) == MapEach(map[], [], t.rules, attributes)[Output(t.rules, attributes, k).0 := Output(t.rules, attributes, k).1];
    } else {
      assert shared == [];
    }
  }

  /** `map(k)` or `map(k, f)` with a value-only `f`: the mapped attributes
      hold `f(record[k])` under `k` (the value itself when no lambda was
      given), and nothing when the record lacks `k`. */
  lemma MapSingleValueKey<K, V>(k: K, fns: seq<Proc<K, V>>, attributes: map<K, V>)
    requires |fns| <= 1 && (|fns| == 1 ==> fns[0].body.ValueFn?)
    ensures var d := Declaration(Key(k), None, fns);
      && Declare(Empty(), d).Success?
      && Resolve(Declare(Empty(), d).value, attributes)
         == if k in attributes then map[k := First(d).body.f(attributes[k])] else map[]
  {
    var d := Declaration(Key(k), None, fns);
    DeclareSingleKey(Empty(), k, fns);
    var t := Declare(Empty(), d).value;
    assert t.rules == map[k := Retarget(k, First(d).body.f)];
    ResolveOneRule(t, k, attributes);
  }

  /** `map(k, ->(k, v) { ... })`: the lambda computes both the mapped key
      and the mapped value; a record without `k` maps to nothing. */
  lemma MapSingleKeyValue<K, V>(k: K, p: Proc<K, V>, attributes: map<K, V>)
    requires p.body.KeyValueFn?
    ensures var d := Declaration(Key(k), None, [p]);
      && Declare(Empty(), d).Success?
      && Resolve(Declare(Empty(), d).value, attributes)
         == if k in attributes then map[p.body.g(k, attributes[k]).0 := p.body.g(k, attributes[k]).1] else map[]
  {
    var d := Declaration(Key(k), None, [p]);
    DeclareSingleKey(Empty(), k, [p]);
    var t := Declare(Empty(), d).value;
    assert t.rules == map[k := Rewrite(p.body.g)];
    ResolveOneRule(t, k, attributes);
  }

  /** `map(from, to)` and `map(from, to, f1, f2)` with `from != to`: a
      two-way rename. The record's `from` value lands under `to` through
      `f1`, its `to` value under `from` through `f2` (both the identity when
      no lambda was given), and a record with neither key maps to nothing. */
  lemma MapPairTwoWay<K, V>(from: K, to: K, fns: seq<Proc<K, V>>, attributes: map<K, V>)
    requires from != to
    requires |fns| == 0 || (|fns| >= 2 && fns[0].body.ValueFn? && fns[1].body.ValueFn?)
    ensures var d := Declaration(Key(from), Some(to), fns);
      && Declare(Empty(), d).Success?
      && Resolve(Declare(Empty(), d).value, attributes)
         == (if from in attributes then map[to := First(d).body.f(attributes[from])] else map[])
            + (if to in attributes then map[from := Second(d).body.f(attributes[to])] else map[])
  {
    var d := Declaration(Key(from), Some(to), fns);
    assert AddsReverse(d);
    var t := Declare(Empty(), d).value;
    assert t.rules == map[from := Retarget(to, First(d).body.f), to := Retarget(from, Second(d).body.f)];
    ResolveRename(t, from, to, First(d).body.f, Second(d).body.f, attributes);
  }

  /** A table holding exactly the two rules of a rename pair resolves each
      side independently: the two rules write different keys. */
  lemma ResolveRename<K, V>(t: Table<K, V>, from: K, to: K, f1: V -> V, f2: V -> V, attributes: map<K, V>)
    requires t.Valid() && from != to
    requires t.rules == map[from := Retarget(to, f1), to := Retarget(from, f2)]
    ensures Resolve(t, attributes)
         == (if from in attributes then map[to := f1(attributes[from])] else map[])
            + (if to in attributes then map[from := f2(attributes[to])] else map[])
  {
    var r := Resolve(t, attributes);
    var rules := t.rules;
    assert from in attributes ==> Output(rules, attributes, from) == (to, f1(attributes[from]));
    assert to in attributes ==> Output(rules, attributes, to) == (from, f2(attributes[to]));
    assert forall o :: o in r ==> (o == to && from in attributes) || (o == from && to in attributes) by {
      ResolveDomain(t, attributes);
      forall o | o in r ensures (o == to && from in attributes) || (o == from && to in attributes) {
        var k :| k in rules && k in attributes && Output(rules, attributes, k).0 == o;
        assert k == from || k == to;
      }
    }
    if from in attributes {
      ResolveUniqueOutput(t, attributes, from);
    }
    if to in attributes {
      ResolveUniqueOutput(t, attributes, to);
    }
    var m1 := if from in attributes then map[to := f1(attributes[from])] else map[];
    var m2 := if to in attributes then map[from := f2(attributes[to])] else map[];
    assert r.Keys == (m1 + m2).Keys;
    assert forall o :: o in r ==> r[o] == (m1 + m2)[o];
  }

  /** `map(from, to, f)` with one value-only lambda and `from != to`: a
      one-way mapping. `to` gets no rule, so a record holding only `to`
      maps to nothing. */
  lemma MapPairOneWay<K, V>(from: K, to: K, p: Proc<K, V>, attributes: map<K, V>)
    requires from != to && p.body.ValueFn?
    ensures var d := Declaration(Key(from), Some(to), [p]);
      && Declare(Empty(), d).Success?
      && Resolve(Declare(Empty(), d).value, attributes)
         == if from in attributes then map[to := p.body.f(attributes[from])] else map[]
  {
    var d := Declaration(Key(from), Some(to), [p]);
    assert !AddsReverse(d);
    var t := Declare(Empty(), d).value;
    assert t.rules == map[from := Retarget(to, p.body.f)];
    ResolveOneRule(t, from, attributes);
  }

  /** `map(from, to, g)` with one key-value lambda whose arity is not 2 (a
      splat or optional-argument lambda, a `proc`) does not raise: `g` is
      stored bare under `from`, `to` is ignored, and the record's `from`
      entry is mapped to whatever `g` returns. */
  lemma MapPairOtherArity<K, V>(from: K, to: K, p: Proc<K, V>, attributes: map<K, V>)
    requires p.body.KeyValueFn? && !p.body.ArityIsTwo()
    ensures var d := Declaration(Key(from), Some(to), [p]);
      && Declare(Empty(), d).Success?
      && Resolve(Declare(Empty(), d).value, attributes)
         == if from in attributes then map[p.body.g(from, attributes[from]).0 := p.body.g(from, attributes[from]).1] else map[]
  {
    var d := Declaration(Key(from), Some(to), [p]);
    assert !AddsReverse(d);
    var t := Declare(Empty(), d).value;
    assert t.rules == map[from := Rewrite(p.body.g)];
    ResolveOneRule(t, from, attributes);
  }

  /** `map(k, k, f1, f2)`: the reverse entry overwrites the forward one, so
      the record's `k` value is mapped through the SECOND lambda. */
  lemma MapSelfPair<K, V>(k: K, f1: Proc<K, V>, f2: Proc<K, V>, attributes: map<K, V>)
    requires f1.body.ValueFn? && f2.body.ValueFn?
    ensures var d := Declaration(Key(k), Some(k), [f1, f2]);
      && Declare(Empty(), d).Success?
      && Resolve(Declare(Empty(), d).value, attributes)
         == if k in attributes then map[k := f2.body.f(attributes[k])] else map[]
  {
    DeclareSelfPairKeepsSecond(Empty(), k, f1, f2);
    var t := Declare(Empty(), Declaration(Key(k), Some(k), [f1, f2])).value;
    ResolveOneRule(t, k, attributes);
  }

  /** `map([k1, k2, ...])` or `map([k1, k2, ...], f)` with a value-only `f`:
      every listed key the record has keeps its name and gets `f` of its
      value; nothing else appears. */
  lemma MapListValue<K, V>(keys: seq<K>, fns: seq<Proc<K, V>>, attributes: map<K, V>)
    requires |fns| <= 1 && (|fns| == 1 ==> fns[0].body.ValueFn?)
    ensures var d := Declaration(KeyList(keys), None, fns);
      && Declare(Empty(), d).Success?
      && Resolve(Declare(Empty(), d).value, attributes)
         == map k | k in keys && k in attributes :: First(d).body.f(attributes[k])
  {
    var d := Declaration(KeyList(keys), None, fns);
    DeclareListValue(keys, fns);
    ResolveListValue(Declare(Empty(), d).value, keys, First(d).body.f, attributes);
  }

  /** A table holding exactly the keys of `keys`, each with `[k, f]`, maps
      every listed key the record has to `f` of its value. */
  lemma ResolveListValue<K, V>(t: Table<K, V>, keys: seq<K>, f: V -> V, attributes: map<K, V>)
    requires t.Valid() && t.rules.Keys == set k | k in keys
    requires forall k :: k in t.rules ==> t.rules[k] == Retarget(k, f)
    ensures Resolve(t, attributes) == map k | k in keys && k in attributes :: f(attributes[k])
  {
    ResolveKeepsKeys(t, f, attributes);
    assert (map k | k in t.rules && k in attributes :: f(attributes[k]))
        == (map k | k in keys && k in attributes :: f(attributes[k]));
  }

  /** The table a value-only key-array declaration builds from nothing holds
      exactly the listed keys, each with `[k, f]`. */
  lemma DeclareListValue<K, V>(keys: seq<K>, fns: seq<Proc<K, V>>)
    requires |fns| <= 1 && (|fns| == 1 ==> fns[0].body.ValueFn?)
    ensures var d := Declaration(KeyList(keys), None, fns);
      && Declare(Empty(), d).Success?
      && Declare(Empty(), d).value.rules.Keys == set k | k in keys
      && forall k :: k in Declare(Empty(), d).value.rules ==>
           Declare(Empty(), d).value.rules[k] == Retarget(k, First(d).body.f)
  {
    var d := Declaration(KeyList(keys), None, fns);
    var f := First(d).body.f;
    DeclareList(Empty(), keys, fns);
    var t := Declare(Empty(), d).value;
    assert Empty<K, V>().rules.Keys == {};
    forall k | k in t.rules ensures t.rules[k] == Retarget(k, f) {
      assert k in keys;
      assert ListRule(k, First(d).body) == Retarget(k, f);
    }
  }

  /** A table whose every rule is `[k, f]` under its own key `k`, all with the
      same `f`, maps each shared key to `f` of its value under the same key. */
  lemma ResolveKeepsKeys<K, V>(t: Table<K, V>, f: V -> V, attributes: map<K, V>)
    requires t.Valid()
    requires forall k :: k in t.rules ==> t.rules[k] == Retarget(k, f)
    ensures Resolve(t, attributes) == map k | k in t.rules && k in attributes :: f(attributes[k])
  {
    var r := Resolve(t, attributes);
    assert forall k :: k in t.rules && k in attributes ==> Output(t.rules, attributes, k) == (k, f(attributes[k]));
    ResolveDomain(t, attributes);
    assert r.Keys == t.rules.Keys * attributes.Keys;
    forall k | k in r ensures r[k] == f(attributes[k]) {
      ResolveUniqueOutput(t, attributes, k);
    }
  }

  /** `map([k1, k2, ...], ->(k, v) { ... })`: the lambda renames each listed
      key the record has; the mapped keys are exactly those new names, and a
      new name that only one listed key produces carries that key's new
      value. */
  lemma MapListKeyValue<K, V>(keys: seq<K>, p: Proc<K, V>, attributes: map<K, V>)
    requires p.body.KeyValueFn?
    ensures var d := Declaration(KeyList(keys), None, [p]);
      && Declare(Empty(), d).Success?
      && Resolve(Declare(Empty(), d).value, attributes).Keys
         == set k | k in keys && k in attributes :: p.body.g(k, attributes[k]).0
    ensures var d := Declaration(KeyList(keys), None, [p]);
      forall k :: k in keys && OnlyProducer(keys, p.body.g, attributes, k) ==>
        Resolve(Declare(Empty(), d).value, attributes)[p.body.g(k, attributes[k]).0] == p.body.g(k, attributes[k]).1
  {
    DeclareListKeyValue(keys, p);
    ResolveListKeyValue(Declare(Empty(), Declaration(KeyList(keys), None, [p])).value, keys, p.body.g, attributes);
  }

  /** `map([k1, k2, ...], ->(k, v) { ... })` when several listed keys of the
      record get the same new name: the rules run in the order of the keys'
      first occurrences in the array, so the last of them decides the value. */
  lemma MapListKeyValueLastWins<K, V>(keys: seq<K>, p: Proc<K, V>, attributes: map<K, V>, i: nat)
    requires p.body.KeyValueFn?
    requires var order := NewKeys([], keys);
      && i < |order| && order[i] in attributes
      && forall j :: i < j < |order| && order[j] in attributes ==>
           p.body.g(order[j], attributes[order[j]]).0 != p.body.g(order[i], attributes[order[i]]).0
    ensures var d := Declaration(KeyList(keys), None, [p]);
      var k := NewKeys([], keys)[i];
      && Declare(Empty(), d).Success?
      && p.body.g(k, attributes[k]).0 in Resolve(Declare(Empty(), d).value, attributes)
      && Resolve(Declare(Empty(), d).value, attributes)[p.body.g(k, attributes[k]).0] == p.body.g(k, attributes[k]).1
  {
    var d := Declaration(KeyList(keys), None, [p]);
    DeclareListKeyValue(keys, p);
    DeclareOrder(Empty(), d);
    var t := Declare(Empty(), d).value;
    assert t.order == NewKeys([], keys);
    ResolveKeyValueLastWins(t, p.body.g, attributes, i);
  }

  /** A table of bare key-value rules, all with the lambda `g`: among the
      shared keys that `g` gives the same new name, the last in the table's
      order decides the value. */
  lemma ResolveKeyValueLastWins<K, V>(t: Table<K, V>, g: (K, V) -> (K, V), attributes: map<K, V>, i: nat)
    requires t.Valid()
    requires forall k :: k in t.rules ==> t.rules[k] == Rewrite(g)
    requires i < |t.order| && t.order[i] in attributes
    requires forall j :: i < j < |t.order| && t.order[j] in attributes ==>
      g(t.order[j], attributes[t.order[j]]).0 != g(t.order[i], attributes[t.order[i]]).0
    ensures g(t.order[i], attributes[t.order[i]]).0 in Resolve(t, attributes)
    ensures Resolve(t, attributes)[g(t.order[i], attributes[t.order[i]]).0] == g(t.order[i], attributes[t.order[i]]).1
  {
    assert forall j :: 0 <= j < |t.order| && t.order[j] in attributes ==>
      Output(t.rules, attributes, t.order[j]) == g(t.order[j], attributes[t.order[j]]);
    ResolveLastWins(t, attributes, i);
  }

  /** No listed key of the record other than `k` gets the name `g` gives `k`. */
  predicate OnlyProducer<K, V>(keys: seq<K>, g: (K, V) -> (K, V), attributes: map<K, V>, k: K)
  {
    k in attributes &&
    forall k' :: k' in keys && k' in attributes && k' != k ==> g(k', attributes[k']).0 != g(k, attributes[k]).0
  }

  /** A table holding exactly the keys of `keys`, each with the bare lambda
      `g`: the mapped keys are the new names `g` gives the listed keys the
      record has, and a new name only one of them produces carries its value. */
  lemma ResolveListKeyValue<K, V>(t: Table<K, V>, keys: seq<K>, g: (K, V) -> (K, V), attributes: map<K, V>)
    requires t.Valid() && t.rules.Keys == set k | k in keys
    requires forall k :: k in t.rules ==> t.rules[k] == Rewrite(g)
    ensures Resolve(t, attributes).Keys == set k | k in keys && k in attributes :: g(k, attributes[k]).0
    ensures forall k :: k in keys && OnlyProducer(keys, g, attributes, k) ==>
      Resolve(t, attributes)[g(k, attributes[k]).0] == g(k, attributes[k]).1
  {
    assert forall k :: k in t.rules && k in attributes ==> Output(t.rules, attributes, k) == g(k, attributes[k]);
    ResolveDomain(t, attributes);
    forall k | k in keys && OnlyProducer(keys, g, attributes, k)
      ensures Resolve(t, attributes)[g(k, attributes[k]).0] == g(k, attributes[k]).1
    {
      ResolveUniqueOutput(t, attributes, k);
    }
  }

  /** The table a key-array declaration with a key-value lambda builds from
      nothing holds exactly the listed keys, each with the bare lambda. */
  lemma DeclareListKeyValue<K, V>(keys: seq<K>, p: Proc<K, V>)
    requires p.body.KeyValueFn?
    ensures var d := Declaration(KeyList(keys), None, [p]);
      && Declare(Empty(), d).Success?
      && Declare(Empty(), d).value.rules.Keys == set k | k in keys
      && forall k :: k in Declare(Empty(), d).value.rules ==>
           Declare(Empty(), d).value.rules[k] == Rewrite(p.body.g)
  {
    var d := Declaration(KeyList(keys), None, [p]);
    DeclareList(Empty(), keys, [p]);
    var t := Declare(Empty(), d).value;
    assert Empty<K, V>().rules.Keys == {};
    forall k | k in t.rules ensures t.rules[k] == Rewrite(p.body.g) {
      assert k in keys;
    }
  }

  /** A class body `map k1, x, f; map k2, x, g; map k1, x, h` (three one-way
      mappings onto the same key `x`): redeclaring `k1` replaces its rule but
      keeps its first position, so `k2`'s rule still runs last and decides
      `x`. */
  method RedeclaredKeyKeepsItsTurn<K(==), V>(k1: K, k2: K, x: K, f: Proc<K, V>, g: Proc<K, V>, h: Proc<K, V>, attributes: map<K, V>)
    returns (mapped: map<K, V>)
    requires k1 != k2 && f.body.ValueFn? && g.body.ValueFn? && h.body.ValueFn?
    requires k1 in attributes && k2 in attributes
    ensures mapped == map[x := g.body.f(attributes[k2])]
  {
    var registry := new Registry<K, V>();
    DeclareOneWay(registry.Contents(), k1, x, f);
    var e1 := registry.Map(Declaration(Key(k1), Some(x), [f]));
    assert registry.order == [k1];
    DeclareOneWay(registry.Contents(), k2, x, g);
    var e2 := registry.Map(Declaration(Key(k2), Some(x), [g]));
    assert registry.order == [k1, k2];
    DeclareOneWay(registry.Contents(), k1, x, h);
    var e3 := registry.Map(Declaration(Key(k1), Some(x), [h]));
    assert registry.order == [k1, k2];
    assert registry.rules[k1] == Retarget(x, h.body.f) && registry.rules[k2] == Retarget(x, g.body.f);
    ResolveSecondOfTwoDecides(registry.Contents(), x, h.body.f, g.body.f, attributes);
    var instance := new Instance(registry, attributes);
    mapped := instance.mappedAttributes;
  }

  /** Two rules that both write `x`: the one later in the table's order
      decides the value, and nothing else is written. */
  lemma ResolveSecondOfTwoDecides<K, V>(t: Table<K, V>, x: K, fa: V -> V, fb: V -> V, attributes: map<K, V>)
    requires t.Valid() && |t.order| == 2
    requires t.rules[t.order[0]] == Retarget(x, fa) && t.rules[t.order[1]] == Retarget(x, fb)
    requires t.order[0] in attributes && t.order[1] in attributes
    ensures Resolve(t, attributes) == map[x := fb(attributes[t.order[1]])]
  {
    assert t.order[0] in t.order && t.order[1] in t.order;
    ResolveLastWins(t, attributes, 1);
    ResolveDomain(t, attributes);
    forall k | k in t.rules ensures k == t.order[0] || k == t.order[1] {
      var i :| 0 <= i < |t.order| && t.order[i] == k;
    }
    assert Resolve(t, attributes).Keys == {x};
  }

  /** `map(from, to, ->(k, v) { ... })` with an arity-2 lambda raises
      `InvalidArgumentError`, and the registry's table is what it was before
      the call. */
  method MapRejectsKeyValueWithTarget<K(==), V>(registry: Registry<K, V>, from: K, to: K, p: Proc<K, V>)
    returns (error: Option<MapError>)
    requires registry.Valid() && p.body.ArityIsTwo()
    modifies registry
    ensures error == Some(InvalidArgumentError)
    ensures registry.Contents() == old(registry.Contents())
  {
    error := registry.Map(Declaration(Key(from), Some(to), [p]));
  }
}
