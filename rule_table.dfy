/** The values the mapping engine works on: lambdas, compiled rules and the
    class-level rule table `@mapper`, which is a Ruby Hash and therefore keeps
    its keys in insertion order. */
module RuleTable {

  datatype Option<T> = None | Some(value: T)

  datatype Result<T, E> = Success(value: T) | Failure(error: E)

  /** The one error the engine raises itself. */
  datatype MapError = InvalidArgumentError

  /** What a lambda does, told apart by its arity: an arity-1 lambda rewrites
      the value only; a lambda of any other arity is called with the key and
      the value and returns the new key and the new value. `exactlyTwo` says
      whether its arity is 2 (`->(k, v) { ... }`) rather than some other value
      that still accepts two arguments (`->(*kv)`, `->(k, v = nil)`, a `proc`
      with three parameters). */
  datatype Transform<!K, !V> = ValueFn(f: V -> V) | KeyValueFn(g: (K, V) -> (K, V), exactlyTwo: bool)
  {
    /** `arity == 2`, the test `map` makes before accepting a second key. */
    predicate ArityIsTwo()
    {
      KeyValueFn? && exactlyTwo
    }
  }

  /** A lambda object. `id` stands for its object identity, which is all that
      Ruby's `==` on two lambdas compares. */
  datatype Proc<!K, !V> = Proc(id: nat, body: Transform<K, V>)

  /** One value of the rule table: `[target_key, value_fn]`, or a bare
      key-value lambda. */
  datatype Rule<!K, !V> = Retarget(target: K, f: V -> V) | Rewrite(g: (K, V) -> (K, V))

  predicate Distinct<K(==)>(s: seq<K>)
  {
    forall i, j :: 0 <= i < j < |s| ==> s[i] != s[j]
  }

  /** A Ruby Hash from keys to rules: the entries, and the order in which
      their keys were first inserted. */
  datatype Table<!K(==), !V> = Table(order: seq<K>, rules: map<K, Rule<K, V>>)
  {
    ghost predicate Valid()
    {
      && Distinct(order)
      && (forall k :: k in rules ==> k in order)
      && (forall k :: k in order ==> k in rules)
    }
  }

  function Empty<K(==), V>(): (t: Table<K, V>)
    ensures t.Valid() && t.rules == map[]
  {
    Table([], map[])
  }

  /** `hash[k] = r`: the entry for `k` becomes `r`; a new key goes to the end
      of the order, an existing key keeps its place. */
  function Put<K(==), V>(t: Table<K, V>, k: K, r: Rule<K, V>): (u: Table<K, V>)
    requires t.Valid()
    ensures u.Valid()
    ensures u.rules == t.rules[k := r]
    ensures |t.order| <= |u.order| && u.order[..|t.order|] == t.order
    ensures k in t.rules ==> u.order == t.order
    ensures k !in t.rules ==> u.order == t.order + [k]
  {
    if k in t.rules then Table(t.order, t.rules[k := r])
    else Table(t.order + [k], t.rules[k := r])
  }

  /** The rule the array form stores for each listed key (lines 22-26):
      `[k, f]` for an arity-1 lambda, the lambda itself otherwise. */
  function ListRule<K, V>(k: K, f: Transform<K, V>): Rule<K, V>
  {
    match f
    case ValueFn(v) => Retarget(k, v)
    case KeyValueFn(g, _) => Rewrite(g)
  }

  /** `keys.each { |k| hash[k] = ListRule(k, f) }`, written as a function of
      the keys processed so far. */
  function PutList<K(==), V>(t: Table<K, V>, keys: seq<K>, f: Transform<K, V>): (u: Table<K, V>)
    requires t.Valid()
    ensures u.Valid()
    decreases |keys|
  {
    if keys == [] then t
    else
      var k := keys[|keys| - 1];
      Put(PutList(t, keys[..|keys| - 1], f), k, ListRule(k, f))
  }

  /** The array form keeps the table a valid Hash and never moves a key that
      was already there. */
  lemma {:induction false} PutListValid<K, V>(t: Table<K, V>, keys: seq<K>, f: Transform<K, V>)
    requires t.Valid()
    ensures PutList(t, keys, f).Valid()
    ensures |t.order| <= |PutList(t, keys, f).order| && PutList(t, keys, f).order[..|t.order|] == t.order
    decreases |keys|
  {
    if keys != [] {
      var init := keys[..|keys| - 1];
      PutListValid(t, init, f);
      var u := PutList(t, init, f);
      var w := Put(u, keys[|keys| - 1], ListRule(keys[|keys| - 1], f));
      assert w.order[..|t.order|] == w.order[..|u.order|][..|t.order|];
    }
  }

  lemma KeysSplitLast<K>(s: seq<K>, init: seq<K>, last: K)
    requires s != [] && init == s[..|s| - 1] && last == s[|s| - 1]
    ensures (set k | k in s) == (set k | k in init) + {last}
  {
    assert s == init + [last];
  }

  /** The array form adds exactly the listed keys to the table. */
  lemma {:induction false} PutListKeys<K, V>(t: Table<K, V>, keys: seq<K>, f: Transform<K, V>)
    requires t.Valid()
    ensures PutList(t, keys, f).rules.Keys == t.rules.Keys + set k | k in keys
    decreases |keys|
  {
    if keys != [] {
      var init := keys[..|keys| - 1];
      var last := keys[|keys| - 1];
      PutListKeys(t, init, f);
      var u := PutList(t, init, f);
      assert PutList(t, keys, f).rules.Keys == u.rules.Keys + {last};
      KeysSplitLast(keys, init, last);
    }
  }

  /** The keys of `keys` that are not in `seen`, each once, in the order of
      their first occurrence. */
  function NewKeys<K(==)>(seen: seq<K>, keys: seq<K>): (r: seq<K>)
    ensures forall x :: x in r ==> x in keys && x !in seen
    ensures forall x :: x in keys && x !in seen ==> x in r
    decreases |keys|
  {
    if keys == [] then []
    else
      var init := keys[..|keys| - 1];
      var k := keys[|keys| - 1];
      assert forall x :: x in keys ==> x in init || x == k;
      if k in seen || k in init then NewKeys(seen, init) else NewKeys(seen, init) + [k]
  }

  /** `NewKeys` lists no key twice. */
  lemma {:induction false} NewKeysDistinct<K>(seen: seq<K>, keys: seq<K>)
    ensures Distinct(NewKeys(seen, keys))
    decreases |keys|
  {
    if keys != [] {
      NewKeysDistinct(seen, keys[..|keys| - 1]);
    }
  }

  lemma NewKeysOne<K>(seen: seq<K>, a: K)
    ensures NewKeys(seen, [a]) == if a in seen then [] else [a]
  {
    assert [a][..0] == [];
  }

  lemma NewKeysTwo<K>(seen: seq<K>, a: K, b: K)
    ensures NewKeys(seen, [a, b]) == NewKeys(seen, [a]) + if b in seen || b == a then [] else [b]
  {
    assert [a, b][..1] == [a];
  }

  /** The array form appends the listed keys the table did not have, in the
      order of their first occurrence in the array. */
  lemma {:induction false} PutListOrder<K, V>(t: Table<K, V>, keys: seq<K>, f: Transform<K, V>)
    requires t.Valid()
    ensures PutList(t, keys, f).order == t.order + NewKeys(t.order, keys)
    decreases |keys|
  {
    if keys != [] {
      var init := keys[..|keys| - 1];
      var last := keys[|keys| - 1];
      PutListOrder(t, init, f);
      PutListKeys(t, init, f);
      var u := PutList(t, init, f);
      assert last in u.rules <==> last in t.order || last in init;
    }
  }

  /** The array form stores `ListRule(k, f)` under every listed key and
      leaves the rule of every other key as it was. */
  lemma {:induction false} PutListRules<K, V>(t: Table<K, V>, keys: seq<K>, f: Transform<K, V>)
    requires t.Valid()
    ensures forall k :: k in keys ==> k in PutList(t, keys, f).rules && PutList(t, keys, f).rules[k] == ListRule(k, f)
    ensures forall k :: k in t.rules && k !in keys ==> k in PutList(t, keys, f).rules && PutList(t, keys, f).rules[k] == t.rules[k]
    decreases |keys|
  {
    if keys != [] {
      var init := keys[..|keys| - 1];
      var last := keys[|keys| - 1];
      PutListRules(t, init, f);
      var u := PutList(t, init, f);
      var w := PutList(t, keys, f);
      assert w.rules == u.rules[last := ListRule(last, f)];
      forall k | k in keys ensures k in w.rules && w.rules[k] == ListRule(k, f) {
        if k != last {
          var i :| 0 <= i < |keys| && keys[i] == k;
          assert init[i] == k;
        }
      }
      forall k | k in t.rules && k !in keys ensures k in w.rules && w.rules[k] == t.rules[k] {
        assert k != last;
        assert k !in init;
      }
    }
  }
}
