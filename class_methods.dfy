/** The rule compiler: `map *args`, which a class calls to declare how its
    records are mapped, and the class-level table it writes into. */
module ClassMethods {
  import opened RuleTable

  /** The key arguments of a declaration: a single source key, or an array
      of keys. */
  datatype KeyArg<K> = Key(key: K) | KeyList(keys: seq<K>)

  /** The arguments of one `map` call, already split into keys and lambdas:
      the first key (or key array), the optional second key, and every
      lambda in the order given. Only the first two lambdas are ever used. */
  datatype Declaration<!K, !V> = Declaration(from: KeyArg<K>, to: Option<K>, fns: seq<Proc<K, V>>)
  {
    /** The reverse rule `[from, f2]`, written whenever a second key and a
        second lambda are given and `map` does not raise, is called with the
        value alone, and `f2`'s arity is never read. So `f2` is given here by
        its one-argument behaviour, as a `ValueFn`; only an `f2` that cannot
        be called with one argument, and would raise there, is left out. */
    predicate WellFormed()
    {
      from.Key? && to.Some? && |fns| >= 2 && !fns[0].body.ArityIsTwo() ==> fns[1].body.ValueFn?
    }
  }

  /** An object identity that differs from that of every lambda given. */
  function FreshId<K, V>(fns: seq<Proc<K, V>>): (n: nat)
    ensures forall i :: 0 <= i < |fns| ==> fns[i].id < n
  {
    if fns == [] then 0
    else
      var rest := FreshId(fns[1..]);
      if rest <= fns[0].id then fns[0].id + 1 else rest
  }

  /** The `passthrough` lambda that each `map` call creates afresh: identity
      on values, and a different object from every lambda passed in. */
  function Passthrough<K, V>(fns: seq<Proc<K, V>>): (p: Proc<K, V>)
    ensures p.body.ValueFn?
    ensures forall i :: 0 <= i < |fns| ==> fns[i].id != p.id
  {
    Proc(FreshId(fns), ValueFn(v => v))
  }

  /** `f1`: the first lambda, or the passthrough when there is none. */
  function First<K, V>(d: Declaration<K, V>): Proc<K, V>
  {
    if |d.fns| >= 1 then d.fns[0] else Passthrough(d.fns)
  }

  /** `f2`: the second lambda, or the passthrough when there is none. */
  function Second<K, V>(d: Declaration<K, V>): Proc<K, V>
  {
    if |d.fns| >= 2 then d.fns[1] else Passthrough(d.fns)
  }

  /** The reverse-entry condition `to && (f1 == f2 || f2 != passthrough)`
      compares object identities; it holds exactly when a second key was
      given and the number of lambdas is not one. */
  function AddsReverse<K, V>(d: Declaration<K, V>): (b: bool)
    ensures b <==> d.to.Some? && |d.fns| != 1
  {
    d.to.Some? && (First(d).id == Second(d).id || Second(d).id != Passthrough(d.fns).id)
  }

  /** The forward rule of a single-key or key-pair declaration (line 30). */
  function ForwardRule<K, V>(from: K, to: Option<K>, f: Transform<K, V>): Rule<K, V>
  {
    match f
    case ValueFn(v) => Retarget(if to.Some? then to.value else from, v)
    case KeyValueFn(g, _) => Rewrite(g)
  }

  /** What one `map` call does to the rule table: the new table, or the
      error it raises before writing anything. A new table is again a valid
      Hash in which every key already there keeps its position. */
  function Declare<K, V>(t: Table<K, V>, d: Declaration<K, V>): (r: Result<Table<K, V>, MapError>)
    requires t.Valid() && d.WellFormed()
    ensures r.Success? ==> r.value.Valid()
    ensures r.Success? ==> |t.order| <= |r.value.order| && r.value.order[..|t.order|] == t.order
  {
    var f1 := First(d).body;
    match d.from
    case KeyList(keys) =>
      PutListValid(t, keys, f1);
      Success(PutList(t, keys, f1))
    case Key(from) =>
      if d.to.Some? && f1.ArityIsTwo() then Failure(InvalidArgumentError)
      else
        var forward := Put(t, from, ForwardRule(from, d.to, f1));
        if AddsReverse(d) then
          var u := Put(forward, d.to.value, Retarget(from, Second(d).body.f));
          assert u.order[..|t.order|] == u.order[..|forward.order|][..|t.order|];
          Success(u)
        else Success(forward)
  }

  /** A declaration fails exactly when it gives a second key together with a
      first lambda of arity exactly 2; a key array never fails, whatever its
      lambda, and neither does a key-value lambda of any other arity. */
  lemma DeclareFailsIff<K, V>(t: Table<K, V>, d: Declaration<K, V>)
    requires t.Valid() && d.WellFormed()
    ensures Declare(t, d).Failure? <==> d.from.Key? && d.to.Some? && |d.fns| >= 1 && d.fns[0].body.ArityIsTwo()
    ensures Declare(t, d).Failure? ==> Declare(t, d).error == InvalidArgumentError
  {
  }

  /** `map(k)` and `map(k, f)`: one rule under `k` and nothing else changes.
      A value-only `f` (the identity when none is given) keeps the key,
      a key-value lambda is stored as it is. */
  lemma DeclareSingleKey<K, V>(t: Table<K, V>, k: K, fns: seq<Proc<K, V>>)
    requires t.Valid()
    ensures Declare(t, Declaration(Key(k), None, fns)).Success?
    ensures Declare(t, Declaration(Key(k), None, fns)).value.rules == t.rules[k := ListRule(k, First(Declaration(Key(k), None, fns)).body)]
    ensures fns == [] ==>
      (&& Declare(t, Declaration(Key(k), None, fns)).value.rules[k].Retarget?
       && Declare(t, Declaration(Key(k), None, fns)).value.rules[k].target == k
       && forall v :: Declare(t, Declaration(Key(k), None, fns)).value.rules[k].f(v) == v)
  {
    var d := Declaration(Key(k), None, fns);
    assert !AddsReverse(d);
  }

  /** `map(from, to, ...)` whose first lambda does not have arity 2: the
      forward rule sends `from` to `to` through a value-only `f1`, or stores
      any other `f1` bare; the reverse rule `to -> [from, f2]` is written
      exactly when zero or at least two lambdas were given, and otherwise
      `to` keeps whatever rule it had. Every other key is left alone. */
  lemma DeclarePair<K, V>(t: Table<K, V>, from: K, to: K, fns: seq<Proc<K, V>>)
    requires t.Valid()
    requires Declaration(Key(from), Some(to), fns).WellFormed()
    requires |fns| >= 1 ==> !fns[0].body.ArityIsTwo()
    ensures Declare(t, Declaration(Key(from), Some(to), fns)).Success?
    ensures var u := Declare(t, Declaration(Key(from), Some(to), fns)).value;
      var f1 := First(Declaration(Key(from), Some(to), fns)).body;
      && (from != to || |fns| == 1 ==>
            && from in u.rules
            && u.rules[from] == if f1.ValueFn? then Retarget(to, f1.f) else Rewrite(f1.g))
      && (|fns| != 1 ==>
            to in u.rules && u.rules[to] == Retarget(from, Second(Declaration(Key(from), Some(to), fns)).body.f))
      && (|fns| == 1 && from != to ==> (to in u.rules <==> to in t.rules) && (to in t.rules ==> u.rules[to] == t.rules[to]))
      && (forall k :: k != from && k != to ==> (k in u.rules <==> k in t.rules))
      && (forall k :: k != from && k != to && k in t.rules ==> u.rules[k] == t.rules[k])
  {
  }

  /** `map(from, to, f)` with one value-only lambda writes the forward rule
      `from -> [to, f]` and nothing else. */
  lemma DeclareOneWay<K, V>(t: Table<K, V>, from: K, to: K, p: Proc<K, V>)
    requires t.Valid() && p.body.ValueFn?
    ensures Declare(t, Declaration(Key(from), Some(to), [p])) == Success(Put(t, from, Retarget(to, p.body.f)))
  {
    assert !AddsReverse(Declaration(Key(from), Some(to), [p]));
  }

  /** `map(from, from, f1, f2)`: the reverse entry is written second and
      under the same key, so the table keeps `[from, f2]` and `f1` is lost. */
  lemma DeclareSelfPairKeepsSecond<K, V>(t: Table<K, V>, k: K, f1: Proc<K, V>, f2: Proc<K, V>)
    requires t.Valid() && f1.body.ValueFn? && f2.body.ValueFn?
    ensures Declare(t, Declaration(Key(k), Some(k), [f1, f2])).Success?
    ensures Declare(t, Declaration(Key(k), Some(k), [f1, f2])).value.rules == t.rules[k := Retarget(k, f2.body.f)]
  {
    assert AddsReverse(Declaration(Key(k), Some(k), [f1, f2]));
  }

  /** `map([k1, k2, ...], f)`: every listed key gets `[k, f]` (or the bare
      key-value lambda), no other key is touched, and in particular no
      reverse entries are written. */
  lemma DeclareList<K, V>(t: Table<K, V>, keys: seq<K>, fns: seq<Proc<K, V>>)
    requires t.Valid()
    ensures Declare(t, Declaration(KeyList(keys), None, fns)).Success?
    ensures var u := Declare(t, Declaration(KeyList(keys), None, fns)).value;
      var f := First(Declaration(KeyList(keys), None, fns)).body;
      && (forall k :: k in keys ==> k in u.rules && u.rules[k] == ListRule(k, f))
      && u.rules.Keys == t.rules.Keys + set k | k in keys
      && (forall k :: k in t.rules && k !in keys ==> u.rules[k] == t.rules[k])
  {
    PutListKeys(t, keys, First(Declaration(KeyList(keys), None, fns)).body);
    PutListRules(t, keys, First(Declaration(KeyList(keys), None, fns)).body);
  }

  /** The keys a declaration that does not raise writes, in the order it
      writes them: the listed keys, or `from` and then, for a reverse rule,
      `to`. */
  function WrittenKeys<K, V>(d: Declaration<K, V>): seq<K>
  {
    match d.from
    case KeyList(keys) => keys
    case Key(from) => if AddsReverse(d) then [from, d.to.value] else [from]
  }

  /** A declaration appends the keys it writes that the table did not have,
      in the order it writes them: for a pair `from` comes before `to`, for
      an array each new key at its first occurrence. */
  lemma DeclareOrder<K, V>(t: Table<K, V>, d: Declaration<K, V>)
    requires t.Valid() && d.WellFormed() && Declare(t, d).Success?
    ensures Declare(t, d).value.order == t.order + NewKeys(t.order, WrittenKeys(d))
  {
    match d.from {
      case KeyList(keys) =>
        PutListOrder(t, keys, First(d).body);
      case Key(from) =>
        DeclareOrderPair(t, d);
    }
  }

  lemma DeclareOrderPair<K, V>(t: Table<K, V>, d: Declaration<K, V>)
    requires t.Valid() && d.WellFormed() && Declare(t, d).Success? && d.from.Key?
    ensures Declare(t, d).value.order == t.order + NewKeys(t.order, WrittenKeys(d))
  {
    var from := d.from.key;
    var forward := Put(t, from, ForwardRule(from, d.to, First(d).body));
    ForwardOrder(t, from, ForwardRule(from, d.to, First(d).body));
    if AddsReverse(d) {
      var to := d.to.value;
      assert Declare(t, d).value == Put(forward, to, Retarget(from, Second(d).body.f));
      assert WrittenKeys(d) == [from, to];
      ReverseOrder(t, forward, from, to, Retarget(from, Second(d).body.f));
    } else {
      assert Declare(t, d).value == forward;
      assert WrittenKeys(d) == [from];
    }
  }

  lemma ForwardOrder<K, V>(t: Table<K, V>, from: K, r: Rule<K, V>)
    requires t.Valid()
    ensures Put(t, from, r).order == t.order + NewKeys(t.order, [from])
  {
    NewKeysOne(t.order, from);
  }

  lemma ReverseOrder<K, V>(t: Table<K, V>, forward: Table<K, V>, from: K, to: K, r: Rule<K, V>)
    requires forward.Valid()
    requires forward.order == t.order + NewKeys(t.order, [from])
    ensures Put(forward, to, r).order == t.order + NewKeys(t.order, [from, to])
  {
    var nk1 := NewKeys(t.order, [from]);
    NewKeysOne(t.order, from);
    NewKeysTwo(t.order, from, to);
    var added := if to in t.order || to == from then [] else [to];
    if to in t.order || to == from {
      assert to in forward.order;
      assert Put(forward, to, r).order == forward.order;
    } else {
      assert to !in forward.order;
      assert Put(forward, to, r).order == forward.order + [to];
    }
    ConcatAssoc(t.order, nk1, added);
  }

  /** Regrouping a concatenation, stated apart so that the step is proved
      without the table facts in scope. */
  lemma ConcatAssoc<K>(a: seq<K>, b: seq<K>, c: seq<K>)
    ensures (a + b) + c == a + (b + c)
  {
  }

  /** The class-level rule table `@mapper`, shared by every instance of the
      declaring class and written only by `Map`. */
  class Registry<K(==), V> {
    var order: seq<K>
    var rules: map<K, Rule<K, V>>

    function Contents(): Table<K, V>
      reads this
    {
      Table(order, rules)
    }

    ghost predicate Valid()
      reads this
    {
      Contents().Valid()
    }

    /** Before the first declaration the table is empty (`@mapper ||= {}`). */
    constructor ()
      ensures Valid() && order == [] && rules == map[]
    {
      order := [];
      rules := map[];
    }

    /** `@mapper[k] = r`. */
    method Store(k: K, r: Rule<K, V>)
      requires Valid()
      modifies this
      ensures Valid()
      ensures Contents() == Put(old(Contents()), k, r)
    {
      if k !in rules {
        order := order + [k];
      }
      rules := rules[k := r];
    }

    /** `map *args`: compiles one declaration into the table, or raises
        `InvalidArgumentError` and leaves the table as it was. */
    method Map(d: Declaration<K, V>) returns (error: Option<MapError>)
      requires Valid() && d.WellFormed()
      modifies this
      ensures Valid()
      ensures error.None? ==> Declare(old(Contents()), d) == Success(Contents())
      ensures error.Some? ==> Declare(old(Contents()), d) == Failure(error.value) && Contents() == old(Contents())
    {
      var passthrough := Passthrough(d.fns);
      var f1 := if |d.fns| >= 1 then d.fns[0] else passthrough;
      var f2 := if |d.fns| >= 2 then d.fns[1] else passthrough;
      match d.from
      case KeyList(keys) =>
        var i := 0;
        while i < |keys|
          invariant 0 <= i <= |keys|
          invariant Valid()
          invariant Contents() == PutList(old(Contents()), keys[..i], f1.body)
        {
          Store(keys[i], ListRule(keys[i], f1.body));
          assert keys[..i + 1][..i] == keys[..i];
          i := i + 1;
        }
        assert keys[..i] == keys;
        error := None;
      case Key(from) =>
        if d.to.Some? && f1.body.KeyValueFn? && f1.body.exactlyTwo {
          return Some(InvalidArgumentError);
        }
        Store(from, if f1.body.ValueFn? then Retarget(if d.to.Some? then d.to.value else from, f1.body.f) else Rewrite(f1.body.g));
        if d.to.Some? && (f1.id == f2.id || f2.id != passthrough.id) {
          Store(d.to.value, Retarget(from, f2.body.f));
        }
        error := None;
    }
  }
}
