# attribute_cartographer in Dafny

AttributeCartographer is a Ruby mixin. It turns a raw attribute hash (a
"record", for example a row parsed from a feed) into a hash of mapped
attributes. Mapping rules are declared once per class with `map`:

- `map k` copies `k` as it is.
- `map k, f` passes the value through the one-argument lambda `f`.
- `map k, g` with a two-argument lambda `g` computes both the new key and the
  new value.
- `map from, to` renames in both directions.
- `map from, to, f` maps one way only.
- `map from, to, f1, f2` maps both ways, with one lambda per direction.
- `map [k1, k2, ...], f` applies one lambda to a list of keys.

Each declaration is compiled into the class-level rule table `@mapper`. When
an instance is built, every key that both the table and the record have is
looked up in the table. The entry its rule produces is written into the
instance's mapped attributes. The record itself is also kept unchanged.

The model has four modules:

- `RuleTable` (`rule_table.dfy`) holds the values the engine works on.
  - Lambdas are `Proc(id, body)`. `id` stands for Ruby object identity, which
    is what `==` on two lambdas compares. `body` is a value-only function
    (arity 1) or a key-value function (any other arity). A key-value
    function also records whether its arity is exactly 2, the one arity
    `map` refuses together with a second key.
  - Compiled rules are `Rule`: either `[target, f]` or a bare key-value
    lambda.
  - The rule table is a `Table`: a Ruby Hash, so a map plus the insertion
    order of its keys. Overwriting a key keeps its place.
- `ClassMethods` (`class_methods.dfy`) models `map *args`.
  - `Declare` is the function that says what one call does to the table.
  - `Registry` is the class holding `@mapper`. `Registry.Map` is the method
    that mirrors the Ruby code statement by statement.
  - `Registry.Map` is proved to agree with `Declare`.
- `InstanceMethods` (`instance_methods.dfy`) models `initialize`,
  `map_attributes!`, `original_attributes` and `mapped_attributes`.
  - `Resolve` is the function that gives the mapped attributes.
  - `Instance` is the class with the two attribute hashes. Its loop
    `MapAttributes` is proved to compute `Resolve`.
  - The getters `OriginalAttributes` and `MappedAttributes` return the two
    fields.
- `Properties` (`properties.dfy`) states what each declaration form means for
  the mapped attributes, and what happens when rules compete for a key.

The code and its test file disagree in places. The model follows the code:

- The tests read an `unmapped_attributes` hash
  (spec/attribute_cartographer_spec.rb:64, 101, 133, 153, 167). No such
  method exists in lib/attribute_cartographer.rb. The reverse entry of a
  pair is an ordinary rule in the one table, and its output goes into the
  mapped attributes.
- For `map k, k, f1, f2` the tests expect `f1` to decide the mapped value
  (spec/attribute_cartographer_spec.rb:149, 163). In the code, line 31
  overwrites the entry line 30 wrote, so `f2` decides
  (`DeclareSelfPairKeepsSecond`, `MapSelfPair`).

## Model

| member | source | states |
|---|---|---|
| RuleTable.Empty | lib/attribute_cartographer.rb:13 | `@mapper ||= {}` starts from a valid table with no rules |
| RuleTable.Put | lib/attribute_cartographer.rb:23 | `hash[k] = r`: the entry for `k` becomes `r` and every other entry stays; a new key is appended to the order, an existing key keeps its place; the table stays a valid Hash |
| RuleTable.PutList | lib/attribute_cartographer.rb:21-26 | the `each` over a key array keeps the table a valid Hash |
| RuleTable.PutListValid | lib/attribute_cartographer.rb:21-26 | the key-array form never moves a key already in the table (the old order is a prefix of the new one) |
| RuleTable.PutListKeys | lib/attribute_cartographer.rb:21-26 | the key-array form adds exactly the listed keys to the table's keys |
| RuleTable.ListRule | lib/attribute_cartographer.rb:22-25 | the rule the array form stores for a key: `[k, f]` for an arity-1 lambda, the lambda itself otherwise (no contract; specified through `PutListRules` and `DeclareList`) |
| RuleTable.NewKeys | lib/attribute_cartographer.rb:23 | the keys of an array that a Hash does not yet have, each once in order of first occurrence: exactly the array's keys not already present, without duplicates |
| RuleTable.NewKeysDistinct | lib/attribute_cartographer.rb:23 | the new keys a key array adds to a Hash are each added once |
| RuleTable.PutListOrder | lib/attribute_cartographer.rb:21-26 | the key-array form appends to the table's order exactly `NewKeys` of the array: new keys at their first occurrence, existing keys not moved |
| RuleTable.PutListRules | lib/attribute_cartographer.rb:22-25 | every listed key gets `[k, f]` for an arity-1 lambda or the bare lambda otherwise, and every unlisted key keeps its rule |
| ClassMethods.FreshId | lib/attribute_cartographer.rb:17 | the identity given to the fresh `passthrough` lambda is larger than the identity of every lambda passed in |
| ClassMethods.Passthrough | lib/attribute_cartographer.rb:17-19 | `passthrough` is a value-only lambda and a different object from every lambda passed in |
| ClassMethods.First | lib/attribute_cartographer.rb:18 | `f1 ||= passthrough`: the first lambda, or the passthrough when none is given (no contract; used by `DeclareSingleKey`, `DeclarePair`, `DeclareList`) |
| ClassMethods.Second | lib/attribute_cartographer.rb:19 | `f2 ||= passthrough`: the second lambda, or the passthrough (no contract; used by `DeclarePair`) |
| ClassMethods.ForwardRule | lib/attribute_cartographer.rb:30 | the forward entry `f1.arity == 1 ? [to \|\| from, f1] : f1` (no contract; specified through `DeclareSingleKey` and `DeclarePair`) |
| ClassMethods.AddsReverse | lib/attribute_cartographer.rb:31 | the identity test `to && (f1 == f2 \|\| f2 != passthrough)` holds exactly when a second key was given and the number of lambdas is not one |
| ClassMethods.Declare | lib/attribute_cartographer.rb:12-33 | one `map` call either raises or gives a table that is again a valid Hash, in which every key already present keeps its position |
| ClassMethods.DeclareFailsIff | lib/attribute_cartographer.rb:28 | `map` raises `InvalidArgumentError` if and only if a second key is given together with a first lambda of arity exactly 2; a key array never raises, and neither does a key-value lambda of any other arity |
| ClassMethods.DeclareSingleKey | lib/attribute_cartographer.rb:18-30 | `map(k)` and `map(k, f)` change only the rule of `k`: `[k, f]` for a value-only `f`, the bare lambda otherwise, and with no lambda the identity under `k` itself |
| ClassMethods.DeclarePair | lib/attribute_cartographer.rb:28-31 | `map(from, to, ...)` whose first lambda is not arity 2 writes `from -> [to, f1]` for a value-only `f1` and the bare lambda otherwise; it writes `to -> [from, f2]` exactly when zero or two or more lambdas were given, and otherwise `to` keeps its old rule (or stays absent); no other key changes |
| ClassMethods.DeclareOneWay | lib/attribute_cartographer.rb:30-31 | `map(from, to, f)` with one value-only lambda gives exactly the table with `from -> [to, f]` put in, and nothing else |
| ClassMethods.WrittenKeys | lib/attribute_cartographer.rb:21-31 | the keys a declaration writes, in order: the array, or `from` then (for a reverse entry) `to` (no contract; used by `DeclareOrder`) |
| ClassMethods.DeclareOrder | lib/attribute_cartographer.rb:21-31 | a declaration appends exactly `NewKeys` of the keys it writes, in writing order: `from` before `to` for a pair, first occurrences for an array |
| ClassMethods.ForwardOrder | lib/attribute_cartographer.rb:30 | the forward write appends `from` to the order exactly when it is new |
| ClassMethods.ReverseOrder | lib/attribute_cartographer.rb:31 | after the forward write, the reverse write leaves the order extended by `NewKeys` of `[from, to]` |
| ClassMethods.DeclareOrderPair | lib/attribute_cartographer.rb:28-31 | for a single key or a pair, the new order is the old one followed by the new keys among `from` and then `to` |
| ClassMethods.DeclareSelfPairKeepsSecond | lib/attribute_cartographer.rb:30-31 | `map(k, k, f1, f2)` leaves `k -> [k, f2]`: the reverse write replaces the forward one |
| ClassMethods.DeclareList | lib/attribute_cartographer.rb:21-26 | `map([k...], f)` never raises; every listed key gets its list rule, the key set grows by exactly the listed keys, other rules are untouched, and no reverse entries are written |
| ClassMethods.Registry.constructor | lib/attribute_cartographer.rb:13 | a class starts with an empty, valid rule table |
| ClassMethods.Registry.Store | lib/attribute_cartographer.rb:23-31 | one Hash assignment into `@mapper` is `Put` on the table, and keeps it valid |
| ClassMethods.Registry.Map | lib/attribute_cartographer.rb:12-33 | the statement-by-statement `map` (array loop, raise, forward and reverse writes) leaves exactly the table `Declare` gives, or reports the error `Declare` gives with the table unchanged |
| InstanceMethods.SharedKeys | lib/attribute_cartographer.rb:60 | `mapper.keys & attributes.keys` holds exactly the keys in both, in the table's order, without duplicates |
| InstanceMethods.SharedKeysAppend | lib/attribute_cartographer.rb:60 | the key intersection of a concatenation is the concatenation of the intersections |
| InstanceMethods.Apply | lib/attribute_cartographer.rb:63-68 | a `[target, f]` rule gives `target` and `f(value)`; a bare lambda gives its own key and value (no contract; specified through `ResolveDomain` and the `Resolve` lemmas) |
| InstanceMethods.Output | lib/attribute_cartographer.rb:61-68 | the entry the rule of a shared key writes for this record (no contract) |
| InstanceMethods.MapEach | lib/attribute_cartographer.rb:60-71 | the `each` loop as a function of the keys processed so far; `Instance.MapAttributes` is proved equal to it, and `MapEachDomain` and `MapEachLastWins` state what it computes (no contract of its own) |
| InstanceMethods.Resolve | lib/attribute_cartographer.rb:56-72 | the mapped attributes of a record under a table; specified by `ResolveDomain`, `ResolveSize`, `ResolveLastWins` and `ResolveUniqueOutput` (no contract of its own) |
| InstanceMethods.MapEachDomain | lib/attribute_cartographer.rb:60-71 | the loop adds to the hash exactly the output keys of the visited keys |
| InstanceMethods.OutputKeysSize | lib/attribute_cartographer.rb:60-71 | the visited keys produce at most as many distinct output keys as there are visited keys |
| InstanceMethods.OutputKeysHas | lib/attribute_cartographer.rb:63-70 | the output key of every visited key is among the loop's output keys |
| InstanceMethods.OutputIndex | lib/attribute_cartographer.rb:63-70 | every output key of the loop is produced by some visited key |
| InstanceMethods.MapEachLastWins | lib/attribute_cartographer.rb:70 | when several visited keys write the same mapped key, the last one's value stays |
| InstanceMethods.ResolveSize | lib/attribute_cartographer.rb:56-72 | there are at most as many mapped attributes as keys shared by the table and the record |
| InstanceMethods.ResolveDomain | lib/attribute_cartographer.rb:56-72 | the mapped keys are exactly the output keys of the rules of the shared keys: record keys without a rule are dropped, and declared keys the record lacks add nothing |
| InstanceMethods.ResolveLastWins | lib/attribute_cartographer.rb:60-70 | rules run in the table's insertion order, so among rules writing the same mapped key the one latest in that order decides the value |
| InstanceMethods.ResolveUniqueOutput | lib/attribute_cartographer.rb:60-70 | a shared key whose output key no other shared key produces has its entry in the mapped attributes exactly as its rule computes it |
| InstanceMethods.Instance.constructor | lib/attribute_cartographer.rb:37-44 | `initialize` keeps the record as given in the original attributes and sets the mapped attributes to `Resolve` of the class's table |
| InstanceMethods.Instance.Blank | lib/attribute_cartographer.rb:37-44 | `initialize` with its default `{}`: both the original and the mapped attributes are empty, whatever the class's rules |
| InstanceMethods.Instance.OriginalAttributes | lib/attribute_cartographer.rb:46-48 | returns the record kept at construction (no contract; the constructors state its value) |
| InstanceMethods.Instance.MappedAttributes | lib/attribute_cartographer.rb:50-52 | returns the mapped attributes (no contract; the constructors state its value) |
| InstanceMethods.Instance.MapAttributes | lib/attribute_cartographer.rb:56-72 | the `each` loop over the shared keys applies each key's rule (`[target, f]` writes `f(value)` under `target`, a key-value lambda gives both) and writes the result, in the table's order |
| Properties.ResolveNoSharedKeys | lib/attribute_cartographer.rb:58-60 | a record sharing no key with the table, and so any record of a class that never called `map`, maps to an empty hash |
| Properties.ResolveOneRule | lib/attribute_cartographer.rb:60-70 | a table with one rule maps a record with that key to that rule's single entry, and any other record to nothing |
| Properties.MapSingleValueKey | lib/attribute_cartographer.rb:17-65 | after `map(k)` or `map(k, f)`, the mapped attributes are `{k => f(record[k])}` (the value itself with no lambda), or empty when the record lacks `k` |
| Properties.MapSingleKeyValue | lib/attribute_cartographer.rb:30-67 | after `map(k, ->(k, v) {...})`, the lambda's result gives the only mapped key and value, and a record without `k` maps to nothing |
| Properties.MapPairTwoWay | lib/attribute_cartographer.rb:28-70 | after `map(from, to)` or `map(from, to, f1, f2)` with `from != to`, the record's `from` value appears under `to` through `f1` and its `to` value under `from` through `f2`, and nothing else appears |
| Properties.ResolveRename | lib/attribute_cartographer.rb:60-70 | a table holding just the two rules of a rename pair resolves each side independently |
| Properties.MapPairOneWay | lib/attribute_cartographer.rb:30-70 | after `map(from, to, f)`, only the record's `from` value is mapped (to `to` through `f`); a record holding only `to` maps to nothing |
| Properties.MapPairOtherArity | lib/attribute_cartographer.rb:28-31 | `map(from, to, g)` with one key-value lambda whose arity is not 2 does not raise; a record with `from` maps to the single entry `g` returns, any other record to nothing |
| Properties.MapSelfPair | lib/attribute_cartographer.rb:30-70 | after `map(k, k, f1, f2)`, the record's `k` value is mapped through `f2`, not `f1` |
| Properties.MapListValue | lib/attribute_cartographer.rb:21-70 | after `map([k...])` or `map([k...], f)`, every listed key the record has keeps its name and gets `f` of its value, and nothing else appears |
| Properties.DeclareListValue | lib/attribute_cartographer.rb:21-23 | a value-only key-array declaration on an empty table builds exactly the listed keys, each with `[k, f]` |
| Properties.ResolveListValue | lib/attribute_cartographer.rb:60-65 | a table of `[k, f]` rules over exactly the listed keys maps each listed key the record has to `f` of its value |
| Properties.ResolveKeepsKeys | lib/attribute_cartographer.rb:60-65 | a table whose every rule is `[k, f]` under its own key `k` maps each shared key to `f` of its value under the same key |
| Properties.MapListKeyValue | lib/attribute_cartographer.rb:24-70 | after `map([k...], ->(k, v) {...})`, the mapped keys are exactly the new names the lambda gives the listed keys the record has, and a name only one listed key produces carries that key's new value |
| Properties.DeclareListKeyValue | lib/attribute_cartographer.rb:24-25 | a key-array declaration with a key-value lambda on an empty table builds exactly the listed keys, each with the bare lambda |
| Properties.MapListKeyValueLastWins | lib/attribute_cartographer.rb:21-70 | after `map([k...], ->(k, v) {...})`, when several listed keys get the same new name, the one whose first occurrence in the array is last decides the value |
| Properties.ResolveKeyValueLastWins | lib/attribute_cartographer.rb:60-70 | in a table of bare key-value rules with one lambda, among shared keys given the same name the last in table order decides the value |
| Properties.ResolveListKeyValue | lib/attribute_cartographer.rb:60-70 | a table of bare key-value rules over exactly the listed keys maps to the lambda's new names, and a name only one key produces carries that key's value |
| Properties.RedeclaredKeyKeepsItsTurn | lib/attribute_cartographer.rb:13-70 | with `map k1, x, f; map k2, x, g; map k1, x, h`, redeclaring `k1` replaces its rule but keeps its first position in the Hash, so `k2`'s rule runs last and `x` gets `g` of the record's `k2` value |
| Properties.ResolveSecondOfTwoDecides | lib/attribute_cartographer.rb:60-70 | of two rules writing the same key, the one later in the table's order decides the value, and nothing else is written |
| Properties.MapRejectsKeyValueWithTarget | lib/attribute_cartographer.rb:28 | `map(from, to, ->(k, v) {...})` with an arity-2 lambda raises `InvalidArgumentError` and leaves the class's table as it was |

## Left out

- The `included` hook and `self.class.instance_variable_get(:@mapper)`
  (lib/attribute_cartographer.rb:4-9, 57) are Ruby metaprogramming. The
  model passes the class's `Registry` to the instance directly.
- A `nil` `@mapper` (a class that never called `map`) makes
  `map_attributes!` return at line 58. The model starts every class with an
  empty table, which maps every record to an empty hash, just as the early
  return does (`ResolveNoSharedKeys`).
- The `super` call in `initialize` (line 43) goes, with the same
  arguments, to the next `initialize` in the including class's ancestors
  after the module: the superclass's, which is `Object`'s for a plain class.
  That call is not part of this model. An `initialize` that the including
  class defines itself comes before the module and replaces this one
  altogether; that case is not modelled either.
- Arity is modelled only as far as the code tests it: arity 1 (value-only),
  exactly 2, or anything else. Every lambda of another arity is treated as
  a key-value function of `(key, value)`, called at line 67. A plain proc,
  `->(*a)`, `->(k, v = nil)` or `->(k, *r)` can be called with two
  arguments, and there the model is right. A lambda that cannot be called
  with exactly two arguments raises `ArgumentError` at line 67: for
  example one of fixed arity 0 or 3 and more, `->(v = nil)` (at most one
  argument) or `->(a, b, c, *r)` (at least three). That error is not
  modelled.
- Exceptions raised inside user lambdas, and key-value lambdas that do not
  return a two-element array, are not modelled. Lambdas are total functions
  here.
- ClassMethods.Declare, ClassMethods.Registry.Map: both require
  `Declaration.WellFormed`, which asks for `f2` to be given by its
  one-argument behaviour (a `ValueFn`) whenever the reverse entry
  `[from, f2]` is written. The code never reads `f2`'s arity: line 31 only
  compares identities, and line 65 calls `f2` with the value alone. So any
  `f2` that can take one argument (arity 1, `->(*a)`, `->(v, w = nil)`, a
  plain proc) is covered by giving it as the `ValueFn` of that behaviour;
  a `Proc` with the same identity but another body can stand for the same
  object elsewhere in the declaration. Left out is only an `f2` that cannot
  be called with one argument, such as `->(k, v)`: it raises
  `ArgumentError` at line 65 when a record with `to` is mapped, and that
  error is not modelled.
- The argument partition at line 15 works on untyped Ruby values. A call
  with no key, with more than two keys, or with an array as the second key
  is not modelled. A `Declaration` has a key or key array, an optional
  second key, and the lambdas in order. Lambdas after the second are
  ignored, as in the code.
- Keys and values are generic types. `mapper.keys & attributes.keys` is
  `Array#&`, which compares with `eql?`/`hash`; the model takes that to be
  Dafny equality.
- A `nil` or `false` second key counts as absent in the code (`to && ...`
  and `to || from`, lines 28-31). The model's second key is an `Option`,
  and a present second key always builds a pair, whatever its value.
- InstanceMethods.Resolve, InstanceMethods.Instance.MapAttributes: the
  mapped attributes are a Dafny `map`, which has no key order. In Ruby,
  `@_mapped_attributes` is a Hash and keeps its keys in the order they were
  first written. That order is the order of `mapper.keys & attributes.keys`,
  and a later write to the same key does not move it. So `map :b; map :a`
  with the record `{a: 1, b: 2}` gives keys `[:b, :a]`. The model does not
  state this order. It keeps no order for the record's keys either. It
  does keep the rule table's order, which decides which rule writes last.
- `original_attributes` returns the very Hash object the caller passed in,
  so the caller's later changes to it show through. The model keeps the
  record as a value, fixed at construction.
- `unmapped_attributes`, which the test file reads, does not exist in
  lib/attribute_cartographer.rb and is not modelled.
