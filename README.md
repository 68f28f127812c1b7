# jcabi-dynamo `Conditions`, modelled in Dafny

`com.jcabi.dynamo.Conditions` is an immutable builder of DynamoDB query and
scan filters. It is a `Map<String, Condition>` from attribute names to
conditions, and it is read-only. Its one field, the array `pairs`, is filled
once by a constructor and never changed. Every "change" (`with`) copies the
entries into a fresh map, lays the new entries over them and builds a new
`Conditions`. The `Map` read operations are views computed from `pairs`. The
`Map` write operations always throw `UnsupportedOperationException`.

The model has four modules:

- `Dynamo` (`conditions.dfy`): the class `Conditions` and the condition types.
  - `pairs` is a `const` of the subset type `Entries`. That type is a sequence of (name, condition) pairs in which no name occurs twice.
  - A `const` can never be reassigned, and no method of the class has a `modifies` clause. So no operation can change a `Conditions` once it is built. This is how the model states that the receiver is never touched.
  - The abstraction is the ghost function `Mapping()`, the map the pairs describe. Every operation is specified against it.
  - The map constructor takes its argument as the map's `entrySet()` in iteration order. It fills an array slot by slot at a moving position, as the source does, so the pairs keep that order.
  - `with` builds its result from a `ConcurrentHashMap`. `HashOrder` stands for that map's iteration: it yields every entry once and takes the keys in an arbitrary order (`:|`).
  - The views `get`, `keySet`, `values`, `entrySet` and `toString` are methods with loops.
  - `size`, `isEmpty`, `containsKey`, `containsValue` and `equalTo` are functions.
- `Pairs` (`pairs.dfy`): the theory of finite maps kept as pair sequences.
  - `MapOf` inserts the pairs in order, and a later pair wins.
  - Lemmas cover the keys, the size, the values and lookup of `MapOf`.
  - One lemma shows that the order of the pairs does not change the map.
- `Strings` (`strings.dfy`): the string forms `Conditions` depends on.
  - `toString()` of the values handed to `equalTo`, with decimal rendering of numbers and a parse-back round trip.
  - `StringUtils.join`, used by `toString`.
- `Wrappers` (`wrappers.dfy`): `Option` stands for a `null` result. `Result` and `Outcome` stand for a thrown exception.

## Model

| member | source | states |
|---|---|---|
| Dynamo.Conditions.Empty | src/main/java/com/jcabi/dynamo/Conditions.java:85-87 | the no-argument constructor stands for the empty map: size 0 and `isEmpty()` true |
| Dynamo.Conditions.FromMap | src/main/java/com/jcabi/dynamo/Conditions.java:93-100 | building from a map copies its entries exactly and in the map's own iteration order: the pairs are the entries, the instance stands for the map they describe (every key maps to the map's value, every other key is absent), and its size is the number of entries |
| Dynamo.Conditions.Fill | src/main/java/com/jcabi/dynamo/Conditions.java:94-99 | the slot-by-slot fill loop yields an array of exactly `map.size()` slots, slot `i` holding the `i`-th entry the map's iteration yields |
| Dynamo.Conditions.HashOrder | src/main/java/com/jcabi/dynamo/Conditions.java:123-129 | iterating the hash map built by `with` yields each of its entries exactly once (as many entries as keys, describing exactly that map), in an order left open |
| Dynamo.Conditions.EqualTo | src/main/java/com/jcabi/dynamo/Conditions.java:107-112 | `equalTo(v)` has operator `EQ` and exactly one operand, the string form of `v` |
| Dynamo.EqualToNumber | src/main/java/com/jcabi/dynamo/Conditions.java:107-112 | `equalTo(12345)` is the `EQ` condition on `"12345"`, and `equalTo(-7)` is the one on `"-7"` |
| Dynamo.EqualToNumbersDistinct | src/main/java/com/jcabi/dynamo/Conditions.java:110 | two numbers give the same `equalTo` condition only if they are equal |
| Dynamo.Conditions.Size | src/main/java/com/jcabi/dynamo/Conditions.java:166-169 | `size()` is the number of distinct names in the map |
| Dynamo.Conditions.IsEmpty | src/main/java/com/jcabi/dynamo/Conditions.java:171-174 | `isEmpty()` holds iff `size() == 0`, iff the map is empty |
| Dynamo.Conditions.ContainsKey | src/main/java/com/jcabi/dynamo/Conditions.java:176-179 | `containsKey(k)` holds iff some pair has name `k`, iff `k` is a key of the map |
| Dynamo.Conditions.ContainsValue | src/main/java/com/jcabi/dynamo/Conditions.java:181-184 | `containsValue(c)` holds iff some pair has condition `c`, iff `c` is among the map's values |
| Dynamo.Conditions.Get | src/main/java/com/jcabi/dynamo/Conditions.java:186-196 | the search loop returns the map's condition for `k` when `k` is a key and absent otherwise; it finds something iff `containsKey(k)` |
| Dynamo.Conditions.KeySet | src/main/java/com/jcabi/dynamo/Conditions.java:198-205 | `keySet()` is exactly the map's key set and has `size()` elements |
| Dynamo.Conditions.Values | src/main/java/com/jcabi/dynamo/Conditions.java:207-215 | `values()` has `size()` elements, lists the conditions in pair order, and holds exactly the map's values |
| Dynamo.Conditions.EntrySet | src/main/java/com/jcabi/dynamo/Conditions.java:217-230 | `entrySet()` holds an entry (k, c) iff the map sends `k` to `c`, and has `size()` elements |
| Dynamo.Conditions.CopyEntries | src/main/java/com/jcabi/dynamo/Conditions.java:127 | `map.putAll(this)` into a fresh map copies out exactly the map these conditions stand for |
| Dynamo.Conditions.With | src/main/java/com/jcabi/dynamo/Conditions.java:121-130 | `with(name, c)` maps `name` to `c` and every other name as before; the size grows by one iff `name` was absent, else it stays the same |
| Dynamo.Conditions.WithAll | src/main/java/com/jcabi/dynamo/Conditions.java:138-146 | `with(conds)` has the union of both key sets; names in `conds` take their condition from `conds`, the rest keep theirs; the size grows by the number of new names; an empty `conds` keeps the map |
| Dynamo.Conditions.ToString | src/main/java/com/jcabi/dynamo/Conditions.java:148-164 | `toString()` joins one "name operator operands" term per pair, in pair order, with " AND "; it is empty iff there are no conditions |
| Dynamo.Conditions.Put | src/main/java/com/jcabi/dynamo/Conditions.java:232-235 | `put` always fails with an unsupported-operation error and changes nothing |
| Dynamo.Conditions.Remove | src/main/java/com/jcabi/dynamo/Conditions.java:237-240 | `remove` always fails with an unsupported-operation error and changes nothing |
| Dynamo.Conditions.PutAll | src/main/java/com/jcabi/dynamo/Conditions.java:242-246 | `putAll` always fails with an unsupported-operation error and changes nothing |
| Dynamo.Conditions.Clear | src/main/java/com/jcabi/dynamo/Conditions.java:248-251 | `clear` always fails with an unsupported-operation error and changes nothing |
| Dynamo.PairOrderIrrelevant | src/main/java/com/jcabi/dynamo/Conditions.java:93-100 | two instances holding the same pairs in different orders, as two hash-ordered copies may, stand for the same map, size and key containment |
| Dynamo.Usage | src/main/java/com/jcabi/dynamo/Conditions.java:52-58 | the documented usage `new Conditions().with("hash", equalTo("some value")).with("range", equalTo(12345))` has two conditions, on "hash" and "range", with operands "some value" and "12345" |
| Pairs.MapOfSize | src/main/java/com/jcabi/dynamo/Conditions.java:166-169 | with distinct keys, the map has as many entries as there are pairs |
| Pairs.PermutedSameMap | src/main/java/com/jcabi/dynamo/Conditions.java:96 | pair sequences that are permutations of each other describe the same map |
| Strings.DecimalRoundTrip | src/main/java/com/jcabi/dynamo/Conditions.java:110 | the decimal form a number's `toString()` gives reads back as that number |
| Strings.JoinLength | src/main/java/com/jcabi/dynamo/Conditions.java:163 | the joined length is the terms' total length plus one separator per gap between neighbouring terms |
| Strings.JoinCons | src/main/java/com/jcabi/dynamo/Conditions.java:163 | `StringUtils.join` of a first term and further terms is that first term, one separator, then the join of the rest: the terms appear in order, one separator between each two neighbours |

## Left out

- `Item.java` is not part of this model. It is an interface with no method bodies, and its `get`, `has` and `put` are remote calls to DynamoDB. Its staleness after `put` is a side effect on the remote store.
- Lombok's `equals`/`hashCode` on `pairs` (`Conditions.java:65`) are not modelled. They compare `pairs` in order. That order comes from the argument's iteration order, and after `with` from `ConcurrentHashMap` iteration (`Conditions.java:123-129`, `139-145`), which the model leaves open.
- Dynamo.Conditions.With: the pair order of the result is not stated, only its mapping and size. The result is built from a `ConcurrentHashMap` (`Conditions.java:123-129`), whose iteration order is hash-based. So `values()` and `toString()` of the result list the conditions in an order the model leaves open. The same holds for Dynamo.Conditions.WithAll (`Conditions.java:139-145`).
- The annotations are not modelled: `@Loggable` logging, `@Immutable` runtime checks and `serialVersionUID`/`transient` serialization. `@NotNull` becomes the types: no argument can be null.
- Null entries are not modelled. `@NotNull` on the map constructor (`Conditions.java:93`) and on `with(conds)` (`Conditions.java:138`) guards only the map itself, not its keys and values. The source accepts a map with a null key or a null condition, and then:
  - `keySet()` and `entrySet()` throw a `NullPointerException` on `pair[0].toString()` (`Conditions.java:202`, `224`);
  - `with` throws a `NullPointerException` from `ConcurrentHashMap.putAll` or `put` (`Conditions.java:127-128`, `143-144`);
  - `toString()` throws a `NullPointerException` on a null condition (`Conditions.java:158`);
  - `get` returns `null` for a present key whose condition is null, which cannot be told apart from an absent key (`Conditions.java:187-196`);
  - `containsValue(null)` returns false (`Conditions.java:183`).
  Here names are `string`s and conditions are `Condition` values, so none of these paths exist in the model.
- `AttributeValue` is reduced to its string, and `ComparisonOperator` to the datatype `Op`.
- Dynamo.Conditions.ToString: the text of the operand list's own `toString()` is a parameter `render`, because it belongs to the AWS SDK. Only the structure of the result is stated.
- Dynamo.Conditions.ContainsKey: the key is a `String` here. The source applies `toString()` to an `Object` key, while `get` compares with `equals`, so for a key that is not a `String` the two may disagree. A `null` key makes `containsKey` throw a `NullPointerException`. Neither case is modelled.
- Dynamo.Conditions.ContainsValue: the argument is a `Condition` here. The source's `ClassCastException` for any other object is not modelled.
- Dynamo.Conditions.Get: the search runs over the pairs directly. The source runs it over a freshly built `entrySet()` in hash order. Keys are distinct, so both find the same entry.
- Dynamo.Conditions.EqualTo: a Java object's `toString()` is modelled for strings, integral numbers and booleans. Any other object is represented by the text its `toString()` returns. Numbers are unbounded integers; for values inside Java's `int` and `long` ranges the decimal form is the same.
- `ConcurrentHashMap` is modelled as a plain map. Concurrency plays no part, because each `with` uses its own local map.
