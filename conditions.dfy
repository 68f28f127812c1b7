/**
 * `com.jcabi.dynamo.Conditions`: an immutable, read-only map from attribute
 * names to DynamoDB query/scan conditions, grown only by building new
 * instances with `with`.
 */
module Dynamo {
  import opened Wrappers
  import opened Pairs
  import opened Strings

  /** DynamoDB's comparison operators. */
  datatype Op =
    | EQ | NE | IN | LE | LT | GE | GT | BETWEEN
    | NOT_NULL | NULL | CONTAINS | NOT_CONTAINS | BEGINS_WITH

  /** The text a comparison operator prints as. */
  function OpName(op: Op): string {
    match op
    case EQ => "EQ"
    case NE => "NE"
    case IN => "IN"
    case LE => "LE"
    case LT => "LT"
    case GE => "GE"
    case GT => "GT"
    case BETWEEN => "BETWEEN"
    case NOT_NULL => "NOT_NULL"
    case NULL => "NULL"
    case CONTAINS => "CONTAINS"
    case NOT_CONTAINS => "NOT_CONTAINS"
    case BEGINS_WITH => "BEGINS_WITH"
  }

  /** A condition: an operator and its operand list, each operand reduced to its string. */
  datatype Condition = Condition(op: Op, values: seq<string>)

  /** The only error the map interface reports. */
  datatype MapError = UnsupportedOperation

  /** The backing pairs: attribute name and condition, no name twice. */
  type Entries = s: seq<(string, Condition)> | DistinctKeys(s)

  /** One term of `toString`: name, operator and operand list separated by single spaces. */
  function Term(name: string, c: Condition, render: seq<string> -> string): string {
    name + " " + OpName(c.op) + " " + render(c.values)
  }

  /** The terms of `toString`, one per pair, in pair order. */
  function Terms(s: seq<(string, Condition)>, render: seq<string> -> string): (ts: seq<string>)
    ensures |ts| == |s|
    ensures forall i | 0 <= i < |s| :: ts[i] == Term(s[i].0, s[i].1, render)
  {
    if s == [] then [] else Terms(s[..|s| - 1], render) + [Term(s[|s| - 1].0, s[|s| - 1].1, render)]
  }

  class Conditions {
    /** Filled once by a constructor and never changed afterwards. */
    const pairs: Entries

    /** The map these conditions stand for. */
    ghost function Mapping(): map<string, Condition> {
      MapOf(pairs)
    }

    /** `new Conditions()`: no conditions at all. */
    constructor Empty()
      ensures Mapping() == map[]
      ensures Size() == 0 && IsEmpty()
    {
      pairs := [];
    }

    /**
     * `new Conditions(map)`: one pair per entry of `map`. A Java map is given
     * here as its `entrySet()` in iteration order, and the pairs keep that order.
     */
    constructor FromMap(entries: Entries)
      ensures pairs == entries
      ensures Mapping() == MapOf(entries)
      ensures Size() == |entries|
    {
      var slots := Fill(entries);
      pairs := slots[..];
    }

    /**
     * The loop of `new Conditions(map)`: an array of `map.size()` slots,
     * filled with one entry after the other at a moving position.
     */
    static method Fill(entries: Entries) returns (slots: array<(string, Condition)>)
      ensures slots.Length == |entries|
      ensures forall i | 0 <= i < |entries| :: slots[i] == entries[i]
    {
      slots := new (string, Condition)[|entries|];
      var pos := 0;
      for i := 0 to |entries|
        invariant pos == i
        invariant forall j | 0 <= j < pos :: slots[j] == entries[j]
      {
        slots[pos] := entries[i];
        pos := pos + 1;
      }
    }

    /**
     * The entries of a hash map, as its iteration yields them: every entry
     * once, in an order this model leaves open.
     */
    static method HashOrder(m: map<string, Condition>) returns (entries: Entries)
      ensures MapOf(entries) == m
      ensures |entries| == |m|
    {
      var done: seq<(string, Condition)> := [];
      var rest := m.Keys;
      while rest != {}
        invariant rest <= m.Keys
        invariant |done| + |rest| == |m|
        invariant DistinctKeys(done)
        invariant KeysOf(done) == m.Keys - rest
        invariant forall i | 0 <= i < |done| :: done[i].0 in m && m[done[i].0] == done[i].1
        decreases |rest|
      {
        var k :| k in rest;
        DistinctAppend(done, (k, m[k]));
        KeysOfAppend(done, (k, m[k]));
        done := done + [(k, m[k])];
        rest := rest - {k};
      }
      MapOfExact(done, m);
      MapOfSize(done);
      entries := done;
    }

    /** `equalTo(value)`: the condition "equal to the string form of `value`". */
    static function EqualTo(value: Value): (c: Condition)
      ensures c.op == EQ
      ensures c.values == [ToJavaString(value)]
    {
      Condition(EQ, [ToJavaString(value)])
    }

    /** `size()`: the number of conditions. */
    function Size(): (n: nat)
      ensures n == |Mapping()|
    {
      MapOfSize(pairs);
      |pairs|
    }

    /** `isEmpty()`. */
    function IsEmpty(): (b: bool)
      ensures b <==> Size() == 0
      ensures b <==> Mapping() == map[]
    {
      |pairs| == 0
    }

    /** `containsKey(key)`: whether some condition is on attribute `key`. */
    function ContainsKey(key: string): (b: bool)
      ensures b <==> key in Mapping()
      ensures b <==> exists i | 0 <= i < |pairs| :: pairs[i].0 == key
    {
      MapOfKeys(pairs);
      key in KeysOf(pairs)
    }

    /** `containsValue(value)`: whether some attribute carries condition `value`. */
    function ContainsValue(value: Condition): (b: bool)
      ensures b <==> value in Mapping().Values
      ensures b <==> exists i | 0 <= i < |pairs| :: pairs[i].1 == value
    {
      MapOfValues(pairs, value);
      value in ValuesOf(pairs)
    }

    /** `get(key)`: the condition on attribute `key`, found by a linear search; `None` for Java's `null`. */
    method Get(key: string) returns (r: Option<Condition>)
      ensures r == if key in Mapping() then Some(Mapping()[key]) else None
      ensures r.Some? <==> ContainsKey(key)
    {
      r := None;
      var i := 0;
      while i < |pairs|
        invariant 0 <= i <= |pairs|
        invariant r == None
        invariant forall j | 0 <= j < i :: pairs[j].0 != key
      {
        if pairs[i].0 == key {
          r := Some(pairs[i].1);
          break;
        }
        i := i + 1;
      }
      MapOfKeys(pairs);
      if r.Some? {
        MapOfAt(pairs, i);
      }
    }

    /** `keySet()`: the attribute names. */
    method KeySet() returns (keys: set<string>)
      ensures keys == Mapping().Keys
      ensures |keys| == Size()
    {
      keys := {};
      for i := 0 to |pairs|
        invariant keys == KeysOf(pairs[..i])
        invariant |keys| == i
      {
        assert pairs[i].0 !in keys by {
          forall j | 0 <= j < i ensures pairs[..i][j].0 != pairs[i].0 {
            assert pairs[..i][j] == pairs[j];
          }
        }
        assert pairs[..i + 1] == pairs[..i] + [pairs[i]];
        keys := keys + {pairs[i].0};
      }
      assert pairs[..|pairs|] == pairs;
      MapOfKeys(pairs);
    }

    /** `values()`: the conditions, in pair order, one per attribute. */
    method Values() returns (vs: seq<Condition>)
      ensures |vs| == Size()
      ensures forall i | 0 <= i < |vs| :: vs[i] == pairs[i].1
      ensures forall c :: c in vs <==> c in Mapping().Values
    {
      vs := [];
      for i := 0 to |pairs|
        invariant vs == ValuesOf(pairs[..i])
      {
        assert pairs[..i + 1][..i] == pairs[..i];
        vs := vs + [pairs[i].1];
      }
      assert pairs[..|pairs|] == pairs;
      forall c ensures c in vs <==> c in Mapping().Values {
        MapOfValues(pairs, c);
      }
    }

    /** `entrySet()`: the (name, condition) entries. */
    method EntrySet() returns (entries: set<(string, Condition)>)
      ensures forall e :: e in entries <==> e.0 in Mapping() && Mapping()[e.0] == e.1
      ensures |entries| == Size()
    {
      entries := {};
      for i := 0 to |pairs|
        invariant entries == set j | 0 <= j < i :: pairs[j]
        invariant |entries| == i
      {
        assert pairs[i] !in entries;
        entries := entries + {pairs[i]};
      }
      forall e ensures e in entries <==> e.0 in Mapping() && Mapping()[e.0] == e.1 {
        MapOfHas(pairs, e.0, e.1);
      }
    }

    /** `map.putAll(this)` on a fresh map: copies every entry out. */
    method CopyEntries() returns (m: map<string, Condition>)
      ensures m == Mapping()
    {
      m := map[];
      for i := 0 to |pairs|
        invariant m == MapOf(pairs[..i])
      {
        MapOfSnoc(pairs, i);
        m := m[pairs[i].0 := pairs[i].1];
      }
      assert pairs[..|pairs|] == pairs;
    }

    /**
     * `with(name, value)`: new conditions holding these ones and `value` on
     * `name`, replacing any earlier condition on `name`.
     */
    method With(name: string, value: Condition) returns (r: Conditions)
      ensures r.Mapping() == Mapping()[name := value]
      ensures r.Size() == if ContainsKey(name) then Size() else Size() + 1
    {
      var m := CopyEntries();
      UpdateSize(m, name, value);
      m := m[name := value];
      var entries := HashOrder(m);
      r := new Conditions.FromMap(entries);
    }

    /**
     * `with(conds)`: new conditions holding these ones and all of `conds`;
     * where both have a name, the condition from `conds` wins.
     */
    method WithAll(conds: map<string, Condition>) returns (r: Conditions)
      ensures r.Mapping().Keys == Mapping().Keys + conds.Keys
      ensures forall k | k in conds :: r.Mapping()[k] == conds[k]
      ensures forall k | k in Mapping() && k !in conds :: r.Mapping()[k] == Mapping()[k]
      ensures r.Size() == Size() + |conds.Keys - Mapping().Keys|
      ensures conds == map[] ==> r.Mapping() == Mapping()
    {
      var m := CopyEntries();
      MergeSize(m, conds);
      m := m + conds;
      var entries := HashOrder(m);
      r := new Conditions.FromMap(entries);
    }

    /**
     * `toString()`: one term per pair, in pair order, joined by " AND ".
     * `render` is the operand list's own `toString()`.
     */
    method ToString(render: seq<string> -> string) returns (s: string)
      ensures s == Join(Terms(pairs, render), " AND ")
      ensures s == "" <==> Size() == 0
    {
      var terms := [];
      for i := 0 to |pairs|
        invariant terms == Terms(pairs[..i], render)
      {
        assert pairs[..i + 1][..i] == pairs[..i];
        terms := terms + [Term(pairs[i].0, pairs[i].1, render)];
      }
      assert pairs[..|pairs|] == pairs;
      s := Join(terms, " AND ");
      if |pairs| > 0 {
        JoinStartsWithFirst(terms, " AND ");
        assert |terms[0]| > 0;
      }
    }

    /** `put(key, value)`: always refused. */
    method Put(key: string, value: Condition) returns (r: Result<Option<Condition>, MapError>)
      ensures r == Failure(UnsupportedOperation)
    {
      r := Failure(UnsupportedOperation);
    }

    /** `remove(key)`: always refused. */
    method Remove(key: string) returns (r: Result<Option<Condition>, MapError>)
      ensures r == Failure(UnsupportedOperation)
    {
      r := Failure(UnsupportedOperation);
    }

    /** `putAll(map)`: always refused. */
    method PutAll(m: map<string, Condition>) returns (r: Outcome<MapError>)
      ensures r == Fail(UnsupportedOperation)
    {
      r := Fail(UnsupportedOperation);
    }

    /** `clear()`: always refused. */
    method Clear() returns (r: Outcome<MapError>)
      ensures r == Fail(UnsupportedOperation)
    {
      r := Fail(UnsupportedOperation);
    }
  }

  /** `equalTo` on a number: the operand is the number's decimal form, e.g. 12345 gives "12345". */
  lemma EqualToNumber()
    ensures Conditions.EqualTo(Num(12345)) == Condition(EQ, ["12345"])
    ensures Conditions.EqualTo(Num(-7)) == Condition(EQ, ["-7"])
  {
    assert Digits(1) == "1";
    assert Digits(12) == "12";
    assert Digits(123) == "123";
    assert Digits(1234) == "1234";
    assert Digits(12345) == "12345";
    assert Digits(7) == "7";
    assert DecimalString(-7) == "-" + "7" == "-7";
  }

  /** Two numbers give the same `equalTo` condition only if they are equal. */
  lemma EqualToNumbersDistinct(a: int, b: int)
    requires Conditions.EqualTo(Num(a)) == Conditions.EqualTo(Num(b))
    ensures a == b
  {
    assert DecimalString(a) == Conditions.EqualTo(Num(a)).values[0];
    DecimalStringInjective(a, b);
  }

  /**
   * Conditions holding the same pairs in a different order, as two hash maps
   * with the same entries may yield, stand for the same map: every lookup
   * answers alike.
   */
  lemma PairOrderIrrelevant(a: Conditions, b: Conditions)
    requires multiset(a.pairs) == multiset(b.pairs)
    ensures a.Mapping() == b.Mapping()
    ensures a.Size() == b.Size()
    ensures forall k :: a.ContainsKey(k) == b.ContainsKey(k)
  {
    PermutedSameMap(a.pairs, b.pairs);
  }

  /** The usage shown in the class documentation: two `with` calls on empty conditions. */
  method Usage() returns (c: Conditions)
    ensures c.Size() == 2
    ensures c.ContainsKey("hash") && c.ContainsKey("range")
    ensures c.Mapping()["hash"] == Condition(EQ, ["some value"])
    ensures c.Mapping()["range"] == Condition(EQ, ["12345"])
  {
    EqualToNumber();
    var empty := new Conditions.Empty();
    var one := empty.With("hash", Conditions.EqualTo(Str("some value")));
    c := one.With("range", Conditions.EqualTo(Num(12345)));
  }
}
