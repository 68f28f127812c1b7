/**
 * The string forms `Conditions` relies on: Java's `toString()` of the values
 * handed to `equalTo`, and `StringUtils.join` used by `toString`.
 */
module Strings {

  /**
   * An argument of `equalTo`, as far as its `toString()` is concerned: a
   * `String`, an integral number, a `Boolean`, or any other object, for which
   * only the text its own `toString()` returns is known.
   */
  datatype Value = Str(s: string) | Num(n: int) | Bool(b: bool) | Opaque(rendered: string)

  /** The decimal digit for `d`. */
  function DigitChar(d: nat): (c: char)
    requires d < 10
    ensures '0' <= c <= '9'
  {
    "0123456789"[d]
  }

  /** The numeric value of a decimal digit. */
  function DigitValue(c: char): (d: nat)
    requires '0' <= c <= '9'
    ensures d < 10
  {
    c as int - '0' as int
  }

  predicate IsDigits(s: string) {
    forall i | 0 <= i < |s| :: '0' <= s[i] <= '9'
  }

  /** The decimal digits of `n`, most significant first, without leading zeros. */
  function Digits(n: nat): (s: string)
    ensures |s| >= 1 && IsDigits(s)
    ensures s[0] == '0' <==> n == 0
  {
    if n < 10 then [DigitChar(n)] else Digits(n / 10) + [DigitChar(n % 10)]
  }

  /** The number a string of decimal digits denotes. */
  function ParseDigits(s: string): nat
    requires IsDigits(s)
  {
    if s == [] then 0 else ParseDigits(s[..|s| - 1]) * 10 + DigitValue(s[|s| - 1])
  }

  /** `Integer.toString` / `Long.toString`: a minus sign for negatives, then the digits. */
  function DecimalString(n: int): string {
    if n < 0 then "-" + Digits(-n) else Digits(n)
  }

  /** What `toString()` returns for each kind of value. */
  function ToJavaString(v: Value): string {
    match v
    case Str(s) => s
    case Num(n) => DecimalString(n)
    case Bool(b) => if b then "true" else "false"
    case Opaque(rendered) => rendered
  }

  /** Reading the digits of a number back gives the number. */
  lemma {:induction false} ParseDigitsOfDigits(n: nat)
    ensures ParseDigits(Digits(n)) == n
  {
    if n >= 10 {
      var q, d := n / 10, n % 10;
      var init := Digits(q);
      var s := init + [DigitChar(d)];
      assert Digits(n) == s;
      assert s[..|s| - 1] == init;
      ParseDigitsOfDigits(q);
      assert DigitValue(DigitChar(d)) == d;
      assert ParseDigits(s) == ParseDigits(init) * 10 + d;
    } else {
      assert Digits(n) == [DigitChar(n)];
      assert [DigitChar(n)][..0] == [];
    }
  }

  /** An optional minus sign followed by decimal digits. */
  predicate IsDecimal(s: string) {
    if |s| > 0 && s[0] == '-' then IsDigits(s[1..]) else IsDigits(s)
  }

  /** The number a decimal string denotes. */
  function ParseDecimal(s: string): int
    requires IsDecimal(s)
  {
    if |s| > 0 && s[0] == '-' then -(ParseDigits(s[1..]) as int) else ParseDigits(s)
  }

  /** Reading the decimal form of a number back gives the number. */
  lemma DecimalRoundTrip(n: int)
    ensures IsDecimal(DecimalString(n)) && ParseDecimal(DecimalString(n)) == n
  {
    var d := Digits(if n < 0 then -n else n);
    ParseDigitsOfDigits(if n < 0 then -n else n);
    if n < 0 {
      assert DecimalString(n) == "-" + d;
      assert ("-" + d)[1..] == d;
    } else {
      assert DecimalString(n) == d;
      assert '0' <= d[0] <= '9';
    }
  }

  /** Distinct numbers have distinct decimal forms. */
  lemma DecimalStringInjective(a: int, b: int)
    requires DecimalString(a) == DecimalString(b)
    ensures a == b
  {
    DecimalRoundTrip(a);
    DecimalRoundTrip(b);
  }

  /** `StringUtils.join(parts, sep)`: the parts with `sep` between neighbours, "" for no parts. */
  function Join(parts: seq<string>, sep: string): string {
    if |parts| == 0 then ""
    else if |parts| == 1 then parts[0]
    else Join(parts[..|parts| - 1], sep) + sep + parts[|parts| - 1]
  }

  /** The total length of the parts. */
  function TotalLength(parts: seq<string>): nat {
    if parts == [] then 0 else TotalLength(parts[..|parts| - 1]) + |parts[|parts| - 1]|
  }

  /** The joined string holds every part and one separator between each two neighbours. */
  lemma {:induction false} JoinLength(parts: seq<string>, sep: string)
    requires parts != []
    ensures |Join(parts, sep)| == TotalLength(parts) + (|parts| - 1) * |sep|
  {
    if |parts| > 1 {
      JoinLength(parts[..|parts| - 1], sep);
    } else {
      assert parts[..0] == [];
    }
  }

  /** Joining a first part to the rest puts one separator between it and the joined rest. */
  lemma {:induction false} JoinCons(p: string, rest: seq<string>, sep: string)
    requires rest != []
    ensures Join([p] + rest, sep) == p + sep + Join(rest, sep)
  {
    var t := [p] + rest;
    assert t[..|t| - 1] == [p] + rest[..|rest| - 1];
    assert t[|t| - 1] == rest[|rest| - 1];
    if |rest| > 1 {
      JoinCons(p, rest[..|rest| - 1], sep);
    } else {
      assert t[..|t| - 1] == [p];
    }
  }

  /** The joined string starts with the first part. */
  lemma {:induction false} JoinStartsWithFirst(parts: seq<string>, sep: string)
    requires parts != []
    ensures parts[0] <= Join(parts, sep)
  {
    if |parts| > 1 {
      JoinStartsWithFirst(parts[..|parts| - 1], sep);
    }
  }
}
