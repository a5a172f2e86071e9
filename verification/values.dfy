/**
 The few Python value semantics the slot loop of barbora_bot.py relies on:
 `dict.get` returning `None` for a missing key, truthiness in an `if`, and
 `str()` as applied by an f-string. Only the scalar JSON values that can sit
 in an hour record are modelled.
 */
module PyValue {

  /** A decoded JSON scalar, or `None` for a key that is absent. */
  datatype Value =
    | None
    | Bool(b: bool)
    | Int(i: int)
    | Str(s: string)

  /** Python truthiness: exactly `None`, `False`, `0` and `""` are false. */
  predicate Truthy(v: Value)
    ensures Truthy(v) <==> v !in {None, Bool(false), Int(0), Str("")}
  {
    match v
    case None => false
    case Bool(b) => b
    case Int(i) => i != 0
    case Str(s) => s != ""
  }

  /** The decimal digit for `d`. */
  function Digit(d: nat): char
    requires d < 10
  {
    ('0' as int + d) as char
  }

  /** The number a string of decimal digits spells, most significant first. */
  ghost function DigitsValue(s: string): int
  {
    if |s| == 0 then 0
    else DigitsValue(s[..|s| - 1]) * 10 + (s[|s| - 1] as int - '0' as int)
  }

  /** The number `str()` output spells, with an optional leading minus sign. */
  ghost function SignedValue(s: string): int
  {
    if |s| > 0 && s[0] == '-' then -DigitsValue(s[1..]) else DigitsValue(s)
  }

  /** The decimal spelling of a natural number, most significant digit first,
      without leading zeros; its digits spell `n` back. */
  function Decimal(n: nat): (s: string)
    ensures |s| >= 1
    ensures forall i :: 0 <= i < |s| ==> '0' <= s[i] <= '9'
    ensures n > 0 <==> s[0] != '0'
    ensures s[0] == '0' ==> s == "0"
    ensures DigitsValue(s) == n
  {
    if n < 10 then [Digit(n)]
    else
      var front := Decimal(n / 10);
      var s := front + [Digit(n % 10)];
      assert s[..|s| - 1] == front;
      s
  }

  /** `str(v)` as an f-string renders it. An integer is spelled in decimal with
      a minus sign exactly when it is negative, and reads back as itself. */
  function ToStr(v: Value): (r: string)
    ensures v.None? ==> r == "None"
    ensures v.Bool? ==> r == (if v.b then "True" else "False")
    ensures v.Str? ==> r == v.s
    ensures v.Int? ==> |r| >= 1 && (r[0] == '-' <==> v.i < 0) && SignedValue(r) == v.i
    ensures v.Int? ==>
      var ds := if v.i < 0 then r[1..] else r;
      && |ds| >= 1
      && (forall k :: 0 <= k < |ds| ==> '0' <= ds[k] <= '9')
      && (ds[0] == '0' ==> ds == "0")
  {
    match v
    case None => "None"
    case Bool(b) => if b then "True" else "False"
    case Int(i) =>
      if i < 0 then
        var r := "-" + Decimal(-i);
        assert r[1..] == Decimal(-i);
        r
      else Decimal(i)
    case Str(s) => s
  }
}
