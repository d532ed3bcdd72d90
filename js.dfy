/** JavaScript values as the frontend sees them in untyped (`any`) backend
    records, with the handful of coercions the frontend relies on:
    truthiness, `||`, `??`, property access, `Number(..)`, `String(..)`,
    strict equality and `toLowerCase()`. */
module Js {

  datatype Option<+T> = None | Some(value: T)

  /** A JavaScript number. Only integers and NaN are modelled. */
  datatype Number = Int(i: int) | NaN

  datatype JsVal =
    | Undefined
    | Null
    | Bool(b: bool)
    | Num(n: Number)
    | Str(s: string)
    | Arr(items: seq<JsVal>)
    | Obj(fields: map<string, JsVal>)

  /** JavaScript truthiness: `undefined`, `null`, `false`, `0`, `NaN` and `""` are falsy. */
  predicate Truthy(v: JsVal) {
    match v
    case Undefined => false
    case Null => false
    case Bool(b) => b
    case Num(n) => n.Int? && n.i != 0
    case Str(s) => s != ""
    case Arr(_) => true
    case Obj(_) => true
  }

  /** `a || b` */
  function Or(a: JsVal, b: JsVal): JsVal {
    if Truthy(a) then a else b
  }

  /** `v == null` (loose equality with null) */
  predicate IsNullish(v: JsVal) {
    v.Undefined? || v.Null?
  }

  /** Some entry is null or undefined. */
  predicate HasNullish(vs: seq<JsVal>) {
    exists k :: 0 <= k < |vs| && IsNullish(vs[k])
  }

  /** `a ?? b` */
  function Coalesce(a: JsVal, b: JsVal): JsVal {
    if IsNullish(a) then b else a
  }

  /** `o.k`; a missing property reads as `undefined`. */
  function Get(o: JsVal, k: string): JsVal {
    if o.Obj? && k in o.fields then o.fields[k] else Undefined
  }

  /** `o.k = v` on an object; on any other value the write is lost. */
  function SetField(o: JsVal, k: string, v: JsVal): (r: JsVal)
    ensures o.Obj? ==> r.Obj? && Get(r, k) == v
    ensures o.Obj? ==> forall j :: j != k ==> Get(r, j) == Get(o, j)
    ensures !o.Obj? ==> r == o
  {
    if o.Obj? then Obj(o.fields[k := v]) else o
  }

  /** The elements of an array value; anything else has none. */
  function Items(v: JsVal): seq<JsVal> {
    if v.Arr? then v.items else []
  }

  /** `a === b`. NaN equals nothing; objects and arrays are compared by value. */
  predicate StrictEq(a: JsVal, b: JsVal) {
    if a.Num? && b.Num? then SameNumber(a.n, b.n) else a == b
  }

  /** `x === y` on numbers */
  predicate SameNumber(x: Number, y: Number) {
    x.Int? && y.Int? && x.i == y.i
  }

  predicate IsDigit(c: char) {
    '0' <= c <= '9'
  }

  predicate AllDigits(s: string) {
    forall k :: 0 <= k < |s| ==> IsDigit(s[k])
  }

  /** The value of a string of decimal digits, most significant first. */
  function DigitsValue(s: string): nat
    requires AllDigits(s)
  {
    if |s| == 0 then 0
    else DigitsValue(s[..|s| - 1]) * 10 + (s[|s| - 1] as int - '0' as int)
  }

  /** `Number(s)` for a string: the empty string is 0, an optionally signed
      run of decimal digits is its value, anything else is NaN. */
  function ParseNumber(s: string): Number {
    if s == "" then Int(0)
    else if AllDigits(s) then Int(DigitsValue(s))
    else if (s[0] == '-' || s[0] == '+') && |s| > 1 && AllDigits(s[1..]) then
      (if s[0] == '-' then Int(-(DigitsValue(s[1..]) as int)) else Int(DigitsValue(s[1..])))
    else NaN
  }

  /** `Number(v)` */
  function ToNumber(v: JsVal): Number {
    match v
    case Undefined => NaN
    case Null => Int(0)
    case Bool(b) => if b then Int(1) else Int(0)
    case Num(n) => n
    case Str(s) => ParseNumber(s)
    case Arr(_) => NaN
    case Obj(_) => NaN
  }

  function DigitChar(d: nat): char
    requires d < 10
  {
    ('0' as int + d) as char
  }

  /** Decimal rendering of a natural number, without leading zeros. */
  function NatToString(n: nat): (s: string)
    ensures |s| > 0 && AllDigits(s)
  {
    if n < 10 then [DigitChar(n)] else NatToString(n / 10) + [DigitChar(n % 10)]
  }

  function IntToString(i: int): string {
    if i < 0 then "-" + NatToString(-i) else NatToString(i)
  }

  function NumberToString(n: Number): string {
    if n.NaN? then "NaN" else IntToString(n.i)
  }

  /** `String(v)`; an array is joined with commas, `null` and `undefined`
      elements rendering as empty strings. */
  function ToStr(v: JsVal): string {
    match v
    case Undefined => "undefined"
    case Null => "null"
    case Bool(b) => if b then "true" else "false"
    case Num(n) => NumberToString(n)
    case Str(s) => s
    case Arr(items) => JoinItems(items)
    case Obj(_) => "[object Object]"
  }

  function JoinItems(items: seq<JsVal>): string
    decreases items, 0
  {
    if |items| == 0 then ""
    else
      var last := items[|items| - 1];
      var head := JoinItems(items[..|items| - 1]);
      var piece := if IsNullish(last) then "" else ToStr(last);
      if |items| == 1 then piece else head + "," + piece
  }

  function LowerChar(c: char): char {
    if 'A' <= c <= 'Z' then (c as int + 32) as char else c
  }

  /** `s.toLowerCase()` on the ASCII letters. */
  function ToLower(s: string): (r: string)
    ensures |r| == |s|
  {
    if |s| == 0 then [] else ToLower(s[..|s| - 1]) + [LowerChar(s[|s| - 1])]
  }

  /** Lower-casing a string without capital letters changes nothing. */
  lemma {:induction false} LowerCaseUnchanged(s: string)
    requires forall k :: 0 <= k < |s| ==> !('A' <= s[k] <= 'Z')
    ensures ToLower(s) == s
  {
    if |s| > 0 {
      LowerCaseUnchanged(s[..|s| - 1]);
    }
  }

  /** `String(n)` then `Number(..)` gives back every integer: the ids the
      frontend turns into strings (route parameters, `toString()` on a
      student id) denote the same number again. */
  lemma {:induction false} NatStringRoundTrip(n: nat)
    ensures DigitsValue(NatToString(n)) == n
  {
    if n >= 10 {
      var s := NatToString(n);
      assert s[..|s| - 1] == NatToString(n / 10);
      NatStringRoundTrip(n / 10);
    }
  }

  lemma NumberStringRoundTrip(i: int)
    ensures ParseNumber(IntToString(i)) == Int(i)
    ensures ToNumber(Str(ToStr(Num(Int(i))))) == Int(i)
  {
    if i < 0 {
      NatStringRoundTrip(-i);
      var s := IntToString(i);
      assert s[1..] == NatToString(-i);
      assert !AllDigits(s) by { assert !IsDigit(s[0]); }
    } else {
      NatStringRoundTrip(i);
    }
  }
}
