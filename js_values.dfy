/** JavaScript values as they occur in the app's JSON records, and the few
    built-in conversions that the app's code relies on: truthiness, `||`,
    `===`, `String(n)`, `Number(v)`, `parseInt(v)`, `toLowerCase()` and
    `includes()`. */
module JsValues {

  /** A JSON scalar or `undefined`. Numbers are modelled as integers; `NaN`
      only arises from arithmetic on values that are not numbers. */
  datatype Val = Undefined | Null | Bool(b: bool) | Num(n: int) | NaN | Str(s: string)

  /** A plain object: property name to value. A missing property reads as `undefined`. */
  type Obj = map<string, Val>

  /** `o[key]` */
  function Get(o: Obj, key: string): Val {
    if key in o then o[key] else Undefined
  }

  /** JavaScript truthiness: `undefined`, `null`, `false`, `0`, `NaN` and `""` are falsy. */
  predicate Truthy(v: Val) {
    match v
    case Undefined => false
    case Null => false
    case Bool(b) => b
    case Num(n) => n != 0
    case NaN => false
    case Str(s) => s != ""
  }

  /** `a || b` */
  function Or(a: Val, b: Val): Val {
    if Truthy(a) then a else b
  }

  /** `a === b` (on these values only `NaN` differs from structural equality). */
  predicate StrictEquals(a: Val, b: Val) {
    a == b && !a.NaN?
  }

  // ----- decimal digits -----

  predicate IsDigit(c: char) { '0' <= c <= '9' }

  predicate AllDigits(s: string) { forall i :: 0 <= i < |s| ==> IsDigit(s[i]) }

  function DigitChar(d: nat): char
    requires d < 10
  {
    (('0' as int) + d) as char
  }

  /** `String(n)` for a non-negative integer. */
  function DecimalString(n: nat): (s: string)
    ensures |s| > 0 && AllDigits(s)
    ensures s[0] == '0' ==> n == 0
  {
    if n < 10 then [DigitChar(n)] else DecimalString(n / 10) + [DigitChar(n % 10)]
  }

  /** The number a string of decimal digits denotes. */
  function DigitsValue(s: string): nat
    requires AllDigits(s)
  {
    if s == [] then 0
    else DigitsValue(s[..|s| - 1]) * 10 + ((s[|s| - 1] as int) - ('0' as int))
  }

  /** Reading back what `String(n)` printed gives `n`. */
  lemma {:induction false} DecimalStringRoundTrip(n: nat)
    ensures DigitsValue(DecimalString(n)) == n
  {
    if n >= 10 {
      var s := DecimalString(n);
      assert s[..|s| - 1] == DecimalString(n / 10);
      DecimalStringRoundTrip(n / 10);
    }
  }

  /** Distinct numbers print as distinct strings. */
  lemma DecimalStringInjective(m: nat, n: nat)
    ensures DecimalString(m) == DecimalString(n) ==> m == n
  {
    DecimalStringRoundTrip(m);
    DecimalStringRoundTrip(n);
  }

  /** `String(n)` for any integer. */
  function IntString(n: int): string {
    if n < 0 then "-" + DecimalString(-n) else DecimalString(n)
  }

  /** `String(v)` */
  function ToStr(v: Val): string {
    match v
    case Undefined => "undefined"
    case Null => "null"
    case Bool(b) => if b then "true" else "false"
    case Num(n) => IntString(n)
    case NaN => "NaN"
    case Str(s) => s
  }

  // ----- numeric conversions -----

  predicate IsSpace(c: char) { c == ' ' || c == '\t' || c == '\n' || c == '\r' }

  function TrimStart(s: string): (r: string)
    ensures |r| <= |s|
  {
    if |s| > 0 && IsSpace(s[0]) then TrimStart(s[1..]) else s
  }

  function TrimEnd(s: string): string {
    if |s| > 0 && IsSpace(s[|s| - 1]) then TrimEnd(s[..|s| - 1]) else s
  }

  /** `Number(s)` for a string, with decimal integers as the only numerals;
      `None` stands for `NaN`. */
  function StringToNumber(s: string): Option<int> {
    var t := TrimEnd(TrimStart(s));
    if t == "" then Some(0)
    else if AllDigits(t) then Some(DigitsValue(t))
    else if |t| > 1 && t[0] == '-' && AllDigits(t[1..]) then Some(-(DigitsValue(t[1..]) as int))
    else if |t| > 1 && t[0] == '+' && AllDigits(t[1..]) then Some(DigitsValue(t[1..]))
    else None
  }

  /** `Number(v)`, the conversion behind `-`, `<` and `>`; `None` stands for `NaN`. */
  function ToNumber(v: Val): Option<int> {
    match v
    case Undefined => None
    case Null => Some(0)
    case Bool(b) => Some(if b then 1 else 0)
    case Num(n) => Some(n)
    case NaN => None
    case Str(s) => StringToNumber(s)
  }

  /** `a - b` */
  function Minus(a: Val, b: Val): Val {
    match (ToNumber(a), ToNumber(b))
    case (Some(x), Some(y)) => Num(x - y)
    case _ => NaN
  }

  /** `v > n` against a number literal: a comparison with `NaN` is false. */
  predicate GreaterThan(v: Val, n: int) {
    match ToNumber(v)
    case Some(x) => x > n
    case None => false
  }

  /** `v < n` against a number literal. */
  predicate LessThan(v: Val, n: int) {
    match ToNumber(v)
    case Some(x) => x < n
    case None => false
  }

  /** The longest prefix of decimal digits. */
  function DigitPrefix(s: string): (r: string)
    ensures AllDigits(r) && |r| <= |s| && r == s[..|r|]
    ensures |r| < |s| ==> !IsDigit(s[|r|])
  {
    if |s| > 0 && IsDigit(s[0]) then [s[0]] + DigitPrefix(s[1..]) else []
  }

  /** `parseInt(v)` in base 10: leading white space, an optional sign, then the
      longest run of digits; `None` stands for `NaN`. */
  function ParseInt(v: Val): Option<int> {
    var t := TrimStart(ToStr(v));
    var negative := |t| > 0 && t[0] == '-';
    var rest := if |t| > 0 && (t[0] == '-' || t[0] == '+') then t[1..] else t;
    var digits := DigitPrefix(rest);
    if digits == [] then None
    else if negative then Some(-(DigitsValue(digits) as int))
    else Some(DigitsValue(digits))
  }

  lemma AllDigitsPrefix(s: string)
    requires AllDigits(s)
    ensures DigitPrefix(s) == s
  {
    if |s| > 0 {
      assert AllDigits(s[1..]);
      AllDigitsPrefix(s[1..]);
    }
  }

  /** `parseInt` reads back every integer-valued number unchanged. */
  lemma ParseIntOfNumber(n: int)
    ensures ParseInt(Num(n)) == Some(n)
  {
    var d := DecimalString(if n < 0 then -n else n);
    AllDigitsPrefix(d);
    DecimalStringRoundTrip(if n < 0 then -n else n);
    if n < 0 {
      assert ToStr(Num(n)) == "-" + d;
      assert ("-" + d)[1..] == d;
    }
    assert !IsSpace(ToStr(Num(n))[0]);
  }

  // ----- arrays of objects -----

  /** `ps.find(p => p[key] === v)`, as the index of the element found. */
  function FindFirst(ps: seq<Obj>, key: string, v: Val): (r: Option<nat>)
    ensures r.Some? ==> r.value < |ps| && StrictEquals(Get(ps[r.value], key), v)
    ensures r.Some? ==> forall j :: 0 <= j < r.value ==> !StrictEquals(Get(ps[j], key), v)
    ensures r.None? ==> forall j :: 0 <= j < |ps| ==> !StrictEquals(Get(ps[j], key), v)
  {
    if ps == [] then None
    else if StrictEquals(Get(ps[0], key), v) then Some(0)
    else match FindFirst(ps[1..], key, v)
      case None => None
      case Some(j) => Some(j + 1)
  }

  // ----- strings -----

  function LowerChar(c: char): char {
    if 'A' <= c <= 'Z' then ((c as int) - ('A' as int) + ('a' as int)) as char else c
  }

  /** `s.toLowerCase()` on the ASCII letters. */
  function ToLower(s: string): (r: string)
    ensures |r| == |s|
  {
    seq(|s|, i requires 0 <= i < |s| => LowerChar(s[i]))
  }

  /** `s.length`: the number of UTF-16 code units, two for a character outside the
      Basic Multilingual Plane. */
  function Utf16Length(s: string): nat {
    if s == [] then 0 else (if s[0] as int < 0x1_0000 then 1 else 2) + Utf16Length(s[1..])
  }

  lemma {:induction false} Utf16LengthBounds(s: string)
    ensures |s| <= Utf16Length(s) <= 2 * |s|
    ensures Utf16Length(s) == |s| <==> forall i :: 0 <= i < |s| ==> s[i] as int < 0x1_0000
  {
    if s != [] {
      Utf16LengthBounds(s[1..]);
      assert forall i :: 1 <= i < |s| ==> s[i] == s[1..][i - 1];
    }
  }

  /** Lower-casing (of the ASCII letters) keeps the UTF-16 length. */
  lemma {:induction false} ToLowerUtf16Length(s: string)
    ensures Utf16Length(ToLower(s)) == Utf16Length(s)
  {
    if s != [] {
      ToLowerUtf16Length(s[1..]);
      assert ToLower(s)[1..] == ToLower(s[1..]);
    }
  }

  /** `s.includes(t)` */
  predicate Includes(s: string, t: string) {
    (|t| <= |s| && s[..|t|] == t) || (|s| > 0 && Includes(s[1..], t))
  }

  datatype Option<T> = None | Some(value: T)
}
