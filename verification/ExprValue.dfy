/** Values of expr.c: integers and strings, and the conversions between them. */
module ExprValue {

  datatype Value = Integer(i: int) | Str(s: string)

  datatype Error = SyntaxError | NonNumeric | DivisionByZero | BadPattern

  datatype Result<+T> = Ok(value: T) | Err(error: Error) {
    predicate IsFailure() { Err? }
    function PropagateFailure<U>(): Result<U> requires Err? { Err(error) }
    function Extract(): T requires Ok? { value }
  }

  // ---- decimal notation ----

  predicate IsDigit(c: char) { '0' <= c <= '9' }

  function Numeral(n: nat): (s: string)
    ensures |s| >= 1 && forall i :: 0 <= i < |s| ==> IsDigit(s[i])
  {
    var d := [('0' as int + n % 10) as char];
    if n < 10 then d else Numeral(n / 10) + d
  }

  function NumeralValue(s: string): (n: nat)
    requires forall i :: 0 <= i < |s| ==> IsDigit(s[i])
  {
    if s == [] then 0 else
    assert IsDigit(s[|s| - 1]);
    10 * NumeralValue(s[..|s| - 1]) + (s[|s| - 1] as int - '0' as int)
  }

  lemma {:induction false} NumeralRoundTrip(n: nat)
    ensures NumeralValue(Numeral(n)) == n
  {
    var s := Numeral(n);
    if n >= 10 {
      NumeralRoundTrip(n / 10);
      assert s[..|s| - 1] == Numeral(n / 10);
    } else {
      assert s[..0] == [];
    }
  }

  predicate IsSpace(c: char) { c == ' ' || '\t' <= c <= '\r' }

  function SkipSpaces(s: string): (r: string)
  {
    if s != [] && IsSpace(s[0]) then SkipSpaces(s[1..]) else s
  }

  /** All of s is a number as strtol reads it: spaces, a sign, at least one digit. */
  function ParseInteger(s: string): (r: Result<int>)
  {
    var t := SkipSpaces(s);
    var negative := t != [] && t[0] == '-';
    var d := if t != [] && (t[0] == '-' || t[0] == '+') then t[1..] else t;
    if d == [] || exists i :: 0 <= i < |d| && !IsDigit(d[i]) then Err(NonNumeric)
    else Ok(if negative then -(NumeralValue(d) as int) else NumeralValue(d))
  }

  /** The decimal notation of an integer. */
  function Decimal(i: int): (s: string)
    ensures |s| >= 1
  {
    if i < 0 then "-" + Numeral(-i) else Numeral(i)
  }

  /** toarith undoes tostring. */
  lemma DecimalRoundTrip(i: int)
    ensures ParseInteger(Decimal(i)) == Ok(i)
  {
    var s := Decimal(i);
    if i < 0 {
      NumeralRoundTrip(-i);
      assert s[1..] == Numeral(-i);
    } else {
      NumeralRoundTrip(i);
      assert IsDigit(s[0]);
    }
  }

  /** tostring. */
  function ToString(v: Value): (s: string)
  {
    if v.Integer? then Decimal(v.i) else v.s
  }

  /** toarith; a string that is not a number stays what it is. */
  function ToArith(v: Value): (r: Result<int>)
  {
    if v.Integer? then Ok(v.i) else ParseInteger(v.s)
  }

  function Coerced(v: Value): (r: Value)
  {
    var a := ToArith(v);
    if a.Ok? then Integer(a.value) else v
  }

  /** null: zero, the empty string or the string "0". */
  predicate IsNull(v: Value)
  {
    if v.Integer? then v.i == 0 else v.s == "" || v.s == "0"
  }

  // ---- operators ----

  /** strcmp: negative, zero or positive. */
  function StrCmp(a: string, b: string): (r: int)
  {
    if a == [] && b == [] then 0
    else if a == [] then -1
    else if b == [] then 1
    else if a[0] != b[0] then (if a[0] < b[0] then -1 else 1)
    else StrCmp(a[1..], b[1..])
  }

  /** C's division and remainder: the quotient is truncated toward zero. */
  function Quotient(a: int, b: int): (q: int)
    requires b != 0
  {
    if a >= 0 then a / b else -((-a) / b)
  }

  function Remainder(a: int, b: int): (r: int)
    requires b != 0
  {
    a - b * Quotient(a, b)
  }

  /** arithmetic_common. */
  function Arithmetic(op: string, l: Value, r: Value): (v: Result<Value>)
  {
    var a :- ToArith(l);
    var b :- ToArith(r);
    if op == "+" then Ok(Integer(a + b))
    else if op == "-" then Ok(Integer(a - b))
    else if op == "*" then Ok(Integer(a * b))
    else if b == 0 then Err(DivisionByZero)
    else if op == "/" then Ok(Integer(Quotient(a, b)))
    else Ok(Integer(Remainder(a, b)))
  }

  /** What a comparison compares: two integers, or the order of two strings and zero. Operands that are numbers have
      been converted. */
  function Operands(l: Value, r: Value): (p: (int, int))
  {
    if l.Integer? && r.Integer? then (l.i, r.i) else (StrCmp(ToString(l), ToString(r)), 0)
  }

  function Compare(op: string, l: Value, r: Value): (v: Value)
  {
    var (a, b) := Operands(Coerced(l), Coerced(r));
    Integer(if op == "<" then Bool(a < b)
            else if op == "<=" then Bool(a <= b)
            else if op == "=" || op == "==" then Bool(a == b)
            else if op == "!=" then Bool(a != b)
            else if op == ">" then Bool(a > b)
            else Bool(a >= b))
  }

  function Bool(b: bool): (i: int) { if b then 1 else 0 }

  function And(l: Value, r: Value): (v: Value)
  {
    if IsNull(l) || IsNull(r) then Integer(0) else l
  }

  function Or(l: Value, r: Value): (v: Value)
  {
    if IsNull(l) then r else l
  }

  // ---- keywords ----

  /** The number of characters of s before the first one that is in cs. */
  function Span(s: string, cs: string): (n: nat)
    ensures n <= |s| && (forall i :: 0 <= i < n ==> s[i] !in cs) && (n < |s| ==> s[n] in cs)
  {
    if s == [] || s[0] in cs then 0 else 1 + Span(s[1..], cs)
  }

  function Length(v: Value): (r: Value) { Integer(|ToString(v)|) }

  /** Where s first has a character of cs, counted from 1; 0 for nowhere. */
  function Index(l: Value, r: Value): (v: Value)
  {
    var n := Span(ToString(l), ToString(r));
    Integer(if n == |ToString(l)| then 0 else n + 1)
  }

  function Substr(l: Value, from: Value, count: Value): (v: Value)
  {
    var s, a, b := ToString(l), ToArith(from), ToArith(count);
    if a.Err? || b.Err? || a.value > |s| || a.value <= 0 || b.value <= 0 then Str("")
    else
      var t := s[a.value - 1..];
      Str(if b.value <= |t| then t[..b.value] else t)
  }
}
