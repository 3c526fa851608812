/** What the eight levels of expr.c compute, and expression trees. */
module ExprGrammar {
  import opened ExprValue

  /** The operators of each level, from | to :. */
  function OpLevel(t: string): (k: nat)
    ensures k <= 6
  {
    if t == "|" then 0
    else if t == "&" then 1
    else if t in ["<", "<=", "=", "==", "!=", ">=", ">"] then 2
    else if t == "+" || t == "-" then 3
    else if t == "*" || t == "/" || t == "%" then 4
    else if t == ":" then 5
    else 6
  }

  const KEYWORDS: seq<string> := ["quote", "length", "match", "index", "substr"]

  /** The : operator, with what a regular expression matches left open. */
  type Matcher = (string, string) -> Result<Value>

  function Apply(re: Matcher, op: string, l: Value, r: Value): (v: Result<Value>)
  {
    match OpLevel(op)
    case 0 => Ok(Or(l, r))
    case 1 => Ok(And(l, r))
    case 2 => Ok(Compare(op, l, r))
    case 5 => re(ToString(l), ToString(r))
    case _ => Arithmetic(op, l, r)
  }

  /** A value and the number of arguments read. */
  datatype Read = Read(v: Value, pos: nat)

  /** The operand of level k at pos: eval for 0, eval1 for 1, and so on up to eval7. */
  function Level(re: Matcher, args: seq<string>, pos: nat, k: nat): (r: Result<Read>)
    requires k <= 7
    ensures r.Ok? ==> pos < r.value.pos <= |args|
    decreases |args| - pos, 10 - k
  {
    if k == 7 then Operand(re, args, pos)
    else if k == 6 then Keyword(re, args, pos)
    else
      var l :- Level(re, args, pos, k + 1);
      Loop(re, args, l.pos, k, l.v)
  }

  /** The loop of level k: operators and operands are taken from the left. */
  function Loop(re: Matcher, args: seq<string>, pos: nat, k: nat, l: Value): (r: Result<Read>)
    requires k <= 5 && pos <= |args|
    ensures r.Ok? ==> pos <= r.value.pos <= |args|
    decreases |args| - pos, 11
  {
    if pos < |args| && OpLevel(args[pos]) == k then
      var r :- Level(re, args, pos + 1, k + 1);
      var v :- Apply(re, args[pos], l, r.v);
      Loop(re, args, r.pos, k, v)
    else Ok(Read(l, pos))
  }

  /** eval7. */
  function Operand(re: Matcher, args: seq<string>, pos: nat): (r: Result<Read>)
    ensures r.Ok? ==> pos < r.value.pos <= |args|
    decreases |args| - pos, 0
  {
    if pos >= |args| then Err(SyntaxError)
    else if args[pos] == "(" then
      var r :- Level(re, args, pos + 1, 0);
      if r.pos < |args| && args[r.pos] == ")" then Ok(Read(r.v, r.pos + 1)) else Err(SyntaxError)
    else if args[pos] == ")" then Err(SyntaxError)
    else Ok(Read(Str(args[pos]), pos + 1))
  }

  /** eval6. */
  function Keyword(re: Matcher, args: seq<string>, pos: nat): (r: Result<Read>)
    ensures r.Ok? ==> pos < r.value.pos <= |args|
    decreases |args| - pos, 1
  {
    if pos >= |args| || args[pos] !in KEYWORDS then Operand(re, args, pos)
    else if args[pos] == "quote" then
      if pos + 1 < |args| then Ok(Read(Str(args[pos + 1]), pos + 2)) else Err(SyntaxError)
    else
      var l :- Level(re, args, pos + 1, 6);
      if args[pos] == "length" then Ok(Read(ExprValue.Length(l.v), l.pos))
      else
        var r :- Level(re, args, l.pos, 6);
        if args[pos] == "match" then
          var v :- re(ToString(l.v), ToString(r.v));
          Ok(Read(v, r.pos))
        else if args[pos] == "index" then Ok(Read(Index(l.v, r.v), r.pos))
        else
          var n :- Level(re, args, r.pos, 6);
          Ok(Read(Substr(l.v, r.v, n.v), n.pos))
  }

  // ---- trees ----

  datatype Expr = Lit(s: string)
                | Bin(op: string, l: Expr, r: Expr)
                | LengthOf(e: Expr)
                | MatchOf(l: Expr, r: Expr)
                | IndexOf(l: Expr, r: Expr)
                | SubstrOf(l: Expr, from: Expr, count: Expr)

  predicate WellFormed(e: Expr)
  {
    match e
    case Lit(s) => true
    case Bin(op, l, r) => OpLevel(op) <= 5 && WellFormed(l) && WellFormed(r)
    case LengthOf(e) => WellFormed(e)
    case MatchOf(l, r) => WellFormed(l) && WellFormed(r)
    case IndexOf(l, r) => WellFormed(l) && WellFormed(r)
    case SubstrOf(l, from, count) => WellFormed(l) && WellFormed(from) && WellFormed(count)
  }

  /** The value of a tree, or the first error from the left. */
  function Eval(re: Matcher, e: Expr): (r: Result<Value>)
  {
    match e
    case Lit(s) => Ok(Str(s))
    case Bin(op, l, r) =>
      var a :- Eval(re, l);
      var b :- Eval(re, r);
      Apply(re, op, a, b)
    case LengthOf(e) =>
      var a :- Eval(re, e);
      Ok(ExprValue.Length(a))
    case MatchOf(l, r) =>
      var a :- Eval(re, l);
      var b :- Eval(re, r);
      re(ToString(a), ToString(b))
    case IndexOf(l, r) =>
      var a :- Eval(re, l);
      var b :- Eval(re, r);
      Ok(Index(a, b))
    case SubstrOf(l, from, count) =>
      var a :- Eval(re, l);
      var b :- Eval(re, from);
      var c :- Eval(re, count);
      Ok(Substr(a, b, c))
  }
}
