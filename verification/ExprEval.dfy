/** The evaluator of expr.c: eight mutually recursive methods over a shared cursor. */
module ExprEval {
  import opened ExprValue
  import opened ExprGrammar
  import ExprParses

  /** What nextarg returns for a match: the sum of the first two characters. */
  function Code(op: string): (c: int)
    requires op != []
  {
    op[0] as int + if |op| > 1 then op[1] as int else 0
  }

  /** arithmetic_common, which tells operators apart by their codes. */
  function ArithmeticCommon(l: Value, r: Value, op: int): (v: Result<Value>)
  {
    var a, b := ToArith(l), ToArith(r);
    if a.Err? || b.Err? then Err(NonNumeric)
    else if op == '+' as int then Ok(Integer(a.value + b.value))
    else if op == '-' as int then Ok(Integer(a.value - b.value))
    else if op == '*' as int then Ok(Integer(a.value * b.value))
    else if b.value == 0 then Err(DivisionByZero)
    else if op == '/' as int then Ok(Integer(Quotient(a.value, b.value)))
    else Ok(Integer(Remainder(a.value, b.value)))
  }

  lemma OnlyNonNumeric(s: string)
    ensures ParseInteger(s).Err? ==> ParseInteger(s).error == NonNumeric
  {
  }

  lemma ArithmeticCodes(op: string, l: Value, r: Value)
    requires OpLevel(op) == 3 || OpLevel(op) == 4
    ensures ArithmeticCommon(l, r, Code(op)) == Arithmetic(op, l, r)
  {
    if l.Str? { OnlyNonNumeric(l.s); }
    if r.Str? { OnlyNonNumeric(r.s); }
  }

  /** cmp_common after both operands have been through toarith. */
  function CmpCommon(l: Value, r: Value, op: int): (v: int)
  {
    var (ll, rr) := Operands(l, r);
    if op == '<' as int then Bool(ll < rr)
    else if op == '<' as int + '=' as int then Bool(ll <= rr)
    else if op == '=' as int || op == '=' as int + '=' as int then Bool(ll == rr)
    else if op == '!' as int + '=' as int then Bool(ll != rr)
    else if op == '>' as int then Bool(ll > rr)
    else Bool(ll >= rr)
  }

  lemma CompareCodes(op: string, l: Value, r: Value)
    requires OpLevel(op) == 2
    ensures Integer(CmpCommon(Coerced(l), Coerced(r), Code(op))) == Compare(op, l, r)
  {
    hide Operands, Coerced;
    assert op in ["<", "<=", "=", "==", "!=", ">=", ">"];
  }

  class Evaluator {
    const args: seq<string>
    const re: Matcher
    var pos: nat

    constructor (args: seq<string>, re: Matcher)
      ensures this.args == args && this.re == re && pos == 0
    {
      this.args, this.re, pos := args, re, 0;
    }

    /** The result r and the cursor are what level k gives from start. */
    ghost predicate Is(start: nat, k: nat, r: Result<Value>)
      requires k <= 7
      reads this
    {
      var s := Level(re, args, start, k);
      if r.Ok? then s == Ok(Read(r.value, pos)) else s == Err(r.error)
    }

    /** nextarg: the code of the next argument if it is s, 0 if it is not. */
    function NextArg(s: string): (c: int)
      requires s != [] && Code(s) != 0
      reads this
      ensures c != 0 <==> pos < |args| && args[pos] == s
      ensures c != 0 ==> c == Code(s)
    {
      if pos < |args| && args[pos] == s then Code(s) else 0
    }

    /** The operator |. */
    method Eval() returns (r: Result<Value>)
      requires pos <= |args|
      modifies this
      ensures Is(old(pos), 0, r) && old(pos) <= pos <= |args|
      decreases |args| - pos, 18
    {
      hide Level, Loop, OpLevel, Apply;
      ghost var start := pos;
      r := Eval1();
      LevelIs(re, args, start, 0);
      if r.Err? { return; }
      var l := r.value;
      while NextArg("|") != 0
        invariant start < pos <= |args| && Level(re, args, start, 0) == Loop(re, args, pos, 0, l)
        decreases |args| - pos
      {
        OneOperator("|", 0);
        LoopIs(re, args, pos, 0, l);
        pos := pos + 1;
        r := Eval1();
        if r.Err? { return; }
        ApplyLogic(re, l, r.value);
        if IsNull(l) { l := r.value; }
      }
      NoOperator(args, pos, 0);
      LoopEnds(re, args, pos, 0, l);
      r := Ok(l);
    }

    /** The operator &. */
    method Eval1() returns (r: Result<Value>)
      requires pos <= |args|
      modifies this
      ensures Is(old(pos), 1, r) && old(pos) <= pos <= |args|
      decreases |args| - pos, 17
    {
      hide Level, Loop, OpLevel, Apply;
      ghost var start := pos;
      r := Eval2();
      LevelIs(re, args, start, 1);
      if r.Err? { return; }
      var l := r.value;
      while NextArg("&") != 0
        invariant start < pos <= |args| && Level(re, args, start, 1) == Loop(re, args, pos, 1, l)
        decreases |args| - pos
      {
        OneOperator("&", 1);
        LoopIs(re, args, pos, 1, l);
        pos := pos + 1;
        r := Eval2();
        if r.Err? { return; }
        ApplyLogic(re, l, r.value);
        if IsNull(l) || IsNull(r.value) { l := Integer(0); }
      }
      NoOperator(args, pos, 1);
      LoopEnds(re, args, pos, 1, l);
      r := Ok(l);
    }

    /** The first of the given operators that comes next, as its code; 0 for none. */
    method NextOf(ops: seq<string>, ghost k: nat) returns (op: int)
      requires forall i :: 0 <= i < |ops| ==> OpLevel(ops[i]) == k <= 5
      requires forall t :: OpLevel(t) == k ==> t in ops
      ensures op != 0 ==> pos < |args| && args[pos] != [] && OpLevel(args[pos]) == k && op == Code(args[pos])
      ensures op == 0 ==> !(pos < |args| && OpLevel(args[pos]) == k)
    {
      hide OpLevel;
      op := 0;
      var i := 0;
      while op == 0 && i < |ops|
        invariant 0 <= i <= |ops|
        invariant op != 0 ==> pos < |args| && args[pos] != [] && OpLevel(args[pos]) == k && op == Code(args[pos])
        invariant op == 0 ==> forall j :: 0 <= j < i ==> !(pos < |args| && args[pos] == ops[j])
      {
        OneOperator(ops[i], k);
        op := NextArg(ops[i]);
        i := i + 1;
      }
    }

    /** Comparisons. */
    method Eval2() returns (r: Result<Value>)
      requires pos <= |args|
      modifies this
      ensures Is(old(pos), 2, r) && old(pos) <= pos <= |args|
      decreases |args| - pos, 16
    {
      hide Level, Loop, OpLevel, Apply, CmpCommon, Coerced, Compare;
      ghost var start := pos;
      r := Eval3();
      LevelIs(re, args, start, 2);
      if r.Err? { return; }
      var l := r.value;
      OperatorsOf();
      var op := NextOf(["<", "<=", "=", "==", "!=", ">=", ">"], 2);
      while op != 0
        invariant start < pos <= |args| && Level(re, args, start, 2) == Loop(re, args, pos, 2, l)
        invariant op != 0 ==> pos < |args| && args[pos] != [] && OpLevel(args[pos]) == 2 && op == Code(args[pos])
        invariant op == 0 ==> !(pos < |args| && OpLevel(args[pos]) == 2)
        decreases |args| - pos
      {
        LoopIs(re, args, pos, 2, l);
        ghost var t := args[pos];
        pos := pos + 1;
        r := Eval3();
        if r.Err? { return; }
        ApplyCompare(re, t, l, r.value);
        CompareCodes(t, l, r.value);
        l := Integer(CmpCommon(Coerced(l), Coerced(r.value), op));
        op := NextOf(["<", "<=", "=", "==", "!=", ">=", ">"], 2);
      }
      LoopEnds(re, args, pos, 2, l);
      r := Ok(l);
    }

    /** The operators + and -. */
    method Eval3() returns (r: Result<Value>)
      requires pos <= |args|
      modifies this
      ensures Is(old(pos), 3, r) && old(pos) <= pos <= |args|
      decreases |args| - pos, 15
    {
      hide Level, Loop, OpLevel, Apply, ArithmeticCommon, Arithmetic;
      ghost var start := pos;
      r := Eval4();
      LevelIs(re, args, start, 3);
      if r.Err? { return; }
      var l := r.value;
      OperatorsOf();
      var op := NextOf(["+", "-"], 3);
      while op != 0
        invariant start < pos <= |args| && Level(re, args, start, 3) == Loop(re, args, pos, 3, l)
        invariant op != 0 ==> pos < |args| && args[pos] != [] && OpLevel(args[pos]) == 3 && op == Code(args[pos])
        invariant op == 0 ==> !(pos < |args| && OpLevel(args[pos]) == 3)
        decreases |args| - pos
      {
        LoopIs(re, args, pos, 3, l);
        ghost var t := args[pos];
        pos := pos + 1;
        r := Eval4();
        if r.Err? { return; }
        ApplyArithmetic(re, t, l, r.value);
        ArithmeticCodes(t, l, r.value);
        r := ArithmeticCommon(l, r.value, op);
        if r.Err? { return; }
        l := r.value;
        op := NextOf(["+", "-"], 3);
      }
      LoopEnds(re, args, pos, 3, l);
      r := Ok(l);
    }

    /** The operators *, / and %. */
    method Eval4() returns (r: Result<Value>)
      requires pos <= |args|
      modifies this
      ensures Is(old(pos), 4, r) && old(pos) <= pos <= |args|
      decreases |args| - pos, 14
    {
      hide Level, Loop, OpLevel, Apply, ArithmeticCommon, Arithmetic;
      ghost var start := pos;
      r := Eval5();
      LevelIs(re, args, start, 4);
      if r.Err? { return; }
      var l := r.value;
      OperatorsOf();
      var op := NextOf(["*", "/", "%"], 4);
      while op != 0
        invariant start < pos <= |args| && Level(re, args, start, 4) == Loop(re, args, pos, 4, l)
        invariant op != 0 ==> pos < |args| && args[pos] != [] && OpLevel(args[pos]) == 4 && op == Code(args[pos])
        invariant op == 0 ==> !(pos < |args| && OpLevel(args[pos]) == 4)
        decreases |args| - pos
      {
        LoopIs(re, args, pos, 4, l);
        ghost var t := args[pos];
        pos := pos + 1;
        r := Eval5();
        if r.Err? { return; }
        ApplyArithmetic(re, t, l, r.value);
        ArithmeticCodes(t, l, r.value);
        r := ArithmeticCommon(l, r.value, op);
        if r.Err? { return; }
        l := r.value;
        op := NextOf(["*", "/", "%"], 4);
      }
      LoopEnds(re, args, pos, 4, l);
      r := Ok(l);
    }

    /** The operator :. */
    method Eval5() returns (r: Result<Value>)
      requires pos <= |args|
      modifies this
      ensures Is(old(pos), 5, r) && old(pos) <= pos <= |args|
      decreases |args| - pos, 13
    {
      hide Level, Loop, OpLevel, Apply;
      ghost var start := pos;
      r := Eval6();
      LevelIs(re, args, start, 5);
      if r.Err? { return; }
      var l := r.value;
      while NextArg(":") != 0
        invariant start < pos <= |args| && Level(re, args, start, 5) == Loop(re, args, pos, 5, l)
        decreases |args| - pos
      {
        OneOperator(":", 5);
        LoopIs(re, args, pos, 5, l);
        pos := pos + 1;
        r := Eval6();
        if r.Err? { return; }
        ApplyColon(re, l, r.value);
        r := re(ToString(l), ToString(r.value));
        if r.Err? { return; }
        l := r.value;
      }
      NoOperator(args, pos, 5);
      LoopEnds(re, args, pos, 5, l);
      r := Ok(l);
    }

    /** The keywords. */
    method Eval6() returns (r: Result<Value>)
      requires pos <= |args|
      modifies this
      ensures Is(old(pos), 6, r) && old(pos) <= pos <= |args|
      decreases |args| - pos, 12
    {
      hide Level, Loop, OpLevel, Apply, Operand, Index, Substr, ToString;
      if pos == |args| || args[pos] !in KEYWORDS {
        NotKeyword(re, args, pos);
        r := Eval7();
        return;
      }
      KeywordIs(re, args, pos);
      var key := args[pos];
      pos := pos + 1;
      if key == "quote" {
        if pos == |args| { return Err(SyntaxError); }
        pos := pos + 1;
        return Ok(Str(args[pos - 1]));
      }
      var l := Eval6();
      if l.Err? { return l; }
      if key == "length" { return Ok(ExprValue.Length(l.value)); }
      var r1 := Eval6();
      if r1.Err? { return r1; }
      if key == "match" {
        r := re(ToString(l.value), ToString(r1.value));
      } else if key == "index" {
        r := Ok(Index(l.value, r1.value));
      } else {
        var r2 := Eval6();
        if r2.Err? { return r2; }
        r := Ok(Substr(l.value, r1.value, r2.value));
      }
    }

    /** Operands and parentheses. */
    method Eval7() returns (r: Result<Value>)
      requires pos <= |args|
      modifies this
      ensures Is(old(pos), 7, r) && old(pos) <= pos <= |args|
      decreases |args| - pos, 11
    {
      hide Level, Loop, OpLevel, Apply, Keyword;
      OperandIs(re, args, pos);
      if pos == |args| { return Err(SyntaxError); }
      assert ")"[0] != "("[0];
      if NextArg("(") != 0 {
        pos := pos + 1;
        r := Eval();
        if r.Err? { return; }
        if NextArg(")") == 0 { return Err(SyntaxError); }
        pos := pos + 1;
        return;
      }
      if NextArg(")") != 0 { return Err(SyntaxError); }
      pos := pos + 1;
      return Ok(Str(args[pos - 1]));
    }
  }

  lemma LevelIs(re: Matcher, args: seq<string>, pos: nat, k: nat)
    requires k <= 5
    ensures Level(re, args, pos, k) == (var l :- Level(re, args, pos, k + 1); Loop(re, args, l.pos, k, l.v))
    ensures Level(re, args, pos, k + 1).Ok? ==> pos < Level(re, args, pos, k + 1).value.pos <= |args|
  {
    hide Loop;
  }

  lemma LoopIs(re: Matcher, args: seq<string>, pos: nat, k: nat, l: Value)
    requires k <= 5 && pos < |args| && OpLevel(args[pos]) == k
    ensures Loop(re, args, pos, k, l) ==
            (var r :- Level(re, args, pos + 1, k + 1); var v :- Apply(re, args[pos], l, r.v);
              Loop(re, args, r.pos, k, v))
  {
    hide Level, Apply;
  }

  lemma KeywordIs(re: Matcher, args: seq<string>, pos: nat)
    ensures Level(re, args, pos, 6) == Keyword(re, args, pos)
  {
    hide Keyword;
  }

  lemma OperandIs(re: Matcher, args: seq<string>, pos: nat)
    ensures Level(re, args, pos, 7) == Operand(re, args, pos)
  {
    hide Operand;
  }

  lemma NotKeyword(re: Matcher, args: seq<string>, pos: nat)
    requires pos >= |args| || args[pos] !in KEYWORDS
    ensures Level(re, args, pos, 6) == Level(re, args, pos, 7)
  {
    assert Keyword(re, args, pos) == Operand(re, args, pos);
  }

  lemma LoopEnds(re: Matcher, args: seq<string>, pos: nat, k: nat, l: Value)
    requires k <= 5 && pos <= |args| && !(pos < |args| && OpLevel(args[pos]) == k)
    ensures Loop(re, args, pos, k, l) == Ok(Read(l, pos))
  {
  }

  lemma OneOperator(t: string, k: nat)
    requires OpLevel(t) == k || (t == "|" && k == 0) || (t == "&" && k == 1) || (t == ":" && k == 5)
    ensures OpLevel(t) == k && (k <= 5 ==> t != [] && Code(t) != 0)
  {
  }

  lemma NoOperator(args: seq<string>, pos: nat, k: nat)
    requires k == 0 || k == 1 || k == 5
    requires pos < |args| ==> args[pos] != if k == 0 then "|" else if k == 1 then "&" else ":"
    ensures !(pos < |args| && OpLevel(args[pos]) == k)
  {
  }

  lemma OperatorsOf()
    ensures forall t :: OpLevel(t) == 2 <==> t in ["<", "<=", "=", "==", "!=", ">=", ">"]
    ensures forall t :: OpLevel(t) == 3 <==> t in ["+", "-"]
    ensures forall t :: OpLevel(t) == 4 <==> t in ["*", "/", "%"]
  {
  }

  lemma ApplyLogic(re: Matcher, l: Value, r: Value)
    ensures Apply(re, "|", l, r) == Ok(if IsNull(l) then r else l)
    ensures Apply(re, "&", l, r) == Ok(if IsNull(l) || IsNull(r) then Integer(0) else l)
  {
  }

  lemma ApplyCompare(re: Matcher, op: string, l: Value, r: Value)
    requires OpLevel(op) == 2
    ensures Apply(re, op, l, r) == Ok(Compare(op, l, r))
  {
    hide Compare;
  }

  lemma ApplyArithmetic(re: Matcher, op: string, l: Value, r: Value)
    requires OpLevel(op) == 3 || OpLevel(op) == 4
    ensures Apply(re, op, l, r) == Arithmetic(op, l, r)
  {
    hide Arithmetic;
  }

  lemma ApplyColon(re: Matcher, l: Value, r: Value)
    ensures Apply(re, ":", l, r) == re(ToString(l), ToString(r))
  {
  }

  /** expr_main without the output: the value of the arguments, which must be one expression, and the exit status. */
  method Run(args: seq<string>, re: Matcher) returns (r: Result<Value>, status: int)
    ensures r.Ok? <==> Level(re, args, 0, 0).Ok? && Level(re, args, 0, 0).value.pos == |args|
    ensures r.Ok? ==> r.value == Level(re, args, 0, 0).value.v && status == (if IsNull(r.value) then 1 else 0)
    ensures r.Err? ==>
      r.error == (if Level(re, args, 0, 0).Err? then Level(re, args, 0, 0).error else SyntaxError) && status == 2
    ensures forall w :: ExprParses.Legal(w, 0) && args == ExprParses.Args(w) ==> r == Eval(re, ExprParses.Tree(w))
    ensures r.Ok? ==> exists w :: ExprParses.Legal(w, 0) && args == ExprParses.Args(w)
  {
    hide Level, Eval, ExprParses.Legal, ExprParses.Args, ExprParses.Tree;
    var g := new Evaluator(args, re);
    r := g.Eval();
    if r.Ok? && g.pos < |args| { r := Err(SyntaxError); }
    forall w | ExprParses.Legal(w, 0) && args == ExprParses.Args(w) ensures r == Eval(re, ExprParses.Tree(w)) {
      ExprParses.LegalIsRead(re, w);
    }
    if r.Ok? { var w := ExprParses.Accepted(re, args); }
    status := if r.Err? then 2 else if IsNull(r.value) then 1 else 0;
  }
}
