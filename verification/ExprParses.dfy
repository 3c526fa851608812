/** The grammar of expr.c: the ways to write a tree as arguments, and what the eval tower makes of them. Every legal way
    is read as the tree that is meant, nothing else is accepted, and no argument list is legal in two ways. */
module ExprParses {
  import opened ExprValue
  import opened ExprGrammar

  /** A tree as it was written. */
  datatype Written = Plain(s: string)
                   | Quoted(s: string)
                   | Parens(w: Written)
                   | Infix(op: string, l: Written, r: Written)
                   | LengthText(w: Written)
                   | MatchText(l: Written, r: Written)
                   | IndexText(l: Written, r: Written)
                   | SubstrText(l: Written, from: Written, count: Written)

  /** The tree that is meant. */
  function Tree(w: Written): (e: Expr)
  {
    match w
    case Plain(s) => Lit(s)
    case Quoted(s) => Lit(s)
    case Parens(w) => Tree(w)
    case Infix(op, l, r) => Bin(op, Tree(l), Tree(r))
    case LengthText(w) => LengthOf(Tree(w))
    case MatchText(l, r) => MatchOf(Tree(l), Tree(r))
    case IndexText(l, r) => IndexOf(Tree(l), Tree(r))
    case SubstrText(l, from, count) => SubstrOf(Tree(l), Tree(from), Tree(count))
  }

  /** The arguments. */
  function Args(w: Written): (t: seq<string>)
    ensures |t| >= 1
  {
    match w
    case Plain(s) => [s]
    case Quoted(s) => ["quote", s]
    case Parens(w) => ["("] + Args(w) + [")"]
    case Infix(op, l, r) => Args(l) + [op] + Args(r)
    case LengthText(w) => ["length"] + Args(w)
    case MatchText(l, r) => ["match"] + Args(l) + Args(r)
    case IndexText(l, r) => ["index"] + Args(l) + Args(r)
    case SubstrText(l, from, count) => ["substr"] + Args(l) + Args(from) + Args(count)
  }

  /** The way it is written is legal where an operand of level k is expected: operators associate to the left, and a
      string that would mean something else is quoted. */
  predicate Legal(w: Written, k: nat)
  {
    match w
    case Plain(s) => s !in KEYWORDS && s != "(" && s != ")"
    case Quoted(s) => true
    case Parens(w) => Legal(w, 0)
    case Infix(op, l, r) => k <= OpLevel(op) <= 5 && Legal(l, OpLevel(op)) && Legal(r, OpLevel(op) + 1)
    case LengthText(w) => Legal(w, 6)
    case MatchText(l, r) => Legal(l, 6) && Legal(r, 6)
    case IndexText(l, r) => Legal(l, 6) && Legal(r, 6)
    case SubstrText(l, from, count) => Legal(l, 6) && Legal(from, 6) && Legal(count, 6)
  }

  lemma LegalBelow(w: Written, k: nat)
    requires Legal(w, k + 1)
    ensures Legal(w, k)
  {
  }

  lemma LegalTree(w: Written, k: nat)
    requires Legal(w, k)
    ensures WellFormed(Tree(w))
  {
  }

  // ---- the tower without the values ----

  datatype Parsed = Parsed(w: Written, pos: nat)

  /** What level k takes from pos on. */
  function Parse(args: seq<string>, pos: nat, k: nat): (r: Result<Parsed>)
    requires k <= 6
    ensures r.Ok? ==> pos < r.value.pos <= |args|
    decreases |args| - pos, 10 - k
  {
    if k == 6 then ParseKeyword(args, pos)
    else
      var l :- Parse(args, pos, k + 1);
      ParseLoop(args, l.pos, k, l.w)
  }

  function ParseLoop(args: seq<string>, pos: nat, k: nat, l: Written): (r: Result<Parsed>)
    requires k <= 5 && pos <= |args|
    ensures r.Ok? ==> pos <= r.value.pos <= |args|
    decreases |args| - pos, 11
  {
    if pos < |args| && OpLevel(args[pos]) == k then
      var r :- Parse(args, pos + 1, k + 1);
      ParseLoop(args, r.pos, k, Infix(args[pos], l, r.w))
    else Ok(Parsed(l, pos))
  }

  function ParseOperand(args: seq<string>, pos: nat): (r: Result<Parsed>)
    ensures r.Ok? ==> pos < r.value.pos <= |args|
    decreases |args| - pos, 0
  {
    if pos >= |args| || args[pos] == ")" then Err(SyntaxError)
    else if args[pos] == "(" then
      var r :- Parse(args, pos + 1, 0);
      if r.pos < |args| && args[r.pos] == ")" then Ok(Parsed(Parens(r.w), r.pos + 1)) else Err(SyntaxError)
    else Ok(Parsed(Plain(args[pos]), pos + 1))
  }

  function ParseKeyword(args: seq<string>, pos: nat): (r: Result<Parsed>)
    ensures r.Ok? ==> pos < r.value.pos <= |args|
    decreases |args| - pos, 1
  {
    if pos >= |args| || args[pos] !in KEYWORDS then ParseOperand(args, pos)
    else if args[pos] == "quote" then
      if pos + 1 < |args| then Ok(Parsed(Quoted(args[pos + 1]), pos + 2)) else Err(SyntaxError)
    else
      var l :- Parse(args, pos + 1, 6);
      if args[pos] == "length" then Ok(Parsed(LengthText(l.w), l.pos))
      else
        var r :- Parse(args, l.pos, 6);
        if args[pos] == "match" then Ok(Parsed(MatchText(l.w, r.w), r.pos))
        else if args[pos] == "index" then Ok(Parsed(IndexText(l.w, r.w), r.pos))
        else
          var n :- Parse(args, r.pos, 6);
          Ok(Parsed(SubstrText(l.w, r.w, n.w), n.pos))
  }

  // ---- where something is written ----

  predicate At(args: seq<string>, pos: nat, x: seq<string>)
  {
    pos + |x| <= |args| && args[pos..pos + |x|] == x
  }

  lemma AtJoin(args: seq<string>, pos: nat, x: seq<string>, y: seq<string>)
    ensures At(args, pos, x + y) <==> At(args, pos, x) && At(args, pos + |x|, y)
  {
    var n := pos + |x|;
    if n + |y| <= |args| {
      assert args[pos..n + |y|] == args[pos..n] + args[n..n + |y|];
      assert (x + y)[..|x|] == x && (x + y)[|x|..] == y;
    }
  }

  lemma AtToken(args: seq<string>, pos: nat, t: string)
    ensures At(args, pos, [t]) <==> pos < |args| && args[pos] == t
  {
    assert At(args, pos, [t]) ==> args[pos..pos + 1][0] == t;
  }

  lemma AtParens(args: seq<string>, pos: nat, w: Written)
    ensures At(args, pos, Args(Parens(w))) <==>
      pos < |args| && args[pos] == "(" && At(args, pos + 1, Args(w)) &&
      pos + 1 + |Args(w)| < |args| && args[pos + 1 + |Args(w)|] == ")"
  {
    hide At;
    AtJoin(args, pos, ["("] + Args(w), [")"]);
    AtJoin(args, pos, ["("], Args(w));
    AtToken(args, pos, "(");
    AtToken(args, pos + 1 + |Args(w)|, ")");
  }

  lemma AtInfix(args: seq<string>, pos: nat, op: string, l: Written, r: Written)
    ensures At(args, pos, Args(Infix(op, l, r))) <==>
      At(args, pos, Args(l)) && pos + |Args(l)| < |args| && args[pos + |Args(l)|] == op &&
      At(args, pos + |Args(l)| + 1, Args(r))
  {
    hide At;
    AtJoin(args, pos, Args(l) + [op], Args(r));
    AtJoin(args, pos, Args(l), [op]);
    AtToken(args, pos + |Args(l)|, op);
  }

  /** A keyword followed by x. */
  lemma AtKeyword(args: seq<string>, pos: nat, key: string, x: seq<string>)
    ensures At(args, pos, [key] + x) <==> pos < |args| && args[pos] == key && At(args, pos + 1, x)
  {
    hide At;
    AtJoin(args, pos, [key], x);
    AtToken(args, pos, key);
  }

  lemma AtPair(args: seq<string>, pos: nat, key: string, l: seq<string>, r: seq<string>)
    ensures At(args, pos, [key] + l + r) <==>
      pos < |args| && args[pos] == key && At(args, pos + 1, l) && At(args, pos + 1 + |l|, r)
  {
    hide At;
    AtJoin(args, pos, [key] + l, r);
    AtKeyword(args, pos, key, l);
  }

  lemma AtThree(args: seq<string>, pos: nat, key: string, l: seq<string>, f: seq<string>, n: seq<string>)
    ensures At(args, pos, [key] + l + f + n) <==>
      pos < |args| && args[pos] == key && At(args, pos + 1, l) && At(args, pos + 1 + |l|, f) &&
      At(args, pos + 1 + |l| + |f|, n)
  {
    hide At;
    AtJoin(args, pos, [key] + l + f, n);
    AtPair(args, pos, key, l, f);
  }

  // ---- the tower computes the value of what it takes ----

  /** The value of what has been taken, or its first error. */
  function ReadOf(re: Matcher, p: Parsed): (r: Result<Read>)
  {
    var v :- Eval(re, Tree(p.w));
    Ok(Read(v, p.pos))
  }

  /** p is a legal way to write something and stands at start. */
  ghost predicate Stands(args: seq<string>, start: nat, k: nat, p: Parsed)
  {
    Legal(p.w, k) && At(args, start, Args(p.w)) && p.pos == start + |Args(p.w)|
  }

  /** v is what the tower gives where p is what it takes: a value only if there is something to take, and then its
      value. */
  ghost predicate Fits(re: Matcher, args: seq<string>, start: nat, k: nat, p: Result<Parsed>, v: Result<Read>)
  {
    (v.Ok? ==> p.Ok?) && (p.Ok? ==> Stands(args, start, k, p.value) && v == ReadOf(re, p.value))
  }

  lemma FitsLevel(re: Matcher, args: seq<string>, pos: nat, k: nat)
    requires k <= 6
    ensures Fits(re, args, pos, k, Parse(args, pos, k), Level(re, args, pos, k))
    decreases |args| - pos, 10 - k
  {
    hide Stands, Eval, Apply, Keyword, ParseKeyword, Loop, ParseLoop;
    if k == 6 {
      FitsKeyword(re, args, pos);
    } else {
      FitsLevel(re, args, pos, k + 1);
      var l := Parse(args, pos, k + 1);
      if l.Ok? {
        StandsBelow(args, pos, k, l.value);
        FitsLoop(re, args, pos, l.value, k);
      }
    }
  }

  lemma StandsBelow(args: seq<string>, pos: nat, k: nat, p: Parsed)
    requires Stands(args, pos, k + 1, p)
    ensures Stands(args, pos, k, p)
  {
    LegalBelow(p.w, k);
  }

  lemma FitsLoop(re: Matcher, args: seq<string>, start: nat, l: Parsed, k: nat)
    requires k <= 5 && start < l.pos <= |args| && Stands(args, start, k, l)
    ensures Fits(re, args, start, k, ParseLoop(args, l.pos, k, l.w),
              (var v :- Eval(re, Tree(l.w)); Loop(re, args, l.pos, k, v)))
    decreases |args| - l.pos, 11
  {
    hide Stands, Level, Parse, Apply, OpLevel, Eval;
    if l.pos < |args| && OpLevel(args[l.pos]) == k {
      FitsLevel(re, args, l.pos + 1, k + 1);
      var r := Parse(args, l.pos + 1, k + 1);
      if r.Ok? {
        var p := Parsed(Infix(args[l.pos], l.w, r.value.w), r.value.pos);
        StandsInfix(args, start, l, r.value, k);
        EvalInfix(re, args[l.pos], l.w, r.value.w);
        FitsLoop(re, args, start, p, k);
      }
    }
  }

  lemma EvalInfix(re: Matcher, op: string, l: Written, r: Written)
    ensures Eval(re, Tree(Infix(op, l, r))) ==
            (var a :- Eval(re, Tree(l)); var b :- Eval(re, Tree(r)); Apply(re, op, a, b))
  {
    hide Apply;
  }

  lemma StandsInfix(args: seq<string>, start: nat, l: Parsed, r: Parsed, k: nat)
    requires k <= 5 && l.pos < |args| && OpLevel(args[l.pos]) == k
    requires Stands(args, start, k, l) && Stands(args, l.pos + 1, k + 1, r)
    ensures Stands(args, start, k, Parsed(Infix(args[l.pos], l.w, r.w), r.pos))
  {
    hide At, OpLevel;
    AtInfix(args, start, args[l.pos], l.w, r.w);
  }

  lemma FitsOperand(re: Matcher, args: seq<string>, pos: nat)
    requires pos < |args| ==> args[pos] !in KEYWORDS
    ensures Fits(re, args, pos, 6, ParseOperand(args, pos), Operand(re, args, pos))
    decreases |args| - pos, 0
  {
    hide At, Level, Parse, Eval;
    if pos < |args| && args[pos] == "(" {
      FitsLevel(re, args, pos + 1, 0);
      var r := Parse(args, pos + 1, 0);
      if r.Ok? { AtParens(args, pos, r.value.w); }
    } else if pos < |args| {
      AtToken(args, pos, args[pos]);
      EvalLit(re, args[pos]);
    }
  }

  lemma EvalLit(re: Matcher, s: string)
    ensures Eval(re, Lit(s)) == Ok(Str(s))
  {
  }

  lemma FitsKeyword(re: Matcher, args: seq<string>, pos: nat)
    ensures Fits(re, args, pos, 6, ParseKeyword(args, pos), Keyword(re, args, pos))
    decreases |args| - pos, 1
  {
    hide At, Level, Parse, Eval, Operand, ParseOperand, Index, Substr, ToString, ExprValue.Length;
    if pos >= |args| || args[pos] !in KEYWORDS {
      FitsOperand(re, args, pos);
    } else if args[pos] == "quote" {
      if pos + 1 < |args| {
        assert ["quote", args[pos + 1]] == ["quote"] + [args[pos + 1]];
        AtKeyword(args, pos, "quote", [args[pos + 1]]);
        AtToken(args, pos + 1, args[pos + 1]);
        EvalLit(re, args[pos + 1]);
      }
    } else {
      FitsLevel(re, args, pos + 1, 6);
      var l := Parse(args, pos + 1, 6);
      if l.Ok? { FitsOperands(re, args, pos, l.value); }
    }
  }

  /** A keyword whose first operand has been taken. */
  lemma FitsOperands(re: Matcher, args: seq<string>, pos: nat, l: Parsed)
    requires pos < |args| && args[pos] in KEYWORDS && args[pos] != "quote" && Parse(args, pos + 1, 6) == Ok(l)
    requires Fits(re, args, pos + 1, 6, Ok(l), Level(re, args, pos + 1, 6))
    ensures Fits(re, args, pos, 6, ParseKeyword(args, pos), Keyword(re, args, pos))
    decreases |args| - pos, 0
  {
    hide At, Level, Parse, Eval, Operand, ParseOperand, Index, Substr, ToString, ExprValue.Length;
    if args[pos] == "length" {
      AtKeyword(args, pos, "length", Args(l.w));
      EvalLength(re, Tree(l.w));
    } else {
      FitsLevel(re, args, l.pos, 6);
      var r := Parse(args, l.pos, 6);
      if r.Ok? && args[pos] == "substr" {
        FitsLevel(re, args, r.value.pos, 6);
        FitsThree(re, args, pos, l, r.value);
      } else if r.Ok? {
        FitsTwo(re, args, pos, l, r.value);
      }
    }
  }

  lemma FitsTwo(re: Matcher, args: seq<string>, pos: nat, l: Parsed, r: Parsed)
    requires pos < |args| && (args[pos] == "match" || args[pos] == "index")
    requires Parse(args, pos + 1, 6) == Ok(l) && Fits(re, args, pos + 1, 6, Ok(l), Level(re, args, pos + 1, 6))
    requires Parse(args, l.pos, 6) == Ok(r) && Fits(re, args, l.pos, 6, Ok(r), Level(re, args, l.pos, 6))
    ensures Fits(re, args, pos, 6, ParseKeyword(args, pos), Keyword(re, args, pos))
  {
    hide At, Level, Parse, Eval, Operand, ParseOperand, Index, Substr, ToString, ExprValue.Length;
    EvalPair(re, Tree(l.w), Tree(r.w));
    AtPair(args, pos, args[pos], Args(l.w), Args(r.w));
  }

  lemma FitsThree(re: Matcher, args: seq<string>, pos: nat, l: Parsed, f: Parsed)
    requires pos < |args| && args[pos] == "substr"
    requires Parse(args, pos + 1, 6) == Ok(l) && Fits(re, args, pos + 1, 6, Ok(l), Level(re, args, pos + 1, 6))
    requires Parse(args, l.pos, 6) == Ok(f) && Fits(re, args, l.pos, 6, Ok(f), Level(re, args, l.pos, 6))
    requires Fits(re, args, f.pos, 6, Parse(args, f.pos, 6), Level(re, args, f.pos, 6))
    ensures Fits(re, args, pos, 6, ParseKeyword(args, pos), Keyword(re, args, pos))
  {
    hide At, Level, Parse, Eval, Operand, ParseOperand, Index, Substr, ToString, ExprValue.Length;
    var n := Parse(args, f.pos, 6);
    if n.Ok? {
      AtThree(args, pos, "substr", Args(l.w), Args(f.w), Args(n.value.w));
      EvalSubstr(re, Tree(l.w), Tree(f.w), Tree(n.value.w));
    }
  }

  lemma EvalLength(re: Matcher, e: Expr)
    ensures Eval(re, LengthOf(e)) == (var a :- Eval(re, e); Ok(ExprValue.Length(a)))
  {
    hide ExprValue.Length;
  }

  lemma EvalPair(re: Matcher, l: Expr, r: Expr)
    ensures Eval(re, MatchOf(l, r)) == (var a :- Eval(re, l); var b :- Eval(re, r); re(ToString(a), ToString(b)))
    ensures Eval(re, IndexOf(l, r)) == (var a :- Eval(re, l); var b :- Eval(re, r); Ok(Index(a, b)))
  {
    hide Index, ToString;
  }

  lemma EvalSubstr(re: Matcher, l: Expr, f: Expr, n: Expr)
    ensures Eval(re, SubstrOf(l, f, n)) ==
            (var a :- Eval(re, l); var b :- Eval(re, f); var c :- Eval(re, n); Ok(Substr(a, b, c)))
  {
    hide Substr;
  }

  // ---- every legal way is taken as it was written ----

  /** What stands at pos is no operator above level k. */
  predicate Ends(args: seq<string>, pos: nat, k: nat)
  {
    pos < |args| ==> OpLevel(args[pos]) <= k || OpLevel(args[pos]) == 6
  }

  /** An operand w of level k has been taken up to pos; level k goes on with its own loop. */
  function After(args: seq<string>, pos: nat, k: nat, w: Written): (r: Result<Parsed>)
    requires k <= 6 && pos <= |args|
  {
    if k == 6 then Ok(Parsed(w, pos)) else ParseLoop(args, pos, k, w)
  }

  lemma {:induction false} Taken(args: seq<string>, pos: nat, k: nat, w: Written)
    requires k <= 6 && Legal(w, k) && At(args, pos, Args(w)) && Ends(args, pos + |Args(w)|, k)
    ensures pos + |Args(w)| <= |args| && Parse(args, pos, k) == After(args, pos + |Args(w)|, k, w)
    decreases w, 6 - k, 2
  {
    hide At, Parse, ParseLoop, ParseKeyword, OpLevel;
    AtEnd(args, pos, Args(w));
    if k == 6 {
      TakenKeyword(args, pos, w);
    } else if w.Infix? && OpLevel(w.op) == k {
      var mid := pos + |Args(w.l)|;
      AtInfix(args, pos, w.op, w.l, w.r);
      Taken(args, pos, k, w.l);
      Taken(args, mid + 1, k + 1, w.r);
      LoopTakes(args, mid, k, w.l, w.r, pos + |Args(w)|);
    } else {
      Taken(args, pos, k + 1, w);
      LevelTakes(args, pos, k, w, pos + |Args(w)|);
    }
  }

  lemma AtEnd(args: seq<string>, pos: nat, x: seq<string>)
    requires At(args, pos, x)
    ensures pos + |x| <= |args|
  {
  }

  /** One level up, where the loop of level k + 1 has nothing to do. */
  lemma LevelTakes(args: seq<string>, pos: nat, k: nat, w: Written, end: nat)
    requires k <= 5 && end <= |args| && Ends(args, end, k) && Parse(args, pos, k + 1) == After(args, end, k + 1, w)
    ensures Parse(args, pos, k) == After(args, end, k, w)
  {
  }

  lemma LoopTakes(args: seq<string>, pos: nat, k: nat, l: Written, r: Written, end: nat)
    requires k <= 5 && pos < end <= |args| && OpLevel(args[pos]) == k && Ends(args, end, k)
    requires Parse(args, pos + 1, k + 1) == After(args, end, k + 1, r)
    ensures ParseLoop(args, pos, k, l) == ParseLoop(args, end, k, Infix(args[pos], l, r))
  {
  }

  lemma TakenKeyword(args: seq<string>, pos: nat, w: Written)
    requires Legal(w, 6) && At(args, pos, Args(w))
    ensures Parse(args, pos, 6) == Ok(Parsed(w, pos + |Args(w)|))
    decreases w, 0, 1
  {
    hide At, OpLevel, Parse;
    KeywordFirst(args, pos);
    match w
    case Plain(s) => AtToken(args, pos, s);
    case Quoted(s) =>
      assert ["quote", s] == ["quote"] + [s];
      AtKeyword(args, pos, "quote", [s]);
      AtToken(args, pos + 1, s);
    case Parens(u) =>
      AtParens(args, pos, u);
      ClosingEnds(args, pos + 1 + |Args(u)|);
      Taken(args, pos + 1, 0, u);
    case Infix(op, l, r) =>
    case LengthText(u) =>
      AtKeyword(args, pos, "length", Args(u));
      Taken(args, pos + 1, 6, u);
    case MatchText(l, r) => TakenPair(args, pos, w, "match", l, r);
    case IndexText(l, r) => TakenPair(args, pos, w, "index", l, r);
    case SubstrText(l, f, n) => TakenSubstr(args, pos, w);
  }

  lemma KeywordFirst(args: seq<string>, pos: nat)
    ensures Parse(args, pos, 6) == ParseKeyword(args, pos)
    ensures pos < |args| && args[pos] !in KEYWORDS ==> Parse(args, pos, 6) == ParseOperand(args, pos)
  {
    hide ParseOperand;
  }

  lemma TakenPair(args: seq<string>, pos: nat, w: Written, key: string, l: Written, r: Written)
    requires (w == MatchText(l, r) && key == "match") || (w == IndexText(l, r) && key == "index")
    requires Legal(w, 6) && At(args, pos, Args(w))
    ensures Parse(args, pos, 6) == Ok(Parsed(w, pos + |Args(w)|))
    decreases w, 0, 0
  {
    hide At, OpLevel, Parse, ParseOperand;
    KeywordFirst(args, pos);
    AtPair(args, pos, key, Args(l), Args(r));
    Taken(args, pos + 1, 6, l);
    Taken(args, pos + 1 + |Args(l)|, 6, r);
  }

  lemma TakenSubstr(args: seq<string>, pos: nat, w: Written)
    requires w.SubstrText? && Legal(w, 6) && At(args, pos, Args(w))
    ensures Parse(args, pos, 6) == Ok(Parsed(w, pos + |Args(w)|))
    decreases w, 0, 0
  {
    hide At, OpLevel, Parse, ParseOperand;
    KeywordFirst(args, pos);
    AtThree(args, pos, "substr", Args(w.l), Args(w.from), Args(w.count));
    Taken(args, pos + 1, 6, w.l);
    Taken(args, pos + 1 + |Args(w.l)|, 6, w.from);
    Taken(args, pos + 1 + |Args(w.l)| + |Args(w.from)|, 6, w.count);
  }

  lemma ClosingEnds(args: seq<string>, pos: nat)
    requires pos < |args| && args[pos] == ")"
    ensures Ends(args, pos, 0) && OpLevel(args[pos]) == 6
  {
  }

  // ---- whole argument lists ----

  /** expr with a tree written in any legal way: nothing is left, and the value or error is that of the tree. */
  lemma LegalIsRead(re: Matcher, w: Written)
    requires Legal(w, 0)
    ensures Level(re, Args(w), 0, 0) == (var v :- Eval(re, Tree(w)); Ok(Read(v, |Args(w)|)))
    ensures Parse(Args(w), 0, 0) == Ok(Parsed(w, |Args(w)|))
  {
    hide Level, Eval, OpLevel;
    var args := Args(w);
    assert args[0..0 + |args|] == args;
    Taken(args, 0, 0, w);
    FitsLevel(re, args, 0, 0);
  }

  /** The grammar is not ambiguous: what is written fixes the way it was written, and with it the tree. */
  lemma OneReading(w: Written, w': Written)
    requires Legal(w, 0) && Legal(w', 0) && Args(w) == Args(w')
    ensures w == w'
  {
    hide Parse, Legal;
    LegalIsRead((_, _) => Err(SyntaxError), w);
    LegalIsRead((_, _) => Err(SyntaxError), w');
  }

  /** Every argument list that is accepted as a whole is a legal way to write some tree, and its value is the tree's. */
  lemma Accepted(re: Matcher, args: seq<string>) returns (w: Written)
    requires Level(re, args, 0, 0).Ok? && Level(re, args, 0, 0).value.pos == |args|
    ensures Legal(w, 0) && args == Args(w) && WellFormed(Tree(w)) &&
      Eval(re, Tree(w)) == Ok(Level(re, args, 0, 0).value.v)
  {
    hide Level, Eval, Parse;
    FitsLevel(re, args, 0, 0);
    w := Parse(args, 0, 0).value.w;
    LegalTree(w, 0);
    assert args[0..|args|] == args;
  }
}
