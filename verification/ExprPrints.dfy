/** Trees printed with as few parentheses and quotes as the eval tower of expr.c needs to read them back. */
module ExprPrints {
  import opened ExprValue
  import opened ExprGrammar
  import opened ExprParses

  /** The level at which a tree can stand without parentheses. */
  function LevelOf(e: Expr): (k: nat)
    requires WellFormed(e)
    ensures k <= 6
  {
    if e.Bin? then OpLevel(e.op) else 6
  }

  /** The sparing way to write a tree where an operand of level k is expected. */
  function Sparing(e: Expr, k: nat): (w: Written)
    requires WellFormed(e) && k <= 6
    ensures Legal(w, k) && Tree(w) == e
    decreases e, if LevelOf(e) < k then 1 else 0
  {
    if LevelOf(e) < k then Parens(Sparing(e, 0))
    else
      match e
      case Lit(s) => if s in KEYWORDS || s == "(" || s == ")" then Quoted(s) else Plain(s)
      case Bin(op, l, r) => Infix(op, Sparing(l, OpLevel(op)), Sparing(r, OpLevel(op) + 1))
      case LengthOf(e) => LengthText(Sparing(e, 6))
      case MatchOf(l, r) => MatchText(Sparing(l, 6), Sparing(r, 6))
      case IndexOf(l, r) => IndexText(Sparing(l, 6), Sparing(r, 6))
      case SubstrOf(l, f, n) => SubstrText(Sparing(l, 6), Sparing(f, 6), Sparing(n, 6))
  }

  /** No legal way to write the tree is shorter. */
  lemma {:induction false} SparingIsShortest(w: Written, k: nat)
    requires Legal(w, k) && k <= 6
    ensures WellFormed(Tree(w)) && |Args(Sparing(Tree(w), k))| <= |Args(w)|
    decreases w
  {
    hide OpLevel;
    LegalTree(w, k);
    match w
    case Plain(s) =>
    case Quoted(s) =>
    case Parens(u) => SparingIsShortest(u, 0);
    case Infix(op, l, r) =>
      SparingIsShortest(l, OpLevel(op));
      SparingIsShortest(r, OpLevel(op) + 1);
    case LengthText(u) => SparingIsShortest(u, 6);
    case MatchText(l, r) =>
      SparingIsShortest(l, 6);
      SparingIsShortest(r, 6);
    case IndexText(l, r) =>
      SparingIsShortest(l, 6);
      SparingIsShortest(r, 6);
    case SubstrText(l, f, n) =>
      SparingIsShortest(l, 6);
      SparingIsShortest(f, 6);
      SparingIsShortest(n, 6);
  }

  function Print(e: Expr): (args: seq<string>)
    requires WellFormed(e)
  {
    Args(Sparing(e, 0))
  }

  /** expr with a printed tree as its arguments: nothing is left, and the value or error is that of the tree. */
  lemma WholeTree(re: Matcher, e: Expr)
    requires WellFormed(e)
    ensures Level(re, Print(e), 0, 0) == (var v :- Eval(re, e); Ok(Read(v, |Print(e)|)))
  {
    hide Level, Eval, Sparing, Args, Legal;
    LegalIsRead(re, Sparing(e, 0));
  }

  /** No two trees are printed alike. */
  lemma PrintsApart(e: Expr, e': Expr)
    requires WellFormed(e) && WellFormed(e') && Print(e) == Print(e')
    ensures e == e'
  {
    hide Sparing, Args, Legal;
    OneReading(Sparing(e, 0), Sparing(e', 0));
  }
}
