/** expr_extract_eq and its two entry points: factoring out the common operands. */
module ExprExtract {
  import opened Options
  import opened Tristates
  import opened Exprs
  import opened EliminateYn
  import opened ExprEquality
  import opened ExprEqualityExact

  datatype Factored = Factored(common: Option<Expr>, a: Expr, b: Expr)

  /** expr_extract_eq; acc is the common part found so far. */
  function ExtractRec(t: ExprType, acc: Option<Expr>, a: Expr, b: Expr): (r: Factored)
    requires t.Junction()
    ensures a.Type() == t ==> r.a.Type() == t
    decreases a, b
  {
    if a.Type() == t then
      var l := ExtractRec(t, acc, a.left, b);
      var r := ExtractRec(t, l.common, a.right, l.b);
      Factored(r.common, Two(t, l.a, r.a), r.b)
    else ExtractRight(t, acc, a, b)
  }

  /** The case where the first argument is not (or no longer) a junction of type t. */
  function ExtractRight(t: ExprType, acc: Option<Expr>, a: Expr, b: Expr): (r: Factored)
    requires t.Junction() && a.Type() != t
    ensures r.a.Type() != t
    decreases b
  {
    if b.Type() == t then
      var l := ExtractRight(t, acc, a, b.left);
      var r := ExtractRight(t, l.common, l.a, b.right);
      Factored(r.common, r.a, Two(t, l.b, r.b))
    else if ExprEq(a, b) then
      Factored(Some(if acc.None? then a else Two(t, acc.value, a)), Symbol(Neutral(t)), Symbol(Neutral(t)))
    else Factored(acc, a, b)
  }

  /** expr_extract_eq_and for t = AND, expr_extract_eq_or for t = OR. */
  function Extract(t: ExprType, a: Expr, b: Expr): (r: Factored)
    requires t.Junction()
  {
    var r := ExtractRec(t, None, a, b);
    if r.common.None? then r else Factored(r.common, Yn(r.a), Yn(r.b))
  }

  function CommonValue(t: ExprType, common: Option<Expr>, env: Env): Tristate
    requires t.Junction()
  {
    if common.None? then Neutral3(t) else Eval(common.value, env)
  }

  /** The value newly added to the common part is exactly what was taken from both arguments. */
  ghost predicate Factors(t: ExprType, c: Tristate, acc: Option<Expr>, a: Expr, b: Expr, r: Factored, env: Env)
    requires t.Junction()
  {
    && CommonValue(t, r.common, env) == Op(t, CommonValue(t, acc, env), c)
    && Restores(t, c, a, b, r.a, r.b, env)
  }

  /** Two successive extractions, the second starting from the common part of the first. */
  lemma FactorsCompose(t: ExprType, acc: Option<Expr>, mid: Option<Expr>, end: Option<Expr>, c1: Tristate,
                       c2: Tristate, env: Env)
    requires t.Junction()
    requires CommonValue(t, mid, env) == Op(t, CommonValue(t, acc, env), c1)
    requires CommonValue(t, end, env) == Op(t, CommonValue(t, mid, env), c2)
    ensures CommonValue(t, end, env) == Op(t, CommonValue(t, acc, env), Op(t, c1, c2))
  {
  }

  /** Two equal operands are replaced by neutral constants, and one of them is kept. */
  lemma FactorsLeaf(t: ExprType, acc: Option<Expr>, a: Expr, b: Expr, env: Env)
    requires WellTyped(env) && t.Junction() && Eval(a, env) == Eval(b, env)
    ensures var n := Symbol(Neutral(t));
      Factors(t, Eval(a, env), acc, a, b, Factored(Some(if acc.None? then a else Two(t, acc.value, a)), n, n), env)
  {
    assert TypedAt(env, Neutral(t));
    if acc.Some? { EvalTwo(t, acc.value, a, env); }
  }

  lemma {:induction false} ExtractRightValue(t: ExprType, acc: Option<Expr>, a: Expr, b: Expr, env: Env)
    returns (c: Tristate)
    requires WellTyped(env) && t.Junction() && a.Type() != t
    ensures Factors(t, c, acc, a, b, ExtractRight(t, acc, a, b), env)
    decreases b
  {
    if b.Type() == t {
      var l := ExtractRight(t, acc, a, b.left);
      var r := ExtractRight(t, l.common, l.a, b.right);
      var c1 := ExtractRightValue(t, acc, a, b.left, env);
      var c2 := ExtractRightValue(t, l.common, l.a, b.right, env);
      c := Op(t, c1, c2);
      EvalTwo(t, l.b, r.b, env);
      OpMoves(t, Eval(l.b, env), Eval(r.b, env), c1, c2);
      OpMoves(t, Eval(r.a, env), Eval(r.a, env), c1, c2);
      FactorsCompose(t, acc, l.common, r.common, c1, c2, env);
    } else if ExprEq(a, b) {
      ExprEqSound(a, b, env);
      FactorsLeaf(t, acc, a, b, env);
      c := Eval(a, env);
    } else {
      c := Neutral3(t);
    }
  }

  lemma {:induction false} ExtractRecValue(t: ExprType, acc: Option<Expr>, a: Expr, b: Expr, env: Env)
    returns (c: Tristate)
    requires WellTyped(env) && t.Junction()
    ensures Factors(t, c, acc, a, b, ExtractRec(t, acc, a, b), env)
    decreases a
  {
    if a.Type() == t {
      var l := ExtractRec(t, acc, a.left, b);
      var r := ExtractRec(t, l.common, a.right, l.b);
      var c1 := ExtractRecValue(t, acc, a.left, b, env);
      var c2 := ExtractRecValue(t, l.common, a.right, l.b, env);
      c := Op(t, c1, c2);
      EvalTwo(t, l.a, r.a, env);
      OpMoves(t, Eval(l.a, env), Eval(r.a, env), c1, c2);
      OpMoves(t, Eval(r.b, env), Eval(r.b, env), c1, c2);
      FactorsCompose(t, acc, l.common, r.common, c1, c2, env);
    } else {
      c := ExtractRightValue(t, acc, a, b, env);
    }
  }

  /** Factoring is exact: each input is the common part joined with its remainder, for all three values. */
  lemma ExtractValue(t: ExprType, a: Expr, b: Expr, env: Env)
    requires WellTyped(env) && t.Junction()
    ensures var r := Extract(t, a, b);
      && Eval(a, env) == Op(t, CommonValue(t, r.common, env), Eval(r.a, env))
      && Eval(b, env) == Op(t, CommonValue(t, r.common, env), Eval(r.b, env))
  {
    var c := ExtractRecValue(t, None, a, b, env);
    var r := ExtractRec(t, None, a, b);
    YnValue(r.a, env);
    YnValue(r.b, env);
  }

  // ----- nothing in common is left -----

  /** No operand of the first remainder but a constant equals one of the second. */
  ghost predicate Apart(xs: seq<Expr>, ys: seq<Expr>) {
    forall x, y :: x in xs && y in ys && !IsYn(x) ==> !ExprEq(x, y)
  }

  /** The operands ys are some of us, and neutral constants. */
  ghost predicate Among(t: ExprType, ys: seq<Expr>, us: seq<Expr>)
    requires t.Junction()
  {
    forall y :: y in ys ==> y in us || y == Symbol(Neutral(t))
  }

  lemma ApartAmong(t: ExprType, xs: seq<Expr>, ys: seq<Expr>, us: seq<Expr>)
    requires t.Junction() && Apart(xs, us) && Among(t, ys, us)
    ensures Apart(xs, ys)
  {
    forall x, y | x in xs && y in ys && !IsYn(x) ensures !ExprEq(x, y) {
      if y !in us { NotNeutral(t, x); }
    }
  }

  lemma NotNeutral(t: ExprType, x: Expr)
    requires t.Junction() && !IsYn(x)
    ensures !ExprEq(x, Symbol(Neutral(t)))
  {
  }

  lemma {:induction false} ExtractRightApart(t: ExprType, acc: Option<Expr>, a: Expr, b: Expr)
    requires t.Junction() && a.Type() != t
    ensures var r := ExtractRight(t, acc, a, b);
      && (r.a == a || r.a == Symbol(Neutral(t))) && Among(t, Operands(t, r.b), Operands(t, b))
      && Apart([r.a], Operands(t, r.b))
    decreases b
  {
    hide ExprEq;
    if b.Type() == t {
      var l := ExtractRight(t, acc, a, b.left);
      ExtractRightApart(t, acc, a, b.left);
      ExtractRightApart(t, l.common, l.a, b.right);
    }
  }

  /** What factoring leaves has no operand in common any more, constants aside. */
  lemma {:induction false} ExtractRecApart(t: ExprType, acc: Option<Expr>, a: Expr, b: Expr)
    requires t.Junction()
    ensures var r := ExtractRec(t, acc, a, b);
      && Among(t, Operands(t, r.a), Operands(t, a)) && Among(t, Operands(t, r.b), Operands(t, b))
      && Apart(Operands(t, r.a), Operands(t, r.b))
    decreases a
  {
    hide ExprEq;
    if a.Type() == t {
      var l := ExtractRec(t, acc, a.left, b);
      var r := ExtractRec(t, l.common, a.right, l.b);
      ExtractRecApart(t, acc, a.left, b);
      ExtractRecApart(t, l.common, a.right, l.b);
      ApartAmong(t, Operands(t, l.a), Operands(t, r.b), Operands(t, l.b));
    } else {
      ExtractRightApart(t, acc, a, b);
    }
  }
}
