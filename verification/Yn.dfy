/** expr_eliminate_yn: dropping y and n operands. */
module EliminateYn {
  import opened Tristates
  import opened Exprs

  /** A junction whose operands have been treated already. */
  function Collapse(t: ExprType, l: Expr, r: Expr): (e: Expr)
    requires t.Junction()
    ensures e.Size() <= 1 + l.Size() + r.Size() && (e != Two(t, l, r) ==> e.Size() < 1 + l.Size() + r.Size())
  {
    var absorbing, neutral := Symbol(Neutral(t.Dual())), Symbol(Neutral(t));
    if l == absorbing then absorbing
    else if l == neutral then r
    else if r == absorbing then absorbing
    else if r == neutral then l
    else Two(t, l, r)
  }

  function Yn(e: Expr): (r: Expr)
    ensures r.Size() <= e.Size()
    ensures r != e ==> r.Size() < e.Size()
  {
    if e.Type().Junction() then Collapse(e.Type(), Yn(e.left), Yn(e.right)) else e
  }

  /** Some AND/OR node not below a NOT has a y or n operand. */
  predicate HasConst(e: Expr) {
    && e.Type().Junction()
    && (IsYn(e.left) || IsYn(e.right) || HasConst(e.left) || HasConst(e.right))
  }

  lemma CollapseValue(t: ExprType, l: Expr, r: Expr, env: Env)
    requires WellTyped(env) && t.Junction()
    ensures Eval(Collapse(t, l, r), env) == Op(t, Eval(l, env), Eval(r, env))
  {
    assert TypedAt(env, SymYes) && TypedAt(env, SymNo);
  }

  lemma CollapseExact(t: ExprType, l: Expr, r: Expr)
    requires t.Junction() && !HasConst(l) && !HasConst(r)
    ensures !HasConst(Collapse(t, l, r))
    ensures Collapse(t, l, r) == Two(t, l, r) <==> !IsYn(l) && !IsYn(r)
  {
    assert Two(t, l, r).Size() == 1 + l.Size() + r.Size();
  }

  lemma {:induction false} YnValue(e: Expr, env: Env)
    requires WellTyped(env)
    ensures Eval(Yn(e), env) == Eval(e, env)
  {
    hide Collapse, WellTyped;
    if e.Type().Junction() {
      CollapseValue(e.Type(), Yn(e.left), Yn(e.right), env);
      YnValue(e.left, env);
      YnValue(e.right, env);
    }
  }

  /** The result has no constant operand, and constants are the only reason to change anything. */
  lemma {:induction false} YnExact(e: Expr)
    ensures !HasConst(Yn(e))
    ensures Yn(e) == e <==> !HasConst(e)
  {
    if e.Type().Junction() {
      hide Collapse;
      YnExact(e.left);
      YnExact(e.right);
      CollapseExact(e.Type(), Yn(e.left), Yn(e.right));
      if IsYn(e.left) || IsYn(e.right) {
        assert IsYn(Yn(e.left)) || IsYn(Yn(e.right));
      }
      assert e == Two(e.Type(), e.left, e.right);
    }
  }
}
