/** Structural comparison up to reordering: expr_eq, __expr_eliminate_eq and expr_eliminate_eq,
    which call each other. */
module ExprEquality {
  import opened Tristates
  import opened Exprs
  import opened EliminateYn

  /** Two rewritten trees and how many pairs were cancelled (the increase of trans_count). */
  datatype Cancelled = Cancelled(a: Expr, b: Expr, count: nat)

  /** __expr_eliminate_eq: cancel equal operands of two junctions of type t. */
  function CancelRec(t: ExprType, a: Expr, b: Expr): (r: Cancelled)
    requires t.Junction()
    ensures r.a.Size() <= a.Size() && r.b.Size() <= b.Size()
    ensures a.Type() == t ==> r.a.Type() == t
    ensures b.Type() == t ==> r.b.Type() == t
    decreases a.Size() + b.Size(), if a.Type() == t || b.Type() == t then 0 else 4
  {
    if a.Type() == t then
      var l := CancelRec(t, a.left, b);
      var r := CancelRec(t, a.right, l.b);
      Cancelled(Two(t, l.a, r.a), r.b, l.count + r.count)
    else if b.Type() == t then
      var l := CancelRec(t, a, b.left);
      var r := CancelRec(t, l.a, b.right);
      Cancelled(r.a, Two(t, l.b, r.b), l.count + r.count)
    else if a == b && IsYn(a) then Cancelled(a, b, 0)
    else if !ExprEq(a, b) then Cancelled(a, b, 0)
    else Cancelled(Symbol(Neutral(t)), Symbol(Neutral(t)), 1)
  }

  /** The two passes of expr_eliminate_eq before the final expr_eliminate_yn. */
  function CancelPasses(a: Expr, b: Expr): (r: Cancelled)
    ensures r.a.Size() <= a.Size() && r.b.Size() <= b.Size()
    decreases a.Size() + b.Size(), 1
  {
    var r1 := if a.Type().Junction() then CancelRec(a.Type(), a, b) else Cancelled(a, b, 0);
    if r1.a.Type() != r1.b.Type() && r1.b.Type().Junction() then
      var r2 := CancelRec(r1.b.Type(), r1.a, r1.b);
      Cancelled(r2.a, r2.b, r1.count + r2.count)
    else r1
  }

  /** expr_eliminate_eq */
  function Cancel(a: Expr, b: Expr): (r: Cancelled)
    ensures r.a.Size() <= a.Size() && r.b.Size() <= b.Size()
    decreases a.Size() + b.Size(), 2
  {
    var r := CancelPasses(a, b);
    Cancelled(Yn(r.a), Yn(r.b), r.count)
  }

  /** expr_eq, which works on copies and restores trans_count. */
  predicate ExprEq(a: Expr, b: Expr)
    decreases a.Size() + b.Size(), 3
  {
    if a.Type() != b.Type() then false
    else if a.Not? then ExprEq(a.e, b.e)
    else if a.Type().Junction() then
      var r := CancelPasses(a, b);
      var x, y := Yn(r.a), Yn(r.b);
      x.Symbol? && y.Symbol? && x.sym == y.sym
    else a == b
  }

  // ----- what is counted -----

  /** How many operands of a junction are not y or n. */
  function LiveOperands(t: ExprType, e: Expr): nat
    requires t.Junction()
  {
    if e.Type() == t then LiveOperands(t, e.left) + LiveOperands(t, e.right) else if IsYn(e) then 0 else 1
  }

  /** trans_count grows by the number of operands that vanish, in each of the two. */
  lemma {:induction false} CancelRecCount(t: ExprType, a: Expr, b: Expr)
    requires t.Junction()
    ensures var r := CancelRec(t, a, b);
      LiveOperands(t, r.a) + r.count == LiveOperands(t, a) && LiveOperands(t, r.b) + r.count == LiveOperands(t, b)
    decreases a.Size() + b.Size()
  {
    hide ExprEq;
    if a.Type() == t {
      CancelRecCount(t, a.left, b);
      CancelRecCount(t, a.right, CancelRec(t, a.left, b).b);
    } else if b.Type() == t {
      var l := CancelRec(t, a, b.left);
      CancelRecCount(t, a, b.left);
      CancelRecCount(t, l.a, b.right);
    } else {
      ConstantOnly(a, b);
    }
  }

  lemma ConstantOnly(a: Expr, b: Expr)
    ensures ExprEq(a, b) && (IsYn(a) || IsYn(b)) ==> a == b
  {
  }

  // ----- soundness -----

  /** One value c that, joined back to both remainders, restores both originals. */
  ghost predicate Restores(t: ExprType, c: Tristate, a: Expr, b: Expr, a': Expr, b': Expr, env: Env)
    requires t.Junction()
  {
    Eval(a, env) == Op(t, Eval(a', env), c) && Eval(b, env) == Op(t, Eval(b', env), c)
  }

  lemma OpMoves(t: ExprType, a: Tristate, b: Tristate, c: Tristate, d: Tristate)
    requires t.Junction()
    ensures Op(t, Op(t, a, c), Op(t, b, d)) == Op(t, Op(t, a, b), Op(t, c, d))
    ensures Op(t, Op(t, a, d), c) == Op(t, a, Op(t, c, d))
  {
  }

  lemma EvalTwo(t: ExprType, l: Expr, r: Expr, env: Env)
    requires t.Junction()
    ensures Eval(Two(t, l, r), env) == Op(t, Eval(l, env), Eval(r, env))
  {
  }

  /** Cancelling removes the same value from both trees. */
  lemma {:induction false} CancelRecRestores(t: ExprType, a: Expr, b: Expr, env: Env) returns (c: Tristate)
    requires t.Junction() && WellTyped(env)
    ensures var r := CancelRec(t, a, b); Restores(t, c, a, b, r.a, r.b, env)
    decreases a.Size() + b.Size(), if a.Type() == t || b.Type() == t then 0 else 4
  {
    if a.Type() == t {
      var l := CancelRec(t, a.left, b);
      var r := CancelRec(t, a.right, l.b);
      var c1 := CancelRecRestores(t, a.left, b, env);
      var c2 := CancelRecRestores(t, a.right, l.b, env);
      c := Op(t, c1, c2);
      EvalTwo(t, l.a, r.a, env);
      OpMoves(t, Eval(l.a, env), Eval(r.a, env), c1, c2);
      OpMoves(t, Eval(r.b, env), Eval(r.b, env), c1, c2);
    } else if b.Type() == t {
      var l := CancelRec(t, a, b.left);
      var r := CancelRec(t, l.a, b.right);
      var c1 := CancelRecRestores(t, a, b.left, env);
      var c2 := CancelRecRestores(t, l.a, b.right, env);
      c := Op(t, c1, c2);
      EvalTwo(t, l.b, r.b, env);
      OpMoves(t, Eval(l.b, env), Eval(r.b, env), c1, c2);
      OpMoves(t, Eval(r.a, env), Eval(r.a, env), c1, c2);
    } else if (a == b && IsYn(a)) || !ExprEq(a, b) {
      c := Neutral3(t);
    } else {
      ExprEqSound(a, b, env);
      assert TypedAt(env, Neutral(t));
      c := Eval(a, env);
    }
  }

  /** Both passes: whenever one remainder is at most the other, so were the originals. */
  lemma {:induction false} CancelPassesMonotone(a: Expr, b: Expr, env: Env)
    requires WellTyped(env)
    ensures var r := CancelPasses(a, b);
      && (Eval(r.a, env) <= Eval(r.b, env) ==> Eval(a, env) <= Eval(b, env))
      && (Eval(r.b, env) <= Eval(r.a, env) ==> Eval(b, env) <= Eval(a, env))
    decreases a.Size() + b.Size(), 1
  {
    hide CancelRec;
    var r1 := if a.Type().Junction() then CancelRec(a.Type(), a, b) else Cancelled(a, b, 0);
    if a.Type().Junction() {
      var c1 := CancelRecRestores(a.Type(), a, b, env);
    }
    if r1.a.Type() != r1.b.Type() && r1.b.Type().Junction() {
      var c2 := CancelRecRestores(r1.b.Type(), r1.a, r1.b, env);
    }
  }

  /** expr_eq never says yes to two expressions that can differ. */
  lemma {:induction false} ExprEqSound(a: Expr, b: Expr, env: Env)
    requires WellTyped(env) && ExprEq(a, b)
    ensures Eval(a, env) == Eval(b, env)
    decreases a.Size() + b.Size(), 3
  {
    if a.Not? {
      ExprEqSound(a.e, b.e, env);
    } else if a.Type().Junction() {
      var r := CancelPasses(a, b);
      YnValue(r.a, env);
      YnValue(r.b, env);
      CancelPassesMonotone(a, b, env);
    }
  }

  /** What menu_finalize relies on to nest an entry: if the second expression cancels to y, the
      first is at most the second, whatever the assignment. */
  lemma CancelToYesImplies(a: Expr, b: Expr, env: Env)
    requires WellTyped(env) && Cancel(a, b).b == Symbol(SymYes)
    ensures Eval(a, env) <= Eval(b, env)
  {
    var r := CancelPasses(a, b);
    YnValue(r.b, env);
    assert TypedAt(env, SymYes);
    CancelPassesMonotone(a, b, env);
  }
}
