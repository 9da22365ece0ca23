/** expr_transform: pushing NOT down to the symbols and rewriting comparisons of booleans. */
module ExprTransform {
  import opened Tristates
  import opened Exprs

  /** The termination measure: NOT doubles, a comparison weighs 3, a junction adds 1. */
  function Weight(e: Expr): (w: nat)
    ensures w >= 1
  {
    match e
    case Symbol(_) => 1
    case Not(a) => 2 * Weight(a)
    case And(a, b) => 1 + Weight(a) + Weight(b)
    case Or(a, b) => 1 + Weight(a) + Weight(b)
    case Equal(_, _) => 3
    case Unequal(_, _) => 3
  }

  /** The junction t of the two negations. */
  function Negations(t: ExprType, b: Expr, c: Expr): (r: Expr)
    requires t.Junction()
    ensures r == Two(t, Not(b), Not(c)) && Weight(r) == 1 + 2 * Weight(b) + 2 * Weight(c)
  {
    assert Weight(Not(b)) == 2 * Weight(b) && Weight(Not(c)) == 2 * Weight(c);
    Two(t, Not(b), Not(c))
  }

  function Transform(e: Expr): (r: Expr)
    ensures Weight(r) <= Weight(e)
    decreases Weight(e)
  {
    match e
    case Symbol(_) => e
    case And(a, b) => And(Transform(a), Transform(b))
    case Or(a, b) => Or(Transform(a), Transform(b))
    case Equal(s, t) =>
      if s.Type() != SBoolean then e
      else if t == SymNo then Not(Symbol(s))
      else if t == SymMod then Symbol(SymNo)
      else if t == SymYes then Symbol(s)
      else e
    case Unequal(s, t) =>
      if s.Type() != SBoolean then e
      else if t == SymNo then Symbol(s)
      else if t == SymMod then Symbol(SymYes)
      else if t == SymYes then Not(Symbol(s))
      else e
    case Not(a) =>
      match Transform(a)
      case Not(b) => Transform(b)
      case Equal(s, t) => Unequal(s, t)
      case Unequal(s, t) => Equal(s, t)
      case Or(b, c) => Transform(Negations(TAnd, b, c))
      case And(b, c) => Transform(Negations(TOr, b, c))
      case Symbol(s) =>
        if s == SymYes then Symbol(SymNo)
        else if s == SymMod then Symbol(SymMod)
        else if s == SymNo then Symbol(SymYes)
        else Not(Symbol(s))
  }

  /** NOT only above symbols other than y, m and n; no boolean compared with y, m or n. */
  predicate Normal(e: Expr) {
    match e
    case Symbol(_) => true
    case And(a, b) => Normal(a) && Normal(b)
    case Or(a, b) => Normal(a) && Normal(b)
    case Equal(s, t) => s.Type() == SBoolean ==> !t.Predefined()
    case Unequal(s, t) => s.Type() == SBoolean ==> !t.Predefined()
    case Not(a) => a.Symbol? && !a.sym.Predefined()
  }

  lemma {:induction false} TransformValue(e: Expr, env: Env)
    requires WellTyped(env)
    ensures Eval(Transform(e), env) == Eval(e, env)
    decreases Weight(e)
  {
    assert TypedAt(env, SymYes) && TypedAt(env, SymMod) && TypedAt(env, SymNo);
    match e
    case Symbol(_) =>
    case And(a, b) => TransformValue(a, env); TransformValue(b, env);
    case Or(a, b) => TransformValue(a, env); TransformValue(b, env);
    case Equal(s, t) => assert TypedAt(env, s);
    case Unequal(s, t) => assert TypedAt(env, s);
    case Not(a) =>
      TransformValue(a, env);
      match Transform(a)
      case Not(b) => TransformValue(b, env);
      case Or(b, c) => TransformValue(Negations(TAnd, b, c), env);
      case And(b, c) => TransformValue(Negations(TOr, b, c), env);
      case _ =>
  }

  lemma {:induction false} TransformNormal(e: Expr)
    ensures Normal(Transform(e))
    decreases Weight(e)
  {
    match e
    case Symbol(_) =>
    case And(a, b) => TransformNormal(a); TransformNormal(b);
    case Or(a, b) => TransformNormal(a); TransformNormal(b);
    case Equal(_, _) =>
    case Unequal(_, _) =>
    case Not(a) =>
      TransformNormal(a);
      match Transform(a)
      case Not(b) => TransformNormal(b);
      case Or(b, c) => TransformNormal(Negations(TAnd, b, c));
      case And(b, c) => TransformNormal(Negations(TOr, b, c));
      case _ =>
  }

  lemma {:induction false} NormalIsFixed(e: Expr)
    requires Normal(e)
    ensures Transform(e) == e
  {
    match e
    case And(a, b) => NormalIsFixed(a); NormalIsFixed(b);
    case Or(a, b) => NormalIsFixed(a); NormalIsFixed(b);
    case _ =>
  }

  /** The normal forms are exactly the expressions expr_transform leaves alone. */
  lemma TransformFixes(e: Expr)
    ensures Transform(e) == e <==> Normal(e)
    ensures Transform(Transform(e)) == Transform(e)
  {
    TransformNormal(e);
    NormalIsFixed(Transform(e));
  }
}
