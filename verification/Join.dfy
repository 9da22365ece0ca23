/** expr_join_or and expr_join_and: one expression for two operands, when a rule applies. */
module ExprJoin {
  import opened Options
  import opened Tristates
  import opened Exprs
  import opened ExprEquality

  /** The expression types the rules look at. */
  predicate Simple(e: Expr) { e.Equal? || e.Unequal? || e.Symbol? || e.Not? }

  function LeftSym(e: Expr): Sym
    requires e.Equal? || e.Unequal? || e.Symbol?
  {
    if e.Symbol? then e.sym else e.lsym
  }

  /** The symbol both operands are about, if the rules apply at all. A negated first operand may be
      a comparison, a negated second one must be a symbol. */
  function CommonSym(e1: Expr, e2: Expr): Option<Sym> {
    if !Simple(e1) || !Simple(e2) then None
    else if e1.Not? && !(e1.e.Equal? || e1.e.Unequal? || e1.e.Symbol?) then None
    else if e2.Not? && !e2.e.Symbol? then None
    else
      var s1 := LeftSym(if e1.Not? then e1.e else e1);
      var s2 := LeftSym(if e2.Not? then e2.e else e2);
      if s1 == s2 && (s1.Type() == SBoolean || s1.Type() == STristate) then Some(s1) else None
  }

  /** The operands compare the common symbol with r1 and r2, in either order. */
  predicate Pair(t: ExprType, e1: Expr, e2: Expr, r1: Sym, r2: Sym)
    requires t == TEqual || t == TUnequal
  {
    && e1.Type() == t && e2.Type() == t
    && ((e1.rsym == r1 && e2.rsym == r2) || (e1.rsym == r2 && e2.rsym == r1))
  }

  /** One operand is the symbol itself, the other compares it with r. */
  predicate With(t: ExprType, e1: Expr, e2: Expr, r: Sym)
    requires t == TEqual || t == TUnequal
  {
    || (e1.Symbol? && e2.Type() == t && e2.rsym == r)
    || (e2.Symbol? && e1.Type() == t && e1.rsym == r)
  }

  function JoinOr(e1: Expr, e2: Expr): (r: Option<Expr>)
    ensures r.Some? ==> r.value.Size() <= e1.Size() && (r.value == e1 || !r.value.Type().Junction())
  {
    if ExprEq(e1, e2) then Some(e1)
    else
      var common := CommonSym(e1, e2);
      if common.None? then None
      else
        var s := common.value;
        if s.Type() == STristate && Pair(TEqual, e1, e2, SymYes, SymMod) then Some(Unequal(s, SymNo))
        else if s.Type() == STristate && Pair(TEqual, e1, e2, SymYes, SymNo) then Some(Unequal(s, SymMod))
        else if s.Type() == STristate && Pair(TEqual, e1, e2, SymMod, SymNo) then Some(Unequal(s, SymYes))
        else if s.Type() == SBoolean &&
                ((e1.Not? && e1.e.Symbol? && e2.Symbol?) || (e2.Not? && e2.e.Symbol? && e1.Symbol?))
          then Some(Symbol(SymYes))
        else None
  }

  /** "a = b" and "a != c" for constants b and c. */
  function JoinEqualUnequal(s: Sym, b: Sym, c: Sym): Expr {
    if b != c then Equal(s, b) else Symbol(SymNo)
  }

  function JoinAnd(e1: Expr, e2: Expr): (r: Option<Expr>)
    ensures r.Some? ==> r.value.Size() <= e1.Size() && (r.value == e1 || !r.value.Type().Junction())
  {
    if ExprEq(e1, e2) then Some(e1)
    else
      var common := CommonSym(e1, e2);
      if common.None? then None
      else
        var s := common.value;
        if With(TEqual, e1, e2, SymYes) then Some(Equal(s, SymYes))
        else if With(TUnequal, e1, e2, SymNo) then Some(Symbol(s))
        else if With(TUnequal, e1, e2, SymMod) then Some(Equal(s, SymYes))
        else if s.Type() != STristate then None
        else if e1.Equal? && e2.Unequal? && e1.rsym.Const() && e2.rsym.Const() then
          Some(JoinEqualUnequal(s, e1.rsym, e2.rsym))
        else if e1.Unequal? && e2.Equal? && e1.rsym.Const() && e2.rsym.Const() then
          Some(JoinEqualUnequal(s, e2.rsym, e1.rsym))
        else if Pair(TUnequal, e1, e2, SymYes, SymNo) then Some(Equal(s, SymMod))
        else if Pair(TUnequal, e1, e2, SymYes, SymMod) then Some(Equal(s, SymNo))
        else if Pair(TUnequal, e1, e2, SymMod, SymNo) then Some(Equal(s, SymYes))
        else None
  }

  function Join(t: ExprType, e1: Expr, e2: Expr): (r: Option<Expr>)
    requires t.Junction()
    ensures r.Some? ==> r.value.Size() <= e1.Size() && (r.value == e1 || !r.value.Type().Junction())
  {
    if t == TAnd then JoinAnd(e1, e2) else JoinOr(e1, e2)
  }

  /** Comparing a boolean or tristate with y, m or n compares the tristates. */
  lemma CompareValue(s: Sym, c: Sym, env: Env)
    requires WellTyped(env) && c.Predefined() && (s.Type() == SBoolean || s.Type() == STristate)
    ensures env.str(s) == env.str(c) <==> env.tri(s) == env.tri(c)
    ensures env.tri(c) == if c == SymYes then YES else if c == SymMod then MOD else NO
    ensures s.Type() == SBoolean ==> env.tri(s) != MOD
  {
    assert TypedAt(env, s) && TypedAt(env, c);
  }

  lemma ConstantsDiffer(b: Sym, c: Sym, env: Env)
    requires WellTyped(env) && b.Const() && c.Const() && b != c
    ensures env.str(b) != env.str(c)
  {
    assert TypedAt(env, b) && TypedAt(env, c);
  }

  lemma JoinOrValue(e1: Expr, e2: Expr, env: Env)
    requires WellTyped(env) && JoinOr(e1, e2).Some?
    ensures Eval(JoinOr(e1, e2).value, env) == Or3(Eval(e1, env), Eval(e2, env))
  {
    if ExprEq(e1, e2) {
      ExprEqSound(e1, e2, env);
    } else {
      var s := CommonSym(e1, e2).value;
      CompareValue(s, SymYes, env);
      CompareValue(s, SymMod, env);
      CompareValue(s, SymNo, env);
    }
  }

  lemma JoinAndValue(e1: Expr, e2: Expr, env: Env)
    requires WellTyped(env) && JoinAnd(e1, e2).Some?
    ensures Eval(JoinAnd(e1, e2).value, env) == And3(Eval(e1, env), Eval(e2, env))
  {
    if ExprEq(e1, e2) {
      ExprEqSound(e1, e2, env);
    } else {
      var s := CommonSym(e1, e2).value;
      CompareValue(s, SymYes, env);
      CompareValue(s, SymMod, env);
      CompareValue(s, SymNo, env);
      if (e1.Equal? || e1.Unequal?) && (e2.Equal? || e2.Unequal?) && e1.rsym.Const() && e2.rsym.Const() &&
         e1.rsym != e2.rsym {
        ConstantsDiffer(e1.rsym, e2.rsym, env);
      }
    }
  }

  /** A joined expression has the value of the junction of the two. */
  lemma JoinValue(t: ExprType, e1: Expr, e2: Expr, env: Env)
    requires WellTyped(env) && t.Junction() && Join(t, e1, e2).Some?
    ensures Eval(Join(t, e1, e2).value, env) == Op(t, Eval(e1, env), Eval(e2, env))
  {
    if t == TAnd {
      JoinAndValue(e1, e2, env);
    } else {
      JoinOrValue(e1, e2, env);
    }
  }

  // ----- which operands are joined -----

  predicate Truth(s: Sym) { s.Type() == SBoolean || s.Type() == STristate }

  /** Two different ones of "a = y", "a = m" and "a = n" for a tristate; a boolean and its negation. */
  predicate OrRule(e1: Expr, e2: Expr) {
    || (e1.Equal? && e2.Equal? && e1.lsym == e2.lsym && e1.lsym.Type() == STristate
        && e1.rsym.Predefined() && e2.rsym.Predefined() && e1.rsym != e2.rsym)
    || (e1.Symbol? && e1.sym.Type() == SBoolean && e2 == Not(e1))
    || (e2.Symbol? && e2.sym.Type() == SBoolean && e1 == Not(e2))
  }

  /** a, and "a = y", "a != n" or "a != m". */
  predicate WithRule(e1: Expr, e2: Expr) {
    e1.Symbol? && Truth(e1.sym) && (e2 == Equal(e1.sym, SymYes) || e2 == Unequal(e1.sym, SymNo) || e2 == Unequal(e1.sym, SymMod))
  }

  /** "a = b" and "a != c" for a tristate and constants. */
  predicate MixedRule(e1: Expr, e2: Expr) {
    e1.Equal? && e2.Unequal? && e1.lsym == e2.lsym && e1.lsym.Type() == STristate && e1.rsym.Const() && e2.rsym.Const()
  }

  predicate AndRule(e1: Expr, e2: Expr) {
    || WithRule(e1, e2) || WithRule(e2, e1) || MixedRule(e1, e2) || MixedRule(e2, e1)
    || (e1.Unequal? && e2.Unequal? && e1.lsym == e2.lsym && e1.lsym.Type() == STristate
        && e1.rsym.Predefined() && e2.rsym.Predefined() && e1.rsym != e2.rsym)
  }

  /** Apart from equal operands exactly these are joined; JoinValue says with which value. */
  lemma JoinExact(t: ExprType, e1: Expr, e2: Expr)
    requires t.Junction()
    ensures Join(t, e1, e2).Some? <==> ExprEq(e1, e2) || if t == TAnd then AndRule(e1, e2) else OrRule(e1, e2)
  {
    hide ExprEq;
    if t == TAnd { JoinAndExact(e1, e2); } else { JoinOrExact(e1, e2); }
  }

  lemma JoinOrExact(e1: Expr, e2: Expr)
    ensures JoinOr(e1, e2).Some? <==> ExprEq(e1, e2) || OrRule(e1, e2)
  {
    hide ExprEq;
  }

  lemma JoinAndExact(e1: Expr, e2: Expr)
    ensures JoinAnd(e1, e2).Some? <==> ExprEq(e1, e2) || AndRule(e1, e2)
  {
    hide ExprEq;
  }
}
