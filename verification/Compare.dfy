/** expr_trans_compare, expr_trans_bool and expr_depends_symbol. */
module ExprCompare {
  import opened Options
  import opened Tristates
  import opened Exprs
  import opened ExprTransform

  datatype Relation = Is | IsNot
  {
    function Flip(): Relation { if Is? then IsNot else Is }
  }

  function Negated(rel: Relation, e: Expr): Expr { if rel == IsNot then Not(e) else e }

  function Comparison(rel: Relation, l: Sym, r: Sym): Expr {
    if rel == Is then Equal(l, r) else Unequal(l, r)
  }

  /** expr_trans_compare: an expression for "e = s" or "e != s". Only y and n split a junction. */
  function TransCompare(e: Expr, rel: Relation, s: Sym): Expr
    requires s.Predefined()
  {
    match e
    case And(a, b) =>
      var x, y := TransCompare(a, Is, s), TransCompare(b, Is, s);
      Negated(rel, if s == SymYes then And(x, y) else if s == SymNo then Or(x, y) else e)
    case Or(a, b) =>
      var x, y := TransCompare(a, Is, s), TransCompare(b, Is, s);
      Negated(rel, if s == SymYes then Or(x, y) else if s == SymNo then And(x, y) else e)
    case Not(a) => TransCompare(a, rel.Flip(), s)
    case Symbol(t) => Comparison(rel, t, s)
    case _ =>
      if rel == Is then
        if s == SymYes then e else if s == SymMod then Symbol(SymNo) else Not(e)
      else
        if s == SymYes then Not(e) else if s == SymMod then Symbol(SymYes) else e
  }

  function TransCompareOpt(e: Option<Expr>, rel: Relation, s: Sym): Expr
    requires s.Predefined()
  {
    if e.None? then Negated(rel, Symbol(s)) else TransCompare(e.value, rel, s)
  }

  predicate Holds(rel: Relation, v: Tristate, w: Tristate) { if rel == Is then v == w else v != w }

  /** Every symbol used as a value, rather than in a comparison, is boolean, tristate or y/m/n. */
  predicate TristateSymbols(e: Expr) {
    match e
    case Symbol(s) => s.Predefined() || s.Type() == SBoolean || s.Type() == STristate
    case Not(a) => TristateSymbols(a)
    case And(a, b) => TristateSymbols(a) && TristateSymbols(b)
    case Or(a, b) => TristateSymbols(a) && TristateSymbols(b)
    case _ => true
  }

  /** No operand of a NOT has the value m. Holds of every expression without NOT, and of every
      expression whose symbols are all y or n. */
  predicate DefiniteNots(e: Expr, env: Env) {
    match e
    case Not(a) => Eval(a, env) != MOD && DefiniteNots(a, env)
    case And(a, b) => DefiniteNots(a, env) && DefiniteNots(b, env)
    case Or(a, b) => DefiniteNots(a, env) && DefiniteNots(b, env)
    case _ => true
  }

  /** The value when every symbol that is m is read as y (up) or as n; comparisons stay as they are. */
  function Rounded(e: Expr, env: Env, up: bool): (v: Tristate)
    ensures v != MOD
  {
    match e
    case Symbol(s) => if env.tri(s) == MOD then if up then YES else NO else env.tri(s)
    case Not(a) => Not3(Rounded(a, env, up))
    case And(a, b) => And3(Rounded(a, env, up), Rounded(b, env, up))
    case Or(a, b) => Or3(Rounded(a, env, up), Rounded(b, env, up))
    case _ => Eval(e, env)
  }

  function RoundedOpt(e: Option<Expr>, env: Env, up: bool): Tristate {
    if e.None? then YES else Rounded(e.value, env, up)
  }

  /** What the comparison computes on every assignment: the relation to y of the value rounded down, the
      relation to n of the value rounded up. */
  lemma {:induction false} TransCompareRounded(e: Expr, rel: Relation, s: Sym, env: Env)
    requires s == SymYes || s == SymNo
    requires WellTyped(env) && TristateSymbols(e)
    ensures Eval(TransCompare(e, rel, s), env) ==
      if Holds(rel, Rounded(e, env, s == SymNo), env.tri(s)) then YES else NO
  {
    assert TypedAt(env, SymYes) && TypedAt(env, SymNo);
    match e
    case Symbol(t) => assert TypedAt(env, t);
    case Not(a) => TransCompareRounded(a, rel.Flip(), s, env);
    case And(a, b) => TransCompareRounded(a, Is, s, env); TransCompareRounded(b, Is, s, env);
    case Or(a, b) => TransCompareRounded(a, Is, s, env); TransCompareRounded(b, Is, s, env);
    case _ =>
  }

  /** So it is right exactly when rounding does not change whether the expression has the value asked for. */
  lemma TransCompareExact(e: Expr, rel: Relation, s: Sym, env: Env)
    requires s == SymYes || s == SymNo
    requires WellTyped(env) && TristateSymbols(e)
    ensures Eval(TransCompare(e, rel, s), env) == (if Holds(rel, Eval(e, env), env.tri(s)) then YES else NO)
      <==> (Rounded(e, env, s == SymNo) == env.tri(s) <==> Eval(e, env) == env.tri(s))
  {
    TransCompareRounded(e, rel, s, env);
  }

  /** Rounding is harmless if no negated part is m. */
  lemma {:induction false} RoundedDefinite(e: Expr, env: Env)
    requires DefiniteNots(e, env)
    ensures Rounded(e, env, true) == NO <==> Eval(e, env) == NO
    ensures Rounded(e, env, false) == YES <==> Eval(e, env) == YES
  {
    match e
    case Not(a) => RoundedDefinite(a, env);
    case And(a, b) => RoundedDefinite(a, env); RoundedDefinite(b, env);
    case Or(a, b) => RoundedDefinite(a, env); RoundedDefinite(b, env);
    case _ =>
  }

  lemma TransCompareValue(e: Expr, rel: Relation, s: Sym, env: Env)
    requires s == SymYes || s == SymNo
    requires WellTyped(env) && TristateSymbols(e) && DefiniteNots(e, env)
    ensures Eval(TransCompare(e, rel, s), env) == if Holds(rel, Eval(e, env), env.tri(s)) then YES else NO
  {
    assert TypedAt(env, s);
    RoundedDefinite(e, env);
    TransCompareRounded(e, rel, s, env);
  }

  /** The E_NOT case is right exactly when the negated expression is not m: it turns "!a = y" into
      "a != y", which an a of m satisfies although !a is m. */
  lemma TransCompareOfNot(a: Expr, rel: Relation, s: Sym, env: Env)
    requires s == SymYes || s == SymNo
    requires WellTyped(env) && TristateSymbols(a) && DefiniteNots(a, env)
    ensures Eval(TransCompare(Not(a), rel, s), env) ==
              (if Holds(rel, Eval(Not(a), env), env.tri(s)) then YES else NO)
            <==> Eval(a, env) != MOD
  {
    TransCompareValue(a, rel.Flip(), s, env);
    assert TypedAt(env, s);
  }

  /** A symbol or comparison, or negations of one. */
  predicate Unjoined(e: Expr) {
    match e
    case Not(a) => Unjoined(a)
    case And(_, _) => false
    case Or(_, _) => false
    case _ => true
  }

  function Nots(e: Expr): nat { if e.Not? then 1 + Nots(e.e) else 0 }

  /** Comparing these with m is right without a NOT, and with any even number of them; each one turns the relation round
      although "!a = m" is "a = m". A junction is left as it is. */
  lemma {:induction false} TransCompareMod(e: Expr, rel: Relation, env: Env)
    requires WellTyped(env) && TristateSymbols(e) && Unjoined(e)
    ensures Eval(TransCompare(e, rel, SymMod), env) == (if Holds(rel, Eval(e, env), MOD) then YES else NO) <==> Nots(e) % 2 == 0
    ensures Eval(TransCompare(e, rel, SymMod), env) != MOD
  {
    assert TypedAt(env, SymYes) && TypedAt(env, SymNo) && TypedAt(env, SymMod);
    match e
    case Symbol(t) => assert TypedAt(env, t);
    case Not(a) => TransCompareMod(a, rel.Flip(), env);
    case _ =>
  }

  // ----- expr_trans_bool -----

  function TransBool(e: Expr): Expr {
    match e
    case And(a, b) => And(TransBool(a), TransBool(b))
    case Or(a, b) => Or(TransBool(a), TransBool(b))
    case Not(a) => Not(TransBool(a))
    case Unequal(s, t) => if s.Type() == STristate && t == SymNo then Symbol(s) else e
    case _ => e
  }

  /** On normal forms, replacing FOO!=n by FOO keeps whether the value is n, and never raises it. */
  lemma {:induction false} TransBoolVisible(e: Expr, env: Env)
    requires WellTyped(env) && Normal(e)
    ensures Eval(TransBool(e), env) == NO <==> Eval(e, env) == NO
    ensures Eval(TransBool(e), env) <= Eval(e, env)
  {
    match e
    case And(a, b) => TransBoolVisible(a, env); TransBoolVisible(b, env);
    case Or(a, b) => TransBoolVisible(a, env); TransBoolVisible(b, env);
    case Unequal(s, t) => assert TypedAt(env, s) && TypedAt(env, t);
    case _ =>
  }

  /** Without expr_transform first it would not: !(FOO!=n) is n but becomes !FOO, which is m for FOO=m. */
  lemma TransBoolNeedsNormal(foo: Sym, env: Env)
    requires WellTyped(env) && foo.Type() == STristate && env.tri(foo) == MOD
    ensures var e := Not(Unequal(foo, SymNo));
      Eval(e, env) == NO && Eval(TransBool(e), env) == MOD
  {
    assert TypedAt(env, foo) && TypedAt(env, SymNo);
  }

  // ----- expr_depends_symbol -----

  predicate ContainsSymbol(dep: Expr, s: Sym) {
    match dep
    case And(a, b) => ContainsSymbol(a, s) || ContainsSymbol(b, s)
    case Or(a, b) => ContainsSymbol(a, s) || ContainsSymbol(b, s)
    case Symbol(t) => t == s
    case Equal(t, u) => t == s || u == s
    case Unequal(t, u) => t == s || u == s
    case Not(a) => ContainsSymbol(a, s)
  }

  predicate DependsSymbol(dep: Expr, s: Sym) {
    match dep
    case And(a, b) => DependsSymbol(a, s) || DependsSymbol(b, s)
    case Symbol(t) => t == s
    case Equal(t, u) => t == s && (u == SymYes || u == SymMod)
    case Unequal(t, u) => t == s && u == SymNo
    case _ => false
  }

  /** A dependency recognised as depending on a symbol is n whenever the symbol is n, also when every m in
      it is read as y. */
  lemma {:induction false} DependsSymbolBlocks(dep: Expr, s: Sym, env: Env)
    requires WellTyped(env) && TristateSymbols(Symbol(s))
    requires DependsSymbol(dep, s) && env.tri(s) == NO
    ensures Eval(dep, env) == NO && Rounded(dep, env, true) == NO
  {
    assert TypedAt(env, s) && TypedAt(env, SymYes) && TypedAt(env, SymMod) && TypedAt(env, SymNo);
    if dep.And? {
      if DependsSymbol(dep.left, s) {
        DependsSymbolBlocks(dep.left, s, env);
      } else {
        DependsSymbolBlocks(dep.right, s, env);
      }
    }
  }
}
