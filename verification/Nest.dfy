/** The decision of menu_finalize to nest an entry below the one before it. */
module ExprNesting {
  import opened Options
  import opened Tristates
  import opened Exprs
  import opened EliminateYn
  import opened ExprEquality
  import opened ExprTransform
  import opened ExprCompare
  import opened ExprJoin
  import opened ExprExtract
  import opened ExprSlots
  import opened ExprDups
  import opened ExprDupsExact

  // ----- nesting menu entries -----

  /** The preparation both conditions go through: "e != n", transformed and simplified. */
  function PreparedOf(e: Option<Expr>): Expr { EliminateDupsOf(Transform(TransCompareOpt(e, IsNot, SymNo))) }

  method Prepared(e: Option<Expr>) returns (r: Expr)
    ensures r == PreparedOf(e)
    ensures Sharpens(Transform(TransCompareOpt(e, IsNot, SymNo)), r)
  {
    var s := new Simplifier(Transform(TransCompareOpt(e, IsNot, SymNo)));
    s.EliminateDups();
    r := s.root;
  }

  /** The prepared condition is y exactly when the condition, with every m read as y, is not n. */
  lemma PreparedValue(e: Option<Expr>, r: Expr, env: Env)
    requires Sharpens(Transform(TransCompareOpt(e, IsNot, SymNo)), r) && WellTyped(env)
    requires e.Some? ==> TristateSymbols(e.value)
    ensures Eval(r, env) == if RoundedOpt(e, env, true) != NO then YES else NO
  {
    var c := TransCompareOpt(e, IsNot, SymNo);
    assert TypedAt(env, SymNo);
    TransformValue(c, env);
    if e.Some? { TransCompareRounded(e.value, IsNot, SymNo, env); }
  }

  /** What nesting an entry with the condition dep below the entry of sym rests on: with every m read as y,
      dep is n whenever both sym and base, the condition of its prompt, are n. */
  ghost predicate Nested(sym: Sym, dep: Expr, base: Option<Expr>) {
    TristateSymbols(Symbol(sym)) && TristateSymbols(dep) && (base.Some? ==> TristateSymbols(base.value)) ==>
    forall env: Env :: WellTyped(env) && Rounded(dep, env, true) != NO ==>
      env.tri(sym) != NO || RoundedOpt(base, env, true) != NO
  }

  /** As long as no negated part of either condition is m, the same holds of the values themselves. */
  lemma NestedDefinite(sym: Sym, dep: Expr, base: Option<Expr>, env: Env)
    requires Nested(sym, dep, base) && WellTyped(env)
    requires TristateSymbols(Symbol(sym)) && TristateSymbols(dep) && (base.Some? ==> TristateSymbols(base.value))
    requires DefiniteNots(dep, env) && (base.Some? ==> DefiniteNots(base.value, env))
    ensures Eval(dep, env) != NO ==> env.tri(sym) != NO || EvalOpt(base, env) != NO
  {
    RoundedDefinite(dep, env);
    if base.Some? { RoundedDefinite(base.value, env); }
  }

  /** The test on the conditions. */
  function NestsOf(sym: Sym, dep: Expr, base: Option<Expr>): bool {
    ContainsSymbol(dep, sym) && (DependsSymbol(dep, sym) || Cancel(PreparedOf(Some(dep)), PreparedOf(base)).b == Symbol(SymYes))
  }

  /** The reason the test gives. */
  lemma NestsReason(sym: Sym, dep: Expr, base: Option<Expr>)
    requires NestsOf(sym, dep, base)
    ensures Nested(sym, dep, base)
  {
    hide PreparedOf, Transform, Cancel;
    if TristateSymbols(Symbol(sym)) && TristateSymbols(dep) && (base.Some? ==> TristateSymbols(base.value)) {
      forall env: Env | WellTyped(env) && Rounded(dep, env, true) != NO
        ensures env.tri(sym) != NO || RoundedOpt(base, env, true) != NO
      {
        if DependsSymbol(dep, sym) {
          if env.tri(sym) == NO { DependsSymbolBlocks(dep, sym, env); }
        } else {
          CancelToYesImplies(PreparedOf(Some(dep)), PreparedOf(base), env);
          PreparedAt(Some(dep), env);
          PreparedAt(base, env);
        }
      }
    }
  }

  lemma PreparedAt(e: Option<Expr>, env: Env)
    requires WellTyped(env) && (e.Some? ==> TristateSymbols(e.value))
    ensures Eval(PreparedOf(e), env) == if RoundedOpt(e, env, true) != NO then YES else NO
  {
    hide EliminateDupsOf;
    EliminateDupsSharpens(Transform(TransCompareOpt(e, IsNot, SymNo)));
    PreparedValue(e, PreparedOf(e), env);
  }

  /** Whether menu_finalize nests the next entry, with condition dep, below the entry of sym, whose prompt
      has the condition base. An entry that mentions sym is nested if it depends on sym outright, or if
      its being visible cancels against the prompt's being visible. */
  method Nests(sym: Sym, dep: Expr, base: Option<Expr>) returns (nest: bool)
    ensures nest == NestsOf(sym, dep, base)
    ensures nest ==> Nested(sym, dep, base)
  {
    if !ContainsSymbol(dep, sym) {
      return false;
    }
    if DependsSymbol(dep, sym) {
      if TristateSymbols(Symbol(sym)) {
        forall env: Env | WellTyped(env) && Rounded(dep, env, true) != NO ensures env.tri(sym) != NO {
          if env.tri(sym) == NO { DependsSymbolBlocks(dep, sym, env); }
        }
      }
      return true;
    }
    var basedep := Prepared(base);
    var d := Prepared(Some(dep));
    var r := Cancel(d, basedep);
    nest := IsYes(Some(r.b));
    if nest && TristateSymbols(dep) && (base.Some? ==> TristateSymbols(base.value)) {
      forall env: Env | WellTyped(env)
        ensures Rounded(dep, env, true) != NO ==> RoundedOpt(base, env, true) != NO
      {
        CancelToYesImplies(d, basedep, env);
        PreparedValue(Some(dep), d, env);
        PreparedValue(base, basedep, env);
      }
    }
  }

  // ----- a nesting that no value of the prompt's condition supports -----

  lemma MixedSlots(x: Expr, y: Expr, q: Path)
    requires !x.Type().Junction() && y.Or? && InSkel(TAnd, And(x, y), q)
    ensures q == [] || q == [L] || q == [R]
    ensures At(And(x, y), q) == if q == [] then And(x, y) else if q == [L] then x else y
  {
    var e := And(x, y);
    if q != [] {
      assert InSkel(TAnd, Child(e, q[0]), q[1..]);
      LeafIsNoInner(TAnd, Child(e, q[0]), q[1..]);
      assert q == [q[0]] + q[1..];
    }
  }

  /** "x && (y || z)" when no operand equals, joins or contradicts another. */
  lemma MixedFree(x: Expr, y: Expr)
    requires !x.Type().Junction() && y.Or?
    requires JoinFree(y) && ContradictionFree(y) && Join(TAnd, x, y).None? && Join(TAnd, y, x).None?
    requires !Contradicts(TAnd, y, x) && !Contradicts(TAnd, y, And(x, y))
    ensures JoinFree(And(x, y)) && ContradictionFree(And(x, y))
  {
    var e := And(x, y);
    assert JoinFree(x);
    hide Join, Contradicts, InSkel;
    forall q: Path | InSkel(TAnd, e, q)
      ensures q == [] || q == [L] || q == [R]
      ensures At(e, q) == if q == [] then e else if q == [L] then x else y
    {
      MixedSlots(x, y, q);
    }
    assert JoinFreePairs(TAnd, e, [], []);
    assert ContradictionFreePairs(TAnd, e, [], []);
  }

  /** "A = n && (S != n || X != n)" has nothing to merge. */
  lemma PreparedIsFixed(a: Sym, s: Sym, x: Sym)
    requires a != s && a != x && s != x
    requires a.Type() == STristate && s.Type() == STristate && x.Type() == STristate
    ensures var e := And(Equal(a, SymNo), Or(Unequal(s, SymNo), Unequal(x, SymNo)));
      EliminateDupsOf(e) == e
  {
    var c, u, v := Equal(a, SymNo), Unequal(s, SymNo), Unequal(x, SymNo);
    var o := Or(u, v);
    assert !ExprEq(u, v) && !ExprEq(v, u);
    TwoFree(TOr, u, v);
    assert Join(TAnd, c, o).None? && Join(TAnd, o, c).None?;
    NothingInCommon(a, s, x);
    hide JoinFree, ContradictionFree, Contradicts, Join, EliminateDupsOf;
    MixedFree(c, o);
    EliminateDupsFixes(And(c, o));
  }

  lemma NothingInCommon(a: Sym, s: Sym, x: Sym)
    requires a != s && a != x && s.Type() == STristate && x.Type() == STristate
    ensures var c, o := Equal(a, SymNo), Or(Unequal(s, SymNo), Unequal(x, SymNo));
      !Contradicts(TAnd, o, c) && !Contradicts(TAnd, o, And(c, o))
  {
    var c, o := Equal(a, SymNo), Or(Unequal(s, SymNo), Unequal(x, SymNo));
    var f, b := Equal(s, SymNo), Equal(x, SymNo);
    assert Transform(Unequal(s, SymNo)) == Unequal(s, SymNo) && Transform(Unequal(x, SymNo)) == Unequal(x, SymNo);
    assert Transform(o) == o;
    assert Transform(f) == f && Transform(b) == b;
    assert Transform(Not(Unequal(s, SymNo))) == f && Transform(Not(Unequal(x, SymNo))) == b;
    assert Transform(Not(o)) == And(f, b);
    assert !ExprEq(f, c) && !ExprEq(b, c) && !ExprEq(f, o) && !ExprEq(b, o);
    hide ExprEq;
    ExtractNone(f, b, c, o);
  }

  lemma ExtractNone(f: Expr, b: Expr, c: Expr, o: Expr)
    requires !f.And? && !b.And? && !c.And? && !o.And?
    requires !ExprEq(f, c) && !ExprEq(b, c) && !ExprEq(f, o) && !ExprEq(b, o)
    ensures Extract(TAnd, And(f, b), c).a == And(f, b)
    ensures Extract(TAnd, And(f, b), And(c, o)).a == And(f, b)
  {
    hide ExtractRight, ExprEq;
    OneOfNone(f, c, o);
    OneOfNone(b, c, o);
    assert ExtractRec(TAnd, None, And(f, b), c) == Factored(None, And(f, b), c);
    assert ExtractRec(TAnd, None, And(f, b), And(c, o)) == Factored(None, And(f, b), And(c, o));
  }

  lemma OneOfNone(f: Expr, c: Expr, o: Expr)
    requires !f.And? && !c.And? && !o.And? && !ExprEq(f, c) && !ExprEq(f, o)
    ensures ExtractRight(TAnd, None, f, c) == Factored(None, f, c)
    ensures ExtractRight(TAnd, None, f, And(c, o)) == Factored(None, f, And(c, o))
  {
    hide ExprEq;
    assert ExtractRight(TAnd, None, f, c) == Factored(None, f, c);
    assert ExtractRight(TAnd, None, f, o) == Factored(None, f, o);
  }

  /** The two prepared conditions of the example below. */
  lemma PreparedPair(a: Sym, s: Sym, x: Sym)
    requires a != s && a != x && s != x
    requires a.Type() == STristate && s.Type() == STristate && x.Type() == STristate
    ensures PreparedOf(Some(And(Not(Symbol(a)), Or(Symbol(s), Symbol(x))))) ==
      And(Equal(a, SymNo), Or(Unequal(s, SymNo), Unequal(x, SymNo)))
    ensures PreparedOf(Some(Equal(a, SymNo))) == Equal(a, SymNo)
  {
    var c, f, b := Equal(a, SymNo), Equal(s, SymNo), Equal(x, SymNo);
    var u, v := Unequal(s, SymNo), Unequal(x, SymNo);
    assert TransCompare(Equal(a, SymNo), IsNot, SymNo) == c && Transform(c) == c;
    DupsCases(c);
    var dep := And(Not(Symbol(a)), Or(Symbol(s), Symbol(x)));
    assert TransCompare(Not(Symbol(a)), Is, SymNo) == Unequal(a, SymNo);
    assert TransCompare(Or(Symbol(s), Symbol(x)), Is, SymNo) == And(f, b);
    assert TransCompare(dep, IsNot, SymNo) == Not(Or(Unequal(a, SymNo), And(f, b)));
    assert Transform(f) == f && Transform(b) == b && Transform(u) == u && Transform(v) == v;
    assert Transform(Not(f)) == u && Transform(Not(b)) == v && Transform(Not(Unequal(a, SymNo))) == c;
    assert Transform(And(f, b)) == And(f, b) && Transform(Negations(TOr, f, b)) == Or(u, v);
    assert Transform(Or(Unequal(a, SymNo), And(f, b))) == Or(Unequal(a, SymNo), And(f, b));
    assert Transform(Not(And(f, b))) == Or(u, v);
    assert Transform(Negations(TAnd, Unequal(a, SymNo), And(f, b))) == And(c, Or(u, v));
    PreparedIsFixed(a, s, x);
  }

  /** Read as they are, an m does matter: an entry with "depends on !A && (S || X)" is nested below S with
      the prompt condition "A = n"; but with A=m and X=y it is m while S and its prompt are n. */
  lemma NestedThoughInvisible(a: Sym, s: Sym, x: Sym, env: Env)
    requires a != s && a != x && s != x && WellTyped(env)
    requires a.Type() == STristate && s.Type() == STristate && x.Type() == STristate
    requires env.tri(a) == MOD && env.tri(s) == NO && env.tri(x) == YES
    ensures var dep, base := And(Not(Symbol(a)), Or(Symbol(s), Symbol(x))), Some(Equal(a, SymNo));
      && NestsOf(s, dep, base)
      && Eval(dep, env) == MOD && env.tri(s) == NO && EvalOpt(base, env) == NO
      && Eval(Symbol(a), env) == MOD && !DefiniteNots(dep, env)
  {
    assert TypedAt(env, a) && TypedAt(env, SymNo);
    var o := Or(Unequal(s, SymNo), Unequal(x, SymNo));
    var dep := And(Not(Symbol(a)), Or(Symbol(s), Symbol(x)));
    assert Eval(Symbol(a), env) == MOD && Eval(Symbol(s), env) == NO && Eval(Symbol(x), env) == YES;
    assert Eval(Or(Symbol(s), Symbol(x)), env) == YES && Eval(Not(Symbol(a)), env) == MOD;
    assert ContainsSymbol(Or(Symbol(s), Symbol(x)), s);
    assert DefiniteNots(Not(Symbol(a)), env) == false;
    hide PreparedOf;
    PreparedPair(a, s, x);
    CancelToYes(Equal(a, SymNo), o);
  }

  /** Cancelling "c && o" against c leaves y of the second. */
  lemma CancelToYes(c: Expr, o: Expr)
    requires c.Equal? && o.Or?
    ensures Cancel(And(c, o), c).b == Symbol(SymYes)
  {
    var y := Symbol(SymYes);
    assert ExprEq(c, c);
    assert CancelRec(TAnd, c, c) == Cancelled(y, y, 1);
    assert !ExprEq(o, y);
    assert CancelRec(TAnd, o, y) == Cancelled(o, y, 0);
    assert CancelRec(TAnd, And(c, o), c) == Cancelled(And(y, o), y, 1);
    assert CancelPasses(And(c, o), c) == Cancelled(And(y, o), y, 1);
  }
}
