/** When menu_finalize does nest: the conditions that make an entry a child of the one before it. */
module ExprNestingExact {
  import opened Options
  import opened Tristates
  import opened Exprs
  import opened EliminateYn
  import opened ExprEquality
  import opened ExprEqualityExact
  import opened ExprTransform
  import opened ExprCompare
  import opened ExprSlots
  import opened ExprDups
  import opened ExprNesting
  import opened SymbolSpec

  /** The conditions that say outright that s is not n. */
  predicate Outright(e: Expr, s: Sym) {
    e == Symbol(s) || e == Equal(s, SymYes) || e == Equal(s, SymMod) || e == Unequal(s, SymNo)
  }

  ghost predicate OutrightAt(dep: Expr, s: Sym, p: Path) { InSkel(TAnd, dep, p) && Outright(At(dep, p), s) }

  lemma OutrightBelow(dep: Expr, s: Sym, side: Side, p: Path)
    requires dep.And?
    ensures OutrightAt(Child(dep, side), s, p) <==> OutrightAt(dep, s, [side] + p)
  {
    assert ([side] + p)[1..] == p;
  }

  lemma OutrightOne(dep: Expr, s: Sym)
    requires !dep.And?
    ensures (exists p :: OutrightAt(dep, s, p)) <==> Outright(dep, s)
  {
    assert OutrightAt(dep, s, []) <==> Outright(dep, s);
  }

  lemma OutrightBoth(dep: Expr, s: Sym)
    requires dep.And?
    ensures (exists p :: OutrightAt(dep, s, p)) <==>
      (exists p :: OutrightAt(dep.left, s, p)) || exists p :: OutrightAt(dep.right, s, p)
  {
    hide OutrightAt;
    if p :| OutrightAt(dep, s, p) {
      TopNotOutright(dep, s);
      OutrightBelow(dep, s, p[0], p[1..]);
      assert [p[0]] + p[1..] == p;
    }
    if p :| OutrightAt(dep.left, s, p) { OutrightBelow(dep, s, L, p); }
    if p :| OutrightAt(dep.right, s, p) { OutrightBelow(dep, s, R, p); }
  }

  lemma TopNotOutright(dep: Expr, s: Sym)
    requires dep.And?
    ensures !OutrightAt(dep, s, [])
  {
  }

  /** expr_depends_symbol finds exactly the conditions that have one of these among the operands of their AND. */
  lemma {:induction false} DependsExact(dep: Expr, s: Sym)
    ensures DependsSymbol(dep, s) <==> exists p :: OutrightAt(dep, s, p)
  {
    hide OutrightAt;
    if dep.And? {
      DependsExact(dep.left, s);
      DependsExact(dep.right, s);
      OutrightBoth(dep, s);
    } else {
      OutrightOne(dep, s);
    }
  }

  /** expr_contains_symbol finds exactly the symbols that occur. */
  lemma {:induction false} ContainsExact(dep: Expr, s: Sym)
    ensures ContainsSymbol(dep, s) <==> s in ExprSyms(dep)
  {
    match dep
    case And(a, b) => ContainsExact(a, s); ContainsExact(b, s);
    case Or(a, b) => ContainsExact(a, s); ContainsExact(b, s);
    case Not(a) => ContainsExact(a, s);
    case _ =>
  }

  lemma {:induction false} DependsContains(dep: Expr, s: Sym)
    requires DependsSymbol(dep, s)
    ensures ContainsSymbol(dep, s)
  {
    if dep.And? {
      if DependsSymbol(dep.left, s) { DependsContains(dep.left, s); } else { DependsContains(dep.right, s); }
    }
  }

  /** So an entry with such a condition is nested below the entry of s, whatever the prompt of that needs. */
  lemma OutrightNests(s: Sym, dep: Expr, base: Option<Expr>, p: Path)
    requires InSkel(TAnd, dep, p) && Outright(At(dep, p), s)
    ensures NestsOf(s, dep, base)
  {
    hide PreparedOf, Cancel;
    assert OutrightAt(dep, s, p);
    DependsExact(dep, s);
    DependsContains(dep, s);
  }

  /** Below an entry whose prompt needs nothing every entry is nested that mentions its symbol. */
  lemma UnconditionalNests(s: Sym, dep: Expr)
    ensures NestsOf(s, dep, None) <==> s in ExprSyms(dep)
  {
    ContainsExact(dep, s);
    hide EliminateDupsOf, Transform;
    assert PreparedOf(None) == Symbol(SymYes) by { PreparedNone(); }
    CancelWithYes(PreparedOf(Some(dep)));
  }

  lemma PreparedNone()
    ensures PreparedOf(None) == Symbol(SymYes)
  {
    TransformOfNothing();
    EliminateDupsOfAtom(Symbol(SymYes));
  }

  lemma TransformOfNothing()
    ensures Transform(TransCompareOpt(None, IsNot, SymNo)) == Symbol(SymYes)
  {
    assert TransCompareOpt(None, IsNot, SymNo) == Not(Symbol(SymNo));
  }

  lemma EliminateDupsOfAtom(e: Expr)
    requires !e.Type().Junction()
    ensures EliminateDupsOf(e) == e
  {
    DupsCases(e);
  }

  lemma CancelWithYes(a: Expr)
    ensures Cancel(a, Symbol(SymYes)).b == Symbol(SymYes)
  {
    if a.Type().Junction() { YesStays(a.Type(), a); }
  }

  lemma {:induction false} YesStays(t: ExprType, a: Expr)
    requires t.Junction()
    ensures CancelRec(t, a, Symbol(SymYes)).b == Symbol(SymYes)
    decreases a.Size()
  {
    hide ExprEq;
    if a.Type() == t {
      YesStays(t, a.left);
      YesStays(t, a.right);
    } else {
      YesOnlyYes(a);
    }
  }

  lemma YesOnlyYes(a: Expr)
    ensures ExprEq(a, Symbol(SymYes)) ==> a == Symbol(SymYes)
  {
  }

  /** Cancelling against an AND of atoms leaves y of another condition exactly if all its operands are among those
      of the AND, as often, and none of them is n. */
  lemma CancelCovers(d: Expr, b: Expr)
    requires d.And? && AllAtomic(Operands(TAnd, d)) && AllAtomic(Operands(TAnd, b))
    ensures Cancel(d, b).b == Symbol(SymYes) <==>
      Symbol(SymNo) !in Operands(TAnd, b)
      && forall e :: !IsYn(e) ==> Occurs(e, Operands(TAnd, b)) <= Occurs(e, Operands(TAnd, d))
  {
    hide CancelRec, MatchAll, Yn, Operands, Occurs;
    var s, u := Operands(TAnd, d), Operands(TAnd, b);
    var r := CancelRec(TAnd, d, b);
    var left := Operands(TAnd, r.b);
    OnePass(d, b);
    CancelRecMatches(TAnd, d, b);
    MatchAllAtomic(TAnd, s, u);
    YnOfAtoms(TAnd, r.b, Symbol(SymYes));
    MatchAllLive(TAnd, s, u, Symbol(SymNo));
    OccursIn(Symbol(SymNo), u);
    OccursIn(Symbol(SymNo), left);
    assert Absorbed(TAnd, left) <==> Symbol(SymNo) in u;
    forall e | !IsYn(e) ensures e in left <==> Occurs(e, u) > Occurs(e, s) {
      MatchAllLive(TAnd, s, u, e);
      OccursIn(e, left);
    }
  }

  lemma OnePass(d: Expr, b: Expr)
    requires d.And? && AllAtomic(Operands(TAnd, b))
    ensures Cancel(d, b).b == Yn(CancelRec(TAnd, d, b).b)
  {
    hide CancelRec, Yn;
    assert b in Operands(TAnd, b) || b.And?;
    if !b.And? { AtomStays(d, b); }
  }

  lemma {:induction false} AtomStays(d: Expr, b: Expr)
    requires !b.Type().Junction()
    ensures !CancelRec(TAnd, d, b).b.Type().Junction()
    decreases d.Size()
  {
    hide ExprEq;
    if d.And? {
      AtomStays(d.left, b);
      AtomStays(d.right, CancelRec(TAnd, d.left, b).b);
    }
  }

  /** An entry that mentions s and whose prepared condition has all that the prompt of s needs is nested. */
  lemma CoveredNests(s: Sym, dep: Expr, base: Option<Expr>)
    requires s in ExprSyms(dep) && PreparedOf(Some(dep)).And?
    requires AllAtomic(Operands(TAnd, PreparedOf(Some(dep)))) && AllAtomic(Operands(TAnd, PreparedOf(base)))
    ensures NestsOf(s, dep, base) <==>
      DependsSymbol(dep, s)
      || (Symbol(SymNo) !in Operands(TAnd, PreparedOf(base))
          && forall e :: !IsYn(e) ==>
               Occurs(e, Operands(TAnd, PreparedOf(base))) <= Occurs(e, Operands(TAnd, PreparedOf(Some(dep)))))
  {
    hide PreparedOf, Cancel;
    ContainsExact(dep, s);
    CancelCovers(PreparedOf(Some(dep)), PreparedOf(base));
  }

  // ----- expr_trans_bool leaves nothing to replace -----

  /** Some tristate is compared with n, for being different. */
  predicate ComparesWithNo(e: Expr) {
    match e
    case And(a, b) => ComparesWithNo(a) || ComparesWithNo(b)
    case Or(a, b) => ComparesWithNo(a) || ComparesWithNo(b)
    case Not(a) => ComparesWithNo(a)
    case Unequal(s, t) => s.Type() == STristate && t == SymNo
    case _ => false
  }

  lemma {:induction false} TransBoolExact(e: Expr)
    ensures !ComparesWithNo(TransBool(e)) && (TransBool(e) == e <==> !ComparesWithNo(e))
  {
    match e
    case And(a, b) => TransBoolExact(a); TransBoolExact(b);
    case Or(a, b) => TransBoolExact(a); TransBoolExact(b);
    case Not(a) => TransBoolExact(a);
    case _ =>
  }
}
