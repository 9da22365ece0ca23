/** Where expr_eliminate_dups (scripts/config/expr.c) takes an m away: an exact account, step by step. */
module ExprDupsLoss {
  import opened Tristates
  import opened Exprs
  import opened EliminateYn
  import opened ExprEquality
  import opened ExprSlots
  import opened ExprDups
  import opened ExprDupsExact

  /** A contradicted operand is replaced in the junction of type t that is at base in the tree. */
  datatype Step = Step(tree: Expr, base: Path, t: ExprType)

  /** The junction is m and, read as the constant that absorbs it, leaves the tree no m. */
  predicate LosesM(s: Step, env: Env) {
    && s.t.Junction() && Valid(s.tree, s.base)
    && Eval(s.tree, env) == MOD && Eval(At(s.tree, s.base), env) == MOD
    && Eval(Put(s.tree, s.base, Symbol(Neutral(s.t.Dual()))), env) != MOD
  }

  predicate NoneLost(steps: seq<Step>, env: Env) { forall s :: s in steps ==> !LosesM(s, env) }

  /** The steps of the second pass on b, which stands at base in the tree w. */
  function Steps(w: Expr, base: Path, t: ExprType, b: Expr, p1: Path, p2: Path): seq<Step>
    requires Valid(w, base) && t.Junction() && b.Type() == t && InSkel(t, b, p1) && InSkel(t, b, p2)
    decreases b.Size(), Nodes(t, At(b, p1)), Nodes(t, At(b, p2)), 1
  {
    if At(b, p1).Type() == t then
      FirstFacts(t, b, p1, p2);
      var x := Dups2Of(t, b, p1 + [L], p2);
      Steps(w, base, t, b, p1 + [L], p2) + Steps(w, base, t, x.root, p1 + [R], p2)
    else if At(b, p2).Type() == t then
      SecondFacts(t, b, p1, p2);
      var x := Dups2Of(t, b, p1, p2 + [L]);
      var y := Dups2Of(t, x.root, p1, p2 + [R]);
      Steps(w, base, t, b, p1, p2 + [L]) + Steps(w, base, t, x.root, p1, p2 + [R]) + TestSteps(w, base, t, y.root, p1, p2)
    else if p1 != p2 then TestSteps(w, base, t, b, p1, p2)
    else []
  }

  function TestSteps(w: Expr, base: Path, t: ExprType, b: Expr, p1: Path, p2: Path): seq<Step>
    requires Valid(w, base) && t.Junction() && b.Type() == t && LeafSlot(t, b, p1) && InSkel(t, b, p2)
    decreases b.Size(), Nodes(t, At(b, p1)), Nodes(t, At(b, p2)), 0
  {
    var k := At(b, p1).Type();
    OperandFacts(t, b, p1);
    if !k.Junction() then []
    else
      TestFacts(t, b, p1, p2);
      Deeper(w, base, b, p1, b);
      var x := Put(b, p1, Dups2Of(k, At(b, p1), [], []).root);
      Steps(Put(w, base, b), base + p1, k, At(b, p1), [], []) +
        if Contradicts(t, At(x, p1), At(x, p2)) then [Step(Put(w, base, x), base, t)] else []
  }

  /** A slot of what stands at base is a slot of the whole. */
  lemma Deeper(w: Expr, base: Path, b: Expr, p: Path, z: Expr)
    requires Valid(w, base) && Valid(b, p)
    ensures var e := Put(w, base, b);
      && Valid(e, base + p) && At(e, base + p) == At(b, p)
      && Put(e, base + p, z) == Put(w, base, Put(b, p, z)) && Put(e, base + p, At(b, p)) == e
  {
    var e := Put(w, base, b);
    SlotOfSlot(e, base, p);
    PutTwice(w, base, b, Put(b, p, z));
    PutTwice(e, base + p, z, z);
  }

  /** The value of a tree depends on the value at a slot only, and is not m any more once that is settled. */
  lemma {:induction false} PutValue(w: Expr, base: Path, x: Expr, y: Expr, env: Env)
    requires Valid(w, base)
    ensures Eval(x, env) == Eval(y, env) ==> Eval(Put(w, base, x), env) == Eval(Put(w, base, y), env)
    ensures Eval(x, env) == MOD && Eval(Put(w, base, x), env) != MOD ==> Eval(Put(w, base, y), env) == Eval(Put(w, base, x), env)
    decreases |base|
  {
    if base != [] { PutValue(Child(w, base[0]), base[1..], x, y, env); }
  }

  /** A pass, seen from the whole tree, changes only an m. */
  lemma PassValue(w: Expr, base: Path, t: ExprType, b: Expr, r: Passed, env: Env)
    requires Valid(w, base) && t.Junction() && Pass(false, t, b, r.root, 0, r.count) && WellTyped(env)
    ensures Eval(Put(w, base, b), env) == MOD || Eval(Put(w, base, r.root), env) == Eval(Put(w, base, b), env)
  {
    hide WellTyped;
    PutValue(w, base, b, r.root, env);
  }

  lemma NoneLostBoth(a: seq<Step>, b: seq<Step>, env: Env)
    ensures NoneLost(a + b, env) <==> NoneLost(a, env) && NoneLost(b, env)
  {
    hide LosesM;
    assert forall s :: s in a + b <==> s in a || s in b;
  }

  /** The second pass keeps the value of the whole tree if and only if no step of it loses an m. */
  lemma {:induction false} StepsExact(w: Expr, base: Path, t: ExprType, b: Expr, p1: Path, p2: Path, env: Env)
    requires Valid(w, base) && t.Junction() && b.Type() == t && InSkel(t, b, p1) && InSkel(t, b, p2) && WellTyped(env)
    ensures Eval(Put(w, base, Dups2Of(t, b, p1, p2).root), env) == Eval(Put(w, base, b), env)
      <==> NoneLost(Steps(w, base, t, b, p1, p2), env)
    decreases b.Size(), Nodes(t, At(b, p1)), Nodes(t, At(b, p2)), 1
  {
    hide Dups2Of, Dups2TestOf, TestSteps, Pass, Contradicts, WellTyped, At, InSkel, Put, NoneLost, LeafSlot;
    if At(b, p1).Type() == t {
      FirstFacts(t, b, p1, p2);
      Dups2First(t, b, p1, p2);
      var x := Dups2Of(t, b, p1 + [L], p2);
      StepsExact(w, base, t, b, p1 + [L], p2, env);
      StepsExact(w, base, t, x.root, p1 + [R], p2, env);
      NoneLostBoth(Steps(w, base, t, b, p1 + [L], p2), Steps(w, base, t, x.root, p1 + [R], p2), env);
      PassValue(w, base, t, b, x, env);
      PassValue(w, base, t, x.root, Dups2Of(t, x.root, p1 + [R], p2), env);
    } else if At(b, p2).Type() == t {
      SecondFacts(t, b, p1, p2);
      Dups2Second(t, b, p1, p2);
      var x := Dups2Of(t, b, p1, p2 + [L]);
      var y := Dups2Of(t, x.root, p1, p2 + [R]);
      StepsExact(w, base, t, b, p1, p2 + [L], env);
      StepsExact(w, base, t, x.root, p1, p2 + [R], env);
      TestStepsExact(w, base, t, y.root, p1, p2, env);
      var s, u, v := Steps(w, base, t, b, p1, p2 + [L]), Steps(w, base, t, x.root, p1, p2 + [R]), TestSteps(w, base, t, y.root, p1, p2);
      NoneLostBoth(s, u, env);
      NoneLostBoth(s + u, v, env);
      PassValue(w, base, t, b, x, env);
      PassValue(w, base, t, x.root, y, env);
      PassValue(w, base, t, y.root, Dups2TestOf(t, y.root, p1, p2), env);
    } else {
      LeafBoth(t, b, p1, p2);
      Dups2Both(t, b, p1, p2);
      if p1 != p2 {
        TestStepsExact(w, base, t, b, p1, p2, env);
      } else {
        NothingLost(env);
      }
    }
  }

  lemma LeafBoth(t: ExprType, b: Expr, p1: Path, p2: Path)
    requires t.Junction() && InSkel(t, b, p1) && InSkel(t, b, p2) && At(b, p1).Type() != t && At(b, p2).Type() != t
    ensures LeafSlot(t, b, p1) && LeafSlot(t, b, p2)
  {
  }

  lemma NothingLost(env: Env)
    ensures NoneLost([], env)
  {
  }

  lemma {:induction false} TestStepsExact(w: Expr, base: Path, t: ExprType, b: Expr, p1: Path, p2: Path, env: Env)
    requires Valid(w, base) && t.Junction() && b.Type() == t && LeafSlot(t, b, p1) && InSkel(t, b, p2) && WellTyped(env)
    ensures Eval(Put(w, base, Dups2TestOf(t, b, p1, p2).root), env) == Eval(Put(w, base, b), env)
      <==> NoneLost(TestSteps(w, base, t, b, p1, p2), env)
    decreases b.Size(), Nodes(t, At(b, p1)), Nodes(t, At(b, p2)), 0
  {
    hide Dups2Of, Dups2TestOf, Steps, Pass, Contradicts, WellTyped, NoneLost, Put, At, Valid;
    OperandFacts(t, b, p1);
    Dups2TestCases(t, b, p1, p2);
    NothingLost(env);
    var k := At(b, p1).Type();
    if k.Junction() {
      TestFacts(t, b, p1, p2);
      var i := Dups2Of(k, At(b, p1), [], []);
      var x := Put(b, p1, i.root);
      Deeper(w, base, b, p1, i.root);
      StepsExact(Put(w, base, b), base + p1, k, At(b, p1), [], [], env);
      var steps := Steps(Put(w, base, b), base + p1, k, At(b, p1), [], []);
      if Contradicts(t, At(x, p1), At(x, p2)) {
        OperandDual(t, b, p1);
        ReplaceExact(w, base, t, x, p1, p2, env);
        NoneLostBoth(steps, [Step(Put(w, base, x), base, t)], env);
        PassValue(Put(w, base, b), base + p1, k, At(b, p1), i, env);
      } else {
        assert steps + [] == steps;
      }
    }
  }

  /** One replacement. */
  lemma ReplaceExact(w: Expr, base: Path, t: ExprType, x: Expr, p1: Path, p2: Path, env: Env)
    requires Valid(w, base) && t.Junction() && LeafSlot(t, x, p1) && InSkel(t, x, p2) && WellTyped(env)
    requires Contradicts(t, At(x, p1), At(x, p2))
    ensures var y, s := Put(x, p1, Symbol(Neutral(t.Dual()))), Step(Put(w, base, x), base, t);
      && (Eval(Put(w, base, y), env) == Eval(Put(w, base, x), env) <==> NoneLost([s], env))
      && (Eval(Put(w, base, x), env) == MOD || Eval(Put(w, base, y), env) == Eval(Put(w, base, x), env))
  {
    hide Contradicts, WellTyped, Put, NoneLost, LosesM, Eval;
    var c := Symbol(Neutral(t.Dual()));
    ContradictedValue(t, x, p1, p2, env);
    AbsorbedValue(t, x, p1, env);
    Decided(w, base, t, x, Put(x, p1, c), env);
  }

  lemma Decided(w: Expr, base: Path, t: ExprType, x: Expr, y: Expr, env: Env)
    requires Valid(w, base) && t.Junction() && Eval(y, env) == Eval(Symbol(Neutral(t.Dual())), env) != MOD
    requires Eval(x, env) == MOD || Eval(y, env) == Eval(x, env)
    ensures Eval(Put(w, base, y), env) == Eval(Put(w, base, x), env) <==> NoneLost([Step(Put(w, base, x), base, t)], env)
    ensures Eval(Put(w, base, x), env) == MOD || Eval(Put(w, base, y), env) == Eval(Put(w, base, x), env)
  {
    hide Eval, Put, Valid, NoneLost;
    StepLoses(w, base, t, x, env);
    PutValue(w, base, x, y, env);
    PutValue(w, base, y, Symbol(Neutral(t.Dual())), env);
  }

  lemma StepLoses(w: Expr, base: Path, t: ExprType, x: Expr, env: Env)
    requires Valid(w, base) && t.Junction()
    ensures NoneLost([Step(Put(w, base, x), base, t)], env) <==>
      !(Eval(Put(w, base, x), env) == MOD && Eval(x, env) == MOD && Eval(Put(w, base, Symbol(Neutral(t.Dual()))), env) != MOD)
  {
    hide Eval;
    var s := Step(Put(w, base, x), base, t);
    PutTwice(w, base, x, Symbol(Neutral(t.Dual())));
    assert s in [s];
    assert NoneLost([s], env) <==> !LosesM(s, env);
  }

  /** The constant decides the junction. */
  lemma AbsorbedValue(t: ExprType, x: Expr, p: Path, env: Env)
    requires WellTyped(env) && t.Junction() && LeafSlot(t, x, p)
    ensures var c := Symbol(Neutral(t.Dual())); Eval(Put(x, p, c), env) == Eval(c, env) != MOD
  {
    var c := Symbol(Neutral(t.Dual()));
    RestValue(t, x, p, c, env);
    assert TypedAt(env, Neutral(t.Dual()));
  }

  /** The steps of all rounds. */
  function AllSteps(e: Expr): seq<Step>
    decreases e.Size()
  {
    if !e.Type().Junction() then []
    else
      DupsCases(e);
      var x := Dups1Of(e.Type(), e, [], []);
      var y := Dups2Of(e.Type(), x.root, [], []);
      if x.count + y.count == 0 then []
      else
        RoundShrinks(e, x, y);
        Steps(x.root, [], e.Type(), x.root, [], []) + AllSteps(Yn(y.root))
  }

  /** expr_eliminate_dups changes the value at an assignment if and only if at one of its steps the whole
      formula is m, the junction is m, and the formula is not m with the junction read as its constant. */
  lemma {:induction false} EliminateDupsLoss(e: Expr, env: Env)
    requires WellTyped(env)
    ensures Eval(EliminateDupsOf(e), env) == Eval(e, env) <==> NoneLost(AllSteps(e), env)
    decreases e.Size()
  {
    hide EliminateDupsOf, Dups1Of, Dups2Of, Yn, WellTyped, Steps, Pass, NoneLost;
    DupsCases(e);
    NothingLost(env);
    if e.Type().Junction() {
      var x := Dups1Of(e.Type(), e, [], []);
      var y := Dups2Of(e.Type(), x.root, [], []);
      if x.count + y.count > 0 {
        RoundShrinks(e, x, y);
        Dups1Same(e, x, env);
        StepsExact(x.root, [], e.Type(), x.root, [], [], env);
        PassValue(x.root, [], e.Type(), x.root, y, env);
        YnValue(y.root, env);
        EliminateDupsLoss(Yn(y.root), env);
        SharpensAt(Yn(y.root), env);
        NoneLostBoth(Steps(x.root, [], e.Type(), x.root, [], []), AllSteps(Yn(y.root)), env);
      }
    }
  }

  lemma SharpensAt(e: Expr, env: Env)
    requires WellTyped(env)
    ensures Eval(e, env) == MOD || Eval(EliminateDupsOf(e), env) == Eval(e, env)
  {
    hide EliminateDupsOf, WellTyped;
    EliminateDupsSharpens(e);
  }

  /** A replacement among the operands of the formula itself always loses its m. */
  lemma TopLosesM(x: Expr, env: Env)
    requires WellTyped(env) && x.Type().Junction()
    ensures LosesM(Step(x, [], x.Type()), env) <==> Eval(x, env) == MOD
  {
    assert TypedAt(env, Neutral(x.Type().Dual()));
  }
}
