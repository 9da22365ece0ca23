/** What expr_eliminate_dups leaves alone, where it is exact, and an input at which it is not. */
module ExprDupsExact {
  import opened Options
  import opened Tristates
  import opened Exprs
  import opened EliminateYn
  import opened ExprEquality
  import opened ExprTransform
  import opened ExprCompare
  import opened ExprJoin
  import opened ExprExtract
  import opened ExprSlots
  import opened ExprDups

  // ----- where expr_eliminate_dups is exact -----

  /** No 'm' used as a value; comparing with 'm' is fine. */
  predicate NoBareMod(e: Expr) {
    match e
    case Symbol(s) => s != SymMod
    case Not(a) => NoBareMod(a)
    case And(a, b) => NoBareMod(a) && NoBareMod(b)
    case Or(a, b) => NoBareMod(a) && NoBareMod(b)
    case _ => true
  }

  /** Every symbol is y or n. */
  ghost predicate YnAssignment(env: Env) { forall s: Sym :: s != SymMod ==> env.tri(s) != MOD }

  lemma {:induction false} DefiniteValue(e: Expr, env: Env)
    requires NoBareMod(e) && YnAssignment(env)
    ensures Eval(e, env) != MOD
  {
    match e
    case Not(a) => DefiniteValue(a, env);
    case And(a, b) => DefiniteValue(a, env); DefiniteValue(b, env);
    case Or(a, b) => DefiniteValue(a, env); DefiniteValue(b, env);
    case _ =>
  }

  /** On y/n assignments the result of expr_eliminate_dups has the value of its input. */
  lemma EliminateDupsOnYn(e: Expr, r: Expr, env: Env)
    requires Sharpens(e, r) && WellTyped(env) && YnAssignment(env) && NoBareMod(e)
    ensures Eval(r, env) == Eval(e, env)
  {
    DefiniteValue(e, env);
  }

  // ----- when the pass changes nothing, and when it is exact -----

  lemma {:induction false} Dups1Idle(t: ExprType, b: Expr, p1: Path, p2: Path)
    requires t.Junction() && b.Type() == t && InSkel(t, b, p1) && InSkel(t, b, p2) && JoinFreePairs(t, b, p1, p2)
    ensures Dups1Of(t, b, p1, p2) == Passed(b, 0)
    decreases b.Size(), Nodes(t, At(b, p1)), Nodes(t, At(b, p2))
  {
    hide Dups1Of, Dups1PairOf, OperandPassed, JoinFreePairs, Pass;
    if At(b, p1).Type() == t {
      SlotsBelow(t, b, p1);
      Dups1First(t, b, p1, p2);
      FewerPairs(t, b, p1, p2, p1 + [L], p2);
      FewerPairs(t, b, p1, p2, p1 + [R], p2);
      Dups1Idle(t, b, p1 + [L], p2);
      Dups1Idle(t, b, p1 + [R], p2);
    } else if At(b, p2).Type() == t {
      SlotsBelow(t, b, p2);
      Dups1Second(t, b, p1, p2);
      FewerPairs(t, b, p1, p2, p1, p2 + [L]);
      FewerPairs(t, b, p1, p2, p1, p2 + [R]);
      Dups1Idle(t, b, p1, p2 + [L]);
      Dups1Idle(t, b, p1, p2 + [R]);
    } else {
      Dups1Both(t, b, p1, p2);
      OperandCases(t, b, p1);
      OperandFacts(t, b, p1);
      PairFree(t, b, p1, p2);
      PutTwice(b, p1, b, b);
      var k := At(b, p1).Type();
      if k.Junction() && p1 != p2 { Dups1Idle(k, At(b, p1), [], []); }
    }
  }

  lemma FewerPairs(t: ExprType, b: Expr, p1: Path, p2: Path, q1: Path, q2: Path)
    requires t.Junction() && JoinFreePairs(t, b, p1, p2) && p1 <= q1 && p2 <= q2
    ensures JoinFreePairs(t, b, q1, q2)
  {
  }

  lemma PairFree(t: ExprType, b: Expr, p1: Path, p2: Path)
    requires t.Junction() && JoinFreePairs(t, b, p1, p2) && LeafSlot(t, b, p1) && LeafSlot(t, b, p2) && p1 != []
    ensures p1 != p2 ==> Join(t, At(b, p1), At(b, p2)).None? && JoinFree(At(b, p1))
    ensures var x := At(b, p1); JoinFree(x) && x.Type().Junction() ==> JoinFreePairs(x.Type(), x, [], [])
  {
  }

  lemma {:induction false} Dups2Idle(t: ExprType, b: Expr, p1: Path, p2: Path)
    requires t.Junction() && b.Type() == t && InSkel(t, b, p1) && InSkel(t, b, p2)
    requires ContradictionFreePairs(t, b, p1, p2)
    ensures Dups2Of(t, b, p1, p2) == Passed(b, 0)
    decreases b.Size(), Nodes(t, At(b, p1)), Nodes(t, At(b, p2)), 1
  {
    hide Dups2Of, Dups2TestOf, ContradictionFreePairs, Pass, Contradicts;
    if At(b, p1).Type() == t {
      SlotsBelow(t, b, p1);
      Dups2First(t, b, p1, p2);
      FewerTests(t, b, p1, p2, p1 + [L], p2);
      FewerTests(t, b, p1, p2, p1 + [R], p2);
      Dups2Idle(t, b, p1 + [L], p2);
      Dups2Idle(t, b, p1 + [R], p2);
    } else {
      OperandFacts(t, b, p1);
      if At(b, p2).Type() == t {
        SlotsBelow(t, b, p2);
        Dups2Second(t, b, p1, p2);
        FewerTests(t, b, p1, p2, p1, p2 + [L]);
        FewerTests(t, b, p1, p2, p1, p2 + [R]);
        Dups2Idle(t, b, p1, p2 + [L]);
        Dups2Idle(t, b, p1, p2 + [R]);
      } else {
        Dups2Both(t, b, p1, p2);
      }
      if p1 != p2 { TestIdle(t, b, p1, p2); }
    }
  }

  lemma {:induction false} TestIdle(t: ExprType, b: Expr, p1: Path, p2: Path)
    requires t.Junction() && b.Type() == t && LeafSlot(t, b, p1) && InSkel(t, b, p2) && p1 != p2
    requires ContradictionFreePairs(t, b, p1, p2)
    ensures Dups2TestOf(t, b, p1, p2) == Passed(b, 0)
    decreases b.Size(), Nodes(t, At(b, p1)), Nodes(t, At(b, p2)), 0
  {
    hide Dups2Of, Dups2TestOf, ContradictionFreePairs, Pass, Contradicts;
    OperandFacts(t, b, p1);
    Dups2TestCases(t, b, p1, p2);
    TestFree(t, b, p1, p2);
    var k := At(b, p1).Type();
    if k.Junction() {
      Dups2Idle(k, At(b, p1), [], []);
      PutTwice(b, p1, b, b);
    }
  }

  lemma FewerTests(t: ExprType, b: Expr, p1: Path, p2: Path, q1: Path, q2: Path)
    requires t.Junction() && ContradictionFreePairs(t, b, p1, p2) && p1 <= q1 && p2 <= q2
    ensures ContradictionFreePairs(t, b, q1, q2)
  {
  }

  lemma TestFree(t: ExprType, b: Expr, p1: Path, p2: Path)
    requires t.Junction() && ContradictionFreePairs(t, b, p1, p2) && LeafSlot(t, b, p1) && InSkel(t, b, p2)
    requires p1 != [] && p1 != p2
    ensures var x := At(b, p1); x.Type().Junction() ==>
      !Contradicts(t, x, At(b, p2)) && ContradictionFreePairs(x.Type(), x, [], [])
  {
    hide Contradicts, At, InSkel, ContradictionFree;
    assert At(b, p1).Type().Junction() ==> !Contradicts(t, At(b, p1), At(b, p2)) && ContradictionFree(At(b, p1));
    FreePairs(At(b, p1));
  }

  lemma FreePairs(x: Expr)
    ensures x.Type().Junction() && ContradictionFree(x) ==> ContradictionFreePairs(x.Type(), x, [], [])
  {
  }

  lemma {:induction false} Dups1Zero(t: ExprType, b: Expr, p1: Path, p2: Path)
    requires t.Junction() && b.Type() == t && InSkel(t, b, p1) && InSkel(t, b, p2)
    requires Dups1Of(t, b, p1, p2).count == 0
    ensures JoinFreePairs(t, b, p1, p2) && Dups1Of(t, b, p1, p2).root == b
    decreases b.Size(), Nodes(t, At(b, p1)), Nodes(t, At(b, p2))
  {
    hide Dups1Of, Dups1PairOf, OperandPassed, JoinFreePairs, JoinFree, Pass;
    PassZero(true, t, b, Dups1Of(t, b, p1, p2));
    if At(b, p1).Type() == t {
      SlotsBelow(t, b, p1);
      Dups1First(t, b, p1, p2);
      PassZero(true, t, b, Dups1Of(t, b, p1 + [L], p2));
      Dups1Zero(t, b, p1 + [L], p2);
      Dups1Zero(t, b, p1 + [R], p2);
      SplitFirst(t, b, p1, p2);
    } else if At(b, p2).Type() == t {
      SlotsBelow(t, b, p2);
      Dups1Second(t, b, p1, p2);
      PassZero(true, t, b, Dups1Of(t, b, p1, p2 + [L]));
      Dups1Zero(t, b, p1, p2 + [L]);
      Dups1Zero(t, b, p1, p2 + [R]);
      SplitSecond(t, b, p1, p2);
    } else {
      Dups1Both(t, b, p1, p2);
      OperandCases(t, b, p1);
      OperandFacts(t, b, p1);
      PassZero(true, t, b, OperandPassed(t, b, p1));
      var x := At(b, p1);
      RoundStart(x);
      if x.Type().Junction() && p1 != p2 { Dups1Zero(x.Type(), x, [], []); }
      OnePair(t, b, p1, p2);
    }
  }

  lemma PassZero(exact: bool, t: ExprType, b: Expr, r: Passed)
    requires t.Junction() && Pass(exact, t, b, r.root, 0, r.count)
    ensures r.count == 0 ==> r.root == b
  {
  }

  lemma {:induction false} Dups2Zero(t: ExprType, b: Expr, p1: Path, p2: Path)
    requires t.Junction() && b.Type() == t && InSkel(t, b, p1) && InSkel(t, b, p2)
    requires Dups2Of(t, b, p1, p2).count == 0
    ensures ContradictionFreePairs(t, b, p1, p2) && Dups2Of(t, b, p1, p2).root == b
    decreases b.Size(), Nodes(t, At(b, p1)), Nodes(t, At(b, p2)), 1
  {
    hide Dups2Of, Dups2TestOf, ContradictionFreePairs, ContradictionFree, Pass, Contradicts, PairTested;
    PassZero(false, t, b, Dups2Of(t, b, p1, p2));
    if At(b, p1).Type() == t {
      SlotsBelow(t, b, p1);
      Dups2First(t, b, p1, p2);
      PassZero(false, t, b, Dups2Of(t, b, p1 + [L], p2));
      Dups2Zero(t, b, p1 + [L], p2);
      Dups2Zero(t, b, p1 + [R], p2);
      FreeFirst(t, b, p1, p2);
    } else if At(b, p2).Type() == t {
      SlotsBelow(t, b, p2);
      Dups2Second(t, b, p1, p2);
      PassZero(false, t, b, Dups2Of(t, b, p1, p2 + [L]));
      PassZero(false, t, b, Dups2Of(t, b, p1, p2 + [R]));
      Dups2Zero(t, b, p1, p2 + [L]);
      Dups2Zero(t, b, p1, p2 + [R]);
      TestZero(t, b, p1, p2);
      FreeSecond(t, b, p1, p2);
    } else {
      Dups2Both(t, b, p1, p2);
      if p1 != p2 { TestZero(t, b, p1, p2); }
      FreeOne(t, b, p1, p2);
    }
  }

  lemma {:induction false} TestZero(t: ExprType, b: Expr, p1: Path, p2: Path)
    requires t.Junction() && b.Type() == t && LeafSlot(t, b, p1) && InSkel(t, b, p2)
    requires Dups2TestOf(t, b, p1, p2).count == 0
    ensures PairTested(t, b, p1, p2)
    decreases b.Size(), Nodes(t, At(b, p1)), Nodes(t, At(b, p2)), 0
  {
    hide Dups2Of, Dups2TestOf, ContradictionFreePairs, Pass, Contradicts;
    OperandFacts(t, b, p1);
    Dups2TestCases(t, b, p1, p2);
    var x := At(b, p1);
    RoundStart(x);
    if x.Type().Junction() {
      Dups2Zero(x.Type(), x, [], []);
      PutTwice(b, p1, b, b);
    }
  }

  /** expr_eliminate_dups leaves an expression alone exactly if it has nothing to merge: no joinable and no
      contradicting operands. */
  lemma EliminateDupsFixes(e: Expr)
    ensures EliminateDupsOf(e) == e <==> JoinFree(e) && ContradictionFree(e)
  {
    hide EliminateDupsOf, Dups1Of, Dups2Of, Yn, Pass, JoinFreePairs, ContradictionFreePairs, JoinFree, ContradictionFree;
    DupsCases(e);
    RoundStart(e);
    var t := e.Type();
    if t.Junction() {
      if JoinFree(e) && ContradictionFree(e) {
        Dups1Idle(t, e, [], []);
        Dups2Idle(t, e, [], []);
      }
      if EliminateDupsOf(e) == e {
        var x := Dups1Of(t, e, [], []);
        var y := Dups2Of(t, x.root, [], []);
        if x.count + y.count > 0 {
          RoundShrinks(e, x, y);
          DupsSmaller(Yn(y.root));
        }
        Dups1Zero(t, e, [], []);
        Dups2Zero(t, e, [], []);
      }
    }
  }

  lemma {:induction false} DupsSmaller(e: Expr)
    ensures EliminateDupsOf(e).Size() <= e.Size()
    decreases e.Size()
  {
    hide EliminateDupsOf, Dups1Of, Dups2Of, Yn, Pass;
    DupsCases(e);
    if e.Type().Junction() {
      var x := Dups1Of(e.Type(), e, [], []);
      var y := Dups2Of(e.Type(), x.root, [], []);
      if x.count + y.count > 0 {
        RoundShrinks(e, x, y);
        DupsSmaller(Yn(y.root));
      }
    }
  }

  /** How often a contradicted operand is replaced, over all rounds. */
  function Replacements(e: Expr): nat
    decreases e.Size()
  {
    if !e.Type().Junction() then 0
    else
      var x := Dups1Of(e.Type(), e, [], []);
      var y := Dups2Of(e.Type(), x.root, [], []);
      if x.count + y.count == 0 then 0
      else
        RoundShrinks(e, x, y);
        y.count + Replacements(Yn(y.root))
  }

  /** Without such a replacement the value is kept for all three values. */
  lemma {:induction false} EliminateDupsExact(e: Expr)
    requires Replacements(e) == 0
    ensures Equiv(e, EliminateDupsOf(e))
    decreases e.Size()
  {
    hide EliminateDupsOf, Dups1Of, Dups2Of, Yn, WellTyped;
    DupsCases(e);
    if e.Type().Junction() {
      var x := Dups1Of(e.Type(), e, [], []);
      var y := Dups2Of(e.Type(), x.root, [], []);
      if x.count + y.count > 0 {
        RoundShrinks(e, x, y);
        EliminateDupsExact(Yn(y.root));
        forall env: Env | WellTyped(env) ensures Eval(e, env) == Eval(EliminateDupsOf(e), env) {
          YnValue(y.root, env);
        }
      }
    }
  }

  /** What the pass keeps in any case. */
  lemma {:induction false} EliminateDupsSharpens(e: Expr)
    ensures Sharpens(e, EliminateDupsOf(e)) && (Normal(e) ==> Normal(EliminateDupsOf(e)))
    decreases e.Size()
  {
    hide EliminateDupsOf, Dups1Of, Dups2Of, Yn, WellTyped, Normal;
    DupsCases(e);
    if e.Type().Junction() {
      var x := Dups1Of(e.Type(), e, [], []);
      var y := Dups2Of(e.Type(), x.root, [], []);
      if x.count + y.count > 0 {
        RoundShrinks(e, x, y);
        EliminateDupsSharpens(Yn(y.root));
        if Normal(y.root) { YnNormal(y.root); }
        YnSharpens(e, y.root);
        SharpensTrans(e, Yn(y.root), EliminateDupsOf(Yn(y.root)));
      }
    }
  }

  // ----- for one assignment -----

  /** The junctions in which a contradicted operand is replaced, as they are at that moment. */
  function Replaced(t: ExprType, b: Expr, p1: Path, p2: Path): seq<Expr>
    requires t.Junction() && b.Type() == t && InSkel(t, b, p1) && InSkel(t, b, p2)
    decreases b.Size(), Nodes(t, At(b, p1)), Nodes(t, At(b, p2)), 1
  {
    if At(b, p1).Type() == t then
      FirstFacts(t, b, p1, p2);
      var x := Dups2Of(t, b, p1 + [L], p2);
      Replaced(t, b, p1 + [L], p2) + Replaced(t, x.root, p1 + [R], p2)
    else if At(b, p2).Type() == t then
      SecondFacts(t, b, p1, p2);
      var x := Dups2Of(t, b, p1, p2 + [L]);
      var y := Dups2Of(t, x.root, p1, p2 + [R]);
      Replaced(t, b, p1, p2 + [L]) + Replaced(t, x.root, p1, p2 + [R]) + ReplacedIn(t, y.root, p1, p2)
    else if p1 != p2 then ReplacedIn(t, b, p1, p2)
    else []
  }

  function ReplacedIn(t: ExprType, b: Expr, p1: Path, p2: Path): seq<Expr>
    requires t.Junction() && b.Type() == t && LeafSlot(t, b, p1) && InSkel(t, b, p2)
    decreases b.Size(), Nodes(t, At(b, p1)), Nodes(t, At(b, p2)), 0
  {
    var k := At(b, p1).Type();
    OperandFacts(t, b, p1);
    if !k.Junction() then []
    else
      TestFacts(t, b, p1, p2);
      var x := Put(b, p1, Dups2Of(k, At(b, p1), [], []).root);
      Replaced(k, At(b, p1), [], []) + if Contradicts(t, At(x, p1), At(x, p2)) then [x] else []
  }

  lemma FirstFacts(t: ExprType, b: Expr, p1: Path, p2: Path)
    requires t.Junction() && b.Type() == t && InSkel(t, b, p1) && InSkel(t, b, p2) && At(b, p1).Type() == t
    ensures InSkel(t, b, p1 + [L]) && Nodes(t, At(b, p1 + [L])) < Nodes(t, At(b, p1))
    ensures var x := Dups2Of(t, b, p1 + [L], p2);
      && x.root.Type() == t && x.root.Size() <= b.Size() && InSkel(t, x.root, p1 + [R]) && InSkel(t, x.root, p2)
      && Nodes(t, At(x.root, p1 + [R])) < Nodes(t, At(b, p1))
  {
    hide Dups2Of, Pass, At, InSkel;
    SlotsBelow(t, b, p1);
    StillFewer(t, b, p1 + [R], p2, Dups2Of(t, b, p1 + [L], p2));
  }

  lemma SecondFacts(t: ExprType, b: Expr, p1: Path, p2: Path)
    requires t.Junction() && b.Type() == t && InSkel(t, b, p1) && InSkel(t, b, p2)
    requires At(b, p1).Type() != t && At(b, p2).Type() == t
    ensures InSkel(t, b, p2 + [L]) && Nodes(t, At(b, p2 + [L])) < Nodes(t, At(b, p2))
    ensures var x := Dups2Of(t, b, p1, p2 + [L]);
      && x.root.Type() == t && x.root.Size() <= b.Size() && InSkel(t, x.root, p1) && InSkel(t, x.root, p2 + [R])
      && Nodes(t, At(x.root, p1)) == Nodes(t, At(b, p1)) && Nodes(t, At(x.root, p2 + [R])) < Nodes(t, At(b, p2))
      && var y := Dups2Of(t, x.root, p1, p2 + [R]);
      && y.root.Type() == t && y.root.Size() <= b.Size() && LeafSlot(t, y.root, p1) && InSkel(t, y.root, p2)
      && Nodes(t, At(y.root, p1)) == Nodes(t, At(b, p1)) && Nodes(t, At(y.root, p2)) == Nodes(t, At(b, p2))
  {
    hide Dups2Of, Pass, At, InSkel, LeafSlot;
    SlotsBelow(t, b, p2);
    IsLeafSlot(t, b, p1);
    var x := Dups2Of(t, b, p1, p2 + [L]);
    StillFewer(t, b, p1, p2, x);
    StillFewer(t, b, p1, p2 + [R], x);
    StillFewer(t, x.root, p1, p2, Dups2Of(t, x.root, p1, p2 + [R]));
  }

  lemma TestFacts(t: ExprType, b: Expr, p1: Path, p2: Path)
    requires t.Junction() && b.Type() == t && LeafSlot(t, b, p1) && InSkel(t, b, p2) && At(b, p1).Type().Junction()
    ensures Valid(b, p1) && At(b, p1).Size() < b.Size() && InSkel(At(b, p1).Type(), At(b, p1), [])
    ensures var x := Put(b, p1, Dups2Of(At(b, p1).Type(), At(b, p1), [], []).root); LeafSlot(t, x, p1) && InSkel(t, x, p2)
  {
    hide Dups2Of, Dups2TestOf, Pass, Contradicts;
    OperandFacts(t, b, p1);
    Dups2TestCases(t, b, p1, p2);
  }

  /** A pass does not change how many nodes are below a slot of the skeleton. */
  lemma StillFewer(t: ExprType, b: Expr, q1: Path, q2: Path, r: Passed)
    requires t.Junction() && b.Type() == t && InSkel(t, b, q1) && InSkel(t, b, q2)
    requires Pass(false, t, b, r.root, 0, r.count)
    ensures r.root.Type() == t && r.root.Size() <= b.Size() && InSkel(t, r.root, q1) && InSkel(t, r.root, q2)
    ensures Nodes(t, At(r.root, q1)) == Nodes(t, At(b, q1)) && Nodes(t, At(r.root, q2)) == Nodes(t, At(b, q2))
    ensures LeafSlot(t, b, q1) ==> LeafSlot(t, r.root, q1)
  {
    PassSlot(false, t, b, r.root, r.count, q1);
    PassSlot(false, t, b, r.root, r.count, q2);
  }

  /** None of the junctions is m. */
  predicate Definite(js: seq<Expr>, env: Env) { forall j :: j in js ==> Eval(j, env) != MOD }

  /** Where no junction in which it replaces something is m, the pass keeps the value. */
  lemma {:induction false} Dups2AtValue(t: ExprType, b: Expr, p1: Path, p2: Path, env: Env)
    requires t.Junction() && b.Type() == t && InSkel(t, b, p1) && InSkel(t, b, p2) && WellTyped(env)
    requires Definite(Replaced(t, b, p1, p2), env)
    ensures Eval(Dups2Of(t, b, p1, p2).root, env) == Eval(b, env)
    decreases b.Size(), Nodes(t, At(b, p1)), Nodes(t, At(b, p2)), 1
  {
    hide Dups2Of, Dups2TestOf, ReplacedIn, Pass, Contradicts, WellTyped, At, InSkel;
    if At(b, p1).Type() == t {
      FirstFacts(t, b, p1, p2);
      Dups2First(t, b, p1, p2);
      var x := Dups2Of(t, b, p1 + [L], p2);
      Dups2AtValue(t, b, p1 + [L], p2, env);
      Dups2AtValue(t, x.root, p1 + [R], p2, env);
    } else if At(b, p2).Type() == t {
      SecondFacts(t, b, p1, p2);
      Dups2Second(t, b, p1, p2);
      var x := Dups2Of(t, b, p1, p2 + [L]);
      var y := Dups2Of(t, x.root, p1, p2 + [R]);
      Dups2AtValue(t, b, p1, p2 + [L], env);
      Dups2AtValue(t, x.root, p1, p2 + [R], env);
      TestAtValue(t, y.root, p1, p2, env);
    } else {
      Dups2Both(t, b, p1, p2);
      if p1 != p2 { TestAtValue(t, b, p1, p2, env); }
    }
  }

  lemma {:induction false} TestAtValue(t: ExprType, b: Expr, p1: Path, p2: Path, env: Env)
    requires t.Junction() && b.Type() == t && LeafSlot(t, b, p1) && InSkel(t, b, p2) && WellTyped(env)
    requires Definite(ReplacedIn(t, b, p1, p2), env)
    ensures Eval(Dups2TestOf(t, b, p1, p2).root, env) == Eval(b, env)
    decreases b.Size(), Nodes(t, At(b, p1)), Nodes(t, At(b, p2)), 0
  {
    hide Dups2Of, Dups2TestOf, Replaced, Pass, Contradicts, WellTyped;
    OperandFacts(t, b, p1);
    Dups2TestCases(t, b, p1, p2);
    var k := At(b, p1).Type();
    if k.Junction() {
      var i := Dups2Of(k, At(b, p1), [], []);
      var x := Put(b, p1, i.root);
      Dups2AtValue(k, At(b, p1), [], [], env);
      RestValue(t, b, p1, i.root, env);
      if Contradicts(t, At(x, p1), At(x, p2)) {
        assert x in ReplacedIn(t, b, p1, p2);
        ContradictedValue(t, x, p1, p2, env);
        OperandDual(t, b, p1);
      }
    }
  }

  lemma OperandDual(t: ExprType, b: Expr, p: Path)
    requires t.Junction() && b.Type() == t && LeafSlot(t, b, p) && At(b, p).Type().Junction()
    ensures At(b, p).Type() == t.Dual()
  {
  }

  /** The same over all rounds. */
  function AllReplaced(e: Expr): seq<Expr>
    decreases e.Size()
  {
    if !e.Type().Junction() then []
    else
      DupsCases(e);
      var x := Dups1Of(e.Type(), e, [], []);
      var y := Dups2Of(e.Type(), x.root, [], []);
      if x.count + y.count == 0 then []
      else
        RoundShrinks(e, x, y);
        Replaced(e.Type(), x.root, [], []) + AllReplaced(Yn(y.root))
  }

  /** expr_eliminate_dups keeps the value wherever no junction in which it replaces an operand is m, in
      particular of every expression that is never m. */
  lemma {:induction false} EliminateDupsAt(e: Expr, env: Env)
    requires WellTyped(env) && Definite(AllReplaced(e), env)
    ensures Eval(EliminateDupsOf(e), env) == Eval(e, env)
    decreases e.Size()
  {
    hide EliminateDupsOf, Dups1Of, Dups2Of, Yn, WellTyped, Replaced, Pass;
    DupsCases(e);
    if e.Type().Junction() {
      var x := Dups1Of(e.Type(), e, [], []);
      var y := Dups2Of(e.Type(), x.root, [], []);
      if x.count + y.count > 0 {
        RoundShrinks(e, x, y);
        Dups1Same(e, x, env);
        Dups2AtValue(e.Type(), x.root, [], [], env);
        YnValue(y.root, env);
        EliminateDupsAt(Yn(y.root), env);
      }
    }
  }

  lemma Dups1Same(e: Expr, x: Passed, env: Env)
    requires e.Type().Junction() && Pass(true, e.Type(), e, x.root, 0, x.count) && WellTyped(env)
    ensures Eval(x.root, env) == Eval(e, env)
  {
    hide WellTyped;
  }

  // ----- an input that loses m -----

  /** The operand slots of "x && (y && z)". */
  lemma ThreeSlots(x: Expr, y: Expr, z: Expr, q: Path)
    requires !x.And? && !y.And? && !z.And? && LeafSlot(TAnd, And(x, And(y, z)), q)
    ensures q == [L] || q == [R, L] || q == [R, R]
    ensures At(And(x, And(y, z)), q) == if q == [L] then x else if q == [R, L] then y else z
  {
    var e := And(x, And(y, z));
    assert q != [] && InSkel(TAnd, Child(e, q[0]), q[1..]);
    if q[0] == L {
      LeafIsNoInner(TAnd, x, q[1..]);
      assert q == [L] + q[1..];
    } else {
      var r := q[1..];
      assert r != [] by { assert At(e, q) == At(And(y, z), r); }
      LeafIsNoInner(TAnd, Child(And(y, z), r[0]), r[1..]);
      assert q == [R] + ([r[0]] + r[1..]);
    }
  }

  /** The operand slots of a junction of two operands. */
  lemma TwoSlots(t: ExprType, x: Expr, y: Expr, q: Path)
    requires t.Junction() && x.Type() != t && y.Type() != t && LeafSlot(t, Two(t, x, y), q)
    ensures q == [L] || q == [R]
    ensures At(Two(t, x, y), q) == if q == [L] then x else y
  {
    var e := Two(t, x, y);
    assert q != [] && InSkel(t, Child(e, q[0]), q[1..]);
    LeafIsNoInner(t, Child(e, q[0]), q[1..]);
    assert q == [q[0]] + q[1..];
  }

  lemma TwoFree(t: ExprType, x: Expr, y: Expr)
    requires t.Junction() && !x.Type().Junction() && !y.Type().Junction()
    requires Join(t, x, y).None? && Join(t, y, x).None?
    ensures JoinFree(Two(t, x, y)) && ContradictionFree(Two(t, x, y))
  {
    hide Join, Contradicts, InSkel;
    var e := Two(t, x, y);
    forall q: Path | LeafSlot(t, e, q)
      ensures q == [L] || q == [R]
      ensures At(e, q) == if q == [L] then x else y
    {
      TwoSlots(t, x, y, q);
    }
    assert JoinFree(x) && JoinFree(y);
    assert JoinFreePairs(t, e, [], []);
    assert ContradictionFreePairs(t, e, [], []);
  }

  function Either(foo: Sym, bar: Sym): Expr { Or(Symbol(foo), Symbol(bar)) }

  function Neither(foo: Sym, bar: Sym): Expr { And(Not(Symbol(foo)), Not(Symbol(bar))) }

  lemma EitherFree(foo: Sym, bar: Sym)
    requires foo != bar
    ensures JoinFree(Either(foo, bar)) && ContradictionFree(Either(foo, bar))
  {
    assert !ExprEq(Symbol(foo), Symbol(bar)) && !ExprEq(Symbol(bar), Symbol(foo));
    TwoFree(TOr, Symbol(foo), Symbol(bar));
  }

  lemma NothingToJoin(foo: Sym, bar: Sym)
    requires foo != bar
    ensures JoinFree(And(Either(foo, bar), Neither(foo, bar)))
  {
    EitherFree(foo, bar);
    NothingJoins(foo, bar);
    ThreeFree(Either(foo, bar), Not(Symbol(foo)), Not(Symbol(bar)));
  }

  lemma ThreeFree(x: Expr, y: Expr, z: Expr)
    requires x.Or? && JoinFree(x) && y.Not? && z.Not?
    requires Join(TAnd, x, y).None? && Join(TAnd, y, x).None? && Join(TAnd, x, z).None? && Join(TAnd, z, x).None?
    requires Join(TAnd, y, z).None? && Join(TAnd, z, y).None?
    ensures JoinFree(And(x, And(y, z)))
  {
    var e := And(x, And(y, z));
    assert JoinFree(y) && JoinFree(z);
    hide Join, InSkel, At;
    forall q: Path | LeafSlot(TAnd, e, q)
      ensures q == [L] || q == [R, L] || q == [R, R]
      ensures At(e, q) == if q == [L] then x else if q == [R, L] then y else z
    {
      ThreeSlots(x, y, z, q);
    }
    assert JoinFreePairs(TAnd, e, [], []);
  }

  lemma NothingJoins(foo: Sym, bar: Sym)
    requires foo != bar
    ensures var x, y, z := Either(foo, bar), Not(Symbol(foo)), Not(Symbol(bar));
      && Join(TAnd, x, y).None? && Join(TAnd, y, x).None? && Join(TAnd, x, z).None? && Join(TAnd, z, x).None?
      && Join(TAnd, y, z).None? && Join(TAnd, z, y).None?
  {
    DistinctNots(foo, bar);
    hide Yn, CancelPasses;
  }

  lemma DistinctNots(foo: Sym, bar: Sym)
    requires foo != bar
    ensures var f, b := Not(Symbol(foo)), Not(Symbol(bar));
      ExprEq(f, f) && ExprEq(b, b) && !ExprEq(f, b) && !ExprEq(b, f)
  {
    assert !ExprEq(Symbol(foo), Symbol(bar)) && !ExprEq(Symbol(bar), Symbol(foo));
    assert ExprEq(Symbol(foo), Symbol(foo)) && ExprEq(Symbol(bar), Symbol(bar));
  }

  /** The pushed-down negation of the disjunction. */
  lemma NeitherHolds(foo: Sym, bar: Sym)
    requires !foo.Predefined() && !bar.Predefined()
    ensures Transform(Not(Either(foo, bar))) == Neither(foo, bar)
  {
    NormalIsFixed(Neither(foo, bar));
    assert Transform(Either(foo, bar)) == Either(foo, bar);
  }

  /** A single negation does not contradict the disjunction. */
  lemma NoSingleContradiction(foo: Sym, bar: Sym)
    requires foo != bar && !foo.Predefined() && !bar.Predefined()
    ensures !Contradicts(TAnd, Either(foo, bar), Not(Symbol(foo)))
    ensures !Contradicts(TAnd, Either(foo, bar), Not(Symbol(bar)))
  {
    hide ExprEq;
    DistinctNots(foo, bar);
    NeitherHolds(foo, bar);
    ExtractOne(Not(Symbol(foo)), Not(Symbol(bar)));
  }

  /** One operand is factored out of a conjunction of two, and the other remains. */
  lemma ExtractOne(f: Expr, b: Expr)
    requires f.Not? && b.Not? && ExprEq(f, f) && ExprEq(b, b) && !ExprEq(f, b) && !ExprEq(b, f)
    ensures Extract(TAnd, And(f, b), f).a == b && Extract(TAnd, And(f, b), b).a == f
  {
    var y := Symbol(SymYes);
    assert !ExprEq(b, y);
    hide ExprEq;
    assert ExtractRight(TAnd, None, f, f) == Factored(Some(f), y, y);
    assert ExtractRight(TAnd, Some(f), b, y) == Factored(Some(f), b, y);
    assert ExtractRight(TAnd, None, f, b) == Factored(None, f, b);
    assert ExtractRight(TAnd, None, b, b) == Factored(Some(b), y, y);
    assert ExtractRec(TAnd, None, And(f, b), f) == Factored(Some(f), And(y, b), y);
    assert ExtractRec(TAnd, None, And(f, b), b) == Factored(Some(b), And(f, y), y);
    assert Yn(y) == y && Yn(f) == f && Yn(b) == b;
    assert Yn(And(y, b)) == Collapse(TAnd, y, b) && Yn(And(f, y)) == Collapse(TAnd, f, y);
  }

  /** Where everything is in "x && (y && z)", and after n has been stored in the first slot. */
  lemma Positions(x: Expr, y: Expr, z: Expr, n: Expr)
    ensures var e, e' := And(x, And(y, z)), And(n, And(y, z));
      && InSkel(TAnd, e, []) && InSkel(TAnd, e, [L]) && InSkel(TAnd, e, [R])
      && InSkel(TAnd, e, [R, L]) && InSkel(TAnd, e, [R, R])
      && At(e, []) == e && At(e, [L]) == x && At(e, [R]) == And(y, z) && At(e, [R, L]) == y && At(e, [R, R]) == z
      && InSkel(TAnd, e', []) && InSkel(TAnd, e', [L]) && InSkel(TAnd, e', [R])
      && At(e', []) == e' && At(e', [L]) == n && At(e', [R]) == And(y, z)
      && Put(e, [L], n) == e' && Put(e, [L], x) == e
    ensures [] + [L] == [L] && [] + [R] == [R] && [R] + [L] == [R, L] && [R] + [R] == [R, R]
  {
    var r := And(y, z);
    assert [L][1..] == [] && [R][1..] == [] && [R, L][1..] == [L] && [R, R][1..] == [R];
    assert At(r, [L]) == y && At(r, [R]) == z && InSkel(TAnd, r, [L]) && InSkel(TAnd, r, [R]);
  }

  /** The pass replaces the disjunction when it meets the conjunction of both negations. */
  lemma OneReplacement(foo: Sym, bar: Sym)
    requires foo.Type() == STristate && bar.Type() == STristate && foo != bar
    ensures Dups2Of(TAnd, And(Either(foo, bar), Neither(foo, bar)), [], []) ==
      Passed(And(Symbol(SymNo), Neither(foo, bar)), 1)
  {
    hide Dups2Of, Dups2TestOf, Contradicts, At, InSkel, Put, Extract, Transform, ExprEq;
    var x, y, z, n := Either(foo, bar), Not(Symbol(foo)), Not(Symbol(bar)), Symbol(SymNo);
    var e, e' := And(x, And(y, z)), And(n, And(y, z));
    Positions(x, y, z, n);
    NoSingleContradiction(foo, bar);
    ContradictedPair(foo, bar);
    assert Dups2Of(TOr, x, [], []) == Passed(x, 0) by {
      EitherFree(foo, bar);
      RootFree(x);
      Dups2Idle(TOr, x, [], []);
    }
    Dups2TestCases(TAnd, e, [L], [R, L]);
    Dups2TestCases(TAnd, e, [L], [R, R]);
    Dups2TestCases(TAnd, e, [L], [R]);
    Dups2TestCases(TAnd, e', [L], []);
    Dups2Both(TAnd, e, [L], [R, L]);
    Dups2Both(TAnd, e, [L], [R, R]);
    Dups2Both(TAnd, e, [L], [L]);
    Dups2Second(TAnd, e, [L], [R]);
    Dups2Second(TAnd, e, [L], []);
    RestIdle(n, y, z);
    Dups2First(TAnd, e, [], []);
  }

  lemma RootFree(x: Expr)
    requires x.Type().Junction() && ContradictionFree(x)
    ensures InSkel(x.Type(), x, []) && ContradictionFreePairs(x.Type(), x, [], [])
  {
  }

  lemma RestIdle(n: Expr, y: Expr, z: Expr)
    requires !n.Type().Junction() && !y.Type().Junction() && !z.Type().Junction()
    ensures InSkel(TAnd, And(n, And(y, z)), [R]) && InSkel(TAnd, And(n, And(y, z)), [])
    ensures Dups2Of(TAnd, And(n, And(y, z)), [R], []) == Passed(And(n, And(y, z)), 0)
  {
    var e := And(n, And(y, z));
    assert [R][1..] == [] && InSkel(TAnd, And(y, z), []);
    assert InSkel(TAnd, e, [R]);
    forall q: Path | LeafSlot(TAnd, e, q) ensures !At(e, q).Type().Junction() { ThreeSlots(n, y, z, q); }
    assert ContradictionFreePairs(TAnd, e, [R], []);
    Dups2Idle(TAnd, e, [R], []);
  }

  lemma EitherAndNeither(foo: Sym, bar: Sym, env: Env)
    requires env.tri(foo) == MOD && env.tri(bar) == NO
    ensures Eval(And(Either(foo, bar), Neither(foo, bar)), env) == MOD
  {
    assert Eval(Symbol(foo), env) == MOD && Eval(Symbol(bar), env) == NO;
    assert Eval(Either(foo, bar), env) == MOD && Eval(Neither(foo, bar), env) == MOD;
  }

  /** With FOO=m and BAR=n, (FOO || BAR) && (!FOO && !BAR) is m; the pass makes it n. */
  lemma EliminateDupsLosesM(foo: Sym, bar: Sym, env: Env)
    requires WellTyped(env) && foo.Type() == STristate && bar.Type() == STristate && foo != bar
    requires env.tri(foo) == MOD && env.tri(bar) == NO
    ensures var e := And(Either(foo, bar), Neither(foo, bar));
      && Eval(e, env) == MOD
      && EliminateDupsOf(e) == Symbol(SymNo) && Eval(EliminateDupsOf(e), env) == NO
      && Replacements(e) == 1
  {
    hide EliminateDupsOf, Replacements;
    assert TypedAt(env, SymNo);
    EitherAndNeither(foo, bar, env);
    EitherAndNeitherReduced(foo, bar);
  }

  lemma EitherAndNeitherReduced(foo: Sym, bar: Sym)
    requires foo.Type() == STristate && bar.Type() == STristate && foo != bar
    ensures var e := And(Either(foo, bar), Neither(foo, bar)); EliminateDupsOf(e) == Symbol(SymNo) && Replacements(e) == 1
  {
    var e, r := And(Either(foo, bar), Neither(foo, bar)), And(Symbol(SymNo), Neither(foo, bar));
    assert Yn(Symbol(SymNo)) == Symbol(SymNo) && Yn(r) == Collapse(TAnd, Yn(r.left), Yn(r.right));
    assert Yn(r) == Symbol(SymNo);
    hide Dups1Of, Dups2Of, JoinFree, EliminateDupsOf, Yn;
    NothingToJoin(foo, bar);
    RoundStart(e);
    Dups1Idle(TAnd, e, [], []);
    OneReplacement(foo, bar);
    DupsCases(e);
    DupsCases(Symbol(SymNo));
  }

  lemma ContradictedPair(foo: Sym, bar: Sym)
    requires foo.Type() == STristate && bar.Type() == STristate && foo != bar
    ensures Contradicts(TAnd, Either(foo, bar), Neither(foo, bar))
  {
    hide ExprEq;
    DistinctNots(foo, bar);
    NeitherHolds(foo, bar);
    ExtractBoth(Not(Symbol(foo)), Not(Symbol(bar)));
  }

  /** Two operands are factored out of a conjunction of the same two. */
  lemma ExtractBoth(f: Expr, b: Expr)
    requires f.Not? && b.Not? && ExprEq(f, f) && ExprEq(b, b) && !ExprEq(f, b)
    ensures Extract(TAnd, And(f, b), And(f, b)).a == Symbol(SymYes)
  {
    var y := Symbol(SymYes);
    assert !ExprEq(y, b) && !ExprEq(b, y);
    var r1 := ExtractRight(TAnd, None, f, And(f, b));
    assert ExtractRight(TAnd, None, f, f) == Factored(Some(f), y, y);
    assert ExtractRight(TAnd, Some(f), y, b) == Factored(Some(f), y, b);
    assert r1 == Factored(Some(f), y, And(y, b));
    var r2 := ExtractRight(TAnd, Some(f), b, And(y, b));
    assert ExtractRight(TAnd, Some(f), b, y) == Factored(Some(f), b, y);
    assert ExtractRight(TAnd, Some(f), b, b) == Factored(Some(And(f, b)), y, y);
    assert r2 == Factored(Some(And(f, b)), y, And(y, y));
    assert ExtractRec(TAnd, None, And(f, b), And(f, b)) == Factored(Some(And(f, b)), And(y, y), And(y, y));
  }
}
