/** expr_eliminate_dups: merging operands of one tree in place. Both slot arguments of the passes
    start out as the same root, so a store through one of them is seen through the other. */
module ExprDups {
  import opened Options
  import opened Tristates
  import opened Exprs
  import opened EliminateYn
  import opened ExprEquality
  import opened ExprTransform
  import opened ExprJoin
  import opened ExprExtract
  import opened ExprSlots

  /** The test of expr_eliminate_dups2 on an operand e1 that is a junction of the other type: every
      operand of the pushed-down negation of e1 also occurs in e2. */
  predicate Contradicts(t: ExprType, e1: Expr, e2: Expr)
    requires t.Junction()
  {
    Extract(t, Transform(Not(e1)), e2).a == Symbol(Neutral(t))
  }

  /** Then the junction of the two is at most m (for AND) or at least m (for OR): replacing e1 by the
      constant is right exactly when the junction is not m. */
  lemma ContradictsValue(t: ExprType, e1: Expr, e2: Expr, env: Env)
    requires WellTyped(env) && t.Junction() && Contradicts(t, e1, e2)
    ensures Op(t, Eval(e1, env), Eval(e2, env)) == Neutral3(t.Dual()) <==>
              Op(t, Eval(e1, env), Eval(e2, env)) != MOD
    ensures if t == TAnd then Eval(e2, env) <= Not3(Eval(e1, env)) else Eval(e2, env) >= Not3(Eval(e1, env))
  {
    assert TypedAt(env, Neutral(t));
    hide Transform, Extract, WellTyped;
    TransformValue(Not(e1), env);
    ExtractValue(t, Transform(Not(e1)), e2, env);
    var r := Extract(t, Transform(Not(e1)), e2);
    FactoredOut(t, Eval(e1, env), Eval(e2, env), CommonValue(t, r.common, env), Eval(r.b, env));
  }

  /** All of the negation of v1 is also in v2. */
  lemma FactoredOut(t: ExprType, v1: Tristate, v2: Tristate, c: Tristate, y: Tristate)
    requires t.Junction() && Not3(v1) == Op(t, c, Neutral3(t)) && v2 == Op(t, c, y)
    ensures Op(t, v1, v2) == Neutral3(t.Dual()) <==> Op(t, v1, v2) != MOD
    ensures if t == TAnd then v2 <= Not3(v1) else v2 >= Not3(v1)
  {
  }

  // ----- nothing left to merge -----

  /** No two operands of e, and none of their operands in turn, can be joined. */
  ghost predicate JoinFree(e: Expr)
    decreases e.Size(), 1
  {
    e.Type().Junction() ==> JoinFreePairs(e.Type(), e, [], [])
  }

  /** The same for the operands below p1 paired with those below p2. */
  ghost predicate JoinFreePairs(t: ExprType, e: Expr, p1: Path, p2: Path)
    requires t.Junction()
    decreases e.Size(), 0
  {
    forall q1: Path, q2: Path ::
      p1 <= q1 && p2 <= q2 && q1 != q2 && q1 != [] && LeafSlot(t, e, q1) && LeafSlot(t, e, q2) ==>
        Join(t, At(e, q1), At(e, q2)).None? && JoinFree(At(e, q1))
  }

  ghost predicate ContradictionFree(e: Expr)
    decreases e.Size(), 1
  {
    e.Type().Junction() ==> ContradictionFreePairs(e.Type(), e, [], [])
  }

  /** The second slot also runs over the inner nodes of type t, not only over operands. */
  ghost predicate ContradictionFreePairs(t: ExprType, e: Expr, p1: Path, p2: Path)
    requires t.Junction()
    decreases e.Size(), 0
  {
    forall q1: Path, q2: Path ::
      p1 <= q1 && p2 <= q2 && q1 != q2 && q1 != [] && LeafSlot(t, e, q1) && InSkel(t, e, q2) ==>
        At(e, q1).Type().Junction() ==> !Contradicts(t, At(e, q1), At(e, q2)) && ContradictionFree(At(e, q1))
  }

  lemma PrefixStep(p: Path, q: Path)
    requires p <= q && p != q
    ensures p + [L] <= q || p + [R] <= q
  {
    match q[|p|]
    case L => assert q[..|p| + 1] == p + [L];
    case R => assert q[..|p| + 1] == p + [R];
  }

  lemma {:induction false} LeafOnly(t: ExprType, e: Expr, p: Path, q: Path)
    requires t.Junction() && LeafSlot(t, e, p) && p <= q && InSkel(t, e, q)
    ensures q == p
    decreases |p|
  {
    if p != [] {
      LeafOnly(t, Child(e, p[0]), p[1..], q[1..]);
      assert q == [q[0]] + q[1..] && p == [p[0]] + p[1..];
    }
  }

  // ----- what a pass does to the tree below its base slot -----

  /** Value kept for all three values if exact, up to m becoming n or y otherwise; and what expr_transform
      has achieved is not undone. */
  ghost predicate Keeps(exact: bool, a: Expr, b: Expr) {
    && (if exact then Equiv(a, b) else Sharpens(a, b))
    && (Normal(a) ==> Normal(b))
  }

  lemma {:induction false} PutNormal(t: ExprType, e: Expr, p: Path, x: Expr)
    requires t.Junction() && InSkel(t, e, p) && Normal(e)
    ensures Normal(At(e, p))
    ensures Normal(x) ==> Normal(Put(e, p, x))
  {
    if p != [] {
      PutNormal(t, if p[0] == L then e.left else e.right, p[1..], x);
    }
  }

  lemma JoinNormal(t: ExprType, e1: Expr, e2: Expr)
    requires t.Junction() && Join(t, e1, e2).Some? && Normal(e1) && Normal(e2)
    ensures Normal(Join(t, e1, e2).value)
  {
    hide ExprEq;
  }

  lemma {:induction false} YnNormal(e: Expr)
    requires Normal(e)
    ensures Normal(Yn(e))
  {
    if e.Type().Junction() {
      YnNormal(e.left);
      YnNormal(e.right);
    }
  }

  /** b becomes b' while trans_count goes from n to n'. */
  ghost predicate Pass(exact: bool, t: ExprType, b: Expr, b': Expr, n: nat, n': nat)
    requires t.Junction()
  {
    && SameSkel(t, b, b')
    && b'.Type() == b.Type()
    && b'.Size() <= b.Size()
    && n <= n'
    && (if n' == n then b' == b else HasConst(b'))
    && Keeps(exact, b, b')
  }

  /** Only the tree below base changes, and it changes as a pass does. */
  ghost predicate Effect(exact: bool, t: ExprType, root: Expr, root': Expr, base: Path, n: nat, n': nat)
    requires t.Junction() && Valid(root, base)
  {
    && Valid(root', base)
    && root' == Put(root, base, At(root', base))
    && Pass(exact, t, At(root, base), At(root', base), n, n')
  }

  lemma EffectRefl(exact: bool, t: ExprType, root: Expr, base: Path, n: nat)
    requires t.Junction() && Valid(root, base)
    ensures Effect(exact, t, root, root, base, n, n)
  {
    PutTwice(root, base, root, root);
    SameSkelRefl(t, At(root, base));
  }

  /** Where a slot of the skeleton is after a pass. */
  lemma EffectSlot(exact: bool, t: ExprType, root: Expr, root': Expr, base: Path, p: Path, n: nat, n': nat)
    requires t.Junction() && Valid(root, base) && Effect(exact, t, root, root', base, n, n')
    requires InSkel(t, At(root, base), p)
    ensures Valid(root', base)
    ensures At(root', base).Type() == At(root, base).Type() && At(root', base).Size() <= At(root, base).Size()
    ensures InSkel(t, At(root', base), p)
    ensures Valid(root', base + p) && At(root', base + p) == At(At(root', base), p)
    ensures LeafSlot(t, At(root', base), p) <==> LeafSlot(t, At(root, base), p)
    ensures Nodes(t, At(At(root', base), p)) == Nodes(t, At(At(root, base), p))
    ensures n <= n' && (n' == n ==> root' == root)
  {
    SameSkelAt(t, At(root, base), At(root', base), p);
    SlotOfSlot(root', base, p);
    PutTwice(root, base, root, root);
  }

  lemma EffectTrans(exact: bool, t: ExprType, r0: Expr, r1: Expr, r2: Expr, base: Path, n0: nat, n1: nat, n2: nat)
    requires t.Junction() && Valid(r0, base)
    requires Effect(exact, t, r0, r1, base, n0, n1) && Effect(exact, t, r1, r2, base, n1, n2)
    ensures Effect(exact, t, r0, r2, base, n0, n2)
  {
    PutTwice(r0, base, At(r1, base), At(r2, base));
    SameSkelTrans(t, At(r0, base), At(r1, base), At(r2, base));
  }

  /** A pass over the operand in slot p, seen from base. */
  lemma EffectInside(exact: bool, t: ExprType, root: Expr, root': Expr, base: Path, p: Path, n: nat, n': nat)
    requires t.Junction() && Valid(root, base) && At(root, base).Type() == t && LeafSlot(t, At(root, base), p)
    requires Valid(root, base + p) && At(root, base + p).Type().Junction()
    requires Effect(exact, At(root, base + p).Type(), root, root', base + p, n, n')
    ensures Effect(exact, t, root, root', base, n, n')
  {
    SlotOfSlot(root, base, p);
    var b, x := At(root, base), At(root', base + p);
    assert root' == Put(root, base, Put(b, p, x));
    PutSkel(t, b, p, x);
    PutEquiv(t, b, p, x);
    if Normal(b) { PutNormal(t, b, p, x); }
    if n' == n {
      PutTwice(b, p, x, x);
    } else {
      PutHasConst(b, p, x);
    }
  }

  /** Storing the joined expression: the first slot gets the neutral constant, the second the join. */
  function Joined(t: ExprType, b: Expr, p1: Path, p2: Path, r: Expr): Expr
    requires t.Junction() && LeafSlot(t, b, p1) && LeafSlot(t, b, p2) && p1 != p2
  {
    PutOther(t, b, p1, p2, Symbol(Neutral(t)));
    Put(Put(b, p1, Symbol(Neutral(t))), p2, r)
  }

  lemma JoinedPass(t: ExprType, b: Expr, p1: Path, p2: Path, n: nat)
    requires t.Junction() && b.Type() == t && LeafSlot(t, b, p1) && LeafSlot(t, b, p2) && p1 != p2
    requires Join(t, At(b, p1), At(b, p2)).Some?
    ensures Pass(true, t, b, Joined(t, b, p1, p2, Join(t, At(b, p1), At(b, p2)).value), n, n + 1)
  {
    var r, c := Join(t, At(b, p1), At(b, p2)).value, Symbol(Neutral(t));
    var b1 := Put(b, p1, c);
    PutOther(t, b, p1, p2, c);
    PutSkel(t, b, p1, c);
    SameSkelAt(t, b, b1, p1);
    PutOther(t, b1, p2, p1, r);
    PutSkel(t, b1, p2, r);
    var b2 := Put(b1, p2, r);
    SameSkelTrans(t, b, b1, b2);
    PutTwice(b2, p1, c, c);
    PutHasConst(b2, p1, c);
    if Normal(b) {
      PutNormal(t, b, p1, c);
      PutNormal(t, b, p2, c);
      JoinNormal(t, At(b, p1), At(b, p2));
      PutNormal(t, b1, p2, r);
    }
    forall env: Env | WellTyped(env) ensures Eval(b2, env) == Eval(b, env) {
      JoinValue(t, At(b, p1), At(b, p2), env);
      assert TypedAt(env, Neutral(t));
      PutPairValue(t, b, p1, p2, c, r, env);
    }
  }

  lemma EffectJoined(t: ExprType, root: Expr, base: Path, p1: Path, p2: Path, n: nat)
    requires t.Junction() && Valid(root, base) && At(root, base).Type() == t
    requires LeafSlot(t, At(root, base), p1) && LeafSlot(t, At(root, base), p2) && p1 != p2
    requires Join(t, At(At(root, base), p1), At(At(root, base), p2)).Some?
    ensures Valid(root, base + p1) && Valid(Put(root, base + p1, Symbol(Neutral(t))), base + p2)
    ensures var r := Join(t, At(At(root, base), p1), At(At(root, base), p2)).value;
      Effect(true, t, root, Put(Put(root, base + p1, Symbol(Neutral(t))), base + p2, r), base, n, n + 1)
  {
    var b, c := At(root, base), Symbol(Neutral(t));
    var r := Join(t, At(b, p1), At(b, p2)).value;
    JoinedPass(t, b, p1, p2, n);
    PutOther(t, b, p1, p2, c);
    SlotOfSlot(root, base, p1);
    var root1 := Put(root, base + p1, c);
    SlotOfSlot(root1, base, p2);
    PutTwice(root, base, Put(b, p1, c), Joined(t, b, p1, p2, r));
  }

  /** The slots below a slot that holds a node of type t. */
  lemma Descend(t: ExprType, root: Expr, base: Path, p: Path)
    requires t.Junction() && Valid(root, base) && InSkel(t, At(root, base), p) && At(At(root, base), p).Type() == t
    ensures InSkel(t, At(root, base), p + [L]) && InSkel(t, At(root, base), p + [R])
    ensures Nodes(t, At(At(root, base), p + [L])) < Nodes(t, At(At(root, base), p))
    ensures Nodes(t, At(At(root, base), p + [R])) < Nodes(t, At(At(root, base), p))
  {
    SkelStep(t, At(root, base), p);
  }

  /** An operand slot other than the base itself; JoinFree of an operand is about its own operands. */
  lemma OperandAt(t: ExprType, root: Expr, base: Path, p: Path)
    requires t.Junction() && Valid(root, base) && At(root, base).Type() == t && LeafSlot(t, At(root, base), p)
    ensures Valid(root, base + p) && At(root, base + p) == At(At(root, base), p)
    ensures InSkel(t, At(root, base), p) && p != [] && At(root, base + p).Size() < At(root, base).Size()
    ensures var x := At(root, base + p);
      JoinFree(x) <==> (x.Type().Junction() ==> JoinFreePairs(x.Type(), x, [], []))
    ensures var x := At(root, base + p); x.Type().Junction() ==> InSkel(x.Type(), x, [])
  {
    SlotAt(root, base, p);
  }

  lemma IsLeafSlot(t: ExprType, b: Expr, p: Path)
    requires t.Junction() && InSkel(t, b, p) && At(b, p).Type() != t
    ensures LeafSlot(t, b, p)
  {
  }

  // ----- how pairs of slots are covered -----

  lemma SplitFirst(t: ExprType, b: Expr, p1: Path, p2: Path)
    requires t.Junction() && InSkel(t, b, p1) && At(b, p1).Type() == t
    requires JoinFreePairs(t, b, p1 + [L], p2) && JoinFreePairs(t, b, p1 + [R], p2)
    ensures JoinFreePairs(t, b, p1, p2)
  {
    forall q: Path | p1 <= q && LeafSlot(t, b, q) ensures p1 + [L] <= q || p1 + [R] <= q { PrefixStep(p1, q); }
  }

  lemma SplitSecond(t: ExprType, b: Expr, p1: Path, p2: Path)
    requires t.Junction() && InSkel(t, b, p2) && At(b, p2).Type() == t
    requires JoinFreePairs(t, b, p1, p2 + [L]) && JoinFreePairs(t, b, p1, p2 + [R])
    ensures JoinFreePairs(t, b, p1, p2)
  {
    forall q: Path | p2 <= q && LeafSlot(t, b, q) ensures p2 + [L] <= q || p2 + [R] <= q { PrefixStep(p2, q); }
  }

  /** Two operand slots: only the pair itself is below them. */
  lemma OnePair(t: ExprType, b: Expr, p1: Path, p2: Path)
    requires t.Junction() && LeafSlot(t, b, p1) && LeafSlot(t, b, p2)
    requires p1 != p2 ==> Join(t, At(b, p1), At(b, p2)).None? && JoinFree(At(b, p1))
    ensures JoinFreePairs(t, b, p1, p2)
  {
    forall q: Path | p1 <= q && LeafSlot(t, b, q) ensures q == p1 { LeafOnly(t, b, p1, q); }
    forall q: Path | p2 <= q && LeafSlot(t, b, q) ensures q == p2 { LeafOnly(t, b, p2, q); }
  }

  /** Two passes that cover the two slots below p1. */
  lemma BothFirst(t: ExprType, r0: Expr, r1: Expr, r2: Expr, base: Path, p1: Path, p2: Path, n0: nat, n1: nat, n2: nat)
    requires t.Junction() && Valid(r0, base) && InSkel(t, At(r0, base), p1) && At(At(r0, base), p1).Type() == t
    requires Effect(true, t, r0, r1, base, n0, n1) && Effect(true, t, r1, r2, base, n1, n2)
    requires n1 == n0 ==> JoinFreePairs(t, At(r1, base), p1 + [L], p2)
    requires n2 == n1 ==> JoinFreePairs(t, At(r2, base), p1 + [R], p2)
    ensures Effect(true, t, r0, r2, base, n0, n2)
    ensures n2 == n0 ==> JoinFreePairs(t, At(r2, base), p1, p2)
  {
    EffectTrans(true, t, r0, r1, r2, base, n0, n1, n2);
    if n2 == n0 { SplitFirst(t, At(r0, base), p1, p2); }
  }

  /** Two passes that cover the two slots below p2. */
  lemma BothSecond(t: ExprType, r0: Expr, r1: Expr, r2: Expr, base: Path, p1: Path, p2: Path, n0: nat, n1: nat, n2: nat)
    requires t.Junction() && Valid(r0, base) && InSkel(t, At(r0, base), p2) && At(At(r0, base), p2).Type() == t
    requires Effect(true, t, r0, r1, base, n0, n1) && Effect(true, t, r1, r2, base, n1, n2)
    requires n1 == n0 ==> JoinFreePairs(t, At(r1, base), p1, p2 + [L])
    requires n2 == n1 ==> JoinFreePairs(t, At(r2, base), p1, p2 + [R])
    ensures Effect(true, t, r0, r2, base, n0, n2)
    ensures n2 == n0 ==> JoinFreePairs(t, At(r2, base), p1, p2)
  {
    EffectTrans(true, t, r0, r1, r2, base, n0, n1, n2);
    if n2 == n0 { SplitSecond(t, At(r0, base), p1, p2); }
  }

  // ----- the pairs of expr_eliminate_dups2 -----

  lemma FreeFirst(t: ExprType, b: Expr, p1: Path, p2: Path)
    requires t.Junction() && InSkel(t, b, p1) && At(b, p1).Type() == t
    requires ContradictionFreePairs(t, b, p1 + [L], p2) && ContradictionFreePairs(t, b, p1 + [R], p2)
    ensures ContradictionFreePairs(t, b, p1, p2)
  {
    forall q: Path | p1 <= q && LeafSlot(t, b, q) ensures p1 + [L] <= q || p1 + [R] <= q { PrefixStep(p1, q); }
  }

  /** What expr_eliminate_dups2 has established about one pair of different slots. */
  ghost predicate PairTested(t: ExprType, b: Expr, p1: Path, p2: Path)
    requires t.Junction() && LeafSlot(t, b, p1) && InSkel(t, b, p2)
  {
    At(b, p1).Type().Junction() ==> !Contradicts(t, At(b, p1), At(b, p2)) && ContradictionFree(At(b, p1))
  }

  lemma FreeSecond(t: ExprType, b: Expr, p1: Path, p2: Path)
    requires t.Junction() && LeafSlot(t, b, p1) && InSkel(t, b, p2) && At(b, p2).Type() == t
    requires ContradictionFreePairs(t, b, p1, p2 + [L]) && ContradictionFreePairs(t, b, p1, p2 + [R])
    requires PairTested(t, b, p1, p2)
    ensures ContradictionFreePairs(t, b, p1, p2)
  {
    forall q: Path | p1 <= q && LeafSlot(t, b, q) ensures q == p1 { LeafOnly(t, b, p1, q); }
    forall q: Path | p2 <= q && InSkel(t, b, q) ensures q == p2 || p2 + [L] <= q || p2 + [R] <= q {
      if q != p2 { PrefixStep(p2, q); }
    }
  }

  lemma FreeOne(t: ExprType, b: Expr, p1: Path, p2: Path)
    requires t.Junction() && LeafSlot(t, b, p1) && LeafSlot(t, b, p2)
    requires p1 != p2 ==> PairTested(t, b, p1, p2)
    ensures ContradictionFreePairs(t, b, p1, p2)
  {
    forall q: Path | p1 <= q && LeafSlot(t, b, q) ensures q == p1 { LeafOnly(t, b, p1, q); }
    forall q: Path | p2 <= q && InSkel(t, b, q) ensures q == p2 { LeafOnly(t, b, p2, q); }
  }

  lemma BothFirst2(t: ExprType, r0: Expr, r1: Expr, r2: Expr, base: Path, p1: Path, p2: Path, n0: nat, n1: nat, n2: nat)
    requires t.Junction() && Valid(r0, base) && InSkel(t, At(r0, base), p1) && At(At(r0, base), p1).Type() == t
    requires Effect(false, t, r0, r1, base, n0, n1) && Effect(false, t, r1, r2, base, n1, n2)
    requires n1 == n0 ==> ContradictionFreePairs(t, At(r1, base), p1 + [L], p2)
    requires n2 == n1 ==> ContradictionFreePairs(t, At(r2, base), p1 + [R], p2)
    ensures Effect(false, t, r0, r2, base, n0, n2)
    ensures n2 == n0 ==> ContradictionFreePairs(t, At(r2, base), p1, p2)
  {
    EffectTrans(false, t, r0, r1, r2, base, n0, n1, n2);
    if n2 == n0 { FreeFirst(t, At(r0, base), p1, p2); }
  }

  lemma ThreeSecond2(t: ExprType, r0: Expr, r1: Expr, r2: Expr, r3: Expr, base: Path, p1: Path, p2: Path,
                     n0: nat, n1: nat, n2: nat, n3: nat)
    requires t.Junction() && Valid(r0, base) && LeafSlot(t, At(r0, base), p1)
    requires InSkel(t, At(r0, base), p2) && At(At(r0, base), p2).Type() == t
    requires Effect(false, t, r0, r1, base, n0, n1) && Effect(false, t, r1, r2, base, n1, n2)
    requires Effect(false, t, r2, r3, base, n2, n3)
    requires n1 == n0 ==> ContradictionFreePairs(t, At(r1, base), p1, p2 + [L])
    requires n2 == n1 ==> ContradictionFreePairs(t, At(r2, base), p1, p2 + [R])
    requires LeafSlot(t, At(r3, base), p1) && InSkel(t, At(r3, base), p2)
    requires n3 == n2 ==> PairTested(t, At(r3, base), p1, p2)
    ensures Effect(false, t, r0, r3, base, n0, n3)
    ensures n3 == n0 ==> ContradictionFreePairs(t, At(r3, base), p1, p2)
  {
    EffectTrans(false, t, r0, r1, r2, base, n0, n1, n2);
    EffectTrans(false, t, r0, r2, r3, base, n0, n2, n3);
    if n3 == n0 { FreeSecond(t, At(r0, base), p1, p2); }
  }

  lemma ContradictedValue(t: ExprType, b: Expr, p1: Path, p2: Path, env: Env)
    requires WellTyped(env) && t.Junction() && LeafSlot(t, b, p1) && InSkel(t, b, p2)
    requires Contradicts(t, At(b, p1), At(b, p2))
    ensures Eval(b, env) == MOD || Eval(Put(b, p1, Symbol(Neutral(t.Dual()))), env) == Eval(b, env)
  {
    var c := Symbol(Neutral(t.Dual()));
    ContradictsValue(t, At(b, p1), At(b, p2), env);
    RestValue(t, b, p1, c, env);
    RestValue(t, b, p2, c, env);
    assert TypedAt(env, Neutral(t.Dual()));
  }

  /** Replacing a contradicted operand by the constant that absorbs the junction. */
  lemma EffectContradicted(t: ExprType, root: Expr, base: Path, p1: Path, p2: Path, n: nat)
    requires t.Junction() && Valid(root, base) && At(root, base).Type() == t
    requires LeafSlot(t, At(root, base), p1) && InSkel(t, At(root, base), p2)
    requires Contradicts(t, At(At(root, base), p1), At(At(root, base), p2))
    ensures Valid(root, base + p1)
    ensures Effect(false, t, root, Put(root, base + p1, Symbol(Neutral(t.Dual()))), base, n, n + 1)
  {
    var b, c := At(root, base), Symbol(Neutral(t.Dual()));
    SlotOfSlot(root, base, p1);
    PutSkel(t, b, p1, c);
    PutHasConst(b, p1, c);
    if Normal(b) { PutNormal(t, b, p1, c); }
    assert Sharpens(b, Put(b, p1, c)) by {
      forall env: Env | WellTyped(env) { ContradictedValue(t, b, p1, p2, env); }
    }
  }

  /** The end of a test of a pair that changed nothing. */
  lemma Tested(t: ExprType, root: Expr, base: Path, p1: Path, p2: Path)
    requires t.Junction() && Valid(root, base) && LeafSlot(t, At(root, base), p1) && InSkel(t, At(root, base), p2)
    requires Valid(root, base + p1) && At(root, base + p1) == At(At(root, base), p1)
    requires Valid(root, base + p2) && At(root, base + p2) == At(At(root, base), p2)
    ensures var x, y := At(root, base + p1), At(root, base + p2);
      && (Contradicts(t, x, y) <==> Extract(t, Transform(Not(x)), y).a == Symbol(Neutral(t)))
      && (x.Type().Junction() ==> x.Type() == t.Dual())
      && (!x.Type().Junction() || (!Contradicts(t, x, y) && ContradictionFreePairs(x.Type(), x, [], [])) ==>
           PairTested(t, At(root, base), p1, p2))
  {
  }

  // ----- the whole loop -----

  /** One round: dups1 then dups2 on the root. If either counted, dropping constants shrinks the tree;
      if neither did, the tree is as before. */
  lemma RoundEffect(t: ExprType, r0: Expr, r1: Expr, r2: Expr, n1: nat, n2: nat)
    requires t.Junction() && Effect(true, t, r0, r1, [], 0, n1) && Effect(false, t, r1, r2, [], n1, n2)
    ensures Sharpens(r0, r2) && r2.Size() <= r0.Size() && n1 <= n2 && (Normal(r0) ==> Normal(r2))
    ensures if n2 == 0 then r2 == r1 == r0 else Yn(r2).Size() < r0.Size()
    ensures r1.Type() == r0.Type()
  {
    YnExact(r2);
  }

  lemma RoundStart(e: Expr)
    ensures Valid(e, []) && At(e, []) == e
    ensures e.Type().Junction() ==> InSkel(e.Type(), e, [])
    ensures JoinFree(e) <==> (e.Type().Junction() ==> JoinFreePairs(e.Type(), e, [], []))
    ensures ContradictionFree(e) <==> (e.Type().Junction() ==> ContradictionFreePairs(e.Type(), e, [], []))
    ensures Sharpens(e, e)
  {
  }

  lemma YnSharpens(a: Expr, b: Expr)
    requires Sharpens(a, b)
    ensures Sharpens(a, Yn(b))
  {
    forall env: Env | WellTyped(env) { YnValue(b, env); }
  }

  lemma SharpensTrans(a: Expr, b: Expr, c: Expr)
    requires Sharpens(a, b) && Sharpens(b, c)
    ensures Sharpens(a, c)
  {
  }

  // ----- the passes as functions -----

  /** A rewritten tree and the increase of trans_count. */
  datatype Passed = Passed(root: Expr, count: nat)

  lemma PassRefl(exact: bool, t: ExprType, b: Expr)
    requires t.Junction()
    ensures Pass(exact, t, b, b, 0, 0)
  {
    SameSkelRefl(t, b);
  }

  lemma PassAdd(exact: bool, t: ExprType, b: Expr, x: Expr, y: Expr, m: nat, n: nat)
    requires t.Junction() && Pass(exact, t, b, x, 0, m) && Pass(exact, t, x, y, 0, n)
    ensures Pass(exact, t, b, y, 0, m + n)
  {
    SameSkelTrans(t, b, x, y);
  }

  /** Where a slot is after a pass. */
  lemma PassSlot(exact: bool, t: ExprType, b: Expr, x: Expr, n: nat, p: Path)
    requires t.Junction() && Pass(exact, t, b, x, 0, n) && InSkel(t, b, p)
    ensures x.Type() == b.Type() && x.Size() <= b.Size() && InSkel(t, x, p)
    ensures Nodes(t, At(x, p)) == Nodes(t, At(b, p)) && (LeafSlot(t, x, p) <==> LeafSlot(t, b, p))
    ensures n == 0 ==> x == b
  {
    SameSkelAt(t, b, x, p);
  }

  lemma SlotsBelow(t: ExprType, b: Expr, p: Path)
    requires t.Junction() && InSkel(t, b, p) && At(b, p).Type() == t
    ensures InSkel(t, b, p + [L]) && InSkel(t, b, p + [R])
    ensures Nodes(t, At(b, p + [L])) < Nodes(t, At(b, p)) && Nodes(t, At(b, p + [R])) < Nodes(t, At(b, p))
  {
    SkelStep(t, b, p);
  }

  lemma OperandFacts(t: ExprType, b: Expr, p: Path)
    requires t.Junction() && b.Type() == t && LeafSlot(t, b, p)
    ensures p != [] && At(b, p).Size() < b.Size()
    ensures var k := At(b, p).Type(); k.Junction() ==> k == t.Dual() && InSkel(k, At(b, p), [])
  {
  }

  /** A pass over the operand in slot p, seen from above. */
  lemma PassInside(exact: bool, t: ExprType, b: Expr, p: Path, x: Expr, n: nat)
    requires t.Junction() && b.Type() == t && LeafSlot(t, b, p) && At(b, p).Type().Junction()
    requires Pass(exact, At(b, p).Type(), At(b, p), x, 0, n)
    ensures Pass(exact, t, b, Put(b, p, x), 0, n)
  {
    PutSkel(t, b, p, x);
    PutEquiv(t, b, p, x);
    if Normal(b) { PutNormal(t, b, p, x); }
    if n == 0 { PutTwice(b, p, x, x); } else { PutHasConst(b, p, x); }
  }

  /** expr_eliminate_dups1 on the tree below the slot of the aliased call. */
  function Dups1Of(t: ExprType, b: Expr, p1: Path, p2: Path): (r: Passed)
    requires t.Junction() && b.Type() == t && InSkel(t, b, p1) && InSkel(t, b, p2)
    ensures Pass(true, t, b, r.root, 0, r.count)
    decreases b.Size(), Nodes(t, At(b, p1)), Nodes(t, At(b, p2)), 2
  {
    if At(b, p1).Type() == t then
      SlotsBelow(t, b, p1);
      var x := Dups1Of(t, b, p1 + [L], p2);
      PassSlot(true, t, b, x.root, x.count, p1 + [R]);
      PassSlot(true, t, b, x.root, x.count, p2);
      var y := Dups1Of(t, x.root, p1 + [R], p2);
      PassAdd(true, t, b, x.root, y.root, x.count, y.count);
      Passed(y.root, x.count + y.count)
    else if At(b, p2).Type() == t then
      SlotsBelow(t, b, p2);
      var x := Dups1Of(t, b, p1, p2 + [L]);
      PassSlot(true, t, b, x.root, x.count, p1);
      PassSlot(true, t, b, x.root, x.count, p2 + [R]);
      var y := Dups1Of(t, x.root, p1, p2 + [R]);
      PassAdd(true, t, b, x.root, y.root, x.count, y.count);
      Passed(y.root, x.count + y.count)
    else Dups1PairOf(t, b, p1, p2)
  }

  function Dups1PairOf(t: ExprType, b: Expr, p1: Path, p2: Path): (r: Passed)
    requires t.Junction() && b.Type() == t && LeafSlot(t, b, p1) && LeafSlot(t, b, p2)
    ensures Pass(true, t, b, r.root, 0, r.count)
    decreases b.Size(), Nodes(t, At(b, p1)), Nodes(t, At(b, p2)), 1
  {
    if p1 == p2 then
      PassRefl(true, t, b);
      Passed(b, 0)
    else
      var x := OperandPassed(t, b, p1);
      PassSlot(true, t, b, x.root, x.count, p1);
      PassSlot(true, t, b, x.root, x.count, p2);
      var j := Join(t, At(x.root, p1), At(x.root, p2));
      if j.None? then x
      else
        JoinedPass(t, x.root, p1, p2, 0);
        PassAdd(true, t, b, x.root, Joined(t, x.root, p1, p2, j.value), x.count, 1);
        Passed(Joined(t, x.root, p1, p2, j.value), x.count + 1)
  }

  /** The operand in slot p, treated by itself if it is a junction. */
  function OperandPassed(t: ExprType, b: Expr, p: Path): (r: Passed)
    requires t.Junction() && b.Type() == t && LeafSlot(t, b, p)
    ensures Pass(true, t, b, r.root, 0, r.count)
    decreases b.Size(), 0, 0, 0
  {
    var k := At(b, p).Type();
    OperandFacts(t, b, p);
    if k.Junction() then
      var i := Dups1Of(k, At(b, p), [], []);
      PassInside(true, t, b, p, i.root, i.count);
      Passed(Put(b, p, i.root), i.count)
    else
      PassRefl(true, t, b);
      Passed(b, 0)
  }

  /** expr_eliminate_dups2 */
  function Dups2Of(t: ExprType, b: Expr, p1: Path, p2: Path): (r: Passed)
    requires t.Junction() && b.Type() == t && InSkel(t, b, p1) && InSkel(t, b, p2)
    ensures Pass(false, t, b, r.root, 0, r.count)
    decreases b.Size(), Nodes(t, At(b, p1)), Nodes(t, At(b, p2)), 1
  {
    if At(b, p1).Type() == t then
      SlotsBelow(t, b, p1);
      var x := Dups2Of(t, b, p1 + [L], p2);
      PassSlot(false, t, b, x.root, x.count, p1 + [R]);
      PassSlot(false, t, b, x.root, x.count, p2);
      var y := Dups2Of(t, x.root, p1 + [R], p2);
      PassAdd(false, t, b, x.root, y.root, x.count, y.count);
      Passed(y.root, x.count + y.count)
    else if At(b, p2).Type() == t then
      SlotsBelow(t, b, p2);
      var x := Dups2Of(t, b, p1, p2 + [L]);
      PassSlot(false, t, b, x.root, x.count, p1);
      PassSlot(false, t, b, x.root, x.count, p2 + [R]);
      var y := Dups2Of(t, x.root, p1, p2 + [R]);
      PassAdd(false, t, b, x.root, y.root, x.count, y.count);
      PassSlot(false, t, b, y.root, x.count + y.count, p1);
      PassSlot(false, t, b, y.root, x.count + y.count, p2);
      var z := Dups2TestOf(t, y.root, p1, p2);
      PassAdd(false, t, b, y.root, z.root, x.count + y.count, z.count);
      Passed(z.root, x.count + y.count + z.count)
    else if p1 != p2 then Dups2TestOf(t, b, p1, p2)
    else
      PassRefl(false, t, b);
      Passed(b, 0)
  }

  function Dups2TestOf(t: ExprType, b: Expr, p1: Path, p2: Path): (r: Passed)
    requires t.Junction() && b.Type() == t && LeafSlot(t, b, p1) && InSkel(t, b, p2)
    ensures Pass(false, t, b, r.root, 0, r.count)
    decreases b.Size(), Nodes(t, At(b, p1)), Nodes(t, At(b, p2)), 0
  {
    var k := At(b, p1).Type();
    OperandFacts(t, b, p1);
    if !k.Junction() then
      PassRefl(false, t, b);
      Passed(b, 0)
    else
      var i := Dups2Of(k, At(b, p1), [], []);
      PassInside(false, t, b, p1, i.root, i.count);
      var x := Put(b, p1, i.root);
      PassSlot(false, t, b, x, i.count, p1);
      PassSlot(false, t, b, x, i.count, p2);
      if Contradicts(t, At(x, p1), At(x, p2)) then
        ContradictedPass(t, x, p1, p2);
        PassAdd(false, t, b, x, Put(x, p1, Symbol(Neutral(k))), i.count, 1);
        Passed(Put(x, p1, Symbol(Neutral(k))), i.count + 1)
      else Passed(x, i.count)
  }

  lemma ContradictedPass(t: ExprType, b: Expr, p1: Path, p2: Path)
    requires t.Junction() && b.Type() == t && LeafSlot(t, b, p1) && InSkel(t, b, p2)
    requires Contradicts(t, At(b, p1), At(b, p2))
    ensures Pass(false, t, b, Put(b, p1, Symbol(Neutral(t.Dual()))), 0, 1)
  {
    hide Contradicts;
    EffectContradicted(t, b, [], p1, p2, 0);
    assert [] + p1 == p1;
  }

  /** expr_eliminate_dups */
  function EliminateDupsOf(e: Expr): (r: Expr)
    decreases e.Size()
  {
    if !e.Type().Junction() then e
    else
      var x := Dups1Of(e.Type(), e, [], []);
      var y := Dups2Of(e.Type(), x.root, [], []);
      if x.count + y.count == 0 then e
      else
        RoundShrinks(e, x, y);
        EliminateDupsOf(Yn(y.root))
  }

  lemma RoundShrinks(e: Expr, x: Passed, y: Passed)
    requires e.Type().Junction() && Pass(true, e.Type(), e, x.root, 0, x.count)
    requires Pass(false, e.Type(), x.root, y.root, 0, y.count) && x.count + y.count > 0
    ensures Yn(y.root).Size() < e.Size()
  {
    YnExact(y.root);
  }

  /** What the program has done to root when the pass on the tree below base gives r. */
  ghost predicate Ran(root: Expr, root': Expr, base: Path, n: nat, n': nat, r: Passed)
    requires Valid(root, base)
  {
    root' == Put(root, base, r.root) && n' == n + r.count
  }

  lemma RanAt(root: Expr, root': Expr, base: Path, n: nat, n': nat, r: Passed)
    requires Valid(root, base) && Ran(root, root', base, n, n', r)
    ensures Valid(root', base) && At(root', base) == r.root
  {
  }

  lemma RanRoot(root: Expr, root': Expr, n: nat, n': nat, r: Passed)
    requires Valid(root, []) && Ran(root, root', [], n, n', r)
    ensures root' == r.root && n' == n + r.count
  {
  }

  lemma RanRefl(root: Expr, base: Path, n: nat)
    requires Valid(root, base)
    ensures Ran(root, root, base, n, n, Passed(At(root, base), 0))
  {
    PutTwice(root, base, root, root);
  }

  lemma RanAdd(r0: Expr, r1: Expr, r2: Expr, base: Path, n0: nat, n1: nat, n2: nat, x: Passed, y: Passed)
    requires Valid(r0, base) && Ran(r0, r1, base, n0, n1, x) && Valid(r1, base) && Ran(r1, r2, base, n1, n2, y)
    ensures Ran(r0, r2, base, n0, n2, Passed(y.root, x.count + y.count))
  {
    PutTwice(r0, base, x.root, y.root);
  }

  lemma RanInside(root: Expr, root': Expr, base: Path, p: Path, n: nat, n': nat, r: Passed)
    requires Valid(root, base) && Valid(At(root, base), p) && Valid(root, base + p) && Ran(root, root', base + p, n, n', r)
    ensures Ran(root, root', base, n, n', Passed(Put(At(root, base), p, r.root), r.count))
  {
    SlotOfSlot(root, base, p);
  }

  /** Storing the join. */
  lemma RanJoined(t: ExprType, root: Expr, base: Path, p1: Path, p2: Path, n: nat, j: Expr)
    requires t.Junction() && Valid(root, base)
    requires LeafSlot(t, At(root, base), p1) && LeafSlot(t, At(root, base), p2) && p1 != p2
    requires Valid(root, base + p1) && Valid(Put(root, base + p1, Symbol(Neutral(t))), base + p2)
    ensures Ran(root, Put(Put(root, base + p1, Symbol(Neutral(t))), base + p2, j), base, n, n + 1,
                Passed(Joined(t, At(root, base), p1, p2, j), 1))
  {
    var b, c := At(root, base), Symbol(Neutral(t));
    PutOther(t, b, p1, p2, c);
    SlotOfSlot(root, base, p1);
    var root1 := Put(root, base + p1, c);
    SlotOfSlot(root1, base, p2);
    PutTwice(root, base, Put(b, p1, c), Joined(t, b, p1, p2, j));
  }

  // the functions one step at a time

  lemma Dups1First(t: ExprType, b: Expr, p1: Path, p2: Path)
    requires t.Junction() && b.Type() == t && InSkel(t, b, p1) && InSkel(t, b, p2) && At(b, p1).Type() == t
    ensures InSkel(t, b, p1 + [L])
    ensures var x := Dups1Of(t, b, p1 + [L], p2);
      && x.root.Type() == t && InSkel(t, x.root, p1 + [R]) && InSkel(t, x.root, p2)
      && var y := Dups1Of(t, x.root, p1 + [R], p2); Dups1Of(t, b, p1, p2) == Passed(y.root, x.count + y.count)
  {
    hide Pass, Put, Nodes, At, InSkel, LeafSlot, SameSkel, Dups1PairOf, OperandPassed, Join, Joined, Keeps;
    SlotsBelow(t, b, p1);
    var x := Dups1Of(t, b, p1 + [L], p2);
    PassSlot(true, t, b, x.root, x.count, p1 + [R]);
    PassSlot(true, t, b, x.root, x.count, p2);
  }

  lemma Dups1Second(t: ExprType, b: Expr, p1: Path, p2: Path)
    requires t.Junction() && b.Type() == t && InSkel(t, b, p1) && InSkel(t, b, p2)
    requires At(b, p1).Type() != t && At(b, p2).Type() == t
    ensures InSkel(t, b, p2 + [L])
    ensures var x := Dups1Of(t, b, p1, p2 + [L]);
      && x.root.Type() == t && InSkel(t, x.root, p1) && InSkel(t, x.root, p2 + [R])
      && var y := Dups1Of(t, x.root, p1, p2 + [R]); Dups1Of(t, b, p1, p2) == Passed(y.root, x.count + y.count)
  {
    hide Pass, Put, Nodes, At, InSkel, LeafSlot, SameSkel, Dups1PairOf, OperandPassed, Join, Joined, Keeps;
    SlotsBelow(t, b, p2);
    var x := Dups1Of(t, b, p1, p2 + [L]);
    PassSlot(true, t, b, x.root, x.count, p1);
    PassSlot(true, t, b, x.root, x.count, p2 + [R]);
  }

  lemma Dups1Both(t: ExprType, b: Expr, p1: Path, p2: Path)
    requires t.Junction() && b.Type() == t && LeafSlot(t, b, p1) && LeafSlot(t, b, p2)
    ensures Dups1Of(t, b, p1, p2) == Dups1PairOf(t, b, p1, p2)
    ensures p1 == p2 ==> Dups1PairOf(t, b, p1, p2) == Passed(b, 0)
    ensures var x := OperandPassed(t, b, p1);
      p1 != p2 ==>
        && LeafSlot(t, x.root, p1) && LeafSlot(t, x.root, p2)
        && var j := Join(t, At(x.root, p1), At(x.root, p2));
          Dups1PairOf(t, b, p1, p2) == if j.None? then x else Passed(Joined(t, x.root, p1, p2, j.value), x.count + 1)
  {
    var x := OperandPassed(t, b, p1);
    PassSlot(true, t, b, x.root, x.count, p1);
    PassSlot(true, t, b, x.root, x.count, p2);
  }

  lemma OperandCases(t: ExprType, b: Expr, p: Path)
    requires t.Junction() && b.Type() == t && LeafSlot(t, b, p)
    ensures var k := At(b, p).Type();
      if k.Junction() then
        InSkel(k, At(b, p), []) && var i := Dups1Of(k, At(b, p), [], []);
          OperandPassed(t, b, p) == Passed(Put(b, p, i.root), i.count)
      else OperandPassed(t, b, p) == Passed(b, 0)
  {
    OperandFacts(t, b, p);
  }

  lemma Dups2First(t: ExprType, b: Expr, p1: Path, p2: Path)
    requires t.Junction() && b.Type() == t && InSkel(t, b, p1) && InSkel(t, b, p2) && At(b, p1).Type() == t
    ensures InSkel(t, b, p1 + [L])
    ensures var x := Dups2Of(t, b, p1 + [L], p2);
      && x.root.Type() == t && InSkel(t, x.root, p1 + [R]) && InSkel(t, x.root, p2)
      && var y := Dups2Of(t, x.root, p1 + [R], p2); Dups2Of(t, b, p1, p2) == Passed(y.root, x.count + y.count)
  {
    hide Pass, Put, Nodes, At, InSkel, LeafSlot, SameSkel, Dups2TestOf, Contradicts, Keeps;
    SlotsBelow(t, b, p1);
    var x := Dups2Of(t, b, p1 + [L], p2);
    PassSlot(false, t, b, x.root, x.count, p1 + [R]);
    PassSlot(false, t, b, x.root, x.count, p2);
  }

  lemma Dups2Second(t: ExprType, b: Expr, p1: Path, p2: Path)
    requires t.Junction() && b.Type() == t && InSkel(t, b, p1) && InSkel(t, b, p2)
    requires At(b, p1).Type() != t && At(b, p2).Type() == t
    ensures InSkel(t, b, p2 + [L])
    ensures var x := Dups2Of(t, b, p1, p2 + [L]);
      && x.root.Type() == t && InSkel(t, x.root, p1) && InSkel(t, x.root, p2 + [R])
      && var y := Dups2Of(t, x.root, p1, p2 + [R]);
      && y.root.Type() == t && LeafSlot(t, y.root, p1) && InSkel(t, y.root, p2)
      && var z := Dups2TestOf(t, y.root, p1, p2); Dups2Of(t, b, p1, p2) == Passed(z.root, x.count + y.count + z.count)
  {
    hide Pass, Put, Nodes, At, InSkel, LeafSlot, SameSkel, Dups2TestOf, Contradicts, Keeps;
    IsLeafSlot(t, b, p1);
    SlotsBelow(t, b, p2);
    var x := Dups2Of(t, b, p1, p2 + [L]);
    PassSlot(false, t, b, x.root, x.count, p1);
    PassSlot(false, t, b, x.root, x.count, p2 + [R]);
    var y := Dups2Of(t, x.root, p1, p2 + [R]);
    PassSlot(false, t, x.root, y.root, y.count, p1);
    PassAdd(false, t, b, x.root, y.root, x.count, y.count);
    PassSlot(false, t, b, y.root, x.count + y.count, p2);
  }

  lemma Dups2Both(t: ExprType, b: Expr, p1: Path, p2: Path)
    requires t.Junction() && b.Type() == t && LeafSlot(t, b, p1) && LeafSlot(t, b, p2)
    ensures Dups2Of(t, b, p1, p2) == if p1 != p2 then Dups2TestOf(t, b, p1, p2) else Passed(b, 0)
  {
  }

  lemma Dups2TestCases(t: ExprType, b: Expr, p1: Path, p2: Path)
    requires t.Junction() && b.Type() == t && LeafSlot(t, b, p1) && InSkel(t, b, p2)
    ensures var k := At(b, p1).Type();
      if !k.Junction() then Dups2TestOf(t, b, p1, p2) == Passed(b, 0)
      else
        InSkel(k, At(b, p1), []) && var i := Dups2Of(k, At(b, p1), [], []); var x := Put(b, p1, i.root);
        && LeafSlot(t, x, p1) && InSkel(t, x, p2)
        && Dups2TestOf(t, b, p1, p2) ==
             if Contradicts(t, At(x, p1), At(x, p2)) then Passed(Put(x, p1, Symbol(Neutral(k))), i.count + 1)
             else Passed(x, i.count)
  {
    hide Pass, Nodes, Contradicts;
    var k := At(b, p1).Type();
    OperandFacts(t, b, p1);
    if k.Junction() {
      var i := Dups2Of(k, At(b, p1), [], []);
      PassInside(false, t, b, p1, i.root, i.count);
      var x := Put(b, p1, i.root);
      PassSlot(false, t, b, x, i.count, p1);
      PassSlot(false, t, b, x, i.count, p2);
    }
  }

  /** Storing one constant. */
  lemma RanContradicted(t: ExprType, root: Expr, base: Path, p: Path, n: nat, c: Expr)
    requires t.Junction() && Valid(root, base) && LeafSlot(t, At(root, base), p) && Valid(root, base + p)
    ensures Ran(root, Put(root, base + p, c), base, n, n + 1, Passed(Put(At(root, base), p, c), 1))
  {
    SlotOfSlot(root, base, p);
  }

  lemma DupsCases(e: Expr)
    ensures !e.Type().Junction() ==> EliminateDupsOf(e) == e
    ensures e.Type().Junction() ==>
      var x := Dups1Of(e.Type(), e, [], []);
      && x.root.Type() == e.Type() && InSkel(e.Type(), x.root, [])
      && var y := Dups2Of(e.Type(), x.root, [], []);
         EliminateDupsOf(e) == if x.count + y.count == 0 then e else EliminateDupsOf(Yn(y.root))
  {
    hide Dups1Of, Dups2Of, Yn;
  }

  /** The global trans_count, and the expression whose address expr_eliminate_dups passes around. */
  class Simplifier {
    var root: Expr
    var transCount: nat

    constructor (e: Expr)
      ensures root == e && transCount == 0
    {
      root := e;
      transCount := 0;
    }

    /** expr_eliminate_dups1 on the slots p1 and p2 below base, the slot of the aliased call. */
    method Dups1(t: ExprType, base: Path, p1: Path, p2: Path)
      requires t.Junction() && Valid(root, base) && At(root, base).Type() == t
      requires InSkel(t, At(root, base), p1) && InSkel(t, At(root, base), p2)
      modifies this
      ensures Effect(true, t, old(root), root, base, old(transCount), transCount)
      ensures transCount == old(transCount) ==> JoinFreePairs(t, At(root, base), p1, p2)
      ensures Ran(old(root), root, base, old(transCount), transCount, Dups1Of(t, At(old(root), base), p1, p2))
      decreases At(root, base).Size(), Nodes(t, At(At(root, base), p1)), Nodes(t, At(At(root, base), p2)), 1
    {
      hide *;
      ghost var r0, n0 := root, transCount;
      SlotAt(root, base, p1);
      SlotAt(root, base, p2);
      if At(root, base + p1).Type() == t {
        Descend(t, r0, base, p1);
        Dups1(t, base, p1 + [L], p2);
        ghost var r1, n1 := root, transCount;
        EffectSlot(true, t, r0, r1, base, p1 + [R], n0, n1);
        EffectSlot(true, t, r0, r1, base, p2, n0, n1);
        Dups1(t, base, p1 + [R], p2);
        BothFirst(t, r0, r1, root, base, p1, p2, n0, n1, transCount);
        Dups1First(t, At(r0, base), p1, p2);
        ghost var x := Dups1Of(t, At(r0, base), p1 + [L], p2);
        RanAt(r0, r1, base, n0, n1, x);
        RanAdd(r0, r1, root, base, n0, n1, transCount, x, Dups1Of(t, x.root, p1 + [R], p2));
      } else if At(root, base + p2).Type() == t {
        Descend(t, r0, base, p2);
        Dups1(t, base, p1, p2 + [L]);
        ghost var r1, n1 := root, transCount;
        EffectSlot(true, t, r0, r1, base, p1, n0, n1);
        EffectSlot(true, t, r0, r1, base, p2 + [R], n0, n1);
        Dups1(t, base, p1, p2 + [R]);
        BothSecond(t, r0, r1, root, base, p1, p2, n0, n1, transCount);
        Dups1Second(t, At(r0, base), p1, p2);
        ghost var x := Dups1Of(t, At(r0, base), p1, p2 + [L]);
        RanAt(r0, r1, base, n0, n1, x);
        RanAdd(r0, r1, root, base, n0, n1, transCount, x, Dups1Of(t, x.root, p1, p2 + [R]));
      } else {
        IsLeafSlot(t, At(root, base), p1);
        IsLeafSlot(t, At(root, base), p2);
        Dups1Both(t, At(root, base), p1, p2);
        Dups1Operands(t, base, p1, p2);
      }
    }

    /** The rest of expr_eliminate_dups1, where both slots hold operands. */
    method Dups1Operands(t: ExprType, base: Path, p1: Path, p2: Path)
      requires t.Junction() && Valid(root, base) && At(root, base).Type() == t
      requires LeafSlot(t, At(root, base), p1) && LeafSlot(t, At(root, base), p2)
      modifies this
      ensures Effect(true, t, old(root), root, base, old(transCount), transCount)
      ensures transCount == old(transCount) ==> JoinFreePairs(t, At(root, base), p1, p2)
      ensures Ran(old(root), root, base, old(transCount), transCount, Dups1PairOf(t, At(old(root), base), p1, p2))
      decreases At(root, base).Size(), Nodes(t, At(At(root, base), p1)), Nodes(t, At(At(root, base), p2)), 0
    {
      hide *;
      ghost var r0, n0 := root, transCount;
      EffectRefl(true, t, root, base, n0);
      RanRefl(root, base, n0);
      OperandAt(t, root, base, p1);
      OperandAt(t, root, base, p2);
      ghost var b := At(root, base);
      Dups1Both(t, b, p1, p2);
      OperandCases(t, b, p1);
      if p1 == p2 {
        OnePair(t, At(root, base), p1, p2);
        return;
      }
      if At(root, base + p1).Type().Junction() {
        Dups1(At(root, base + p1).Type(), base + p1, [], []);
        EffectInside(true, t, r0, root, base, p1, n0, transCount);
        RanInside(r0, root, base, p1, n0, transCount, Dups1Of(At(b, p1).Type(), At(b, p1), [], []));
      }
      ghost var r1, n1, x := root, transCount, OperandPassed(t, b, p1);
      RanAt(r0, r1, base, n0, n1, x);
      EffectSlot(true, t, r0, r1, base, p1, n0, n1);
      EffectSlot(true, t, r0, r1, base, p2, n0, n1);
      var tmp := Join(t, At(root, base + p1), At(root, base + p2));
      if tmp.Some? {
        EffectJoined(t, root, base, p1, p2, n1);
        RanJoined(t, root, base, p1, p2, n1, tmp.value);
        root := Put(root, base + p1, Symbol(Neutral(t)));
        root := Put(root, base + p2, tmp.value);
        transCount := transCount + 1;
        EffectTrans(true, t, r0, r1, root, base, n0, n1, transCount);
        EffectSlot(true, t, r1, root, base, [], n1, transCount);
        RanAdd(r0, r1, root, base, n0, n1, transCount, x, Passed(Joined(t, x.root, p1, p2, tmp.value), 1));
      } else if transCount == n0 {
        OnePair(t, At(root, base), p1, p2);
      }
    }

    /** expr_eliminate_dups2. Unlike dups1 it goes on to the pair itself after the operands of e2. */
    method Dups2(t: ExprType, base: Path, p1: Path, p2: Path)
      requires t.Junction() && Valid(root, base) && At(root, base).Type() == t
      requires InSkel(t, At(root, base), p1) && InSkel(t, At(root, base), p2)
      modifies this
      ensures Effect(false, t, old(root), root, base, old(transCount), transCount)
      ensures transCount == old(transCount) ==> ContradictionFreePairs(t, At(root, base), p1, p2)
      ensures Ran(old(root), root, base, old(transCount), transCount, Dups2Of(t, At(old(root), base), p1, p2))
      decreases At(root, base).Size(), Nodes(t, At(At(root, base), p1)), Nodes(t, At(At(root, base), p2)), 1
    {
      hide *;
      ghost var r0, n0 := root, transCount;
      SlotAt(root, base, p1);
      SlotAt(root, base, p2);
      if At(root, base + p1).Type() == t {
        Descend(t, r0, base, p1);
        Dups2(t, base, p1 + [L], p2);
        ghost var r1, n1 := root, transCount;
        EffectSlot(false, t, r0, r1, base, p1 + [R], n0, n1);
        EffectSlot(false, t, r0, r1, base, p2, n0, n1);
        Dups2(t, base, p1 + [R], p2);
        BothFirst2(t, r0, r1, root, base, p1, p2, n0, n1, transCount);
        Dups2First(t, At(r0, base), p1, p2);
        ghost var x := Dups2Of(t, At(r0, base), p1 + [L], p2);
        RanAt(r0, r1, base, n0, n1, x);
        RanAdd(r0, r1, root, base, n0, n1, transCount, x, Dups2Of(t, x.root, p1 + [R], p2));
        return;
      }
      IsLeafSlot(t, At(root, base), p1);
      if At(root, base + p2).Type() == t {
        Descend(t, r0, base, p2);
        Dups2(t, base, p1, p2 + [L]);
        ghost var r1, n1 := root, transCount;
        EffectSlot(false, t, r0, r1, base, p1, n0, n1);
        EffectSlot(false, t, r0, r1, base, p2 + [R], n0, n1);
        EffectSlot(false, t, r0, r1, base, p2, n0, n1);
        Dups2(t, base, p1, p2 + [R]);
        ghost var r2, n2 := root, transCount;
        EffectSlot(false, t, r1, r2, base, p1, n1, n2);
        EffectSlot(false, t, r1, r2, base, p2, n1, n2);
        Dups2Test(t, base, p1, p2);
        ThreeSecond2(t, r0, r1, r2, root, base, p1, p2, n0, n1, n2, transCount);
        Dups2Second(t, At(r0, base), p1, p2);
        ghost var x := Dups2Of(t, At(r0, base), p1, p2 + [L]);
        RanAt(r0, r1, base, n0, n1, x);
        ghost var y := Dups2Of(t, x.root, p1, p2 + [R]);
        RanAt(r1, r2, base, n1, n2, y);
        RanAdd(r0, r1, r2, base, n0, n1, n2, x, y);
        RanAdd(r0, r2, root, base, n0, n2, transCount, Passed(y.root, x.count + y.count), Dups2TestOf(t, y.root, p1, p2));
      } else if p1 != p2 {
        IsLeafSlot(t, At(root, base), p2);
        Dups2Both(t, At(root, base), p1, p2);
        Dups2Test(t, base, p1, p2);
        EffectSlot(false, t, r0, root, base, p2, n0, transCount);
        if transCount == n0 { FreeOne(t, At(root, base), p1, p2); }
      } else {
        EffectRefl(false, t, root, base, n0);
        RanRefl(root, base, n0);
        Dups2Both(t, At(root, base), p1, p2);
        FreeOne(t, At(root, base), p1, p2);
      }
    }

    /** The rest of expr_eliminate_dups2 for two different slots, the first holding an operand. */
    method Dups2Test(t: ExprType, base: Path, p1: Path, p2: Path)
      requires t.Junction() && Valid(root, base) && At(root, base).Type() == t && p1 != p2
      requires LeafSlot(t, At(root, base), p1) && InSkel(t, At(root, base), p2)
      modifies this
      ensures Effect(false, t, old(root), root, base, old(transCount), transCount)
      ensures LeafSlot(t, At(root, base), p1) && InSkel(t, At(root, base), p2)
      ensures transCount == old(transCount) ==> PairTested(t, At(root, base), p1, p2)
      ensures Ran(old(root), root, base, old(transCount), transCount, Dups2TestOf(t, At(old(root), base), p1, p2))
      decreases At(root, base).Size(), Nodes(t, At(At(root, base), p1)), Nodes(t, At(At(root, base), p2)), 0
    {
      hide *;
      ghost var r0, n0 := root, transCount;
      EffectRefl(false, t, root, base, n0);
      RanRefl(root, base, n0);
      OperandAt(t, root, base, p1);
      SlotAt(root, base, p2);
      Tested(t, root, base, p1, p2);
      ghost var b := At(root, base);
      Dups2TestCases(t, b, p1, p2);
      if !At(root, base + p1).Type().Junction() {
        return;
      }
      var k := At(root, base + p1).Type();
      Dups2(k, base + p1, [], []);
      EffectInside(false, t, r0, root, base, p1, n0, transCount);
      ghost var r1, n1, i := root, transCount, Dups2Of(k, At(b, p1), [], []);
      RanInside(r0, r1, base, p1, n0, n1, i);
      RanAt(r0, r1, base, n0, n1, Passed(Put(b, p1, i.root), i.count));
      EffectSlot(false, k, r0, r1, base + p1, [], n0, n1);
      EffectSlot(false, t, r0, r1, base, p1, n0, n1);
      EffectSlot(false, t, r0, r1, base, p2, n0, n1);
      Tested(t, root, base, p1, p2);
      var tmp := Extract(t, Transform(Not(At(root, base + p1))), At(root, base + p2));
      if tmp.a == Symbol(Neutral(t)) {
        EffectContradicted(t, root, base, p1, p2, n1);
        RanContradicted(t, root, base, p1, n1, Symbol(Neutral(k)));
        root := Put(root, base + p1, Symbol(Neutral(k)));
        transCount := transCount + 1;
        EffectTrans(false, t, r0, r1, root, base, n0, n1, transCount);
        EffectSlot(false, t, r1, root, base, p1, n1, transCount);
        EffectSlot(false, t, r1, root, base, p2, n1, transCount);
        RanAdd(r0, r1, root, base, n0, n1, transCount, Passed(Put(b, p1, i.root), i.count),
               Passed(Put(Put(b, p1, i.root), p1, Symbol(Neutral(k))), 1));
      }
    }

    /** expr_eliminate_dups. The result has the value of the input wherever that is y or n; only an m
        may have become n or y. No two operands of it can be merged any more. */
    method EliminateDups()
      modifies this
      ensures transCount == old(transCount)
      ensures Sharpens(old(root), root)
      ensures root.Size() <= old(root).Size()
      ensures Normal(old(root)) ==> Normal(root)
      ensures JoinFree(root) && ContradictionFree(root)
      ensures root == EliminateDupsOf(old(root))
    {
      hide *;
      var oldcount := transCount;
      RoundStart(root);
      while true
        invariant Sharpens(old(root), root) && root.Size() <= old(root).Size()
        invariant Normal(old(root)) ==> Normal(root)
        invariant EliminateDupsOf(root) == EliminateDupsOf(old(root))
        decreases root.Size()
      {
        ghost var r0 := root;
        transCount := 0;
        RoundStart(root);
        if root.Type().Junction() {
          DupsCases(root);
          Dups1(root.Type(), [], [], []);
          ghost var r1, n1 := root, transCount;
          RanRoot(r0, r1, 0, n1, Dups1Of(r0.Type(), r0, [], []));
          EffectSlot(true, r0.Type(), r0, r1, [], [], 0, n1);
          RoundStart(root);
          Dups2(root.Type(), [], [], []);
          RoundEffect(r0.Type(), r0, r1, root, n1, transCount);
          RanRoot(r1, root, n1, transCount, Dups2Of(r0.Type(), r1, [], []));
          SharpensTrans(old(root), r0, root);
        }
        if transCount == 0 {
          DupsCases(root);
          break;
        }
        YnSharpens(old(root), root);
        if Normal(root) { YnNormal(root); }
        root := Yn(root);
      }
      transCount := oldcount;
    }
  }
}
