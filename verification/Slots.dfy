/** The operand slots a `struct expr **` points to, as paths from the root of a tree. */
module ExprSlots {
  import opened Tristates
  import opened Exprs
  import opened EliminateYn
  import opened ExprEquality

  datatype Side = L | R

  type Path = seq<Side>

  function Other(s: Side): Side { if s == L then R else L }

  function Child(e: Expr, s: Side): (r: Expr)
    requires e.Type().Junction()
    ensures r.Size() < e.Size()
  {
    if s == L then e.left else e.right
  }

  /** The path runs through junctions only. */
  predicate Valid(e: Expr, p: Path) {
    p == [] || (e.Type().Junction() && Valid(Child(e, p[0]), p[1..]))
  }

  function At(e: Expr, p: Path): (r: Expr)
    requires Valid(e, p)
    ensures r.Size() <= e.Size() && (p != [] ==> r.Size() < e.Size())
    decreases |p|
  {
    if p == [] then e else At(Child(e, p[0]), p[1..])
  }

  /** Storing through the slot. */
  function Put(e: Expr, p: Path, x: Expr): (r: Expr)
    requires Valid(e, p)
    ensures p != [] ==> r.Type() == e.Type()
    ensures Valid(r, p) && At(r, p) == x
    ensures r.Size() == e.Size() - At(e, p).Size() + x.Size()
    decreases |p|
  {
    if p == [] then x
    else if p[0] == L then Two(e.Type(), Put(e.left, p[1..], x), e.right)
    else Two(e.Type(), e.left, Put(e.right, p[1..], x))
  }

  /** p is a slot of the junction e of type t, reached through nodes of type t. */
  predicate InSkel(t: ExprType, e: Expr, p: Path)
    requires t.Junction()
    ensures InSkel(t, e, p) ==> Valid(e, p)
    decreases |p|
  {
    p == [] || (e.Type() == t && InSkel(t, Child(e, p[0]), p[1..]))
  }

  /** An operand slot of e: one of the flattened operands is there. */
  predicate LeafSlot(t: ExprType, e: Expr, p: Path)
    requires t.Junction()
  {
    InSkel(t, e, p) && At(e, p).Type() != t
  }

  /** The nodes of type t at the top of both trees are the same. */
  predicate SameSkel(t: ExprType, a: Expr, b: Expr)
    requires t.Junction()
  {
    (a.Type() == t <==> b.Type() == t)
    && (a.Type() == t ==> SameSkel(t, a.left, b.left) && SameSkel(t, a.right, b.right))
  }

  function Nodes(t: ExprType, e: Expr): nat
    requires t.Junction()
  {
    if e.Type() == t then 1 + Nodes(t, e.left) + Nodes(t, e.right) else 0
  }

  // ----- slots of slots -----

  lemma {:induction false} SlotOfSlot(e: Expr, p: Path, q: Path)
    requires Valid(e, p) && Valid(At(e, p), q)
    ensures Valid(e, p + q) && At(e, p + q) == At(At(e, p), q)
    ensures forall x :: Put(e, p + q, x) == Put(e, p, Put(At(e, p), q, x))
    decreases |p|
  {
    if p == [] {
      assert p + q == q;
    } else {
      assert (p + q)[1..] == p[1..] + q;
      SlotOfSlot(Child(e, p[0]), p[1..], q);
    }
  }

  lemma SlotAt(e: Expr, p: Path, q: Path)
    requires Valid(e, p) && Valid(At(e, p), q)
    ensures Valid(e, p + q) && At(e, p + q) == At(At(e, p), q)
  {
    SlotOfSlot(e, p, q);
  }

  lemma {:induction false} PutTwice(e: Expr, p: Path, x: Expr, y: Expr)
    requires Valid(e, p)
    ensures Put(Put(e, p, x), p, y) == Put(e, p, y)
    ensures Put(e, p, At(e, p)) == e
    decreases |p|
  {
    if p != [] { PutTwice(Child(e, p[0]), p[1..], x, y); }
  }

  /** The two slots of a node of type t. */
  lemma {:induction false} SkelStep(t: ExprType, e: Expr, p: Path)
    requires t.Junction() && InSkel(t, e, p) && At(e, p).Type() == t
    ensures InSkel(t, e, p + [L]) && At(e, p + [L]) == At(e, p).left
    ensures InSkel(t, e, p + [R]) && At(e, p + [R]) == At(e, p).right
    decreases |p|
  {
    if p == [] {
      assert p + [L] == [L] && [L][1..] == [] && p + [R] == [R] && [R][1..] == [];
    } else {
      assert (p + [L])[1..] == p[1..] + [L] && (p + [R])[1..] == p[1..] + [R];
      SkelStep(t, Child(e, p[0]), p[1..]);
    }
  }

  lemma {:induction false} SameSkelAt(t: ExprType, a: Expr, b: Expr, p: Path)
    requires t.Junction() && SameSkel(t, a, b) && InSkel(t, a, p)
    ensures InSkel(t, b, p) && SameSkel(t, At(a, p), At(b, p)) && Nodes(t, At(a, p)) == Nodes(t, At(b, p))
    decreases |p|
  {
    if p == [] {
      SameSkelNodes(t, a, b);
    } else {
      SameSkelAt(t, Child(a, p[0]), Child(b, p[0]), p[1..]);
    }
  }

  lemma {:induction false} SameSkelNodes(t: ExprType, a: Expr, b: Expr)
    requires t.Junction() && SameSkel(t, a, b)
    ensures Nodes(t, a) == Nodes(t, b)
  {
    if a.Type() == t {
      SameSkelNodes(t, a.left, b.left);
      SameSkelNodes(t, a.right, b.right);
    }
  }

  lemma {:induction false} SameSkelTrans(t: ExprType, a: Expr, b: Expr, c: Expr)
    requires t.Junction() && SameSkel(t, a, b) && SameSkel(t, b, c)
    ensures SameSkel(t, a, c)
  {
    if a.Type() == t {
      SameSkelTrans(t, a.left, b.left, c.left);
      SameSkelTrans(t, a.right, b.right, c.right);
    }
  }

  lemma {:induction false} SameSkelRefl(t: ExprType, a: Expr)
    requires t.Junction()
    ensures SameSkel(t, a, a)
  {
    if a.Type() == t {
      SameSkelRefl(t, a.left);
      SameSkelRefl(t, a.right);
    }
  }

  /** Storing another operand in an operand slot keeps the skeleton. */
  lemma {:induction false} PutSkel(t: ExprType, e: Expr, p: Path, x: Expr)
    requires t.Junction() && LeafSlot(t, e, p) && x.Type() != t
    ensures SameSkel(t, e, Put(e, p, x))
    decreases |p|
  {
    if p != [] {
      PutSkel(t, Child(e, p[0]), p[1..], x);
      SameSkelRefl(t, e.left);
      SameSkelRefl(t, e.right);
    }
  }

  /** ... and leaves the other operand slots alone. */
  lemma {:induction false} PutOther(t: ExprType, e: Expr, p: Path, q: Path, x: Expr)
    requires t.Junction() && LeafSlot(t, e, p) && LeafSlot(t, e, q) && p != q && x.Type() != t
    ensures LeafSlot(t, Put(e, p, x), q) && At(Put(e, p, x), q) == At(e, q)
    decreases |p|
  {
    if p == [] || q == [] {
      LeafIsNoInner(t, e, if p == [] then q else p);
    } else {
      PutChild(t, e, p, x);
      if p[0] == q[0] {
        assert p == [p[0]] + p[1..] && q == [q[0]] + q[1..];
        PutOther(t, Child(e, p[0]), p[1..], q[1..], x);
      }
    }
  }

  lemma PutChild(t: ExprType, e: Expr, p: Path, x: Expr)
    requires t.Junction() && InSkel(t, e, p) && p != []
    ensures var e' := Put(e, p, x);
      && e'.Type() == t && e.Type() == t
      && Child(e', p[0]) == Put(Child(e, p[0]), p[1..], x)
      && forall s :: s != p[0] ==> Child(e', s) == Child(e, s)
  {
  }

  lemma LeafIsNoInner(t: ExprType, e: Expr, q: Path)
    requires t.Junction() && InSkel(t, e, q) && e.Type() != t
    ensures q == []
  {
  }

  lemma {:induction false} PutHasConst(e: Expr, p: Path, x: Expr)
    requires Valid(e, p) && (HasConst(x) || (p != [] && IsYn(x)))
    ensures HasConst(Put(e, p, x))
    decreases |p|
  {
    if p != [] && (p[1..] != [] || HasConst(x)) { PutHasConst(Child(e, p[0]), p[1..], x); }
  }

  // ----- values -----

  /** The value of all the other operands of e. */
  function Rest(t: ExprType, e: Expr, p: Path, env: Env): Tristate
    requires t.Junction() && InSkel(t, e, p)
    decreases |p|
  {
    if p == [] then Neutral3(t)
    else Op(t, Rest(t, Child(e, p[0]), p[1..], env), Eval(Child(e, Other(p[0])), env))
  }

  lemma JunctionValue(t: ExprType, e: Expr, s: Side, env: Env)
    requires t.Junction() && e.Type() == t
    ensures Eval(e, env) == Op(t, Eval(Child(e, s), env), Eval(Child(e, Other(s)), env))
  {
  }

  lemma OpSwap(t: ExprType, a: Tristate, b: Tristate, c: Tristate)
    requires t.Junction()
    ensures Op(t, Op(t, a, b), c) == Op(t, Op(t, a, c), b)
  {
  }

  lemma {:induction false} RestValue(t: ExprType, e: Expr, p: Path, x: Expr, env: Env)
    requires t.Junction() && InSkel(t, e, p)
    ensures Eval(Put(e, p, x), env) == Op(t, Rest(t, e, p, env), Eval(x, env))
    ensures Eval(e, env) == Op(t, Rest(t, e, p, env), Eval(At(e, p), env))
    decreases |p|
  {
    if p != [] {
      var a, b, v := Child(e, p[0]), Child(e, Other(p[0])), Put(Child(e, p[0]), p[1..], x);
      RestValue(t, a, p[1..], x, env);
      JunctionValue(t, e, p[0], env);
      JunctionValue(t, Put(e, p, x), p[0], env);
      assert Child(Put(e, p, x), p[0]) == v && Child(Put(e, p, x), Other(p[0])) == b;
      OpSwap(t, Rest(t, a, p[1..], env), Eval(x, env), Eval(b, env));
      OpSwap(t, Rest(t, a, p[1..], env), Eval(At(e, p), env), Eval(b, env));
    }
  }

  /** Storing in two operand slots changes nothing if the junction of the two operands keeps its value. */
  lemma {:induction false} PutPairValue(t: ExprType, e: Expr, p: Path, q: Path, x: Expr, y: Expr, env: Env)
    requires t.Junction() && LeafSlot(t, e, p) && LeafSlot(t, e, q) && p != q && x.Type() != t
    requires Op(t, Eval(x, env), Eval(y, env)) == Op(t, Eval(At(e, p), env), Eval(At(e, q), env))
    ensures LeafSlot(t, Put(e, p, x), q)
    ensures Eval(Put(Put(e, p, x), q, y), env) == Eval(e, env)
    decreases |p|
  {
    PutOther(t, e, p, q, x);
    var e1 := Put(e, p, x);
    var e2 := Put(e1, q, y);
    JunctionValue(t, e, p[0], env);
    JunctionValue(t, e2, p[0], env);
    if p[0] == q[0] {
      assert p == [p[0]] + p[1..] && q == [q[0]] + q[1..];
      PutPairValue(t, Child(e, p[0]), p[1..], q[1..], x, y, env);
    } else {
      var a, b := Child(e, p[0]), Child(e, q[0]);
      assert Child(e2, p[0]) == Put(a, p[1..], x) && Child(e2, q[0]) == Put(b, q[1..], y);
      RestValue(t, a, p[1..], x, env);
      RestValue(t, b, q[1..], y, env);
      OpMoves(t, Rest(t, a, p[1..], env), Rest(t, b, q[1..], env), Eval(x, env), Eval(y, env));
      OpMoves(t, Rest(t, a, p[1..], env), Rest(t, b, q[1..], env), Eval(At(e, p), env), Eval(At(e, q), env));
    }
  }

  /** Same value, except that an m may have become n or y. */
  ghost predicate Sharpens(a: Expr, b: Expr) {
    forall env: Env :: WellTyped(env) ==> Eval(a, env) == MOD || Eval(b, env) == Eval(a, env)
  }

  lemma PutEquiv(t: ExprType, e: Expr, p: Path, x: Expr)
    requires t.Junction() && InSkel(t, e, p)
    ensures Equiv(At(e, p), x) ==> Equiv(e, Put(e, p, x))
    ensures Sharpens(At(e, p), x) ==> Sharpens(e, Put(e, p, x))
  {
    forall env: Env | WellTyped(env) {
      RestValue(t, e, p, x, env);
    }
  }
}
