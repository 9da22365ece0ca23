/** struct expr as it is in memory: nodes that the rewriting functions change, relink and reuse in
    place. Each method is proved to turn the tree it is given into what the function of the same name in
    the value model says. */
module ExprNodes {
  import opened Exprs
  import opened EliminateYn
  import opened ExprEquality
  import opened ExprTransform

  class Node {
    var kind: ExprType
    var left: Node?
    var right: Node?
    var lsym: Sym
    var rsym: Sym
    ghost var repr: set<Node>

    constructor Leaf(s: Sym)
      ensures Valid() && fresh(repr) && Model() == Symbol(s)
    {
      kind, left, right, lsym, rsym := TSymbol, null, null, s, SymNo;
      repr := {this};
    }

    /** A node without children, as expr_copy allocates it. */
    constructor Comparison(t: ExprType, s: Sym, v: Sym)
      requires t == TSymbol || t == TEqual || t == TUnequal
      ensures Valid() && fresh(repr)
      ensures Model() == (if t == TSymbol then Symbol(s) else if t == TEqual then Equal(s, v) else Unequal(s, v))
    {
      kind, left, right, lsym, rsym := t, null, null, s, v;
      repr := {this};
    }

    /** expr_alloc_one for NOT. */
    constructor Negation(e: Node)
      requires e.Valid()
      ensures Valid() && repr == {this} + e.repr && fresh(this) && Model() == Not(e.Model())
    {
      kind, left, right, lsym, rsym := TNot, e, null, SymNo, SymNo;
      repr := {this} + e.repr;
    }

    /** The node and everything below it form a tree, all of it in repr. */
    ghost predicate Valid()
      reads this, repr
      decreases repr
    {
      && this in repr
      && (kind == TNot || kind.Junction() ==>
            left != null && left in repr && this !in left.repr && left.repr < repr && left.Valid())
      && (kind.Junction() ==>
            right != null && right in repr && this !in right.repr && right.repr < repr && right.Valid()
            && left.repr !! right.repr)
    }

    ghost function Model(): Expr
      reads this, repr
      requires Valid()
      decreases repr
    {
      match kind
      case TSymbol => Symbol(lsym)
      case TEqual => Equal(lsym, rsym)
      case TUnequal => Unequal(lsym, rsym)
      case TNot => Not(left.Model())
      case TAnd => And(left.Model(), right.Model())
      case TOr => Or(left.Model(), right.Model())
    }

    /** *e = *n for a node n below e: e takes over the fields of n. */
    method TakeOver(n: Node)
      requires n.Valid() && this !in n.repr
      modifies this
      ensures Valid() && repr == {this} + (n.repr - {n}) && Model() == old(n.Model())
    {
      kind, left, right, lsym, rsym := n.kind, n.left, n.right, n.lsym, n.rsym;
      repr := {this} + (n.repr - {n});
    }

    method BecomeSymbol(s: Sym)
      modifies this
      ensures Valid() && repr == {this} && Model() == Symbol(s)
    {
      kind, lsym, right := TSymbol, s, null;
      repr := {this};
    }

    /** expr_eliminate_yn on a junction whose operands have been treated. */
    method CollapseNode()
      requires Valid() && kind.Junction()
      modifies this
      ensures Valid() && repr <= old(repr)
      ensures Model() == Collapse(old(kind), old(left.Model()), old(right.Model()))
    {
      var absorbing, neutral := Neutral(kind.Dual()), Neutral(kind);
      if left.kind == TSymbol && left.lsym == absorbing {
        BecomeSymbol(absorbing);
      } else if left.kind == TSymbol && left.lsym == neutral {
        TakeOver(right);
      } else if right.kind == TSymbol && right.lsym == absorbing {
        BecomeSymbol(absorbing);
      } else if right.kind == TSymbol && right.lsym == neutral {
        TakeOver(left);
      }
    }

    /** e->left.expr = expr_eliminate_yn(e->left.expr) */
    method EliminateLeft()
      requires Valid() && kind.Junction()
      modifies this`repr, left.repr
      ensures Valid() && repr <= old(repr) && kind == old(kind)
      ensures left.Model() == Yn(old(left.Model())) && right.Model() == old(right.Model())
      decreases repr, 0
    {
      hide Yn;
      ghost var r := right.repr;
      left.EliminateYn();
      assert right.Valid() && right.repr == r;
      repr := {this} + left.repr + right.repr;
    }

    method EliminateRight()
      requires Valid() && kind.Junction()
      modifies this`repr, right.repr
      ensures Valid() && repr <= old(repr) && kind == old(kind)
      ensures right.Model() == Yn(old(right.Model())) && left.Model() == old(left.Model())
      decreases repr, 0
    {
      hide Yn;
      ghost var l := left.repr;
      right.EliminateYn();
      assert left.Valid() && left.repr == l;
      repr := {this} + left.repr + right.repr;
    }

    /** expr_eliminate_yn; it always returns the node it was given. */
    method EliminateYn()
      requires Valid()
      modifies repr
      ensures Valid() && repr <= old(repr)
      ensures Model() == Yn(old(Model()))
      decreases repr, 1
    {
      if kind.Junction() {
        hide Yn, Collapse;
        YnOfJunction(Model());
        EliminateLeft();
        EliminateRight();
        CollapseNode();
      }
    }

    // ----- expr_transform -----

    /** e->left.expr = expr_transform(e->left.expr), for a junction and for a negation */
    method TransformLeft()
      requires Valid() && kind.Junction()
      modifies this`left, this`repr, left.repr
      ensures Valid() && fresh(repr - old(repr)) && kind == old(kind)
      ensures left.Model() == Transform(old(left.Model()))
      ensures right == old(right) && right.Model() == old(right.Model())
      decreases Weight(left.Model()), 2
    {
      hide Transform, Weight;
      ghost var r := right.repr;
      left := left.TransformNode();
      assert right.Valid() && right.repr == r;
      repr := {this} + left.repr + right.repr;
    }

    method TransformOperand()
      requires Valid() && kind == TNot
      modifies this`left, this`repr, left.repr
      ensures Valid() && fresh(repr - old(repr)) && kind == TNot
      ensures left.Model() == Transform(old(left.Model()))
      decreases Weight(left.Model()), 2
    {
      hide Transform, Weight;
      left := left.TransformNode();
      repr := {this} + left.repr;
    }

    method TransformRight()
      requires Valid() && kind.Junction()
      modifies this`right, this`repr, right.repr
      ensures Valid() && fresh(repr - old(repr)) && kind == old(kind)
      ensures right.Model() == Transform(old(right.Model()))
      ensures left.Model() == old(left.Model())
      decreases Weight(right.Model()), 2
    {
      hide Transform, Weight;
      ghost var l := left.repr;
      right := right.TransformNode();
      assert left.Valid() && left.repr == l;
      repr := {this} + left.repr + right.repr;
    }

    /** A comparison of a boolean becomes the symbol or its negation, in the same node. */
    method TransformComparison()
      requires Valid() && (kind == TEqual || kind == TUnequal)
      modifies this
      ensures Valid() && fresh(repr - {this}) && Model() == Transform(old(Model()))
    {
      if lsym.Type() != SBoolean {
        repr := {this};
        return;
      }
      if rsym == (if kind == TEqual then SymNo else SymYes) {
        kind, right := TNot, null;
        left := new Node.Leaf(lsym);
        repr := {this} + left.repr;
      } else if rsym == SymMod {
        BecomeSymbol(if kind == TEqual then SymNo else SymYes);
      } else if rsym == (if kind == TEqual then SymYes else SymNo) {
        BecomeSymbol(lsym);
      } else {
        repr := {this};
      }
    }

    /** A junction turned into the negation of its left operand. */
    method NegateLeft()
      requires Valid() && kind.Junction()
      modifies this
      ensures Valid() && left == old(left) && repr == {this} + left.repr && Model() == Not(old(left.Model()))
    {
      kind, right := TNot, null;
      repr := {this} + left.repr;
    }

    /** !(a || b) -> !a && !b, and the dual: the junction below becomes the first negation. */
    method PushNegation(ghost b: Expr, ghost c: Expr)
      requires Valid() && kind == TNot && left.kind.Junction() && left.Model() == Two(left.kind, b, c)
      modifies this, left
      ensures Valid() && fresh(repr - old(repr))
      ensures Model() == Negations(old(left.kind).Dual(), b, c)
    {
      hide Negations;
      var t, second := left.kind.Dual(), left.right;
      ghost var cs := second.repr;
      left.NegateLeft();
      assert second.Valid() && second.Model() == c && second.repr == cs;
      RelinkAsJunction(t, second, b, c);
    }

    /** The negation of e gets a second operand, the negation of second. */
    method RelinkAsJunction(t: ExprType, second: Node, ghost b: Expr, ghost c: Expr)
      requires t.Junction() && kind == TNot && left != null && left.Valid() && second.Valid()
      requires this !in left.repr && this !in second.repr && left.repr !! second.repr
      requires left.Model() == Not(b) && second.Model() == c
      modifies this
      ensures Valid() && fresh(repr - {this} - old(left.repr) - second.repr)
      ensures Model() == Negations(t, b, c)
    {
      hide Negations;
      var n := new Node.Negation(second);
      BecomeJunction(t, n, b, c);
    }

    method BecomeJunction(t: ExprType, n: Node, ghost b: Expr, ghost c: Expr)
      requires t.Junction() && left != null && left.Valid() && n.Valid()
      requires this !in left.repr && this !in n.repr && left.repr !! n.repr
      requires left.Model() == Not(b) && n.Model() == Not(c)
      modifies this`kind, this`right, this`repr
      ensures Valid() && left == old(left) && repr == {this} + old(left.repr) + n.repr
      ensures Model() == Two(t, Not(b), Not(c))
    {
      kind, right := t, n;
      repr := {this} + left.repr + n.repr;
    }

    /** expr_transform */
    method TransformNode() returns (r: Node)
      requires Valid()
      modifies repr
      ensures r.Valid() && fresh(r.repr - old(repr))
      ensures r.Model() == Transform(old(Model()))
      decreases Weight(Model()), 1
    {
      hide Transform, Weight, Negations;
      TransformCases(Model());
      r := this;
      if kind == TEqual || kind == TUnequal {
        TransformComparison();
      } else if kind.Junction() {
        LessWeight(Model());
        TransformLeft();
        TransformRight();
      } else if kind == TNot {
        r := TransformNegation();
      }
    }

    method TransformNegation() returns (r: Node)
      requires Valid() && kind == TNot
      modifies repr
      ensures r.Valid() && fresh(r.repr - old(repr))
      ensures r.Model() == Transform(old(Model()))
      decreases Weight(Model()), 0
    {
      hide Transform, Weight, Negations;
      NegationCases(Model());
      LessWeight(Model());
      TransformOperand();
      match left.kind
      case TNot =>
        r := left.left.TransformNode();
      case TEqual =>
        r := left;
        r.kind := TUnequal;
        r.repr := {r};
      case TUnequal =>
        r := left;
        r.kind := TEqual;
        r.repr := {r};
      case TOr =>
        PushNegation(left.Model().left, left.Model().right);
        r := TransformNode();
      case TAnd =>
        PushNegation(left.Model().left, left.Model().right);
        r := TransformNode();
      case TSymbol =>
        r := this;
        if left.lsym == SymYes {
          r := left;
          r.BecomeSymbol(SymNo);
        } else if left.lsym == SymMod {
          r := left;
          r.BecomeSymbol(SymMod);
        } else if left.lsym == SymNo {
          r := left;
          r.BecomeSymbol(SymYes);
        }
    }
  }

  // ----- expr_eq and its companions -----

  /** The global trans_count. */
  class Counter {
    var transCount: nat
  }

  /** Makes e, whose kind says so, the parent of two trees that share no nodes. */
  method Link(e: Node, left: Node, right: Node)
    requires e.kind.Junction() && left.Valid() && right.Valid()
    requires left.repr !! right.repr && e !in left.repr && e !in right.repr
    modifies e`left, e`right, e`repr
    ensures e.Valid() && e.left == left && e.right == right && e.repr == {e} + left.repr + right.repr
    ensures left.repr == old(left.repr) && right.repr == old(right.repr)
    ensures left.Valid() && left.Model() == old(left.Model())
    ensures right.Valid() && right.Model() == old(right.Model())
    ensures e.Model() == Two(e.kind, left.Model(), right.Model())
  {
    e.left, e.right := left, right;
    e.repr := {e} + left.repr + right.repr;
  }

  /** expr_copy */
  method Copy(e: Node) returns (r: Node)
    requires e.Valid()
    ensures r.Valid() && fresh(r.repr) && r.Model() == e.Model()
    decreases e.repr
  {
    hide Node.Model, Node.Valid;
    Shape(e);
    if e.kind == TNot {
      var c := Copy(e.left);
      r := new Node.Negation(c);
    } else if e.kind.Junction() {
      r := CopyJunction(e);
    } else {
      KindCases(e.kind);
      r := new Node.Comparison(e.kind, e.lsym, e.rsym);
    }
  }

  method CopyJunction(e: Node) returns (r: Node)
    requires e.Valid() && e.kind.Junction()
    ensures r.Valid() && fresh(r.repr) && r.Model() == e.Model()
    decreases e.repr, 0
  {
    hide Node.Model, Node.Valid;
    Shape(e);
    r := new Node.Leaf(e.lsym);
    var left := Copy(e.left);
    var right := Copy(e.right);
    r.kind := e.kind;
    Link(r, left, right);
  }

  /** What the kind of a node says about its model. */
  lemma Shape(n: Node)
    requires n.Valid()
    ensures n in n.repr
    ensures n.kind.Junction() ==>
      && n.left != null && n.right != null && n.left.Valid() && n.right.Valid()
      && n.left.repr !! n.right.repr && n !in n.left.repr && n !in n.right.repr
      && n.left in n.left.repr && n.right in n.right.repr
      && n.left.repr < n.repr && n.right.repr < n.repr
      && n.Model() == Two(n.kind, n.left.Model(), n.right.Model())
    ensures n.Model().Type() == n.kind
    ensures n.kind == TSymbol ==> n.Model() == Symbol(n.lsym)
    ensures n.kind == TEqual ==> n.Model() == Equal(n.lsym, n.rsym)
    ensures n.kind == TUnequal ==> n.Model() == Unequal(n.lsym, n.rsym)
    ensures n.kind == TNot ==> n.left != null && n.left.Valid() && n.left.repr < n.repr && n.Model() == Not(n.left.Model())
  {
  }

  lemma EqCases(a: Expr, b: Expr)
    ensures a.Type() != b.Type() ==> !ExprEq(a, b)
    ensures a.Not? && b.Not? ==> ExprEq(a, b) == ExprEq(a.e, b.e) && a.e.Size() + b.e.Size() < a.Size() + b.Size()
    ensures a.Type() == b.Type() && a.Type().Junction() ==>
      var c := Cancel(a, b); ExprEq(a, b) <==> c.a.Symbol? && c.b.Symbol? && c.a.sym == c.b.sym
    ensures !a.Not? && !a.Type().Junction() ==> (ExprEq(a, b) <==> a == b)
  {
    hide CancelPasses;
  }

  lemma KindCases(t: ExprType)
    ensures t.Junction() || t == TNot || t == TEqual || t == TUnequal || t == TSymbol
    ensures t.Junction() ==> t != TSymbol && t != TNot && t != TEqual && t != TUnequal
  {
  }

  /** expr_eq. It works on copies, and leaves trans_count as it was. */
  method EqualNodes(e1: Node, e2: Node, g: Counter) returns (res: bool)
    requires e1.Valid() && e2.Valid()
    modifies g
    ensures res == ExprEq(e1.Model(), e2.Model())
    ensures g.transCount == old(g.transCount)
    decreases e1.Model().Size() + e2.Model().Size(), 5
  {
    hide ExprEq, Cancel, CancelPasses, CancelRec, Yn, Node.Valid, Node.Model, Expr.Size;
    Shape(e1);
    Shape(e2);
    EqCases(e1.Model(), e2.Model());
    KindCases(e1.kind);
    if e1.kind != e2.kind {
      return false;
    }
    if e1.kind == TEqual || e1.kind == TUnequal {
      res := e1.lsym == e2.lsym && e1.rsym == e2.rsym;
    } else if e1.kind == TSymbol {
      res := e1.lsym == e2.lsym;
    } else if e1.kind == TNot {
      res := EqualNodes(e1.left, e2.left, g);
    } else {
      res := EqualJunctions(e1, e2, g);
    }
  }

  /** The two junctions cancel to one symbol each, and to the same one. */
  method EqualJunctions(e1: Node, e2: Node, g: Counter) returns (res: bool)
    requires e1.Valid() && e2.Valid()
    modifies g
    ensures var c := Cancel(e1.Model(), e2.Model());
      res == (c.a.Symbol? && c.b.Symbol? && c.a.sym == c.b.sym)
    ensures g.transCount == old(g.transCount)
    decreases e1.Model().Size() + e2.Model().Size(), 4
  {
    hide Cancel, CancelPasses, CancelRec, Yn, Node.Valid, Node.Model, Expr.Size;
    var c1 := Copy(e1);
    var c2 := Copy(e2);
    var oldCount := g.transCount;
    c1, c2 := CancelNodes(c1, c2, g);
    Shape(c1);
    Shape(c2);
    KindSymbol(c1.Model());
    KindSymbol(c2.Model());
    res := c1.kind == TSymbol && c2.kind == TSymbol && c1.lsym == c2.lsym;
    g.transCount := oldCount;
  }

  lemma KindSymbol(e: Expr)
    ensures e.Type() == TSymbol <==> e.Symbol?
  {
  }

  /** Two trees that share no nodes, seen before and after their slots have been rewritten. */
  twostate predicate Rewritten(e1: Node, e2: Node, new r1: Node, new r2: Node)
    reads r1, r2, r1.repr, r2.repr
  {
    && r1.Valid() && r2.Valid() && r1.repr !! r2.repr
    && fresh(r1.repr - old(e1.repr)) && fresh(r2.repr - old(e2.repr))
  }

  lemma CancelCases(a: Expr, b: Expr)
    ensures var r := CancelPasses(a, b); Cancel(a, b) == Cancelled(Yn(r.a), Yn(r.b), r.count)
  {
  }

  lemma PassCases(a: Expr, b: Expr)
    ensures var r1 := if a.Type().Junction() then CancelRec(a.Type(), a, b) else Cancelled(a, b, 0);
      var r2 := if r1.a.Type() != r1.b.Type() && r1.b.Type().Junction() then CancelRec(r1.b.Type(), r1.a, r1.b)
                else Cancelled(r1.a, r1.b, 0);
      && CancelPasses(a, b) == Cancelled(r2.a, r2.b, r1.count + r2.count)
      && r1.a.Size() <= a.Size() && r1.b.Size() <= b.Size()
  {
    hide CancelRec;
  }

  /** expr_eliminate_eq */
  method CancelNodes(e1: Node, e2: Node, g: Counter) returns (r1: Node, r2: Node)
    requires e1.Valid() && e2.Valid() && e1.repr !! e2.repr
    modifies e1.repr, e2.repr, g
    ensures Rewritten(e1, e2, r1, r2)
    ensures var c := Cancel(old(e1.Model()), old(e2.Model()));
      r1.Model() == c.a && r2.Model() == c.b && g.transCount == old(g.transCount) + c.count
    decreases e1.Model().Size() + e2.Model().Size(), 3
  {
    hide CancelRec, Yn, Cancel, CancelPasses, Node.Valid, Node.Model, Expr.Size;
    CancelCases(e1.Model(), e2.Model());
    r1, r2 := CancelPassNodes(e1, e2, g);
    Shape(r1);
    Shape(r2);
    ghost var s2 := r2.repr;
    r1.EliminateYn();
    assert r2.Valid() && r2.repr == s2;
    Shape(r1);
    ghost var s1 := r1.repr;
    r2.EliminateYn();
    assert r1.Valid() && r1.repr == s1;
  }

  /** The two switch statements of expr_eliminate_eq. */
  method CancelPassNodes(e1: Node, e2: Node, g: Counter) returns (r1: Node, r2: Node)
    requires e1.Valid() && e2.Valid() && e1.repr !! e2.repr
    modifies e1.repr, e2.repr, g
    ensures Rewritten(e1, e2, r1, r2)
    ensures var c := CancelPasses(old(e1.Model()), old(e2.Model()));
      r1.Model() == c.a && r2.Model() == c.b && g.transCount == old(g.transCount) + c.count
    decreases e1.Model().Size() + e2.Model().Size(), 2
  {
    hide CancelRec, CancelPasses, Node.Valid, Node.Model, Expr.Size;
    PassCases(e1.Model(), e2.Model());
    Shape(e1);
    r1, r2 := e1, e2;
    if r1.kind.Junction() {
      r1, r2 := CancelRecNodes(r1.kind, r1, r2, g);
    }
    Shape(r1);
    Shape(r2);
    if r1.kind != r2.kind && r2.kind.Junction() {
      r1, r2 := CancelRecNodes(r2.kind, r1, r2, g);
    }
  }

  lemma LeafCases(t: ExprType, a: Expr, b: Expr)
    requires t.Junction() && a.Type() != t && b.Type() != t
    ensures CancelRec(t, a, b) ==
      if (a == b && IsYn(a)) || !ExprEq(a, b) then Cancelled(a, b, 0)
      else Cancelled(Symbol(Neutral(t)), Symbol(Neutral(t)), 1)
    ensures a == b && IsYn(a) <==> a.Type() == TSymbol && b.Type() == TSymbol && a.sym == b.sym && (a.sym == SymYes || a.sym == SymNo)
  {
  }

  /** __expr_eliminate_eq; the caller stores the results in the two slots. */
  method CancelRecNodes(t: ExprType, e1: Node, e2: Node, g: Counter) returns (r1: Node, r2: Node)
    requires t.Junction() && e1.Valid() && e2.Valid() && e1.repr !! e2.repr
    modifies e1.repr, e2.repr, g
    ensures Rewritten(e1, e2, r1, r2)
    ensures var c := CancelRec(t, old(e1.Model()), old(e2.Model()));
      r1.Model() == c.a && r2.Model() == c.b && g.transCount == old(g.transCount) + c.count
    decreases e1.Model().Size() + e2.Model().Size(), if e1.kind == t || e2.kind == t then 1 else 6
  {
    hide CancelRec, ExprEq, Node.Valid, Node.Model;
    Shape(e1);
    Shape(e2);
    r1, r2 := e1, e2;
    if e1.kind == t {
      r2 := CancelFirst(t, e1, e2, g);
    } else if e2.kind == t {
      r1 := CancelSecond(t, e1, e2, g);
    } else {
      LeafCases(t, e1.Model(), e2.Model());
      if e1.kind == TSymbol && e2.kind == TSymbol && e1.lsym == e2.lsym && (e1.lsym == SymYes || e1.lsym == SymNo) {
        return;
      }
      var eq := EqualNodes(e1, e2, g);
      if eq {
        g.transCount := g.transCount + 1;
        r1 := new Node.Leaf(Neutral(t));
        r2 := new Node.Leaf(Neutral(t));
      }
    }
  }

  /** Both operand slots of e1 against the slot of e2. */
  method CancelFirst(t: ExprType, e1: Node, e2: Node, g: Counter) returns (r2: Node)
    requires t.Junction() && e1.Valid() && e2.Valid() && e1.repr !! e2.repr && e1.kind == t
    modifies e1.repr, e2.repr, g
    ensures Rewritten(e1, e2, e1, r2)
    ensures var c := CancelRec(t, old(e1.Model()), old(e2.Model()));
      e1.Model() == c.a && r2.Model() == c.b && g.transCount == old(g.transCount) + c.count
    decreases e1.Model().Size() + e2.Model().Size(), 0
  {
    hide CancelRec, Node.Valid, Node.Model, Expr.Size;
    Shape(e1);
    CancelFirstStep(t, e1.Model(), e2.Model());
    r2 := CancelLeftOf(t, e1, e2, g);
    Shape(e1);
    r2 := CancelRightOf(t, e1, r2, g);
    Shape(e1);
  }

  method CancelLeftOf(t: ExprType, e: Node, o: Node, g: Counter) returns (r: Node)
    requires t.Junction() && e.Valid() && o.Valid() && e.repr !! o.repr && e.kind == t
    modifies e`left, e`right, e`repr, e.left.repr, o.repr, g
    ensures Rewritten(e, o, e, r) && e.kind == t
    ensures e.right.Model() == old(e.right.Model())
    ensures var c := CancelRec(t, old(e.left.Model()), old(o.Model()));
      e.left.Model() == c.a && r.Model() == c.b && g.transCount == old(g.transCount) + c.count
    decreases e.left.Model().Size() + o.Model().Size(), 7
  {
    hide CancelRec, Node.Valid, Node.Model, Expr.Size;
    Shape(e);
    Shape(o);
    var right := e.right;
    ghost var kept := right.repr;
    var left;
    left, r := CancelRecNodes(t, e.left, o, g);
    assert right.Valid() && right.repr == kept;
    Link(e, left, right);
  }

  method CancelRightOf(t: ExprType, e: Node, o: Node, g: Counter) returns (r: Node)
    requires t.Junction() && e.Valid() && o.Valid() && e.repr !! o.repr && e.kind == t
    modifies e`left, e`right, e`repr, e.right.repr, o.repr, g
    ensures Rewritten(e, o, e, r) && e.kind == t
    ensures e.left.Model() == old(e.left.Model())
    ensures var c := CancelRec(t, old(e.right.Model()), old(o.Model()));
      e.right.Model() == c.a && r.Model() == c.b && g.transCount == old(g.transCount) + c.count
    decreases e.right.Model().Size() + o.Model().Size(), 7
  {
    hide CancelRec, Node.Valid, Node.Model, Expr.Size;
    Shape(e);
    Shape(o);
    var left := e.left;
    ghost var kept := left.repr;
    var right;
    right, r := CancelRecNodes(t, e.right, o, g);
    assert left.Valid() && left.repr == kept;
    Link(e, left, right);
  }

  /** Both operand slots of e2 against the slot of e1. */
  method CancelSecond(t: ExprType, e1: Node, e2: Node, g: Counter) returns (r1: Node)
    requires t.Junction() && e1.Valid() && e2.Valid() && e1.repr !! e2.repr && e1.kind != t && e2.kind == t
    modifies e1.repr, e2.repr, g
    ensures Rewritten(e1, e2, r1, e2)
    ensures var c := CancelRec(t, old(e1.Model()), old(e2.Model()));
      r1.Model() == c.a && e2.Model() == c.b && g.transCount == old(g.transCount) + c.count
    decreases e1.Model().Size() + e2.Model().Size(), 0
  {
    hide CancelRec, Node.Valid, Node.Model, Expr.Size;
    Shape(e1);
    Shape(e2);
    CancelSecondStep(t, e1.Model(), e2.Model());
    r1 := CancelWithLeftOf(t, e1, e2, g);
    Shape(e2);
    r1 := CancelWithRightOf(t, r1, e2, g);
    Shape(e2);
  }

  method CancelWithLeftOf(t: ExprType, o: Node, e: Node, g: Counter) returns (r: Node)
    requires t.Junction() && e.Valid() && o.Valid() && e.repr !! o.repr && e.kind == t
    modifies e`left, e`right, e`repr, e.left.repr, o.repr, g
    ensures Rewritten(o, e, r, e) && e.kind == t
    ensures e.right.Model() == old(e.right.Model())
    ensures var c := CancelRec(t, old(o.Model()), old(e.left.Model()));
      r.Model() == c.a && e.left.Model() == c.b && g.transCount == old(g.transCount) + c.count
    decreases o.Model().Size() + e.left.Model().Size(), 7
  {
    hide CancelRec, Node.Valid, Node.Model, Expr.Size;
    Shape(e);
    Shape(o);
    var right := e.right;
    ghost var kept := right.repr;
    var left;
    r, left := CancelRecNodes(t, o, e.left, g);
    assert right.Valid() && right.repr == kept;
    Link(e, left, right);
  }

  method CancelWithRightOf(t: ExprType, o: Node, e: Node, g: Counter) returns (r: Node)
    requires t.Junction() && e.Valid() && o.Valid() && e.repr !! o.repr && e.kind == t
    modifies e`left, e`right, e`repr, e.right.repr, o.repr, g
    ensures Rewritten(o, e, r, e) && e.kind == t
    ensures e.left.Model() == old(e.left.Model())
    ensures var c := CancelRec(t, old(o.Model()), old(e.right.Model()));
      r.Model() == c.a && e.right.Model() == c.b && g.transCount == old(g.transCount) + c.count
    decreases o.Model().Size() + e.right.Model().Size(), 7
  {
    hide CancelRec, Node.Valid, Node.Model, Expr.Size;
    Shape(e);
    Shape(o);
    var left := e.left;
    ghost var kept := left.repr;
    var right;
    r, right := CancelRecNodes(t, o, e.right, g);
    assert left.Valid() && left.repr == kept;
    Link(e, left, right);
  }

  lemma CancelFirstStep(t: ExprType, a: Expr, b: Expr)
    requires t.Junction() && a.Type() == t
    ensures var l := CancelRec(t, a.left, b); var r := CancelRec(t, a.right, l.b);
      && CancelRec(t, a, b) == Cancelled(Two(t, l.a, r.a), r.b, l.count + r.count)
      && l.b.Size() <= b.Size()
  {
    hide ExprEq, Yn, Collapse, Neutral, Expr.Size;
  }

  lemma CancelSecondStep(t: ExprType, a: Expr, b: Expr)
    requires t.Junction() && a.Type() != t && b.Type() == t
    ensures var l := CancelRec(t, a, b.left); var r := CancelRec(t, l.a, b.right);
      && CancelRec(t, a, b) == Cancelled(r.a, Two(t, l.b, r.b), l.count + r.count)
      && l.a.Size() <= a.Size()
  {
    hide ExprEq, Yn, Collapse, Neutral, Expr.Size;
  }

  /** Operands weigh less, and so does what a negation is turned into. */
  lemma LessWeight(e: Expr)
    ensures e.Not? ==> Weight(e.e) < Weight(e)
    ensures e.Type().Junction() ==> Weight(e.left) < Weight(e) && Weight(e.right) < Weight(e)
    ensures e.Not? ==> var x := Transform(e.e);
      && (x.Not? ==> Weight(x.e) < Weight(e))
      && (x.Or? ==> Weight(Negations(TAnd, x.left, x.right)) < Weight(e))
      && (x.And? ==> Weight(Negations(TOr, x.left, x.right)) < Weight(e))
  {
  }

  lemma TransformCases(e: Expr)
    ensures e.Symbol? ==> Transform(e) == e
    ensures e.And? ==> Transform(e) == And(Transform(e.left), Transform(e.right))
    ensures e.Or? ==> Transform(e) == Or(Transform(e.left), Transform(e.right))
  {
  }

  lemma NegationCases(e: Expr)
    requires e.Not?
    ensures Transform(e) ==
      match Transform(e.e)
      case Not(b) => Transform(b)
      case Equal(s, t) => Unequal(s, t)
      case Unequal(s, t) => Equal(s, t)
      case Or(b, c) => Transform(Negations(TAnd, b, c))
      case And(b, c) => Transform(Negations(TOr, b, c))
      case Symbol(s) =>
        if s == SymYes then Symbol(SymNo)
        else if s == SymMod then Symbol(SymMod)
        else if s == SymNo then Symbol(SymYes)
        else Not(Symbol(s))
  {
  }

  lemma YnOfJunction(e: Expr)
    ensures e.Type().Junction() ==> Yn(e) == Collapse(e.Type(), Yn(e.left), Yn(e.right))
  {
  }
}
