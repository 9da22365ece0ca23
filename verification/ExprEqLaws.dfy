/** The laws of expr_eq: it is symmetric on all trees; it is not transitive, since constants may hide in
    operands; without constants it is an equivalence, and compares operands up to it. */
module ExprEqualityLaws {
  import opened Tristates
  import opened Exprs
  import opened EliminateYn
  import opened ExprEquality
  import opened ExprEqualityExact

  // ----- symmetry -----

  /** All elements of s have at most size n. */
  predicate UpTo(s: seq<Expr>, n: nat) { forall x :: x in s ==> x.Size() <= n }

  ghost predicate SymmetricUpTo(p: nat, q: nat) {
    forall x: Expr, y: Expr :: x.Size() <= p && y.Size() <= q ==> (ExprEq(x, y) <==> ExprEq(y, x))
  }

  lemma PairSwaps(t: ExprType, x: Expr, y: Expr, p: nat, q: nat)
    requires t.Junction() && SymmetricUpTo(p, q) && 1 <= p && 1 <= q && x.Size() <= p && y.Size() <= q
    ensures MatchPair(t, y, x) == (MatchPair(t, x, y).1, MatchPair(t, x, y).0)
    ensures MatchPair(t, x, y).0.Size() <= p && MatchPair(t, x, y).1.Size() <= q
  {
    hide ExprEq;
    assert ExprEq(x, y) <==> ExprEq(y, x);
  }

  lemma {:induction false} MatchOneUpTo(t: ExprType, x: Expr, ys: seq<Expr>, p: nat, q: nat)
    requires t.Junction() && 1 <= p && 1 <= q && x.Size() <= p && UpTo(ys, q)
    ensures MatchOne(t, x, ys).0.Size() <= p && UpTo(MatchOne(t, x, ys).1, q)
    decreases |ys|
  {
    hide ExprEq;
    if ys != [] {
      assert ys[0] in ys;
      MatchOneUpTo(t, MatchPair(t, x, ys[0]).0, ys[1..], p, q);
    }
  }

  /** Matching the column of y first gives the same as matching row by row. */
  lemma {:induction false} ColumnFirst(t: ExprType, xs: seq<Expr>, y: Expr, ys: seq<Expr>, p: nat, q: nat)
    requires t.Junction() && SymmetricUpTo(p, q) && 1 <= p && 1 <= q
    requires UpTo(xs, p) && y.Size() <= q && UpTo(ys, q)
    ensures var c := MatchOne(t, y, xs);
      var m := MatchAll(t, c.1, ys);
      MatchAll(t, xs, [y] + ys) == (m.0, [c.0] + m.1)
    decreases |xs|
  {
    hide ExprEq, MatchPair, SymmetricUpTo;
    if xs == [] {
      assert MatchAll(t, [], [y] + ys) == ([], [y] + ys) && MatchOne(t, y, []) == (y, []);
      assert MatchAll(t, [], ys) == ([], ys);
    } else {
      var x, rest := xs[0], xs[1..];
      assert x in xs;
      var pr := MatchPair(t, x, y);
      PairSwaps(t, x, y, p, q);
      RowSplits(t, x, y, ys);
      var row := MatchOne(t, pr.0, ys);
      MatchOneUpTo(t, pr.0, ys, p, q);
      ColumnFirst(t, rest, pr.1, row.1, p, q);
      var c := MatchOne(t, pr.1, rest);
      assert MatchOne(t, y, xs) == (c.0, [pr.0] + c.1);
      assert MatchAll(t, [pr.0] + c.1, ys) == ([row.0] + MatchAll(t, c.1, row.1).0, MatchAll(t, c.1, row.1).1) by {
        AllSplits(t, pr.0, c.1, ys);
      }
      AllSplits(t, x, rest, [y] + ys);
      assert [x] + rest == xs;
    }
  }

  lemma RowSplits(t: ExprType, x: Expr, y: Expr, ys: seq<Expr>)
    requires t.Junction()
    ensures var p := MatchPair(t, x, y); var r := MatchOne(t, p.0, ys);
      MatchOne(t, x, [y] + ys) == (r.0, [p.1] + r.1)
  {
    assert ([y] + ys)[1..] == ys;
  }

  lemma AllSplits(t: ExprType, x: Expr, rest: seq<Expr>, ys: seq<Expr>)
    requires t.Junction()
    ensures var r := MatchOne(t, x, ys); var m := MatchAll(t, rest, r.1);
      MatchAll(t, [x] + rest, ys) == ([r.0] + m.0, m.1)
  {
    assert ([x] + rest)[1..] == rest;
  }

  lemma {:induction false} MatchAllSwaps(t: ExprType, xs: seq<Expr>, ys: seq<Expr>, p: nat, q: nat)
    requires t.Junction() && SymmetricUpTo(p, q) && 1 <= p && 1 <= q && UpTo(xs, p) && UpTo(ys, q)
    ensures MatchAll(t, ys, xs) == (MatchAll(t, xs, ys).1, MatchAll(t, xs, ys).0)
    decreases |ys|
  {
    hide ExprEq, MatchPair, SymmetricUpTo;
    if ys == [] {
      NothingMatched(t, xs);
    } else {
      var y, rest := ys[0], ys[1..];
      assert y in ys && ys == [y] + rest;
      ColumnFirst(t, xs, y, rest, p, q);
      var c := MatchOne(t, y, xs);
      ColumnUpTo(t, y, xs, p, q);
      MatchAllSwaps(t, c.1, rest, p, q);
    }
  }

  lemma {:induction false} NothingMatched(t: ExprType, xs: seq<Expr>)
    requires t.Junction()
    ensures MatchAll(t, xs, []) == (xs, [])
    decreases |xs|
  {
    if xs != [] {
      NothingMatched(t, xs[1..]);
      assert MatchOne(t, xs[0], []) == (xs[0], []);
      assert [xs[0]] + xs[1..] == xs;
    }
  }

  lemma ColumnUpTo(t: ExprType, y: Expr, xs: seq<Expr>, p: nat, q: nat)
    requires t.Junction() && 1 <= p && 1 <= q && y.Size() <= q && UpTo(xs, p)
    ensures UpTo(MatchOne(t, y, xs).1, p)
  {
    MatchOneUpTo(t, y, xs, q, p);
  }

  /** The same junctions of type t, whatever the operands. */
  predicate SameShape(t: ExprType, a: Expr, b: Expr)
    requires t.Junction()
  {
    if a.Type() == t then b.Type() == t && SameShape(t, a.left, b.left) && SameShape(t, a.right, b.right)
    else b.Type() != t
  }

  lemma {:induction false} CancelRecShape(t: ExprType, a: Expr, b: Expr)
    requires t.Junction()
    ensures SameShape(t, a, CancelRec(t, a, b).a) && SameShape(t, b, CancelRec(t, a, b).b)
    decreases a.Size() + b.Size()
  {
    hide ExprEq;
    if a.Type() == t {
      var l := CancelRec(t, a.left, b);
      CancelRecShape(t, a.left, b);
      CancelRecShape(t, a.right, l.b);
      ShapeTrans(t, b, l.b, CancelRec(t, a.right, l.b).b);
    } else if b.Type() == t {
      var l := CancelRec(t, a, b.left);
      CancelRecShape(t, a, b.left);
      CancelRecShape(t, l.a, b.right);
    } else {
      ShapeRefl(t, a);
      ShapeRefl(t, b);
    }
  }

  lemma {:induction false} ShapeRefl(t: ExprType, a: Expr)
    requires t.Junction()
    ensures SameShape(t, a, a)
  {
    if a.Type() == t {
      ShapeRefl(t, a.left);
      ShapeRefl(t, a.right);
    }
  }

  lemma {:induction false} ShapeTrans(t: ExprType, a: Expr, b: Expr, c: Expr)
    requires t.Junction() && SameShape(t, a, b) && SameShape(t, b, c)
    ensures SameShape(t, a, c)
  {
    if a.Type() == t {
      ShapeTrans(t, a.left, b.left, c.left);
      ShapeTrans(t, a.right, b.right, c.right);
    }
  }

  /** A tree is determined by its shape and its operands. */
  lemma {:induction false} ShapeOperands(t: ExprType, a: Expr, b: Expr, c: Expr)
    requires t.Junction() && SameShape(t, a, b) && SameShape(t, a, c)
    ensures |Operands(t, b)| == |Operands(t, c)|
    ensures Operands(t, b) == Operands(t, c) ==> b == c
  {
    if a.Type() == t {
      ShapeOperands(t, a.left, b.left, c.left);
      ShapeOperands(t, a.right, b.right, c.right);
      var u, v := Operands(t, b.left), Operands(t, c.left);
      if Operands(t, b) == Operands(t, c) {
        assert u == Operands(t, b)[..|u|] == Operands(t, c)[..|v|] == v;
        assert Operands(t, b.right) == Operands(t, b)[|u|..] == Operands(t, c)[|v|..] == Operands(t, c.right);
      }
    }
  }

  lemma {:induction false} CancelSwaps(t: ExprType, a: Expr, b: Expr, p: nat, q: nat)
    requires t.Junction() && SymmetricUpTo(p, q) && 1 <= p && 1 <= q
    requires UpTo(Operands(t, a), p) && UpTo(Operands(t, b), q)
    ensures CancelRec(t, b, a).a == CancelRec(t, a, b).b && CancelRec(t, b, a).b == CancelRec(t, a, b).a
  {
    hide ExprEq, MatchAll, CancelRec, SymmetricUpTo, Operands;
    CancelRecMatches(t, a, b);
    CancelRecMatches(t, b, a);
    MatchAllSwaps(t, Operands(t, a), Operands(t, b), p, q);
    CancelRecShape(t, a, b);
    CancelRecShape(t, b, a);
    ShapeOperands(t, a, CancelRec(t, a, b).a, CancelRec(t, b, a).b);
    ShapeOperands(t, b, CancelRec(t, a, b).b, CancelRec(t, b, a).a);
  }

  /** expr_eq is symmetric, whatever order it matches operands in. */
  lemma {:induction false} ExprEqSymmetric(a: Expr, b: Expr)
    ensures ExprEq(a, b) <==> ExprEq(b, a)
    decreases a.Size() + b.Size()
  {
    if a.Type() == b.Type() {
      if a.Not? {
        ExprEqSymmetric(a.e, b.e);
      } else if a.Type().Junction() {
        var t, p, q := a.Type(), a.Size() - 1, b.Size() - 1;
        OperandsSmaller(t, a);
        OperandsSmaller(t, b);
        forall x: Expr, y: Expr | x.Size() <= p && y.Size() <= q ensures ExprEq(x, y) <==> ExprEq(y, x) {
          ExprEqSymmetric(x, y);
        }
        assert SymmetricUpTo(p, q);
        CancelSwaps(t, a, b, p, q);
        hide Yn, CancelRec;
      }
    }
  }

  // ----- no transitivity -----

  /** "X || n" and "W || n" hide the constant n in an operand. The first tree equals the second and the
      second the third, since one operand is left over each time and loses its constant; of the first and
      the third two are left over. */
  lemma ExprEqNotTransitive(x: Sym, w: Sym)
    requires x != w && !x.Predefined() && !w.Predefined()
    ensures var n := Symbol(SymNo);
      var p, q := Or(Symbol(x), n), Or(Symbol(w), n);
      var a, b, c := And(p, q), And(p, Symbol(w)), And(Symbol(x), Symbol(w));
      ExprEq(a, b) && ExprEq(b, c) && !ExprEq(a, c)
  {
    var n, y := Symbol(SymNo), Symbol(SymYes);
    var p, q := Or(Symbol(x), n), Or(Symbol(w), n);
    HiddenPair(p, Symbol(x), w);
    HiddenPair(Symbol(w), q, x);
    FirstMatches(p, q, Symbol(w));
    SecondMatches(p, Symbol(x), Symbol(w));
    NoneMatches(p, q, x, w);
  }

  /** An operand that hides a constant is not equal to the symbol it comes to. */
  lemma HiddenPair(p: Expr, q: Expr, x: Sym)
    requires (p.Or? && q.Symbol?) || (p.Symbol? && q.Or?)
    ensures !ExprEq(p, q) && !ExprEq(q, p)
  {
  }

  lemma FirstMatches(p: Expr, q: Expr, w: Expr)
    requires p.Or? && q.Or? && w.Symbol? && !IsYn(w) && Yn(q) == w
    ensures ExprEq(And(p, q), And(p, w))
  {
    var y := Symbol(SymYes);
    ExprEqReflexive(p);
    assert !ExprEq(y, w) && !ExprEq(q, y) && !ExprEq(q, w);
    hide ExprEq;
    assert CancelRec(TAnd, p, p) == Cancelled(y, y, 1);
    assert CancelRec(TAnd, y, w) == Cancelled(y, w, 0);
    assert CancelRec(TAnd, p, And(p, w)) == Cancelled(y, And(y, w), 1);
    assert CancelRec(TAnd, q, y) == Cancelled(q, y, 0) && CancelRec(TAnd, q, w) == Cancelled(q, w, 0);
    assert CancelRec(TAnd, q, And(y, w)) == Cancelled(q, And(y, w), 0);
    assert CancelRec(TAnd, And(p, q), And(p, w)) == Cancelled(And(y, q), And(y, w), 1);
    ConjunctionEq(And(p, q), And(p, w), And(y, q), And(y, w));
    OneLeft(q);
    OneLeft(w);
  }

  lemma SecondMatches(p: Expr, x: Expr, w: Expr)
    requires p.Or? && x.Symbol? && w.Symbol? && !IsYn(w) && !IsYn(x) && x != w && Yn(p) == x
    ensures ExprEq(And(p, w), And(x, w))
  {
    var y := Symbol(SymYes);
    assert ExprEq(w, w) && !ExprEq(p, x) && !ExprEq(p, w) && !ExprEq(w, x);
    hide ExprEq;
    assert CancelRec(TAnd, p, x) == Cancelled(p, x, 0) && CancelRec(TAnd, p, w) == Cancelled(p, w, 0);
    assert CancelRec(TAnd, p, And(x, w)) == Cancelled(p, And(x, w), 0);
    assert CancelRec(TAnd, w, x) == Cancelled(w, x, 0) && CancelRec(TAnd, w, w) == Cancelled(y, y, 1);
    assert CancelRec(TAnd, w, And(x, w)) == Cancelled(y, And(x, y), 1);
    assert CancelRec(TAnd, And(p, w), And(x, w)) == Cancelled(And(p, y), And(x, y), 1);
    ConjunctionEq(And(p, w), And(x, w), And(p, y), And(x, y));
    assert Yn(And(p, y)) == Collapse(TAnd, Yn(p), y) && Yn(And(x, y)) == Collapse(TAnd, x, y);
  }

  lemma NoneMatches(p: Expr, q: Expr, x: Sym, w: Sym)
    requires p.Or? && q.Or? && x != w && !x.Predefined() && !w.Predefined()
    requires Yn(p) == Symbol(x) && Yn(q) == Symbol(w)
    ensures !ExprEq(And(p, q), And(Symbol(x), Symbol(w)))
  {
    var c := And(Symbol(x), Symbol(w));
    assert !ExprEq(p, Symbol(x)) && !ExprEq(p, Symbol(w)) && !ExprEq(q, Symbol(x)) && !ExprEq(q, Symbol(w));
    hide ExprEq, Yn;
    NoneOfPair(p, Symbol(x), Symbol(w));
    NoneOfPair(q, Symbol(x), Symbol(w));
    CancelBoth(p, q, c);
    ConjunctionEq(And(p, q), c, And(p, q), c);
    JunctionLeft(p, q);
  }

  lemma NoneOfPair(p: Expr, x: Expr, w: Expr)
    requires !p.And? && !x.And? && !w.And? && !ExprEq(p, x) && !ExprEq(p, w)
    ensures CancelRec(TAnd, p, And(x, w)) == Cancelled(p, And(x, w), 0)
  {
    hide ExprEq;
    assert CancelRec(TAnd, p, x) == Cancelled(p, x, 0) && CancelRec(TAnd, p, w) == Cancelled(p, w, 0);
  }

  lemma CancelBoth(p: Expr, q: Expr, c: Expr)
    requires CancelRec(TAnd, p, c) == Cancelled(p, c, 0) && CancelRec(TAnd, q, c) == Cancelled(q, c, 0)
    ensures CancelRec(TAnd, And(p, q), c) == Cancelled(And(p, q), c, 0)
  {
    hide ExprEq;
  }

  lemma JunctionLeft(p: Expr, q: Expr)
    requires !IsYn(Yn(p)) && !IsYn(Yn(q))
    ensures Yn(And(p, q)).And?
  {
  }

  lemma ConjunctionEq(a: Expr, b: Expr, a': Expr, b': Expr)
    requires a.And? && b.And? && CancelRec(TAnd, a, b).a == a' && CancelRec(TAnd, a, b).b == b'
    ensures ExprEq(a, b) <==> Yn(a').Symbol? && Yn(a') == Yn(b')
  {
    hide CancelRec;
  }

  lemma OneLeft(q: Expr)
    requires !IsYn(Yn(q))
    ensures Yn(And(Symbol(SymYes), q)) == Yn(q)
  {
    assert Yn(Symbol(SymYes)) == Symbol(SymYes);
  }

  // ----- without constants -----

  /** No junction anywhere has y or n as an operand. */
  predicate ConstFree(e: Expr) {
    match e
    case Not(a) => ConstFree(a)
    case And(a, b) => !IsYn(a) && !IsYn(b) && ConstFree(a) && ConstFree(b)
    case Or(a, b) => !IsYn(a) && !IsYn(b) && ConstFree(a) && ConstFree(b)
    case _ => true
  }

  predicate Live(e: Expr) { !IsYn(e) && ConstFree(e) }

  lemma {:induction false} OperandsLive(t: ExprType, e: Expr)
    requires t.Junction() && Live(e)
    ensures forall x :: x in Operands(t, e) ==> Live(x)
  {
    if e.Type() == t {
      OperandsLive(t, e.left);
      OperandsLive(t, e.right);
    }
  }

  ghost predicate TransitiveUpTo(n: nat) {
    forall x: Expr, y: Expr, z: Expr :: Live(x) && Live(y) && Live(z) && x.Size() <= n && y.Size() <= n && z.Size() <= n ==>
      ExprEq(x, y) && ExprEq(y, z) ==> ExprEq(x, z)
  }

  /** How many elements of s are equal to e for expr_eq. */
  function Like(e: Expr, s: seq<Expr>): nat {
    if s == [] then 0 else (if ExprEq(e, s[0]) then 1 else 0) + Like(e, s[1..])
  }

  /** Operands, and the neutral constants that have taken the place of some. */
  predicate Remaining(t: ExprType, s: seq<Expr>, n: nat)
    requires t.Junction()
  {
    forall x :: x in s ==> x == Symbol(Neutral(t)) || (Live(x) && x.Size() <= n)
  }

  lemma SameClass(n: nat, e: Expr, x: Expr, y: Expr)
    requires TransitiveUpTo(n) && Live(e) && Live(x) && Live(y) && e.Size() <= n && x.Size() <= n && y.Size() <= n
    requires ExprEq(x, y)
    ensures ExprEq(e, x) <==> ExprEq(e, y)
  {
    hide ExprEq, Live;
    ExprEqSymmetric(x, y);
  }

  lemma ConstNotLive(e: Expr, t: ExprType)
    requires t.Junction() && Live(e)
    ensures !ExprEq(e, Symbol(Neutral(t)))
  {
  }

  lemma LikeCons(e: Expr, x: Expr, s: seq<Expr>)
    ensures Like(e, [x] + s) == (if ExprEq(e, x) then 1 else 0) + Like(e, s)
  {
    assert ([x] + s)[1..] == s;
  }

  lemma NoneLike(e: Expr)
    ensures Like(e, []) == 0
  {
  }

  /** An operand is matched with the first one equal to it, if any; then one fewer of its class is left. */
  lemma {:induction false} MatchOneLike(t: ExprType, x: Expr, ys: seq<Expr>, n: nat, e: Expr)
    requires t.Junction() && TransitiveUpTo(n) && Live(x) && x.Size() <= n && Remaining(t, ys, n)
    requires Live(e) && e.Size() <= n
    ensures var r, c := MatchOne(t, x, ys), Symbol(Neutral(t));
      && Remaining(t, r.1, n)
      && if Like(x, ys) > 0 then
           r.0 == c && Like(e, r.1) == Like(e, ys) - (if ExprEq(e, x) then 1 else 0)
         else r.0 == x && r.1 == ys
    decreases |ys|
  {
    hide ExprEq, Live, TransitiveUpTo, Like;
    NoneLike(e);
    NoneLike(x);
    if ys != [] {
      var y := ys[0];
      assert y in ys && ys == [y] + ys[1..];
      LikeCons(e, y, ys[1..]);
      LikeCons(x, y, ys[1..]);
      var p := MatchPair(t, x, y);
      LiveIsNoConst(x);
      LikeCons(e, p.1, MatchOne(t, p.0, ys[1..]).1);
      if ExprEq(x, y) {
        if y == Symbol(Neutral(t)) { ConstNotLive(x, t); }
        MatchOneIdle(t, p.0, ys[1..]);
        SameClass(n, e, x, y);
        ConstNotLive(e, t);
      } else {
        MatchOneLike(t, x, ys[1..], n, e);
        assert [ys[0]] + ys[1..] == ys;
      }
    }
  }

  lemma LiveIsNoConst(x: Expr)
    requires Live(x)
    ensures !IsYn(x)
  {
  }

  /** Of each class as many are left as one side has more than the other. */
  lemma {:induction false} MatchAllLike(t: ExprType, xs: seq<Expr>, ys: seq<Expr>, n: nat, e: Expr)
    requires t.Junction() && TransitiveUpTo(n) && Remaining(t, ys, n) && Live(e) && e.Size() <= n
    requires forall x :: x in xs ==> Live(x) && x.Size() <= n
    ensures var r := MatchAll(t, xs, ys);
      && Remaining(t, r.0, n) && Remaining(t, r.1, n)
      && Like(e, r.0) == Minus(Like(e, xs), Like(e, ys)) && Like(e, r.1) == Minus(Like(e, ys), Like(e, xs))
    decreases |xs|
  {
    hide ExprEq, Live, MatchOne, TransitiveUpTo;
    if xs != [] {
      var x := xs[0];
      assert x in xs;
      var p := MatchOne(t, x, ys);
      MatchOneLike(t, x, ys, n, e);
      MatchAllLike(t, xs[1..], p.1, n, e);
      LikeCons(e, p.0, MatchAll(t, xs[1..], p.1).0);
      ConstNotLive(e, t);
      if ExprEq(e, x) { LikeSame(n, e, x, ys, t); }
    }
  }

  /** Equal expressions are like the same others. */
  lemma {:induction false} LikeSame(n: nat, e: Expr, x: Expr, ys: seq<Expr>, t: ExprType)
    requires t.Junction() && TransitiveUpTo(n) && Remaining(t, ys, n)
    requires Live(e) && Live(x) && e.Size() <= n && x.Size() <= n && ExprEq(e, x)
    ensures Like(e, ys) == Like(x, ys)
  {
    hide ExprEq, Live, TransitiveUpTo;
    if ys != [] {
      var y := ys[0];
      assert y in ys;
      LikeSame(n, e, x, ys[1..], t);
      if y == Symbol(Neutral(t)) {
        ConstNotLive(e, t);
        ConstNotLive(x, t);
      } else {
        SameClass(n, y, e, x);
        ExprEqSymmetric(y, e);
        ExprEqSymmetric(y, x);
      }
    }
  }

  // ----- what is left over -----

  function LiveOf(s: seq<Expr>): seq<Expr> {
    if s == [] then [] else (if IsYn(s[0]) then [] else [s[0]]) + LiveOf(s[1..])
  }

  lemma {:induction false} LiveOfBoth(s: seq<Expr>, u: seq<Expr>)
    ensures LiveOf(s + u) == LiveOf(s) + LiveOf(u)
  {
    if s == [] {
      assert s + u == u;
    } else {
      assert (s + u)[1..] == s[1..] + u;
      LiveOfBoth(s[1..], u);
    }
  }

  lemma {:induction false} LiveOfNone(s: seq<Expr>)
    ensures LiveOf(s) == [] <==> AllYn(s)
    ensures forall x :: x in LiveOf(s) <==> x in s && !IsYn(x)
  {
    if s != [] {
      LiveOfNone(s[1..]);
      assert s == [s[0]] + s[1..];
    }
  }

  /** What comes of a tree of which the operands l are left: the neutral constant, a single operand, or a
      junction. */
  predicate Comes(t: ExprType, l: seq<Expr>, y: Expr)
    requires t.Junction()
  {
    && (l == [] ==> y == Symbol(Neutral(t)))
    && (|l| == 1 ==> y == l[0] && !IsYn(y))
    && (|l| >= 2 ==> y.Type() == t)
  }

  lemma ComesBoth(t: ExprType, l: seq<Expr>, m: seq<Expr>, y: Expr, z: Expr)
    requires t.Junction() && Comes(t, l, y) && Comes(t, m, z)
    ensures Comes(t, l + m, Collapse(t, y, z))
  {
    if l == [] {
      assert l + m == m;
    } else if m == [] {
      assert l + m == l;
    }
  }

  lemma {:induction false} YnOfRemaining(t: ExprType, e: Expr, n: nat)
    requires t.Junction() && Remaining(t, Operands(t, e), n)
    ensures Comes(t, LiveOf(Operands(t, e)), Yn(e))
  {
    if e.Type() == t {
      hide Comes, LiveOf, Collapse, Live;
      var u, v := Operands(t, e.left), Operands(t, e.right);
      assert forall x :: x in u || x in v ==> x in Operands(t, e);
      YnOfRemaining(t, e.left, n);
      YnOfRemaining(t, e.right, n);
      LiveOfBoth(u, v);
      ComesBoth(t, LiveOf(u), LiveOf(v), Yn(e.left), Yn(e.right));
    } else {
      assert e in Operands(t, e);
      if IsYn(e) {
        assert LiveOf([e]) == [] + LiveOf([e][1..]) && [e][1..] == [];
      } else {
        assert LiveOf([e]) == [e] + LiveOf([e][1..]) && [e][1..] == [];
        FreeFixed(e);
      }
    }
  }

  lemma FreeFixed(e: Expr)
    requires ConstFree(e)
    ensures Yn(e) == e
  {
    FreeNoConst(e);
    YnExact(e);
  }

  lemma {:induction false} FreeNoConst(e: Expr)
    requires ConstFree(e)
    ensures !HasConst(e)
  {
    if e.Type().Junction() {
      FreeNoConst(e.left);
      FreeNoConst(e.right);
    }
  }

  lemma {:induction false} LikeItself(e: Expr, s: seq<Expr>)
    requires e in s
    ensures Like(e, s) > 0
  {
    if s[0] == e { ExprEqReflexive(e); } else { LikeItself(e, s[1..]); }
  }

  lemma {:induction false} LikeNone(e: Expr, s: seq<Expr>)
    requires AllYn(s) && Live(e)
    ensures Like(e, s) == 0
  {
    if s != [] {
      assert s[0] in s;
      LikeNone(e, s[1..]);
    }
  }

  /** What is left of two junctions. */
  lemma LeftCounts(t: ExprType, a: Expr, b: Expr, n: nat)
    requires t.Junction() && a.Type() == t && b.Type() == t && Live(a) && Live(b) && TransitiveUpTo(n)
    requires a.Size() <= n + 1 && b.Size() <= n + 1
    ensures var xs, ys, r := Operands(t, a), Operands(t, b), CancelRec(t, a, b);
      && Remaining(t, Operands(t, r.a), n) && Remaining(t, Operands(t, r.b), n)
      && forall e :: Live(e) && e.Size() <= n ==>
           && Like(e, Operands(t, r.a)) == Minus(Like(e, xs), Like(e, ys))
           && Like(e, Operands(t, r.b)) == Minus(Like(e, ys), Like(e, xs))
  {
    hide ExprEq, Live, TransitiveUpTo, CancelRec, MatchAll, Like;
    var xs, ys := Operands(t, a), Operands(t, b);
    OperandsSmaller(t, a);
    OperandsSmaller(t, b);
    OperandsLive(t, a);
    OperandsLive(t, b);
    CancelRecMatches(t, a, b);
    assert xs[0] in xs;
    MatchAllLike(t, xs, ys, n, xs[0]);
    forall e | Live(e) && e.Size() <= n
      ensures Like(e, MatchAll(t, xs, ys).0) == Minus(Like(e, xs), Like(e, ys))
      ensures Like(e, MatchAll(t, xs, ys).1) == Minus(Like(e, ys), Like(e, xs))
    {
      MatchAllLike(t, xs, ys, n, e);
    }
  }

  /** Nothing is left exactly if nothing of any class is. */
  lemma NothingLeft(t: ExprType, s: seq<Expr>, n: nat)
    requires t.Junction() && Remaining(t, s, n)
    ensures AllYn(s) <==> forall e :: Live(e) && e.Size() <= n ==> Like(e, s) == 0
  {
    hide Live, Like;
    if AllYn(s) {
      forall e | Live(e) && e.Size() <= n ensures Like(e, s) == 0 { LikeNone(e, s); }
    } else {
      var x :| x in s && !IsYn(x);
      NotNeutral(t, x);
      LikeItself(x, s);
    }
  }

  /** On junctions without constants expr_eq holds exactly if both have as many operands of every class. */
  lemma ClassesUpTo(t: ExprType, a: Expr, b: Expr, n: nat)
    requires t.Junction() && a.Type() == t && b.Type() == t && Live(a) && Live(b) && TransitiveUpTo(n)
    requires a.Size() <= n + 1 && b.Size() <= n + 1
    ensures ExprEq(a, b) <==>
      forall e :: Live(e) && e.Size() <= n ==> Like(e, Operands(t, a)) == Like(e, Operands(t, b))
  {
    hide ExprEq, Live, TransitiveUpTo, Yn, CancelRec, Like, Operands, Remaining, AllYn;
    var r := CancelRec(t, a, b);
    LeftCounts(t, a, b, n);
    JunctionEq(t, a, b);
    LeftoverEq(t, r.a, r.b, n);
    NothingLeft(t, Operands(t, r.a), n);
    NothingLeft(t, Operands(t, r.b), n);
  }

  lemma NotNeutral(t: ExprType, x: Expr)
    requires t.Junction() && !IsYn(x)
    ensures x != Symbol(Neutral(t))
  {
  }

  lemma JunctionEq(t: ExprType, a: Expr, b: Expr)
    requires t.Junction() && a.Type() == t && b.Type() == t
    ensures var r := CancelRec(t, a, b); ExprEq(a, b) <==> Yn(r.a).Symbol? && Yn(r.a) == Yn(r.b)
  {
    hide CancelRec, Yn;
  }

  /** Two remainders of which no class has operands on both sides come to the same symbol only if nothing
      is left. */
  lemma LeftoverEq(t: ExprType, a: Expr, b: Expr, n: nat)
    requires t.Junction() && Remaining(t, Operands(t, a), n) && Remaining(t, Operands(t, b), n)
    requires forall e :: Live(e) && e.Size() <= n ==> Like(e, Operands(t, a)) == 0 || Like(e, Operands(t, b)) == 0
    ensures Yn(a).Symbol? && Yn(a) == Yn(b) <==> AllYn(Operands(t, a)) && AllYn(Operands(t, b))
  {
    hide ExprEq, Live, Yn, Like, Operands, Remaining, LiveOf;
    var l, m := LiveOf(Operands(t, a)), LiveOf(Operands(t, b));
    YnOfRemaining(t, a, n);
    YnOfRemaining(t, b, n);
    LiveOfNone(Operands(t, a));
    LiveOfNone(Operands(t, b));
    if |l| == 1 && |m| == 1 { OnlyOne(t, Operands(t, a), Operands(t, b), n); }
  }

  lemma OnlyOne(t: ExprType, xs: seq<Expr>, ys: seq<Expr>, n: nat)
    requires t.Junction() && Remaining(t, xs, n) && Remaining(t, ys, n) && |LiveOf(xs)| == 1 && |LiveOf(ys)| == 1
    requires forall e :: Live(e) && e.Size() <= n ==> Like(e, xs) == 0 || Like(e, ys) == 0
    ensures LiveOf(xs)[0] != LiveOf(ys)[0]
  {
    hide Live, Like;
    var x, y := LiveOf(xs)[0], LiveOf(ys)[0];
    LiveOfNone(xs);
    LiveOfNone(ys);
    assert x in LiveOf(xs) && y in LiveOf(ys);
    if x == y {
      NotNeutral(t, x);
      LikeItself(x, xs);
      LikeItself(x, ys);
    }
  }

  lemma {:induction false} TransitiveAll(n: nat)
    ensures TransitiveUpTo(n)
  {
    if n > 0 {
      TransitiveAll(n - 1);
      forall x: Expr, y: Expr, z: Expr
        | Live(x) && Live(y) && Live(z) && x.Size() <= n && y.Size() <= n && z.Size() <= n && ExprEq(x, y) && ExprEq(y, z)
        ensures ExprEq(x, z)
      {
        TransitiveStep(x, y, z, n - 1);
      }
    }
  }

  lemma {:induction false} TransitiveStep(x: Expr, y: Expr, z: Expr, n: nat)
    requires TransitiveUpTo(n) && Live(x) && Live(y) && Live(z) && ExprEq(x, y) && ExprEq(y, z)
    requires x.Size() <= n + 1 && y.Size() <= n + 1 && z.Size() <= n + 1
    ensures ExprEq(x, z)
    decreases x.Size()
  {
    if x.Not? {
      NegatedStep(x.e, y.e, z.e, n);
    } else if x.Type().Junction() {
      var t := x.Type();
      hide ExprEq, Live, TransitiveUpTo, Like;
      SameTypes(x, y);
      SameTypes(y, z);
      ClassesUpTo(t, x, y, n);
      ClassesUpTo(t, y, z, n);
      ClassesUpTo(t, x, z, n);
    }
  }

  lemma SameTypes(x: Expr, y: Expr)
    requires ExprEq(x, y)
    ensures x.Type() == y.Type()
  {
  }

  lemma LiveStep(x: Expr, y: Expr, z: Expr, n: nat)
    requires TransitiveUpTo(n) && Live(x) && Live(y) && Live(z) && ExprEq(x, y) && ExprEq(y, z)
    requires x.Size() <= n && y.Size() <= n && z.Size() <= n
    ensures ExprEq(x, z)
  {
    hide ExprEq, Live;
  }

  lemma SymbolsEqual(x: Expr, y: Expr)
    requires x.Symbol? && y.Symbol? && ExprEq(x, y)
    ensures x == y
  {
  }

  /** A negated constant is no operand of a junction, but it is a symbol. */
  lemma NegatedStep(x: Expr, y: Expr, z: Expr, n: nat)
    requires TransitiveUpTo(n) && ConstFree(x) && ConstFree(y) && ConstFree(z) && ExprEq(x, y) && ExprEq(y, z)
    requires x.Size() <= n && y.Size() <= n && z.Size() <= n
    ensures ExprEq(x, z)
  {
    hide ConstFree, ExprEq, TransitiveUpTo;
    if Live(x) && Live(y) && Live(z) {
      LiveStep(x, y, z, n);
    } else {
      SameTypes(x, y);
      SameTypes(y, z);
      assert x.Symbol? && y.Symbol? && z.Symbol?;
      SymbolsEqual(x, y);
      SymbolsEqual(y, z);
      ExprEqReflexive(x);
    }
  }

  /** Without constants expr_eq is transitive, so with the laws above an equivalence. */
  lemma ExprEqTransitive(x: Expr, y: Expr, z: Expr)
    requires ConstFree(x) && ConstFree(y) && ConstFree(z) && ExprEq(x, y) && ExprEq(y, z)
    ensures ExprEq(x, z)
  {
    var n := x.Size() + y.Size() + z.Size();
    TransitiveAll(n);
    NegatedStep(x, y, z, n);
  }

  /** And it holds of two junctions exactly if they have as many operands equal to each expression, in any
      order and nesting. */
  lemma ExprEqClasses(t: ExprType, a: Expr, b: Expr)
    requires t.Junction() && a.Type() == t && b.Type() == t && ConstFree(a) && ConstFree(b)
    ensures ExprEq(a, b) <==> forall e :: Live(e) ==> Like(e, Operands(t, a)) == Like(e, Operands(t, b))
  {
    hide ExprEq, TransitiveUpTo, Like, Operands;
    var n := a.Size() + b.Size();
    TransitiveAll(n);
    ClassesUpTo(t, a, b, n);
    if ExprEq(a, b) {
      forall e | Live(e) ensures Like(e, Operands(t, a)) == Like(e, Operands(t, b)) {
        TransitiveAll(n + e.Size());
        ClassesUpTo(t, a, b, n + e.Size());
      }
    }
  }
}
