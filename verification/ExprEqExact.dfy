/** What expr_eq decides: it is reflexive, and on junctions of atomic operands it is exactly
    equality up to order, nesting and constants. The tree recursion is first shown to be a greedy
    matching of the two operand lists. */
module ExprEqualityExact {
  import opened Tristates
  import opened Exprs
  import opened EliminateYn
  import opened ExprEquality

  /** The operands of a junction of type t, nested junctions of that type flattened. */
  function Operands(t: ExprType, e: Expr): (s: seq<Expr>)
    requires t.Junction()
    ensures s != []
    ensures forall x :: x in s ==> x.Type() != t
    ensures e.Type() != t ==> s == [e]
  {
    if e.Type() == t then Operands(t, e.left) + Operands(t, e.right) else [e]
  }

  function MatchPair(t: ExprType, x: Expr, y: Expr): (Expr, Expr)
    requires t.Junction()
  {
    if (x == y && IsYn(x)) || !ExprEq(x, y) then (x, y)
    else (Symbol(Neutral(t)), Symbol(Neutral(t)))
  }

  function MatchOne(t: ExprType, x: Expr, ys: seq<Expr>): (r: (Expr, seq<Expr>))
    requires t.Junction()
    ensures |r.1| == |ys|
    decreases |ys|
  {
    if ys == [] then (x, [])
    else
      var p := MatchPair(t, x, ys[0]);
      var q := MatchOne(t, p.0, ys[1..]);
      (q.0, [p.1] + q.1)
  }

  function MatchAll(t: ExprType, xs: seq<Expr>, ys: seq<Expr>): (r: (seq<Expr>, seq<Expr>))
    requires t.Junction()
    ensures |r.0| == |xs| && |r.1| == |ys|
    decreases |xs|
  {
    if xs == [] then ([], ys)
    else
      var p := MatchOne(t, xs[0], ys);
      var q := MatchAll(t, xs[1..], p.1);
      ([p.0] + q.0, q.1)
  }

  lemma {:induction false} MatchOneConcat(t: ExprType, x: Expr, ys: seq<Expr>, zs: seq<Expr>)
    requires t.Junction()
    ensures var p := MatchOne(t, x, ys); var q := MatchOne(t, p.0, zs);
      var r := MatchOne(t, x, ys + zs);
      r.0 == q.0 && r.1 == p.1 + q.1
    decreases |ys|
  {
    if ys == [] {
      assert ys + zs == zs;
      assert MatchOne(t, x, zs).1 == [] + MatchOne(t, x, zs).1;
    } else {
      assert (ys + zs)[1..] == ys[1..] + zs;
      var p := MatchPair(t, x, ys[0]);
      MatchOneConcat(t, p.0, ys[1..], zs);
      var q := MatchOne(t, p.0, ys[1..]);
      assert ([p.1] + q.1) + MatchOne(t, q.0, zs).1 == [p.1] + (q.1 + MatchOne(t, q.0, zs).1);
    }
  }

  lemma {:induction false} MatchAllConcat(t: ExprType, xs: seq<Expr>, ws: seq<Expr>, ys: seq<Expr>)
    requires t.Junction()
    ensures var p := MatchAll(t, xs, ys); var q := MatchAll(t, ws, p.1);
      var r := MatchAll(t, xs + ws, ys);
      r.0 == p.0 + q.0 && r.1 == q.1
    decreases |xs|
  {
    if xs == [] {
      assert xs + ws == ws;
      assert MatchAll(t, ws, ys).0 == [] + MatchAll(t, ws, ys).0;
    } else {
      assert (xs + ws)[1..] == xs[1..] + ws;
      var p := MatchOne(t, xs[0], ys);
      MatchAllConcat(t, xs[1..], ws, p.1);
      var q := MatchAll(t, xs[1..], p.1);
      assert ([p.0] + q.0) + MatchAll(t, ws, q.1).0 == [p.0] + (q.0 + MatchAll(t, ws, q.1).0);
    }
  }

  /** The tree recursion matches the operand lists. */
  lemma {:induction false} CancelRecMatches(t: ExprType, a: Expr, b: Expr)
    requires t.Junction()
    ensures var r := CancelRec(t, a, b);
      var m := MatchAll(t, Operands(t, a), Operands(t, b));
      Operands(t, r.a) == m.0 && Operands(t, r.b) == m.1
    decreases a.Size() + b.Size()
  {
    if a.Type() == t {
      var l := CancelRec(t, a.left, b);
      CancelRecMatches(t, a.left, b);
      CancelRecMatches(t, a.right, l.b);
      MatchAllConcat(t, Operands(t, a.left), Operands(t, a.right), Operands(t, b));
    } else if b.Type() == t {
      var l := CancelRec(t, a, b.left);
      CancelRecMatches(t, a, b.left);
      CancelRecMatches(t, l.a, b.right);
      CancelRecKeepsOther(t, a, b.left);
      CancelRecKeepsOther(t, l.a, b.right);
      MatchSingle(t, a, Operands(t, b.left));
      MatchSingle(t, l.a, Operands(t, b.right));
      MatchSingle(t, a, Operands(t, b));
      MatchOneConcat(t, a, Operands(t, b.left), Operands(t, b.right));
    } else {
      MatchSingle(t, a, [b]);
      MatchOnePair(t, a, b);
    }
  }

  lemma MatchOnePair(t: ExprType, x: Expr, y: Expr)
    requires t.Junction()
    ensures MatchOne(t, x, [y]) == (MatchPair(t, x, y).0, [MatchPair(t, x, y).1])
  {
    var p := MatchPair(t, x, y);
    assert [y][1..] == [];
    assert MatchOne(t, p.0, []) == (p.0, []);
    assert [p.1] + [] == [p.1];
  }

  lemma MatchSingle(t: ExprType, x: Expr, ys: seq<Expr>)
    requires t.Junction()
    ensures MatchAll(t, [x], ys).0 == [MatchOne(t, x, ys).0] && MatchAll(t, [x], ys).1 == MatchOne(t, x, ys).1
  {
    assert [x][1..] == [];
    assert MatchAll(t, [], MatchOne(t, x, ys).1) == ([], MatchOne(t, x, ys).1);
    assert [MatchOne(t, x, ys).0] + [] == [MatchOne(t, x, ys).0];
  }

  /** An operand that is no junction of type t never becomes one. */
  lemma {:induction false} CancelRecKeepsOther(t: ExprType, a: Expr, b: Expr)
    requires t.Junction() && a.Type() != t
    ensures CancelRec(t, a, b).a.Type() != t
    decreases b.Size()
  {
    if b.Type() == t {
      CancelRecKeepsOther(t, a, b.left);
      CancelRecKeepsOther(t, CancelRec(t, a, b.left).a, b.right);
    }
  }

  // ----- reflexivity -----

  predicate AllYn(s: seq<Expr>) { forall x :: x in s ==> IsYn(x) }

  function Blank(t: ExprType, x: Expr): Expr
    requires t.Junction()
  {
    if IsYn(x) then x else Symbol(Neutral(t))
  }

  function BlankAll(t: ExprType, xs: seq<Expr>): (r: seq<Expr>)
    requires t.Junction()
    ensures |r| == |xs| && AllYn(r)
  {
    seq(|xs|, i requires 0 <= i < |xs| => Blank(t, xs[i]))
  }

  /** Nothing is matched when all pairs are constants, or a constant and something else. */
  lemma {:induction false} MatchOneIdle(t: ExprType, x: Expr, ys: seq<Expr>)
    requires t.Junction() && (IsYn(x) || AllYn(ys))
    ensures MatchOne(t, x, ys) == (x, ys)
  {
    if ys != [] {
      assert ys[0] in ys;
      MatchOneIdle(t, x, ys[1..]);
      assert [ys[0]] + ys[1..] == ys;
    }
  }

  lemma {:induction false} MatchDiagonal(t: ExprType, done: seq<Expr>, xs: seq<Expr>)
    requires t.Junction() && AllYn(done)
    requires forall x :: x in xs ==> ExprEq(x, x)
    ensures MatchAll(t, xs, done + xs).0 == BlankAll(t, xs)
    ensures MatchAll(t, xs, done + xs).1 == done + BlankAll(t, xs)
    decreases |xs|
  {
    if xs == [] {
      assert done + xs == done && BlankAll(t, xs) == [];
    } else {
      hide ExprEq, MatchOne;
      var x, z, rest := xs[0], Blank(t, xs[0]), xs[1..];
      assert x in xs;
      MatchHead(t, done, x, rest);
      assert done + xs == done + [x] + rest;
      assert AllYn(done + [z]);
      MatchDiagonal(t, done + [z], rest);
      assert BlankAll(t, xs) == [z] + BlankAll(t, rest);
      assert (done + [z]) + BlankAll(t, rest) == done + BlankAll(t, xs);
    }
  }

  lemma MatchHead(t: ExprType, done: seq<Expr>, x: Expr, rest: seq<Expr>)
    requires t.Junction() && AllYn(done) && ExprEq(x, x)
    ensures MatchOne(t, x, done + [x] + rest).0 == Blank(t, x)
    ensures MatchOne(t, x, done + [x] + rest).1 == done + [Blank(t, x)] + rest
  {
    MatchOneIdle(t, x, done);
    MatchOneConcat(t, x, done, [x]);
    MatchOnePair(t, x, x);
    MatchOneConcat(t, x, done + [x], rest);
    MatchOneIdle(t, Blank(t, x), rest);
  }

  /** A junction of constants collapses to the absorbing constant if it has it, else to the neutral one. */
  lemma {:induction false} YnOfConstants(t: ExprType, e: Expr)
    requires t.Junction() && AllYn(Operands(t, e))
    ensures Yn(e) == if Symbol(Neutral(t.Dual())) in Operands(t, e) then Symbol(Neutral(t.Dual()))
                     else Symbol(Neutral(t))
  {
    if e.Type() == t {
      assert forall x :: x in Operands(t, e.left) || x in Operands(t, e.right) ==> x in Operands(t, e);
      YnOfConstants(t, e.left);
      YnOfConstants(t, e.right);
    } else {
      assert e in Operands(t, e);
    }
  }

  lemma {:induction false} OperandsSmaller(t: ExprType, e: Expr)
    requires t.Junction()
    ensures forall x :: x in Operands(t, e) ==> x.Size() <= e.Size() && (e.Type() == t ==> x.Size() < e.Size())
  {
    if e.Type() == t {
      OperandsSmaller(t, e.left);
      OperandsSmaller(t, e.right);
    }
  }

  /** expr_eq is reflexive on every tree. */
  lemma {:induction false} ExprEqReflexive(e: Expr)
    ensures ExprEq(e, e)
    decreases e.Size()
  {
    if e.Not? {
      ExprEqReflexive(e.e);
    } else if e.Type().Junction() {
      var t, xs := e.Type(), Operands(e.Type(), e);
      OperandsSmaller(t, e);
      forall x | x in xs ensures ExprEq(x, x) { ExprEqReflexive(x); }
      CancelRecMatches(t, e, e);
      MatchDiagonal(t, [], xs);
      assert [] + xs == xs && [] + BlankAll(t, xs) == BlankAll(t, xs);
      var r := CancelRec(t, e, e);
      YnOfConstants(t, r.a);
      YnOfConstants(t, r.b);
    }
  }

  // ----- exactness on atomic operands -----

  /** A symbol, a comparison, or negations of one. */
  predicate Atomic(e: Expr) {
    match e
    case Not(a) => Atomic(a)
    case _ => !e.Type().Junction()
  }

  predicate AtomicOperands(t: ExprType, e: Expr)
    requires t.Junction()
  {
    e.Type() == t && forall x :: x in Operands(t, e) ==> Atomic(x)
  }

  lemma {:induction false} AtomicEq(x: Expr, y: Expr)
    requires Atomic(x)
    ensures ExprEq(x, y) <==> x == y
  {
    if x.Not? && y.Not? { AtomicEq(x.e, y.e); }
  }

  function Occurs(e: Expr, s: seq<Expr>): nat {
    if s == [] then 0 else (if s[0] == e then 1 else 0) + Occurs(e, s[1..])
  }

  /** The same operands other than y and n, each as often, in whatever order. */
  ghost predicate SameLive(s: seq<Expr>, u: seq<Expr>) {
    forall e :: !IsYn(e) ==> Occurs(e, s) == Occurs(e, u)
  }

  predicate Absorbed(t: ExprType, s: seq<Expr>)
    requires t.Junction()
  {
    Symbol(Neutral(t.Dual())) in s
  }

  predicate AllAtomic(s: seq<Expr>) { forall x :: x in s ==> Atomic(x) }

  function Minus(a: nat, b: nat): nat { if a < b then 0 else a - b }

  lemma OccursCons(e: Expr, x: Expr, s: seq<Expr>)
    ensures Occurs(e, [x] + s) == (if x == e then 1 else 0) + Occurs(e, s)
  {
    assert ([x] + s)[1..] == s;
  }

  lemma {:induction false} OccursIn(e: Expr, s: seq<Expr>)
    ensures Occurs(e, s) > 0 <==> e in s
  {
    if s != [] { OccursIn(e, s[1..]); }
  }

  lemma {:induction false} OccursConcat(e: Expr, s: seq<Expr>, u: seq<Expr>)
    ensures Occurs(e, s + u) == Occurs(e, s) + Occurs(e, u)
  {
    if s == [] {
      assert s + u == u;
    } else {
      assert (s + u)[1..] == s[1..] + u;
      OccursConcat(e, s[1..], u);
    }
  }

  lemma {:induction false} OccursMultiset(e: Expr, s: seq<Expr>)
    ensures Occurs(e, s) == multiset(s)[e]
  {
    if s != [] {
      assert s == [s[0]] + s[1..];
      OccursMultiset(e, s[1..]);
    }
  }

  /** An atom other than y and n is matched with its first occurrence, if any. */
  lemma {:induction false} MatchOneAtom(t: ExprType, x: Expr, ys: seq<Expr>, e: Expr)
    requires t.Junction() && Atomic(x) && !IsYn(x)
    ensures var r, n := MatchOne(t, x, ys), Symbol(Neutral(t));
      if Occurs(x, ys) > 0 then
        r.0 == n && Occurs(e, r.1) == Occurs(e, ys) + (if e == n then 1 else 0) - (if e == x then 1 else 0)
      else r.0 == x && Occurs(e, r.1) == Occurs(e, ys)
    decreases |ys|
  {
    if ys != [] {
      AtomicEq(x, ys[0]);
      var p := MatchPair(t, x, ys[0]);
      OccursCons(e, p.1, MatchOne(t, p.0, ys[1..]).1);
      if ys[0] == x {
        MatchOneIdle(t, p.0, ys[1..]);
      } else {
        MatchOneAtom(t, x, ys[1..], e);
      }
    }
  }

  /** Matching leaves the two multiset differences of the operands other than y and n, and keeps
      constants that absorb. */
  lemma {:induction false} MatchAllLive(t: ExprType, xs: seq<Expr>, ys: seq<Expr>, e: Expr)
    requires t.Junction() && AllAtomic(xs)
    ensures var r := MatchAll(t, xs, ys);
      && (!IsYn(e) ==>
        && Occurs(e, r.0) == Minus(Occurs(e, xs), Occurs(e, ys))
        && Occurs(e, r.1) == Minus(Occurs(e, ys), Occurs(e, xs)))
      && (e == Symbol(Neutral(t.Dual())) ==> Occurs(e, r.0) == Occurs(e, xs) && Occurs(e, r.1) == Occurs(e, ys))
    decreases |xs|
  {
    if xs != [] {
      hide MatchOne, ExprEq;
      var x := xs[0];
      assert x in xs;
      var p := MatchOne(t, x, ys);
      MatchAllLive(t, xs[1..], p.1, e);
      OccursCons(e, p.0, MatchAll(t, xs[1..], p.1).0);
      if IsYn(x) {
        MatchOneIdle(t, x, ys);
      } else {
        MatchOneAtom(t, x, ys, e);
      }
    }
  }

  lemma {:induction false} MatchOneAtomic(t: ExprType, x: Expr, ys: seq<Expr>)
    requires t.Junction() && Atomic(x) && AllAtomic(ys)
    ensures Atomic(MatchOne(t, x, ys).0) && AllAtomic(MatchOne(t, x, ys).1)
    decreases |ys|
  {
    if ys != [] {
      assert ys[0] in ys;
      MatchOneAtomic(t, MatchPair(t, x, ys[0]).0, ys[1..]);
    }
  }

  lemma {:induction false} MatchAllAtomic(t: ExprType, xs: seq<Expr>, ys: seq<Expr>)
    requires t.Junction() && AllAtomic(xs) && AllAtomic(ys)
    ensures AllAtomic(MatchAll(t, xs, ys).0) && AllAtomic(MatchAll(t, xs, ys).1)
    decreases |xs|
  {
    if xs != [] {
      assert xs[0] in xs;
      MatchOneAtomic(t, xs[0], ys);
      MatchAllAtomic(t, xs[1..], MatchOne(t, xs[0], ys).1);
    }
  }

  /** What expr_eliminate_yn leaves of operands s: the absorbing constant, the neutral one, or, as far as
      x is concerned, the operands that are not constants. */
  ghost predicate LeftOf(t: ExprType, s: seq<Expr>, y: Expr, x: Expr)
    requires t.Junction()
  {
    && (Absorbed(t, s) ==> y == Symbol(Neutral(t.Dual())))
    && (!Absorbed(t, s) ==> (AllYn(s) <==> y == Symbol(Neutral(t))) && (IsYn(y) ==> AllYn(s)))
    && (!Absorbed(t, s) && !IsYn(x) ==> Occurs(x, Operands(t, y)) == Occurs(x, s))
  }

  lemma LeftOfBoth(t: ExprType, s: seq<Expr>, u: seq<Expr>, y: Expr, z: Expr, x: Expr)
    requires t.Junction() && LeftOf(t, s, y, x) && LeftOf(t, u, z, x)
    ensures LeftOf(t, s + u, Collapse(t, y, z), x)
  {
    hide Occurs;
    assert forall e :: e in s + u <==> e in s || e in u;
    assert AllYn(s + u) <==> AllYn(s) && AllYn(u);
    OccursConcat(x, s, u);
    OccursConcat(x, Operands(t, y), Operands(t, z));
    OccursIn(x, s);
    OccursIn(x, u);
  }

  /** What dropping constants leaves of a junction of atomic operands. */
  lemma {:induction false} YnOfAtoms(t: ExprType, e: Expr, x: Expr)
    requires t.Junction() && AllAtomic(Operands(t, e))
    ensures LeftOf(t, Operands(t, e), Yn(e), x)
  {
    if e.Type() == t {
      hide LeftOf, Collapse;
      var l, r := Operands(t, e.left), Operands(t, e.right);
      assert forall x :: x in l || x in r <==> x in Operands(t, e);
      YnOfAtoms(t, e.left, x);
      YnOfAtoms(t, e.right, x);
      LeftOfBoth(t, l, r, Yn(e.left), Yn(e.right), x);
    } else {
      assert e in Operands(t, e);
    }
  }

  /** expr_eq on two junctions of the same type over atomic operands: it holds exactly when both are
      absorbed by a constant, or neither is and they have the same other operands, in any order,
      nesting and with any number of neutral constants. */
  lemma ExprEqDecides(t: ExprType, a: Expr, b: Expr)
    requires t.Junction() && AtomicOperands(t, a) && AtomicOperands(t, b)
    ensures ExprEq(a, b) <==>
      var s, u := Operands(t, a), Operands(t, b);
      (Absorbed(t, s) <==> Absorbed(t, u)) && (Absorbed(t, s) || SameLive(s, u))
  {
    var s, u := Operands(t, a), Operands(t, b);
    var r := CancelRec(t, a, b);
    var s', u' := Operands(t, r.a), Operands(t, r.b);
    CancelRecMatches(t, a, b);
    MatchAllAtomic(t, s, u);
    var zero := Symbol(Neutral(t.Dual()));
    MatchAllLive(t, s, u, zero);
    OccursIn(zero, s); OccursIn(zero, s'); OccursIn(zero, u); OccursIn(zero, u');
    YnOfAtoms(t, r.a, zero);
    YnOfAtoms(t, r.b, zero);
    if !Absorbed(t, s) && !Absorbed(t, u) {
      RemaindersAgree(t, a, b);
    }
  }

  lemma RemaindersAgree(t: ExprType, a: Expr, b: Expr)
    requires t.Junction() && AtomicOperands(t, a) && AtomicOperands(t, b)
    requires !Absorbed(t, Operands(t, CancelRec(t, a, b).a)) && !Absorbed(t, Operands(t, CancelRec(t, a, b).b))
    ensures ExprEq(a, b) <==> SameLive(Operands(t, a), Operands(t, b))
  {
    hide CancelRec, MatchAll, Yn, Operands;
    var s, u := Operands(t, a), Operands(t, b);
    var r := CancelRec(t, a, b);
    var s', u' := Operands(t, r.a), Operands(t, r.b);
    CancelRecMatches(t, a, b);
    MatchAllAtomic(t, s, u);
    var x, y := Yn(r.a), Yn(r.b);
    YnOfAtoms(t, r.a, x);
    YnOfAtoms(t, r.b, y);
    if SameLive(s, u) {
      forall e | e in s' || e in u' ensures IsYn(e) {
        if !IsYn(e) {
          MatchAllLive(t, s, u, e);
          OccursIn(e, s'); OccursIn(e, u');
        }
      }
    } else if x.Symbol? && x == y {
      if IsYn(x) {
        forall e | !IsYn(e) ensures Occurs(e, s) == Occurs(e, u) {
          MatchAllLive(t, s, u, e);
          OccursIn(e, s'); OccursIn(e, u');
        }
      } else {
        MatchAllLive(t, s, u, x);
      }
      assert false;
    }
  }

  /** Two junctions of the same type with the same atomic operands, in whatever order and nesting,
      are equal for expr_eq. */
  lemma ExprEqUpToOrder(t: ExprType, a: Expr, b: Expr)
    requires t.Junction() && AtomicOperands(t, a) && AtomicOperands(t, b)
    requires multiset(Operands(t, a)) == multiset(Operands(t, b))
    ensures ExprEq(a, b)
  {
    var s, u := Operands(t, a), Operands(t, b);
    forall e ensures Occurs(e, s) == Occurs(e, u) {
      OccursMultiset(e, s);
      OccursMultiset(e, u);
    }
    OccursIn(Symbol(Neutral(t.Dual())), s);
    OccursIn(Symbol(Neutral(t.Dual())), u);
    ExprEqDecides(t, a, b);
  }
}
