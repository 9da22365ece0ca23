/** The three values n < m < y and the three connectives of a dependency formula
    (scripts/config/expr.h). */
module Tristates {
  type Tristate = t: int | 0 <= t <= 2

  const NO: Tristate := 0
  const MOD: Tristate := 1
  const YES: Tristate := 2

  function And3(a: Tristate, b: Tristate): Tristate { if a < b then a else b }

  function Or3(a: Tristate, b: Tristate): Tristate { if a > b then a else b }

  function Not3(a: Tristate): Tristate { 2 - a }

  function TriStr(t: Tristate): string {
    if t == NO then "n" else if t == MOD then "m" else "y"
  }
}

/** Expression trees without sharing, and their meaning. */
module Exprs {
  import opened Options
  import opened Tristates

  datatype SymType = SUnknown | SBoolean | STristate | SInt | SHex | SString | SOther

  /** The names y, m and n always denote the three predefined symbols. */
  type LiteralName = s: string | s != "y" && s != "m" && s != "n" witness ""

  /** Symbols are compared by identity. A constant is found again by its name, so its name is its
      identity; a declared symbol has an identity of its own. */
  datatype Sym = SymYes | SymMod | SymNo | Literal(name: LiteralName) | Declared(id: nat, stype: SymType)
  {
    function Type(): SymType { if Declared? then stype else SUnknown }

    /** The SYMBOL_CONST flag. */
    predicate Const() { !Declared? }

    /** One of symbol_yes, symbol_mod and symbol_no. */
    predicate Predefined() { SymYes? || SymMod? || SymNo? }
  }

  datatype ExprType = TOr | TAnd | TNot | TEqual | TUnequal | TSymbol
  {
    /** The types that have two operands. */
    predicate Junction() { TOr? || TAnd? }

    function Dual(): ExprType
      requires Junction()
    {
      if TOr? then TAnd else TOr
    }
  }

  datatype Expr =
    | Symbol(sym: Sym)
    | Not(e: Expr)
    | And(left: Expr, right: Expr)
    | Or(left: Expr, right: Expr)
    | Equal(lsym: Sym, rsym: Sym)
    | Unequal(lsym: Sym, rsym: Sym)
  {
    function Type(): ExprType {
      match this
      case Symbol(_) => TSymbol
      case Not(_) => TNot
      case And(_, _) => TAnd
      case Or(_, _) => TOr
      case Equal(_, _) => TEqual
      case Unequal(_, _) => TUnequal
    }

    function Size(): (n: nat)
      ensures n >= 1
    {
      match this
      case Symbol(_) => 1
      case Not(a) => 1 + a.Size()
      case And(a, b) => 1 + a.Size() + b.Size()
      case Or(a, b) => 1 + a.Size() + b.Size()
      case Equal(_, _) => 1
      case Unequal(_, _) => 1
    }
  }

  /** expr_alloc_two for the two junctions. */
  function Two(t: ExprType, l: Expr, r: Expr): (e: Expr)
    requires t.Junction()
    ensures e.Type() == t && e.left == l && e.right == r
    ensures e.Size() == 1 + l.Size() + r.Size()
  {
    if t == TAnd then And(l, r) else Or(l, r)
  }

  /** The operand that changes nothing in a junction of type t. */
  function Neutral(t: ExprType): Sym
    requires t.Junction()
  {
    if t == TAnd then SymYes else SymNo
  }

  function Neutral3(t: ExprType): Tristate
    requires t.Junction()
  {
    if t == TAnd then YES else NO
  }

  predicate IsYn(e: Expr) { e == Symbol(SymYes) || e == Symbol(SymNo) }

  /** expr_is_yes; a missing expression counts as y. */
  predicate IsYes(e: Option<Expr>) { e.None? || e.value == Symbol(SymYes) }

  // ----- meaning -----

  /** What the evaluator knows of each symbol: its tristate and its string value. */
  datatype Env = Env(tri: Sym -> Tristate, str: Sym -> string)

  ghost predicate TypedAt(env: Env, s: Sym) {
    match s
    case SymYes => env.tri(s) == YES && env.str(s) == "y"
    case SymMod => env.tri(s) == MOD && env.str(s) == "m"
    case SymNo => env.tri(s) == NO && env.str(s) == "n"
    case Literal(name) => env.tri(s) == NO && env.str(s) == name
    case Declared(_, stype) =>
      && (stype == SBoolean ==> env.tri(s) != MOD)
      && (stype == SBoolean || stype == STristate ==> env.str(s) == TriStr(env.tri(s)))
  }

  /** Booleans are never m, the string value of a boolean or tristate spells its tristate, and a
      constant has its name as string value. */
  ghost predicate WellTyped(env: Env) {
    forall s: Sym :: TypedAt(env, s)
  }

  function Op(t: ExprType, a: Tristate, b: Tristate): Tristate
    requires t.Junction()
  {
    if t == TAnd then And3(a, b) else Or3(a, b)
  }

  /** expr_calc_value. */
  function Eval(e: Expr, env: Env): Tristate {
    match e
    case Symbol(s) => env.tri(s)
    case Not(a) => Not3(Eval(a, env))
    case And(a, b) => And3(Eval(a, env), Eval(b, env))
    case Or(a, b) => Or3(Eval(a, env), Eval(b, env))
    case Equal(s, t) => if env.str(s) == env.str(t) then YES else NO
    case Unequal(s, t) => if env.str(s) == env.str(t) then NO else YES
  }

  function EvalOpt(e: Option<Expr>, env: Env): Tristate {
    if e.None? then YES else Eval(e.value, env)
  }

  /** Same value under every well-typed assignment. */
  ghost predicate Equiv(a: Expr, b: Expr) {
    forall env: Env :: WellTyped(env) ==> Eval(a, env) == Eval(b, env)
  }
}
