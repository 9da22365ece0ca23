/** Symbols with their properties, and the value of every symbol as one recursive definition without
    flags, memory or evaluation order (scripts/config/symbol.c). */
module SymbolSpec {
  import opened Options
  import opened Tristates
  import opened Exprs

  /** A default, range or prompt applies when its visible expression is not n. */
  datatype Default = Default(visible: Option<Expr>, value: Expr)

  datatype Range = Range(visible: Option<Expr>, lo: Sym, hi: Sym)

  /** The parts of struct symbol that parsing fixes. The property list is split by kind, each part in
      list order; select properties have already been folded into revDep. A choice has members, a
      member of a choice has an owner. */
  datatype Decl = Decl(
    name: string,
    prompts: seq<Option<Expr>>,
    defaults: seq<Default>,
    ranges: seq<Range>,
    dirDep: Option<Expr>,
    revDep: Option<Expr>,
    members: seq<Sym>,
    owner: Option<Sym>)
  {
    predicate Choice() { members != [] }
  }

  /** def[S_DEF_USER]: a tristate, a string, and for a choice the selected member. */
  datatype User = User(tri: Tristate, str: string, pick: Option<Sym>)

  /** What an evaluation depends on: the declarations, the user values and which symbols have one, the
      value of the modules symbol, and the C library's number conversions. */
  datatype Config = Config(
    decls: map<Sym, Decl>,
    user: Sym -> User,
    hasUser: set<Sym>,
    modules: Tristate,
    strtoll: (string, nat) -> int,
    sprintf: (int, nat) -> string)
  {
    predicate Owned(s: Sym)
      requires s in decls
    {
      decls[s].owner.Some?
    }
  }

  // ----- which symbols an evaluation reads -----

  function ExprSyms(e: Expr): set<Sym> {
    match e
    case Symbol(s) => {s}
    case Not(a) => ExprSyms(a)
    case And(a, b) => ExprSyms(a) + ExprSyms(b)
    case Or(a, b) => ExprSyms(a) + ExprSyms(b)
    case Equal(s, t) => {s, t}
    case Unequal(s, t) => {s, t}
  }

  function OptSyms(e: Option<Expr>): set<Sym> {
    if e.None? then {} else ExprSyms(e.value)
  }

  function PromptSyms(ps: seq<Option<Expr>>): set<Sym> {
    set p, s | p in ps && s in OptSyms(p) :: s
  }

  function DefaultSyms(d: Decl): set<Sym> {
    if d.Choice() then set p, s | p in d.defaults && s in OptSyms(p.visible) :: s
    else set p, s | p in d.defaults && s in OptSyms(p.visible) + ExprSyms(p.value) :: s
  }

  function RangeSyms(d: Decl): set<Sym> {
    set p, s | p in d.ranges && s in OptSyms(p.visible) + {p.lo, p.hi} :: s
  }

  /** The symbols a choice reads for the visibility of its members, apart from itself. */
  function MemberSyms(cfg: Config, c: Sym): set<Sym>
    requires c in cfg.decls
  {
    set m, s | m in cfg.decls[c].members && m in cfg.decls && s in PromptSyms(cfg.decls[m].prompts) && s != c :: s
  }

  function OwnerSyms(d: Decl): set<Sym> {
    if d.owner.Some? then {d.owner.value} else {}
  }

  /** Everything the value of s may depend on. A member of a choice has no select or direct dependency
      of its own. */
  function Needs(cfg: Config, s: Sym): set<Sym>
    requires s in cfg.decls
  {
    var d := cfg.decls[s];
    PromptSyms(d.prompts) + DefaultSyms(d) + RangeSyms(d) + MemberSyms(cfg, s) + OwnerSyms(d)
    + (if d.owner.Some? then {} else OptSyms(d.dirDep) + OptSyms(d.revDep))
  }

  /** What the parser and menu_finalize guarantee: the predefined symbols and constants have no
      properties; a choice is boolean or tristate and is no member; members and owners belong together;
      the defaults of a choice name members; the prompts of a member mention its choice. */
  ghost predicate WellFormed(cfg: Config) {
    forall s {:trigger DeclOk(cfg, s)} :: s in cfg.decls ==> DeclOk(cfg, s)
  }

  ghost predicate DeclOk(cfg: Config, s: Sym)
    requires s in cfg.decls
  {
    var d := cfg.decls[s];
    && (!s.Declared? ==> Needs(cfg, s) == {} && !d.Choice() && s !in cfg.hasUser)
    && (s.Literal? ==> d.name == s.name)
    && (d.Choice() ==> d.owner.None? && (s.Type() == SBoolean || s.Type() == STristate))
    && (forall m :: m in d.members ==> m in cfg.decls && cfg.decls[m].owner == Some(s))
    && (d.owner.Some? ==>
          && d.owner.value in cfg.decls && s in cfg.decls[d.owner.value].members
          && (s.Type() == SBoolean || s.Type() == STristate)
          && d.owner.value in PromptSyms(d.prompts))
    && (d.Choice() ==> forall p :: p in d.defaults ==> p.value.Symbol? && p.value.sym in d.members)
    && (d.Choice() && cfg.user(s).pick.Some? ==> cfg.user(s).pick.value in d.members)
  }

  /** The dependency relation is acyclic: every symbol ranks above what it needs. */
  ghost predicate Ranked(cfg: Config, rank: map<Sym, nat>) {
    && rank.Keys == cfg.decls.Keys
    && forall s {:trigger RankedAt(cfg, rank, s)} :: s in cfg.decls ==> RankedAt(cfg, rank, s)
  }

  ghost predicate RankedAt(cfg: Config, rank: map<Sym, nat>, s: Sym)
    requires rank.Keys == cfg.decls.Keys && s in cfg.decls
  {
    forall t {:trigger t in Needs(cfg, s)} :: t in Needs(cfg, s) ==> t in cfg.decls && rank[t] < rank[s]
  }

  // ----- the recursive definition -----

  /** curr (tri and raw string), for a choice the selected member, visible, and rev_dep.tri. */
  datatype Value = Value(tri: Tristate, str: string, pick: Option<Sym>, visible: Tristate, rev: Tristate)

  function BaseValue(): Value { Value(NO, "", None, NO, NO) }

  /** sym_get_type */
  function EffectiveType(cfg: Config, s: Sym, visible: Tristate): SymType
    requires s in cfg.decls
  {
    if s.Type() == STristate && ((cfg.Owned(s) && visible == YES) || cfg.modules == NO) then SBoolean
    else s.Type()
  }

  /** sym_get_string_value */
  function StringValue(cfg: Config, s: Sym, v: Value): string {
    if s.Type() == SBoolean || s.Type() == STristate then
      if v.tri == NO then "n" else if v.tri == YES then "y" else if cfg.modules == NO then "n" else "m"
    else v.str
  }

  /** Symbols of the other types are just their names. */
  predicate Typed(s: Sym) { s.Type() != SUnknown && s.Type() != SOther }

  function PromptMax(ps: seq<Option<Expr>>, env: Env): Tristate {
    if ps == [] then NO else Or3(PromptMax(ps[..|ps| - 1], env), EvalOpt(ps[|ps| - 1], env))
  }

  /** The first half of sym_calc_visibility. */
  function Visible(cfg: Config, s: Sym, env: Env): Tristate
    requires s in cfg.decls
  {
    var tri := PromptMax(cfg.decls[s].prompts, env);
    if tri == MOD && (s.Type() != STristate || cfg.modules == NO) then YES else tri
  }

  /** The last part of sym_calc_visibility; it returns before this for members of a choice. */
  function Selected(cfg: Config, s: Sym, visible: Tristate, env: Env): Tristate
    requires s in cfg.decls
  {
    var d := cfg.decls[s];
    if d.owner.Some? || d.revDep.None? then NO
    else
      var tri := Eval(d.revDep.value, env);
      if tri == MOD && EffectiveType(cfg, s, visible) == SBoolean then YES else tri
  }

  /** sym_get_default_prop: the first visible one. */
  function FirstDefault(ds: seq<Default>, env: Env): (r: Option<Default>)
    ensures r.Some? ==> r.value in ds && EvalOpt(r.value.visible, env) != NO
  {
    if ds == [] then None
    else if EvalOpt(ds[0].visible, env) != NO then Some(ds[0])
    else FirstDefault(ds[1..], env)
  }

  function FirstRange(rs: seq<Range>, env: Env): (r: Option<Range>)
    ensures r.Some? ==> r.value in rs
  {
    if rs == [] then None
    else if EvalOpt(rs[0].visible, env) != NO then Some(rs[0])
    else FirstRange(rs[1..], env)
  }

  /** The tristate of a symbol that is not a visible member of a choice, before a choice picks. */
  function TriValue(cfg: Config, s: Sym, hasUser: bool, visible: Tristate, rev: Tristate, env: Env): Tristate
    requires s in cfg.decls
  {
    var d := cfg.decls[s];
    var own :=
      if visible != NO && hasUser then And3(cfg.user(s).tri, visible)
      else if d.Choice() then NO
      else
        var p := FirstDefault(d.defaults, env);
        if p.None? then NO else And3(Eval(p.value.value, env), EvalOpt(p.value.visible, env));
    var tri := Or3(own, rev);
    if tri == MOD && EffectiveType(cfg, s, visible) == SBoolean then YES else tri
  }

  /** Whether evaluating s sets its own SYMBOL_WRITE: it is visible, selected, or has a default that applies.
      A member that follows its choice leaves that to the choice. */
  predicate Marks(cfg: Config, s: Sym, visible: Tristate, rev: Tristate, env: Env)
    requires s in cfg.decls
  {
    var p := FirstDefault(cfg.decls[s].defaults, env);
    if s.Type() == SBoolean || s.Type() == STristate then
      && !(cfg.Owned(s) && visible == YES)
      && (visible != NO || rev != NO || (!cfg.decls[s].Choice() && p.Some?))
    else Typed(s) && (visible != NO || (p.Some? && p.value.value.Symbol?))
  }

  function YesIf(b: bool, t: Tristate): Tristate { if b then YES else t }

  /** The environment seen while a choice is being decided: the choice itself already reads as y. */
  function WithChoice(c: Sym, env: Env): Env {
    Env((t: Sym) => YesIf(t == c, env.tri(t)), (t: Sym) => if t == c then "y" else env.str(t))
  }

  function FirstVisible(cfg: Config, ms: seq<Sym>, env: Env): (r: Option<Sym>)
    requires forall m :: m in ms ==> m in cfg.decls
    ensures r.Some? ==> r.value in ms && Visible(cfg, r.value, env) != NO
    ensures r.None? ==> forall m :: m in ms ==> Visible(cfg, m, env) == NO
  {
    if ms == [] then None
    else if Visible(cfg, ms[0], env) != NO then Some(ms[0])
    else FirstVisible(cfg, ms[1..], env)
  }

  function FirstVisibleDefault(cfg: Config, ds: seq<Default>, env: Env): (r: Option<Sym>)
    requires forall p :: p in ds ==> p.value.Symbol? && p.value.sym in cfg.decls
    ensures r.Some? ==> (exists p :: p in ds && r.value == p.value.sym) && Visible(cfg, r.value, env) != NO
  {
    if ds == [] then None
    else if EvalOpt(ds[0].visible, env) != NO && Visible(cfg, ds[0].value.sym, env) != NO then Some(ds[0].value.sym)
    else FirstVisibleDefault(cfg, ds[1..], env)
  }

  /** sym_calc_choice: the user's pick if visible, else the first visible default, else the first
      visible member. */
  function Pick(cfg: Config, c: Sym, env: Env): (r: Option<Sym>)
    requires c in cfg.decls && DeclOk(cfg, c) && cfg.decls[c].Choice()
    ensures r.Some? ==> r.value in cfg.decls[c].members && Visible(cfg, r.value, env) != NO
    ensures r.None? ==> forall m :: m in cfg.decls[c].members ==> Visible(cfg, m, env) == NO
  {
    var d := cfg.decls[c];
    var p := cfg.user(c).pick;
    if p.Some? && Visible(cfg, p.value, env) != NO then p
    else
      var q := FirstVisibleDefault(cfg, d.defaults, env);
      if q.Some? then q else FirstVisible(cfg, d.members, env)
  }

  function Base(t: SymType, otherwise: nat): nat {
    if t == SInt then 10 else if t == SHex then 16 else otherwise
  }

  /** The string of s forced into the range r, whose bounds have the raw strings lo and hi. */
  function InRange(cfg: Config, s: Sym, str: string, r: Range, lo: string, hi: string): string
    requires s.Type() == SInt || s.Type() == SHex
  {
    var base := Base(s.Type(), 0);
    var v := cfg.strtoll(str, base);
    var low := cfg.strtoll(lo, Base(r.lo.Type(), base));
    var high := cfg.strtoll(hi, Base(r.hi.Type(), base));
    if v < low then cfg.sprintf(low, base) else if v <= high then str else cfg.sprintf(high, base)
  }

  /** The value of s when the symbols below it have values vals and expressions evaluate in env. */
  function SymbolValue(cfg: Config, s: Sym, hasUser: bool, vals: Sym -> Value, env: Env): Value
    requires WellFormed(cfg) && s in cfg.decls
  {
    var d := cfg.decls[s];
    if s.Predefined() then PredefinedValue(s)
    else if !Typed(s) then BaseValue().(str := d.name)
    else if s.Type() == SBoolean || s.Type() == STristate then TristateValue(cfg, s, hasUser, vals, env)
    else TextValue(cfg, s, hasUser, vals, env)
  }

  /** The initial curr of symbol_yes, symbol_mod and symbol_no. */
  function PredefinedValue(s: Sym): Value
    requires s.Predefined()
  {
    match s
    case SymYes => BaseValue().(tri := YES, str := "y")
    case SymMod => BaseValue().(tri := MOD, str := "m")
    case SymNo => BaseValue().(tri := NO, str := "n")
  }

  /** The tristate before a choice picks: a visible member follows its choice. */
  function TristateOf(cfg: Config, s: Sym, hasUser: bool, vals: Sym -> Value, env: Env): Tristate
    requires s in cfg.decls
  {
    var d := cfg.decls[s];
    var visible := Visible(cfg, s, env);
    if d.owner.Some? && visible == YES then if vals(d.owner.value).pick == Some(s) then YES else NO
    else TriValue(cfg, s, hasUser, visible, Selected(cfg, s, visible, env), env)
  }

  function TristateValue(cfg: Config, s: Sym, hasUser: bool, vals: Sym -> Value, env: Env): Value
    requires WellFormed(cfg) && s in cfg.decls
  {
    assert DeclOk(cfg, s);
    var visible := Visible(cfg, s, env);
    var rev := Selected(cfg, s, visible, env);
    var tri := TristateOf(cfg, s, hasUser, vals, env);
    if cfg.decls[s].Choice() && tri == YES then
      var pick := Pick(cfg, s, WithChoice(s, env));
      Value(if pick.Some? then YES else NO, "n", pick, visible, rev)
    else Value(tri, "n", None, visible, rev)
  }

  /** The string of an int, hex or string symbol before its range is checked. */
  function TextOf(cfg: Config, s: Sym, hasUser: bool, vals: Sym -> Value, env: Env): string
    requires s in cfg.decls
  {
    if Visible(cfg, s, env) != NO && hasUser then cfg.user(s).str
    else
      var p := FirstDefault(cfg.decls[s].defaults, env);
      if p.Some? && p.value.value.Symbol? then vals(p.value.value.sym).str else ""
  }

  /** sym_validate_range */
  function RangeChecked(cfg: Config, s: Sym, str: string, vals: Sym -> Value, env: Env): string
    requires s in cfg.decls
  {
    var range := FirstRange(cfg.decls[s].ranges, env);
    if (s.Type() == SInt || s.Type() == SHex) && range.Some? then
      InRange(cfg, s, str, range.value, vals(range.value.lo).str, vals(range.value.hi).str)
    else str
  }

  function TextValue(cfg: Config, s: Sym, hasUser: bool, vals: Sym -> Value, env: Env): Value
    requires s in cfg.decls
  {
    var visible := Visible(cfg, s, env);
    var str := RangeChecked(cfg, s, TextOf(cfg, s, hasUser, vals, env), vals, env);
    Value(NO, str, None, visible, Selected(cfg, s, visible, env))
  }

  /** The value of s, by recursion on the rank. */
  ghost function Spec(cfg: Config, rank: map<Sym, nat>, s: Sym): Value
    requires WellFormed(cfg) && Ranked(cfg, rank) && s in cfg.decls
    decreases rank[s]
  {
    var below := (t: Sym) => if t in cfg.decls && rank[t] < rank[s] then Spec(cfg, rank, t) else BaseValue();
    SymbolValue(cfg, s, s in cfg.hasUser, below, EnvOf(cfg, below))
  }

  function EnvOf(cfg: Config, vals: Sym -> Value): Env {
    Env((t: Sym) => vals(t).tri, (t: Sym) => StringValue(cfg, t, vals(t)))
  }
}
