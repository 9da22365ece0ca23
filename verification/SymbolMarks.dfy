/** SYMBOL_WRITE: which symbols an evaluation marks as to be written, and which a choice marks. */
module SymbolMarks {
  import opened Options
  import opened Tristates
  import opened Exprs
  import opened SymbolSpec
  import opened SymbolState
  import opened SymbolTheorems
  import opened SymbolSetting

  /** The choice that owns s marks its members when it is evaluated. */
  ghost predicate OwnerWrites(cfg: Config, rank: map<Sym, nat>, s: Sym)
    requires WellFormed(cfg) && Ranked(cfg, rank) && s in cfg.decls
  {
    cfg.Owned(s) && cfg.decls[s].owner.value in cfg.decls && Writes(cfg, rank, cfg.decls[s].owner.value)
  }

  ghost predicate OwnerYes(cfg: Config, rank: map<Sym, nat>, s: Sym)
    requires WellFormed(cfg) && Ranked(cfg, rank) && s in cfg.decls
  {
    cfg.Owned(s) && cfg.decls[s].owner.value in cfg.decls && Spec(cfg, rank, cfg.decls[s].owner.value).tri == YES
  }

  /** A choice that is y marks the members that are visible. */
  ghost predicate ChoiceMarks(cfg: Config, rank: map<Sym, nat>, s: Sym)
    requires WellFormed(cfg) && Ranked(cfg, rank) && s in cfg.decls
  {
    OwnerWrites(cfg, rank, s) && OwnerYes(cfg, rank, s) && Spec(cfg, rank, s).visible != NO
  }

  /** Any other choice marks the members that were visible when that was last computed, so whatever the values
      are it may mark each. */
  ghost predicate ChoiceMayMark(cfg: Config, rank: map<Sym, nat>, s: Sym)
    requires WellFormed(cfg) && Ranked(cfg, rank) && s in cfg.decls
  {
    OwnerWrites(cfg, rank, s) && (OwnerYes(cfg, rank, s) ==> Spec(cfg, rank, s).visible != NO)
  }

  /** Once s and its choice have been evaluated s is marked. */
  ghost predicate Due(cfg: Config, rank: map<Sym, nat>, s: Sym)
    requires WellFormed(cfg) && Ranked(cfg, rank) && s in cfg.decls
  {
    Writes(cfg, rank, s) || ChoiceMarks(cfg, rank, s)
  }

  predicate NewlyValid(a: Memory, b: Memory, s: Sym) { s in a && s in b && !a[s].valid && b[s].valid }

  ghost predicate OwnerNew(cfg: Config, a: Memory, b: Memory, s: Sym)
    requires s in cfg.decls
  {
    cfg.decls[s].owner.Some? && NewlyValid(a, b, cfg.decls[s].owner.value)
  }

  /** What evaluating does to the mark of s. A member does not lose its mark; any other symbol that has a type
      has it afterwards exactly if the definition says so. */
  ghost predicate NotedAt(cfg: Config, rank: map<Sym, nat>, a: Memory, wa: set<Sym>, b: Memory, wb: set<Sym>, s: Sym)
    requires WellFormed(cfg) && Ranked(cfg, rank) && s in cfg.decls
  {
    if cfg.Owned(s) then
      && (s in wa || (NewlyValid(a, b, s) && Writes(cfg, rank, s)) || (OwnerNew(cfg, a, b, s) && ChoiceMarks(cfg, rank, s))
          ==> s in wb)
      && (s in wb ==>
          s in wa || (NewlyValid(a, b, s) && Writes(cfg, rank, s)) || (OwnerNew(cfg, a, b, s) && ChoiceMayMark(cfg, rank, s)))
    else if NewlyValid(a, b, s) && Typed(s) then s in wb <==> Writes(cfg, rank, s)
    else s in wb <==> s in wa
  }

  /** An evaluation that has made a to b has made the marks wa to wb. */
  ghost predicate Noted(cfg: Config, rank: map<Sym, nat>, a: Memory, wa: set<Sym>, b: Memory, wb: set<Sym>) {
    && WellFormed(cfg) && Ranked(cfg, rank) && a.Keys == b.Keys == cfg.decls.Keys
    && (forall s :: s in a && a[s].valid ==> b[s].valid)
    && forall s :: s in cfg.decls ==> NotedAt(cfg, rank, a, wa, b, wb, s)
  }

  lemma NotedRefl(cfg: Config, rank: map<Sym, nat>, a: Memory, w: set<Sym>)
    requires MemoryOk(cfg, rank, a)
    ensures Noted(cfg, rank, a, w, a, w)
  {
    hide WellFormed, Ranked, SlotOk, Writes, ChoiceMarks, ChoiceMayMark;
  }

  lemma NotedTrans(cfg: Config, rank: map<Sym, nat>, a: Memory, wa: set<Sym>, b: Memory, wb: set<Sym>, c: Memory, wc: set<Sym>)
    requires Noted(cfg, rank, a, wa, b, wb) && Noted(cfg, rank, b, wb, c, wc)
    ensures Noted(cfg, rank, a, wa, c, wc)
  {
    hide WellFormed, Ranked, Writes, ChoiceMarks, ChoiceMayMark, Noted;
    NotedParts(cfg, rank, a, wa, b, wb);
    NotedParts(cfg, rank, b, wb, c, wc);
    forall s | s in cfg.decls ensures NotedAt(cfg, rank, a, wa, c, wc, s) {
      NotedBoth(cfg, rank, a, wa, b, wb, c, wc, s);
    }
    NotedWhole(cfg, rank, a, wa, c, wc);
  }

  lemma NotedParts(cfg: Config, rank: map<Sym, nat>, a: Memory, wa: set<Sym>, b: Memory, wb: set<Sym>)
    requires Noted(cfg, rank, a, wa, b, wb)
    ensures WellFormed(cfg) && Ranked(cfg, rank) && a.Keys == b.Keys == cfg.decls.Keys
    ensures forall s :: s in a && a[s].valid ==> b[s].valid
    ensures forall s :: s in cfg.decls ==> NotedAt(cfg, rank, a, wa, b, wb, s)
  {
  }

  lemma NotedWhole(cfg: Config, rank: map<Sym, nat>, a: Memory, wa: set<Sym>, b: Memory, wb: set<Sym>)
    requires WellFormed(cfg) && Ranked(cfg, rank) && a.Keys == b.Keys == cfg.decls.Keys
    requires forall s :: s in a && a[s].valid ==> b[s].valid
    requires forall s :: s in cfg.decls ==> NotedAt(cfg, rank, a, wa, b, wb, s)
    ensures Noted(cfg, rank, a, wa, b, wb)
  {
  }

  lemma NotedBoth(cfg: Config, rank: map<Sym, nat>, a: Memory, wa: set<Sym>, b: Memory, wb: set<Sym>, c: Memory, wc: set<Sym>,
                  s: Sym)
    requires WellFormed(cfg) && Ranked(cfg, rank) && a.Keys == b.Keys == c.Keys == cfg.decls.Keys && s in cfg.decls
    requires forall t :: t in a && a[t].valid ==> b[t].valid
    requires forall t :: t in b && b[t].valid ==> c[t].valid
    requires NotedAt(cfg, rank, a, wa, b, wb, s) && NotedAt(cfg, rank, b, wb, c, wc, s)
    ensures NotedAt(cfg, rank, a, wa, c, wc, s)
  {
    hide WellFormed, Ranked, Writes, ChoiceMarks, ChoiceMayMark;
  }

  /** Storing anything but SYMBOL_VALID marks nothing. */
  lemma NotedStore(cfg: Config, rank: map<Sym, nat>, a: Memory, wa: set<Sym>, b: Memory, wb: set<Sym>, s: Sym, x: State)
    requires Noted(cfg, rank, a, wa, b, wb) && s in b && x.valid == b[s].valid
    ensures Noted(cfg, rank, a, wa, b[s := x], wb)
  {
    hide WellFormed, Ranked, Writes, ChoiceMarks, ChoiceMayMark, Noted, NotedAt;
    NotedParts(cfg, rank, a, wa, b, wb);
    forall t | t in cfg.decls ensures NotedAt(cfg, rank, a, wa, b[s := x], wb, t) {
      NotedStoreAt(cfg, rank, a, wa, b, wb, s, x, t);
    }
    NotedWhole(cfg, rank, a, wa, b[s := x], wb);
  }

  lemma NotedStoreAt(cfg: Config, rank: map<Sym, nat>, a: Memory, wa: set<Sym>, b: Memory, wb: set<Sym>, s: Sym, x: State, t: Sym)
    requires WellFormed(cfg) && Ranked(cfg, rank) && t in cfg.decls && s in b && x.valid == b[s].valid
    requires NotedAt(cfg, rank, a, wa, b, wb, t)
    ensures NotedAt(cfg, rank, a, wa, b[s := x], wb, t)
  {
    hide WellFormed, Ranked, Writes, ChoiceMarks, ChoiceMayMark;
  }

  /** A symbol without a type keeps its mark. */
  lemma NotedUntyped(cfg: Config, rank: map<Sym, nat>, a: Memory, w: set<Sym>, s: Sym, x: State)
    requires MemoryOk(cfg, rank, a) && s in a && x.valid && !Typed(s)
    ensures Noted(cfg, rank, a, w, a[s := x], w)
  {
    hide WellFormed, Ranked, SlotOk, Writes, ChoiceMarks, ChoiceMayMark;
    UntypedAlone(cfg, s);
    forall t | t in cfg.decls ensures NotedAt(cfg, rank, a, w, a[s := x], w, t) {
      if cfg.Owned(t) { OwnerKind(cfg, t); }
    }
  }

  lemma UntypedAlone(cfg: Config, s: Sym)
    requires WellFormed(cfg) && s in cfg.decls && !Typed(s)
    ensures !cfg.Owned(s) && !cfg.decls[s].Choice()
  {
    assert DeclOk(cfg, s);
  }

  lemma OwnerKind(cfg: Config, t: Sym)
    requires WellFormed(cfg) && t in cfg.decls && cfg.Owned(t)
    ensures var c := cfg.decls[t].owner.value; c in cfg.decls && cfg.decls[c].Choice() && t in cfg.decls[c].members && t != c
  {
    assert DeclOk(cfg, t);
    assert DeclOk(cfg, cfg.decls[t].owner.value);
  }

  lemma MemberKind(cfg: Config, c: Sym, t: Sym)
    requires WellFormed(cfg) && c in cfg.decls && t in cfg.decls[c].members
    ensures t in cfg.decls && cfg.decls[t].owner == Some(c)
  {
    assert DeclOk(cfg, c);
  }

  /** The marks while s is evaluated: unless it is a member, its own is taken away first. */
  function Unmarked(cfg: Config, w: set<Sym>, s: Sym): set<Sym>
    requires s in cfg.decls
  {
    if cfg.Owned(s) then w else w - {s}
  }

  /** The marks after it has been evaluated. */
  function WithMarks(cfg: Config, w: set<Sym>, st: Memory, s: Sym, write: bool): set<Sym>
    requires s in cfg.decls
  {
    if write then w + MarkedBy(cfg, st, s) else w
  }

  /** The members of a choice at y have the visibility they are going to have. */
  ghost predicate MembersShown(cfg: Config, rank: map<Sym, nat>, st: Memory, c: Sym)
    requires WellFormed(cfg) && Ranked(cfg, rank) && c in cfg.decls
  {
    cfg.decls[c].Choice() && Spec(cfg, rank, c).tri == YES ==>
      forall m :: m in cfg.decls[c].members ==>
        m in cfg.decls && m in st && (st[m].v.visible != NO <==> Spec(cfg, rank, m).visible != NO)
  }

  /** The marks set by the evaluation of s, which was made valid first: whatever was evaluated on the way is noted,
      from b, where only s is valid in addition to what is in a. */
  lemma NotedEnd(cfg: Config, rank: map<Sym, nat>, a: Memory, wa: set<Sym>, b: Memory, d: Memory, w: set<Sym>, s: Sym, write: bool)
    requires MemoryOk(cfg, rank, a) && s in a && s in cfg.decls && !a[s].valid && Typed(s)
    requires b == a[s := a[s].(valid := true)]
    requires Noted(cfg, rank, b, Unmarked(cfg, wa, s), d, w)
    requires (write <==> Writes(cfg, rank, s)) && MembersShown(cfg, rank, d, s)
    ensures Noted(cfg, rank, a, wa, d, WithMarks(cfg, w, d, s, write))
  {
    hide WellFormed, Ranked, SlotOk, Writes, Noted;
    NotedParts(cfg, rank, b, Unmarked(cfg, wa, s), d, w);
    forall t | t in cfg.decls ensures NotedAt(cfg, rank, a, wa, d, WithMarks(cfg, w, d, s, write), t) {
      NotedEndAt(cfg, rank, a, wa, b, d, w, s, write, t);
    }
    NotedWhole(cfg, rank, a, wa, d, WithMarks(cfg, w, d, s, write));
  }

  lemma NotedEndAt(cfg: Config, rank: map<Sym, nat>, a: Memory, wa: set<Sym>, b: Memory, d: Memory, w: set<Sym>, s: Sym,
                   write: bool, t: Sym)
    requires WellFormed(cfg) && Ranked(cfg, rank) && a.Keys == d.Keys == cfg.decls.Keys
    requires s in a && s in cfg.decls && !a[s].valid && Typed(s) && b == a[s := a[s].(valid := true)] && d[s].valid
    requires t in cfg.decls && NotedAt(cfg, rank, b, Unmarked(cfg, wa, s), d, w, t)
    requires (write <==> Writes(cfg, rank, s)) && MembersShown(cfg, rank, d, s)
    ensures NotedAt(cfg, rank, a, wa, d, WithMarks(cfg, w, d, s, write), t)
  {
    hide WellFormed, Ranked, Writes, Spec;
    if cfg.Owned(t) {
      OwnerKind(cfg, t);
      if cfg.decls[t].owner.value != s && cfg.decls[s].Choice() && t in cfg.decls[s].members { MemberKind(cfg, s, t); }
    } else if cfg.decls[s].Choice() && t in cfg.decls[s].members {
      MemberKind(cfg, s, t);
    }
  }

  lemma SeenShown(cfg: Config, rank: map<Sym, nat>, st: Memory, c: Sym)
    requires MemoryOk(cfg, rank, st) && c in st && cfg.decls[c].Choice()
    requires Spec(cfg, rank, c).tri == YES ==> MembersSeen(cfg, rank, st, c, |cfg.decls[c].members|)
    ensures MembersShown(cfg, rank, st, c)
  {
    hide Spec, WellFormed, Ranked, SlotOk, Visible, EnvAt, EnvBelow, MembersSeen;
    if Spec(cfg, rank, c).tri == YES {
      forall m | m in cfg.decls[c].members
        ensures m in cfg.decls && m in st && (st[m].v.visible != NO <==> Spec(cfg, rank, m).visible != NO)
      {
        SeenMember(cfg, rank, st, c, m);
        MemberSees(cfg, rank, c, m);
        MemberSpec(cfg, rank, c, m);
      }
    }
  }

  /** Storing the pick leaves the members alone. */
  lemma PickShown(cfg: Config, rank: map<Sym, nat>, a: Memory, b: Memory, d: Memory, c: Sym)
    requires MemoryOk(cfg, rank, b) && c in b && c in d && d == b[c := d[c]] && Reached(cfg, rank, a, d, rank[c] + 1)
    requires cfg.decls[c].Choice() && MembersSeen(cfg, rank, b, c, |cfg.decls[c].members|)
    ensures MembersShown(cfg, rank, d, c)
  {
    hide Spec, WellFormed, Ranked, SlotOk, MembersSeen, MembersShown, MemoryOk;
    Shape(cfg, rank, b);
    ReachedShape(cfg, rank, a, d, rank[c] + 1);
    SeenStore(cfg, rank, b, c, d[c]);
    SeenShown(cfg, rank, d, c);
  }

  lemma NoneShown(cfg: Config, rank: map<Sym, nat>, st: Memory, c: Sym)
    requires WellFormed(cfg) && Ranked(cfg, rank) && c in cfg.decls && (cfg.decls[c].Choice() ==> Spec(cfg, rank, c).tri != YES)
    ensures MembersShown(cfg, rank, st, c)
  {
    hide Spec, WellFormed, Ranked;
  }

  lemma NoChoiceShown(cfg: Config, rank: map<Sym, nat>, st: Memory, c: Sym)
    requires WellFormed(cfg) && Ranked(cfg, rank) && c in cfg.decls && !cfg.decls[c].Choice()
    ensures MembersShown(cfg, rank, st, c)
  {
    hide Spec, WellFormed, Ranked;
  }

  lemma UnmarkedIs(cfg: Config, w: set<Sym>, s: Sym)
    requires s in cfg.decls
    ensures Unmarked(cfg, w, s) == if cfg.Owned(s) then w else w - {s}
  {
  }

  lemma WithMarksIs(cfg: Config, w: set<Sym>, st: Memory, s: Sym, write: bool)
    requires s in cfg.decls
    ensures WithMarks(cfg, w, st, s, write) == if write then w + MarkedBy(cfg, st, s) else w
  {
  }
}
