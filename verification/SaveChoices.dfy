/** What becomes of a choice when its members are written to a file and read back (scripts/config/confdata.c). */
module ConfigSaveChoices {
  import opened Options
  import opened Tristates
  import opened Exprs
  import opened SymbolSpec
  import opened SymbolState
  import opened SymbolTheorems
  import opened SymbolSetting
  import opened SymbolRoundTrip
  import opened ConfigSaveLoad
  import ConfigText

  /** The line of a symbol sets a choice exactly if the symbol is a member of it with that value. */
  lemma SetsMember(cfg: Config, rank: map<Sym, nat>, known: ConfigText.Known, c: Sym, x: Sym, t: Tristate)
    requires WellFormed(cfg) && Ranked(cfg, rank) && Names(cfg, known) && c in cfg.decls && cfg.decls[c].Choice()
    requires x in cfg.decls && HasLine(cfg, x)
    ensures ConfigText.Sets(known, LineOf(cfg, rank, x), Number(c), t) <==>
      cfg.decls[x].owner == Some(c) && Spec(cfg, rank, x).tri == t
  {
    hide Spec, WellFormed, Ranked, ConfigText.Printable, ConfigText.ValueOf, Needs;
    DeclsOk(cfg, x);
    LineStored(cfg, rank, x);
    OwnerIsChoice(cfg, x);
    assert NameKnown(cfg, known, x);
  }

  lemma OwnerIsChoice(cfg: Config, x: Sym)
    requires WellFormed(cfg) && x in cfg.decls
    ensures cfg.Owned(x) ==> cfg.decls[x].owner.value in cfg.decls && cfg.decls[cfg.decls[x].owner.value].Choice()
    ensures cfg.Owned(x) ==> x.Type() == SBoolean || x.Type() == STristate
  {
    assert DeclOk(cfg, x);
  }

  lemma MemberFound(cfg: Config, rank: map<Sym, nat>, known: ConfigText.Known, c: Sym, m: Sym)
    requires WellFormed(cfg) && Ranked(cfg, rank) && Names(cfg, known) && c in cfg.decls && m in cfg.decls[c].members
    ensures m in cfg.decls && MemberNamed(cfg, cfg.decls[c].members, cfg.decls[m].name) == Some(m)
  {
    hide Needs, WellFormed, Ranked;
    MembersHaveLines(cfg, rank, c);
    SomeNamed(cfg, cfg.decls[c].members, m);
  }

  lemma MembersHaveLines(cfg: Config, rank: map<Sym, nat>, c: Sym)
    requires WellFormed(cfg) && Ranked(cfg, rank) && c in cfg.decls
    ensures forall m :: m in cfg.decls[c].members ==> m in cfg.decls && HasLine(cfg, m)
  {
    hide Needs;
    forall m | m in cfg.decls[c].members ensures m in cfg.decls && HasLine(cfg, m) {
      var i :| 0 <= i < |cfg.decls[c].members| && cfg.decls[c].members[i] == m;
      MemberOf(cfg, rank, c, i);
    }
  }

  lemma {:induction false} SomeNamed(cfg: Config, ms: seq<Sym>, m: Sym)
    requires m in ms && m in cfg.decls
    ensures MemberNamed(cfg, ms, cfg.decls[m].name).Some?
  {
    if ms[0] != m { SomeNamed(cfg, ms[1..], m); }
  }

  predicate OwnedBy(cfg: Config, s: Sym, c: Sym) { s in cfg.decls && cfg.decls[s].owner == Some(c) }

  /** Some listed member of c has the tristate t. */
  ghost predicate SomeAt(cfg: Config, rank: map<Sym, nat>, l: seq<Sym>, c: Sym, t: Tristate)
    requires WellFormed(cfg) && Ranked(cfg, rank)
  {
    exists s :: s in l && OwnedBy(cfg, s, c) && Spec(cfg, rank, s).tri == t
  }

  /** A member at m is listed behind one at y. */
  ghost predicate ModBehindYes(cfg: Config, rank: map<Sym, nat>, l: seq<Sym>, c: Sym)
    requires WellFormed(cfg) && Ranked(cfg, rank)
  {
    exists j :: 0 <= j < |l| && OwnedBy(cfg, l[j], c) && Spec(cfg, rank, l[j]).tri == MOD && SomeAt(cfg, rank, l[..j], c, YES)
  }

  lemma LineSets(cfg: Config, rank: map<Sym, nat>, known: ConfigText.Known, l: seq<Sym>, c: Sym, j: nat, t: Tristate)
    requires WellFormed(cfg) && Ranked(cfg, rank) && Names(cfg, known) && Listed(cfg, l)
    requires c in cfg.decls && cfg.decls[c].Choice() && j < |l|
    ensures ConfigText.Sets(known, LinesOf(cfg, rank, l)[j], Number(c), t)
      <==> OwnedBy(cfg, l[j], c) && Spec(cfg, rank, l[j]).tri == t
  {
    hide Spec, WellFormed, Ranked, Names, LineOf, ConfigText.Sets, HasLine;
    assert l[j] in l;
    SetsMember(cfg, rank, known, c, l[j], t);
  }

  lemma LinesSet(cfg: Config, rank: map<Sym, nat>, known: ConfigText.Known, l: seq<Sym>, c: Sym)
    requires WellFormed(cfg) && Ranked(cfg, rank) && Names(cfg, known) && Listed(cfg, l)
    requires c in cfg.decls && cfg.decls[c].Choice()
    ensures forall j, t :: 0 <= j < |l| ==>
      (ConfigText.Sets(known, LinesOf(cfg, rank, l)[j], Number(c), t)
       <==> OwnedBy(cfg, l[j], c) && Spec(cfg, rank, l[j]).tri == t)
  {
    hide Spec, WellFormed, Ranked, Names, LineOf, ConfigText.Sets, HasLine, OwnedBy;
    forall j, t | 0 <= j < |l|
      ensures ConfigText.Sets(known, LinesOf(cfg, rank, l)[j], Number(c), t)
        <==> OwnedBy(cfg, l[j], c) && Spec(cfg, rank, l[j]).tri == t
    {
      LineSets(cfg, rank, known, l, c, j, t);
    }
  }

  /** The first j lines set the choice to t exactly if one of their symbols is a member at t. */
  lemma AnyAt(cfg: Config, rank: map<Sym, nat>, known: ConfigText.Known, l: seq<Sym>, c: Sym, j: nat, t: Tristate)
    requires WellFormed(cfg) && Ranked(cfg, rank) && Names(cfg, known) && Listed(cfg, l)
    requires c in cfg.decls && cfg.decls[c].Choice() && j <= |l|
    ensures ConfigText.AnySets(known, LinesOf(cfg, rank, l)[..j], Number(c), t) <==> SomeAt(cfg, rank, l[..j], c, t)
  {
    hide Spec, WellFormed, Ranked, Names, LineOf, LinesOf, ConfigText.Sets, HasLine, OwnedBy, ConfigText.AnySets, SomeAt;
    var items, n := LinesOf(cfg, rank, l), Number(c);
    if ConfigText.AnySets(known, items[..j], n, t) {
      var i := SettingLine(known, items, j, n, t);
      LineSets(cfg, rank, known, l, c, i, t);
      AtIndex(cfg, rank, l, j, i, c, t);
    }
    if SomeAt(cfg, rank, l[..j], c, t) {
      var i := IndexAt(cfg, rank, l, j, c, t);
      LineSets(cfg, rank, known, l, c, i, t);
      SetsAtIndex(known, items, j, i, n, t);
    }
  }

  lemma SettingLine(known: ConfigText.Known, items: seq<ConfigText.Item>, j: nat, n: nat, t: Tristate) returns (i: nat)
    requires j <= |items| && ConfigText.AnySets(known, items[..j], n, t)
    ensures i < j && ConfigText.Sets(known, items[i], n, t)
  {
    hide ConfigText.Sets;
    var x :| x in items[..j] && ConfigText.Sets(known, x, n, t);
    i :| 0 <= i < j && items[i] == x;
  }

  lemma SetsAtIndex(known: ConfigText.Known, items: seq<ConfigText.Item>, j: nat, i: nat, n: nat, t: Tristate)
    requires i < j <= |items| && ConfigText.Sets(known, items[i], n, t)
    ensures ConfigText.AnySets(known, items[..j], n, t)
  {
    hide ConfigText.Sets;
    assert items[i] in items[..j];
  }

  lemma IndexAt(cfg: Config, rank: map<Sym, nat>, l: seq<Sym>, j: nat, c: Sym, t: Tristate) returns (i: nat)
    requires WellFormed(cfg) && Ranked(cfg, rank) && j <= |l| && SomeAt(cfg, rank, l[..j], c, t)
    ensures i < j && OwnedBy(cfg, l[i], c) && Spec(cfg, rank, l[i]).tri == t
  {
    hide Spec, WellFormed, Ranked;
    var s :| s in l[..j] && OwnedBy(cfg, s, c) && Spec(cfg, rank, s).tri == t;
    i :| 0 <= i < j && l[i] == s;
  }

  lemma AtIndex(cfg: Config, rank: map<Sym, nat>, l: seq<Sym>, j: nat, i: nat, c: Sym, t: Tristate)
    requires WellFormed(cfg) && Ranked(cfg, rank) && i < j <= |l| && OwnedBy(cfg, l[i], c) && Spec(cfg, rank, l[i]).tri == t
    ensures SomeAt(cfg, rank, l[..j], c, t)
  {
    hide Spec, WellFormed, Ranked, OwnedBy;
    assert l[i] in l[..j];
  }

  /** What the file says of a choice: the most any listed member has, and whether it counts as set. */
  lemma ChoiceLoaded(cfg: Config, rank: map<Sym, nat>, known: ConfigText.Known, l: seq<Sym>, c: Sym)
    requires WellFormed(cfg) && Ranked(cfg, rank) && Names(cfg, known) && Listed(cfg, l)
    requires c in cfg.decls && cfg.decls[c].Choice()
    ensures var cfg2 := LoadedConfig(cfg, ConfigText.Restored(known, LinesOf(cfg, rank, l), ResetSaved(cfg)));
      && cfg2.user(c).tri == (if SomeAt(cfg, rank, l, c, YES) then YES else if SomeAt(cfg, rank, l, c, MOD) then MOD else NO)
      && (c in cfg2.hasUser <==> !ModBehindYes(cfg, rank, l, c))
  {
    hide Spec, WellFormed, Ranked, Names, LineOf, ConfigText.Sets, ConfigText.AnySets, ConfigText.Restored, HasLine, OwnedBy, SomeAt;
    var items, def, n := LinesOf(cfg, rank, l), ResetSaved(cfg), Number(c);
    ConfigText.ChoiceRestored(known, items, def, n);
    LinesSet(cfg, rank, known, l, c);
    forall j | 0 <= j <= |l|
      ensures ConfigText.AnySets(known, items[..j], n, YES) <==> SomeAt(cfg, rank, l[..j], c, YES)
      ensures ConfigText.AnySets(known, items[..j], n, MOD) <==> SomeAt(cfg, rank, l[..j], c, MOD)
    {
      AnyAt(cfg, rank, known, l, c, j, YES);
      AnyAt(cfg, rank, known, l, c, j, MOD);
    }
    assert items[..|l|] == items && l[..|l|] == l;
    assert ConfigText.Conflict(known, items, n, false) <==> ModBehindYes(cfg, rank, l, c);
  }

  /** The last listed member of c that is y. */
  ghost function LastYes(cfg: Config, rank: map<Sym, nat>, l: seq<Sym>, c: Sym): Option<Sym>
    requires WellFormed(cfg) && Ranked(cfg, rank)
  {
    if l == [] then None
    else
      var s := l[|l| - 1];
      if OwnedBy(cfg, s, c) && Spec(cfg, rank, s).tri == YES then Some(s) else LastYes(cfg, rank, l[..|l| - 1], c)
  }

  /** Where it is listed; k is 0 if there is none. */
  lemma {:induction false} LastYesAt(cfg: Config, rank: map<Sym, nat>, l: seq<Sym>, c: Sym) returns (k: nat)
    requires WellFormed(cfg) && Ranked(cfg, rank)
    ensures k <= |l|
    ensures LastYes(cfg, rank, l, c) == if k == 0 then None else Some(l[k - 1])
    ensures k > 0 ==> OwnedBy(cfg, l[k - 1], c) && Spec(cfg, rank, l[k - 1]).tri == YES
    ensures forall j :: k <= j < |l| && OwnedBy(cfg, l[j], c) ==> Spec(cfg, rank, l[j]).tri != YES
  {
    hide Spec, WellFormed, Ranked;
    k := |l|;
    if l != [] && !(OwnedBy(cfg, l[|l| - 1], c) && Spec(cfg, rank, l[|l| - 1]).tri == YES) {
      k := LastYesAt(cfg, rank, l[..|l| - 1], c);
    }
  }

  lemma LastSome(cfg: Config, rank: map<Sym, nat>, l: seq<Sym>, c: Sym)
    requires WellFormed(cfg) && Ranked(cfg, rank)
    ensures LastYes(cfg, rank, l, c).Some? <==> SomeAt(cfg, rank, l, c, YES)
    ensures LastYes(cfg, rank, l, c).Some? ==> LastYes(cfg, rank, l, c).value in l
  {
    hide Spec, WellFormed, Ranked, LastYes;
    var k := LastYesAt(cfg, rank, l, c);
    if k > 0 { assert l[k - 1] in l; }
  }

  /** And which member is selected: the last one at y. */
  lemma PickLoaded(cfg: Config, rank: map<Sym, nat>, known: ConfigText.Known, l: seq<Sym>, c: Sym)
    requires WellFormed(cfg) && Ranked(cfg, rank) && Names(cfg, known) && Listed(cfg, l)
    requires c in cfg.decls && cfg.decls[c].Choice()
    ensures LoadedConfig(cfg, ConfigText.Restored(known, LinesOf(cfg, rank, l), ResetSaved(cfg))).user(c).pick
      == LastYes(cfg, rank, l, c)
  {
    hide Spec, WellFormed, Ranked, Names, LineOf, ConfigText.Sets, ConfigText.Restored, HasLine, LastYes;
    var items, def, n := LinesOf(cfg, rank, l), ResetSaved(cfg), Number(c);
    LinesSet(cfg, rank, known, l, c);
    var k := LastYesAt(cfg, rank, l, c);
    ConfigText.PickRestored(known, items, def, n, k);
    if k > 0 {
      LineName(cfg, rank, l[k - 1]);
      MemberOfOwner(cfg, l[k - 1], c);
      MemberFound(cfg, rank, known, c, l[k - 1]);
    }
  }

  lemma MemberOfOwner(cfg: Config, m: Sym, c: Sym)
    requires WellFormed(cfg) && m in cfg.decls && cfg.decls[m].owner == Some(c)
    ensures c in cfg.decls && m in cfg.decls[c].members
  {
    assert DeclOk(cfg, m);
  }

  lemma SameVisible(cfg: Config, cfg2: Config)
    requires SameStatic(cfg, cfg2)
    ensures forall s, env :: s in cfg.decls ==> Visible(cfg, s, env) == Visible(cfg2, s, env)
  {
  }

  // ----- which choices come back -----

  /** The tristate that counts as set by the user once the lines of l have been read: if the choice has lost
      its user flag that is n, since a choice has no default for its tristate. */
  ghost function ReadOf(cfg: Config, rank: map<Sym, nat>, l: seq<Sym>, c: Sym): Tristate
    requires WellFormed(cfg) && Ranked(cfg, rank)
  {
    if ModBehindYes(cfg, rank, l, c) then NO
    else if SomeAt(cfg, rank, l, c, YES) then YES else if SomeAt(cfg, rank, l, c, MOD) then MOD else NO
  }

  /** What the choice picks if the user's pick is p. */
  ghost function FavouredBy(cfg: Config, rank: map<Sym, nat>, c: Sym, p: Option<Sym>): Option<Sym>
    requires WellFormed(cfg) && Ranked(cfg, rank) && c in cfg.decls && cfg.decls[c].Choice()
  {
    DeclsOk(cfg, c);
    RankAt(cfg, rank, c);
    var env := EnvAt(cfg, rank, rank[c], Some(c));
    if p.Some? && p.value in cfg.decls && Visible(cfg, p.value, env) != NO then p
    else
      var q := FirstVisibleDefault(cfg, cfg.decls[c].defaults, env);
      if q.Some? then q else FirstVisible(cfg, cfg.decls[c].members, env)
  }

  /** The lines of l give the choice c its tristate and its pick again. */
  ghost predicate ChoiceKept(cfg: Config, rank: map<Sym, nat>, l: seq<Sym>, c: Sym)
    requires WellFormed(cfg) && Ranked(cfg, rank) && c in cfg.decls && cfg.decls[c].Choice()
  {
    var v := Spec(cfg, rank, c);
    var tri := Given(cfg, c, ReadOf(cfg, rank, l, c), v);
    if tri == YES then
      var p := FavouredBy(cfg, rank, c, LastYes(cfg, rank, l, c));
      v.pick == p && v.tri == if p.Some? then YES else NO
    else v.tri == tri
  }

  /** Whatever is in the file, a choice comes back if and only if the lines of its members say so. */
  lemma ChoiceExact(cfg: Config, rank: map<Sym, nat>, known: ConfigText.Known, l: seq<Sym>, c: Sym)
    requires WellFormed(cfg) && Ranked(cfg, rank) && Names(cfg, known) && Listed(cfg, l)
    requires c in cfg.decls && cfg.decls[c].Choice()
    ensures var cfg2 := LoadedConfig(cfg, ConfigText.Restored(known, LinesOf(cfg, rank, l), ResetSaved(cfg)));
      && Loaded(cfg, rank, cfg2)
      && (Reproduced(cfg, rank, cfg2, c) <==> ChoiceKept(cfg, rank, l, c))
  {
    hide Spec, WellFormed, Ranked, Names, LineOf, ConfigText.Restored, HasLine, LoadedConfig, Loaded, Pick, ModBehindYes, SomeAt,
         LastYes, FavouredBy, DefaultTri, Given;
    var cfg2 := LoadedConfig(cfg, ConfigText.Restored(known, LinesOf(cfg, rank, l), ResetSaved(cfg)));
    FileLoaded(cfg, rank, known, l);
    ChoiceLoaded(cfg, rank, known, l, c);
    PickLoaded(cfg, rank, known, l, c);
    LoadedShape(cfg, rank, cfg2);
    DefaultGiven(cfg, rank, c);
    PickBy(cfg, rank, cfg2, c);
  }

  lemma DefaultGiven(cfg: Config, rank: map<Sym, nat>, c: Sym)
    requires WellFormed(cfg) && Ranked(cfg, rank) && c in cfg.decls && cfg.decls[c].Choice()
    ensures DefaultTri(cfg, rank, c) == Given(cfg, c, NO, Spec(cfg, rank, c)) && Typed(c)
  {
    hide Spec, WellFormed, Ranked, EnvBelow, Needs;
    DeclsOk(cfg, c);
    RankAt(cfg, rank, c);
  }

  lemma PickBy(cfg: Config, rank: map<Sym, nat>, cfg2: Config, c: Sym)
    requires WellFormed(cfg) && WellFormed(cfg2) && Ranked(cfg, rank) && SameStatic(cfg, cfg2)
    requires c in cfg.decls && cfg.decls[c].Choice()
    ensures c in rank && DeclOk(cfg2, c)
    ensures Pick(cfg2, c, EnvAt(cfg, rank, rank[c], Some(c))) == FavouredBy(cfg, rank, c, cfg2.user(c).pick)
  {
    hide WellFormed, Ranked, Visible, EnvAt, Needs;
    RankAt(cfg, rank, c);
    DeclsOk(cfg, c);
    DeclsOk(cfg2, c);
    SameVisible(cfg, cfg2);
    var env := EnvAt(cfg, rank, rank[c], Some(c));
    DefaultsSame(cfg, cfg2, cfg.decls[c].defaults, env);
    FirstSame(cfg, cfg2, cfg.decls[c].members, env);
  }

  lemma {:induction false} DefaultsSame(cfg: Config, cfg2: Config, ds: seq<Default>, env: Env)
    requires SameStatic(cfg, cfg2) && forall p :: p in ds ==> p.value.Symbol? && p.value.sym in cfg.decls
    ensures FirstVisibleDefault(cfg, ds, env) == FirstVisibleDefault(cfg2, ds, env)
  {
    if ds != [] {
      SameVisible(cfg, cfg2);
      DefaultsSame(cfg, cfg2, ds[1..], env);
    }
  }

  lemma {:induction false} FirstSame(cfg: Config, cfg2: Config, ms: seq<Sym>, env: Env)
    requires SameStatic(cfg, cfg2) && forall m :: m in ms ==> m in cfg.decls
    ensures FirstVisible(cfg, ms, env) == FirstVisible(cfg2, ms, env)
  {
    if ms != [] {
      SameVisible(cfg, cfg2);
      FirstSame(cfg, cfg2, ms[1..], env);
    }
  }

  /** A choice at y comes back if and only if what is read gives y and the last member at y in the file, or in its
      absence the defaults, lead to its pick; in particular if the pick is that member and no member at m is
      listed behind one at y. */
  lemma ChoiceAtYes(cfg: Config, rank: map<Sym, nat>, l: seq<Sym>, c: Sym)
    requires WellFormed(cfg) && Ranked(cfg, rank) && c in cfg.decls && cfg.decls[c].Choice() && Spec(cfg, rank, c).tri == YES
    ensures var v := Spec(cfg, rank, c);
      && (ChoiceKept(cfg, rank, l, c) <==>
            Given(cfg, c, ReadOf(cfg, rank, l, c), v) == YES
            && FavouredBy(cfg, rank, c, LastYes(cfg, rank, l, c)) == v.pick)
      && (LastYes(cfg, rank, l, c) == v.pick && !ModBehindYes(cfg, rank, l, c) ==> ChoiceKept(cfg, rank, l, c))
  {
    hide Spec, WellFormed, Ranked, ModBehindYes, LastYes, Pick, EnvAt;
    LastSome(cfg, rank, l, c);
    ChoiceRaw(cfg, rank, c);
    hide SomeAt, Visible, EnvBelow, Needs;
    DeclsOk(cfg, c);
    PickVisible(cfg, rank, c);
    ChoiceSpec(cfg, rank, c);
  }

  /** A choice at m, no member being written as y, comes back if and only if a member is written as m or the
      choice is selected to m: nothing else in the file says that it is m. */
  lemma ChoiceAtMod(cfg: Config, rank: map<Sym, nat>, l: seq<Sym>, c: Sym)
    requires WellFormed(cfg) && Ranked(cfg, rank)
    requires c in cfg.decls && cfg.decls[c].Choice() && Spec(cfg, rank, c).tri == MOD && !SomeAt(cfg, rank, l, c, YES)
    ensures ChoiceKept(cfg, rank, l, c) <==> SomeAt(cfg, rank, l, c, MOD) || Spec(cfg, rank, c).rev == MOD
  {
    hide Spec, WellFormed, Ranked, Pick, FavouredBy, LastYes, EnvAt, EnvBelow, Needs;
    NoneBehind(cfg, rank, l, c);
    ChoiceRaw(cfg, rank, c);
    hide SomeAt, ModBehindYes;
  }

  /** A choice at n, no member being written as y or m, comes back unless it is selected to m. It is n in spite
      of that only if it would be y, but has no visible member. */
  lemma ChoiceAtNo(cfg: Config, rank: map<Sym, nat>, l: seq<Sym>, c: Sym)
    requires WellFormed(cfg) && Ranked(cfg, rank)
    requires c in cfg.decls && cfg.decls[c].Choice() && Spec(cfg, rank, c).tri == NO
    requires !SomeAt(cfg, rank, l, c, YES) && !SomeAt(cfg, rank, l, c, MOD)
    ensures ChoiceKept(cfg, rank, l, c) <==>
      Spec(cfg, rank, c).rev != MOD || EffectiveType(cfg, c, Spec(cfg, rank, c).visible) == SBoolean
  {
    hide Spec, WellFormed, Ranked, Pick, FavouredBy, EnvAt, EnvBelow, Needs, LastYes;
    NoneBehind(cfg, rank, l, c);
    ChoiceRaw(cfg, rank, c);
    LastSome(cfg, rank, l, c);
    hide SomeAt, ModBehindYes;
    NoFavourite(cfg, rank, c, LastYes(cfg, rank, l, c));
  }

  /** Whether something is picked does not depend on the user's pick. */
  lemma NoFavourite(cfg: Config, rank: map<Sym, nat>, c: Sym, p: Option<Sym>)
    requires WellFormed(cfg) && Ranked(cfg, rank) && c in cfg.decls && cfg.decls[c].Choice()
    requires p.Some? ==> p.value in cfg.decls[c].members
    ensures c in rank && DeclOk(cfg, c)
    ensures FavouredBy(cfg, rank, c, p).None? <==> Pick(cfg, c, EnvAt(cfg, rank, rank[c], Some(c))).None?
  {
    hide Visible, EnvAt, Needs, WellFormed, Ranked;
    RankAt(cfg, rank, c);
    DeclsOk(cfg, c);
  }

  lemma NoneBehind(cfg: Config, rank: map<Sym, nat>, l: seq<Sym>, c: Sym)
    requires WellFormed(cfg) && Ranked(cfg, rank) && !SomeAt(cfg, rank, l, c, YES)
    ensures !ModBehindYes(cfg, rank, l, c)
  {
    hide Spec, WellFormed, Ranked;
    forall j | 0 <= j < |l| ensures !SomeAt(cfg, rank, l[..j], c, YES) {
      assert forall s :: s in l[..j] ==> s in l;
    }
  }

  /** A choice in terms of its own limits. */
  lemma ChoiceRaw(cfg: Config, rank: map<Sym, nat>, c: Sym)
    requires WellFormed(cfg) && Ranked(cfg, rank) && c in cfg.decls && cfg.decls[c].Choice()
    ensures c in rank && DeclOk(cfg, c)
    ensures var v, env := Spec(cfg, rank, c), EnvBelow(cfg, rank, rank[c]);
      var tri := TriValue(cfg, c, c in cfg.hasUser, v.visible, v.rev, env);
      var pick := Pick(cfg, c, EnvAt(cfg, rank, rank[c], Some(c)));
      && v.tri == (if tri == YES && pick.None? then NO else tri)
      && v.pick == if tri == YES then pick else None
  {
    hide Spec, Needs, Visible, Selected, Pick, EnvBelow, ValsBelow;
    RankAt(cfg, rank, c);
    DeclsOk(cfg, c);
    SpecUnfolds(cfg, rank, c);
  }

  // ----- choices of booleans -----

  /** All members are booleans, and none has a default. */
  predicate Plain(cfg: Config, c: Sym)
    requires c in cfg.decls
  {
    forall m :: m in cfg.decls[c].members && m in cfg.decls ==> m.Type() == SBoolean && cfg.decls[m].defaults == []
  }

  /** Then a member is y if it is the pick of a choice at y, and else n. */
  lemma PlainMemberValue(cfg: Config, rank: map<Sym, nat>, c: Sym, m: Sym)
    requires WellFormed(cfg) && Ranked(cfg, rank) && c in cfg.decls && cfg.decls[c].Choice() && Plain(cfg, c)
    requires OwnedBy(cfg, m, c)
    ensures Spec(cfg, rank, m).tri == if Spec(cfg, rank, c).tri == YES && Spec(cfg, rank, c).pick == Some(m) then YES else NO
    ensures Spec(cfg, rank, c).tri == YES && Spec(cfg, rank, c).pick == Some(m) ==> Spec(cfg, rank, m).visible == YES
  {
    hide Spec, WellFormed, Ranked, Needs, Eval, EvalOpt, EnvBelow, ValsBelow, PromptMax, Pick;
    MemberOfOwner(cfg, m, c);
    DeclsOk(cfg, m);
    RankAt(cfg, rank, m);
    OwnerBelow(cfg, rank, m);
    MemberSpec(cfg, rank, c, m);
    SpecUnfolds(cfg, rank, m);
    if Spec(cfg, rank, c).tri == YES {
      ChoiceSpec(cfg, rank, c);
      PickVisible(cfg, rank, c);
      MemberSees(cfg, rank, c, m);
    } else {
      NoPickUnlessYes(cfg, rank, c);
    }
  }

  lemma OwnerBelow(cfg: Config, rank: map<Sym, nat>, s: Sym)
    requires WellFormed(cfg) && Ranked(cfg, rank) && s in cfg.decls && cfg.Owned(s)
    ensures var c := cfg.decls[s].owner.value; c in cfg.decls && rank[c] < rank[s]
  {
    assert DeclOk(cfg, s);
    assert RankedAt(cfg, rank, s) && cfg.decls[s].owner.value in Needs(cfg, s);
  }

  lemma NoPickUnlessYes(cfg: Config, rank: map<Sym, nat>, c: Sym)
    requires WellFormed(cfg) && Ranked(cfg, rank) && c in cfg.decls && cfg.decls[c].Choice() && Spec(cfg, rank, c).tri != YES
    ensures Spec(cfg, rank, c).pick == None
  {
    hide Spec, WellFormed, Ranked, Needs, Visible, Selected, EnvBelow, ValsBelow, Pick;
    DeclsOk(cfg, c);
    RankAt(cfg, rank, c);
    SpecUnfolds(cfg, rank, c);
  }

  /** What the lines of such a choice say: the pick, if it has one. */
  lemma PlainRead(cfg: Config, rank: map<Sym, nat>, l: seq<Sym>, c: Sym)
    requires WellFormed(cfg) && Ranked(cfg, rank) && c in cfg.decls && cfg.decls[c].Choice() && Plain(cfg, c)
    ensures !SomeAt(cfg, rank, l, c, MOD) && !ModBehindYes(cfg, rank, l, c)
    ensures var v := Spec(cfg, rank, c);
      LastYes(cfg, rank, l, c) == if v.tri == YES && v.pick.Some? && v.pick.value in l then v.pick else None
  {
    hide Spec, WellFormed, Ranked, LastYes, Plain;
    forall m | OwnedBy(cfg, m, c)
      ensures Spec(cfg, rank, m).tri == if Spec(cfg, rank, c).tri == YES && Spec(cfg, rank, c).pick == Some(m) then YES else NO
    {
      PlainMemberValue(cfg, rank, c, m);
    }
    var v := Spec(cfg, rank, c);
    var k := LastYesAt(cfg, rank, l, c);
    if v.tri == YES && v.pick.Some? && v.pick.value in l {
      PickOwned(cfg, rank, c);
      var j :| 0 <= j < |l| && l[j] == v.pick.value;
      assert j < k;
    }
  }

  lemma PickOwned(cfg: Config, rank: map<Sym, nat>, c: Sym)
    requires WellFormed(cfg) && Ranked(cfg, rank) && c in cfg.decls && cfg.decls[c].Choice() && Spec(cfg, rank, c).tri == YES
    ensures Spec(cfg, rank, c).pick.Some? && OwnedBy(cfg, Spec(cfg, rank, c).pick.value, c)
  {
    hide Spec, Ranked, Needs, Visible, EnvAt, FirstVisible, FirstVisibleDefault;
    DeclsOk(cfg, c);
    ChoiceSpec(cfg, rank, c);
  }

  /** When a choice of booleans comes back: at y if the line of its pick is in the file, or if without a line it is
      y by what selects it and has that pick by its defaults; at m if it is selected to m; at n unless it can be
      m and is selected to m. */
  lemma PlainKept(cfg: Config, rank: map<Sym, nat>, l: seq<Sym>, c: Sym)
    requires WellFormed(cfg) && Ranked(cfg, rank) && c in cfg.decls && cfg.decls[c].Choice() && Plain(cfg, c)
    ensures var v := Spec(cfg, rank, c);
      && (v.tri == YES ==> v.pick.Some? && (ChoiceKept(cfg, rank, l, c) <==>
            v.pick.value in l || (Given(cfg, c, NO, v) == YES && FavouredBy(cfg, rank, c, None) == v.pick)))
      && (v.tri == MOD ==> (ChoiceKept(cfg, rank, l, c) <==> v.rev == MOD))
      && (v.tri == NO ==> (ChoiceKept(cfg, rank, l, c) <==> v.rev != MOD || EffectiveType(cfg, c, v.visible) == SBoolean))
  {
    hide Spec, WellFormed, Ranked, ChoiceKept, Plain, FavouredBy, LastYes, SomeAt, ModBehindYes, Given;
    var v := Spec(cfg, rank, c);
    PlainRead(cfg, rank, l, c);
    LastSome(cfg, rank, l, c);
    if v.tri == YES {
      PickOwned(cfg, rank, c);
      ChoiceAtYes(cfg, rank, l, c);
    } else if v.tri == MOD {
      ChoiceAtMod(cfg, rank, l, c);
    } else {
      ChoiceAtNo(cfg, rank, l, c);
    }
  }
}
