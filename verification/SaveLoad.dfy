/** A configuration written to a file and read back: the values of all symbols, from the evaluation through
    the text and back (scripts/config/confdata.c). */
module ConfigSaveLoad {
  import opened Options
  import opened Tristates
  import opened Exprs
  import opened SymbolSpec
  import opened SymbolState
  import opened SymbolTheorems
  import opened SymbolSetting
  import opened SymbolRoundTrip
  import opened SymbolExamples
  import ConfigText

  // ----- the names in the file -----

  /** Symbols that are written by name; choices are not. */
  predicate HasLine(cfg: Config, s: Sym)
    requires s in cfg.decls
  {
    s.Declared? && Typed(s) && !cfg.decls[s].Choice()
  }

  /** The number by which the reader keeps a choice. */
  function Number(c: Sym): nat { if c.Declared? then c.id else 0 }

  /** What the reader knows of the symbols: each has a name of its own, a type, and a choice if it is a
      member; and each choice has its own number. */
  ghost predicate Names(cfg: Config, known: ConfigText.Known) {
    && (forall s {:trigger cfg.decls[s]} :: s in cfg.decls && HasLine(cfg, s) ==> NameKnown(cfg, known, s))
    && (forall s, t {:trigger cfg.decls[s], cfg.decls[t]} :: s in cfg.decls && t in cfg.decls ==>
          && (HasLine(cfg, s) && HasLine(cfg, t) && cfg.decls[s].name == cfg.decls[t].name ==> s == t)
          && (cfg.decls[s].Choice() && cfg.decls[t].Choice() && Number(s) == Number(t) ==> s == t))
  }

  predicate NameKnown(cfg: Config, known: ConfigText.Known, s: Sym)
    requires s in cfg.decls
  {
    var n, owner := cfg.decls[s].name, cfg.decls[s].owner;
    && n in known.types && known.types[n] == s.Type()
    && (n in known.owner <==> owner.Some?)
    && (owner.Some? ==> known.owner[n] == Number(owner.value))
  }

  // ----- what is written -----

  function LineText(s: Sym, v: Value): string {
    if s.Type() == SBoolean || s.Type() == STristate then TriStr(v.tri) else v.str
  }

  ghost function LineOf(cfg: Config, rank: map<Sym, nat>, s: Sym): ConfigText.Item
    requires WellFormed(cfg) && Ranked(cfg, rank) && s in cfg.decls
  {
    ConfigText.Setting(cfg.decls[s].name, s.Type(), LineText(s, Spec(cfg, rank, s)))
  }

  /** The lines of the symbols in l. */
  ghost function LinesOf(cfg: Config, rank: map<Sym, nat>, l: seq<Sym>): (items: seq<ConfigText.Item>)
    requires WellFormed(cfg) && Ranked(cfg, rank) && forall s :: s in l ==> s in cfg.decls
    ensures |items| == |l| && forall i :: 0 <= i < |l| ==> items[i] == LineOf(cfg, rank, l[i])
  {
    if l == [] then [] else [LineOf(cfg, rank, l[0])] + LinesOf(cfg, rank, l[1..])
  }

  /** Different symbols, each with a line. */
  ghost predicate Listed(cfg: Config, l: seq<Sym>) {
    && (forall s :: s in l ==> s in cfg.decls && HasLine(cfg, s))
    && Different(l)
  }

  predicate Different(l: seq<Sym>) { forall i, j :: 0 <= i < j < |l| ==> l[i] != l[j] }

  // ----- what is loaded -----

  /** After conf_reset. */
  function ResetSaved(cfg: Config): ConfigText.Saved {
    ConfigText.Saved(map[], map c | c in cfg.decls && cfg.decls[c].Choice() :: Number(c) := ConfigText.Reset)
  }

  function MemberNamed(cfg: Config, ms: seq<Sym>, name: string): (r: Option<Sym>)
    ensures r.Some? ==> r.value in ms && r.value in cfg.decls && cfg.decls[r.value].name == name
  {
    if ms == [] then None
    else if ms[0] in cfg.decls && cfg.decls[ms[0]].name == name then Some(ms[0])
    else MemberNamed(cfg, ms[1..], name)
  }

  /** The user value of a symbol, from what has been read. */
  function LoadedUser(cfg: Config, saved: ConfigText.Saved, s: Sym): User {
    if s !in cfg.decls then User(NO, "", None)
    else if cfg.decls[s].Choice() then
      if Number(s) !in saved.choices then User(NO, "", None)
      else
        var c := saved.choices[Number(s)];
        User(c.tri, "", if c.pick.None? then None else MemberNamed(cfg, cfg.decls[s].members, c.pick.value))
    else if cfg.decls[s].name !in saved.values then User(NO, "", None)
    else
      match saved.values[cfg.decls[s].name]
      case Tri(tri) => User(tri, "", None)
      case Val(val) => User(NO, val, None)
  }

  predicate LoadedFlag(cfg: Config, saved: ConfigText.Saved, s: Sym)
    requires s in cfg.decls
  {
    if cfg.decls[s].Choice() then Number(s) in saved.choices && saved.choices[Number(s)].hasUser
    else HasLine(cfg, s) && cfg.decls[s].name in saved.values
  }

  /** The configuration with the user values read. */
  function LoadedConfig(cfg: Config, saved: ConfigText.Saved): Config {
    cfg.(user := (s: Sym) => LoadedUser(cfg, saved, s), hasUser := set s | s in cfg.decls && LoadedFlag(cfg, saved, s))
  }

  lemma LoadedWellFormed(cfg: Config, rank: map<Sym, nat>, saved: ConfigText.Saved)
    requires WellFormed(cfg) && Ranked(cfg, rank)
    ensures WellFormed(LoadedConfig(cfg, saved)) && Ranked(LoadedConfig(cfg, saved), rank)
  {
    hide Needs, Ranked;
    var cfg2 := LoadedConfig(cfg, saved);
    SameNeeds(cfg, cfg2, rank);
    forall t | t in cfg2.decls ensures DeclOk(cfg2, t) {
      assert DeclOk(cfg, t);
      if !t.Declared? { SameNeedsAt(cfg, cfg2, t); }
    }
  }

  /** A value that is printed is stored as itself. */
  lemma LineStored(cfg: Config, rank: map<Sym, nat>, s: Sym)
    requires WellFormed(cfg) && Ranked(cfg, rank) && s in cfg.decls && HasLine(cfg, s)
    ensures var v := Spec(cfg, rank, s);
      if s.Type() == SBoolean || s.Type() == STristate then
        ConfigText.Printable(s.Type(), LineText(s, v)) && ConfigText.ValueOf(s.Type(), LineText(s, v)) == ConfigText.Tri(v.tri)
      else ConfigText.ValueOf(s.Type(), LineText(s, v)) == ConfigText.Val(v.str)
  {
    hide Spec, WellFormed, Ranked;
    SpecTyped(cfg, rank, s);
  }

  /** What the file says of a symbol: its value if it has a line that is taken, and else nothing. */
  lemma ValueRead(cfg: Config, rank: map<Sym, nat>, known: ConfigText.Known, l: seq<Sym>, s: Sym)
    requires WellFormed(cfg) && Ranked(cfg, rank) && Names(cfg, known) && Listed(cfg, l) && s in cfg.decls && HasLine(cfg, s)
    ensures var n, i := cfg.decls[s].name, LineOf(cfg, rank, s);
      var read := ConfigText.Restored(known, LinesOf(cfg, rank, l), ResetSaved(cfg));
      && (n in read.values <==> s in l && i.Stores())
      && (n in read.values ==> read.values[n] == ConfigText.ValueOf(i.stype, i.value))
  {
    hide Spec, WellFormed, Ranked, ConfigText.Restored, ConfigText.Item.Stores, LineOf;
    var items, def, n := LinesOf(cfg, rank, l), ResetSaved(cfg), cfg.decls[s].name;
    forall j | 0 <= j < |l| && items[j].Setting? && items[j].name == n ensures l[j] == s {
      LineNamed(cfg, rank, known, l[j], s);
    }
    LineName(cfg, rank, s);
    if s in l && LineOf(cfg, rank, s).Stores() {
      var k :| 0 <= k < |l| && l[k] == s;
      StoresSetting(items);
      ConfigText.RestoredOnce(known, items, def, k);
    } else {
      StoresSetting(items);
      ConfigText.RestoredElse(known, items, def, n);
    }
  }

  lemma StoresSetting(items: seq<ConfigText.Item>)
    ensures forall i | i in items :: i.Stores() ==> i.Setting?
  {
  }

  lemma LineName(cfg: Config, rank: map<Sym, nat>, s: Sym)
    requires WellFormed(cfg) && Ranked(cfg, rank) && s in cfg.decls
    ensures LineOf(cfg, rank, s).Setting? && LineOf(cfg, rank, s).name == cfg.decls[s].name
  {
  }

  lemma LineNamed(cfg: Config, rank: map<Sym, nat>, known: ConfigText.Known, s: Sym, t: Sym)
    requires WellFormed(cfg) && Ranked(cfg, rank) && Names(cfg, known) && s in cfg.decls && t in cfg.decls
    requires HasLine(cfg, s) && HasLine(cfg, t) && LineOf(cfg, rank, s).Setting? && LineOf(cfg, rank, s).name == cfg.decls[t].name
    ensures s == t
  {
  }

  /** So what is loaded are values of the configuration that was written. */
  lemma FileLoaded(cfg: Config, rank: map<Sym, nat>, known: ConfigText.Known, l: seq<Sym>)
    requires WellFormed(cfg) && Ranked(cfg, rank) && Names(cfg, known) && Listed(cfg, l)
    ensures var cfg2 := LoadedConfig(cfg, ConfigText.Restored(known, LinesOf(cfg, rank, l), ResetSaved(cfg)));
      && Loaded(cfg, rank, cfg2)
      && forall s :: s in cfg.decls && HasLine(cfg, s) ==> (s in cfg2.hasUser <==> s in l && LineOf(cfg, rank, s).Stores())
  {
    hide Spec, WellFormed, Ranked, ConfigText.Restored, ConfigText.Item.Stores, Names, LineOf;
    var saved := ConfigText.Restored(known, LinesOf(cfg, rank, l), ResetSaved(cfg));
    var cfg2 := LoadedConfig(cfg, saved);
    LoadedWellFormed(cfg, rank, saved);
    forall s | s in cfg.decls && HasLine(cfg, s)
      ensures s in cfg2.hasUser <==> s in l && LineOf(cfg, rank, s).Stores()
      ensures s in cfg2.hasUser ==> LoadedAt(cfg, rank, cfg2, s)
    {
      ValueRead(cfg, rank, known, l, s);
      LineStored(cfg, rank, s);
      LineIs(cfg, rank, s);
    }
  }

  lemma LineIs(cfg: Config, rank: map<Sym, nat>, s: Sym)
    requires WellFormed(cfg) && Ranked(cfg, rank) && s in cfg.decls
    ensures LineOf(cfg, rank, s) == ConfigText.Setting(cfg.decls[s].name, s.Type(), LineText(s, Spec(cfg, rank, s)))
  {
  }

  /** The whole way: whatever lines of a configuration are written, with any menus around them, once the file
      has been read every symbol has its value again if and only if each value is reproduced. */
  lemma SaveLoadExact(cfg: Config, rank: map<Sym, nat>, known: ConfigText.Known, l: seq<Sym>,
                      prefix: string, title: string, body: seq<ConfigText.Item>)
    requires WellFormed(cfg) && Ranked(cfg, rank) && Names(cfg, known) && Listed(cfg, l)
    requires ConfigText.PrefixText(prefix) && ConfigText.Text(title) && '\n' !in title
    requires ConfigText.ItemOk(prefix, ConfigText.CommentLineItem(ConfigText.HeadingTitle(title)), known)
    requires ConfigText.Settings(body) == LinesOf(cfg, rank, l)
    requires forall i | i in body :: ConfigText.ItemOk(prefix, i, known)
    ensures var file := ConfigText.Written(prefix, title, body);
      var cfg2 := LoadedConfig(cfg, ConfigText.ReadFile(prefix, file, known, ResetSaved(cfg)));
      && Loaded(cfg, rank, cfg2)
      && ((forall s :: s in cfg.decls ==> Spec(cfg2, rank, s) == Spec(cfg, rank, s))
          <==> forall s :: s in cfg.decls ==> Reproduced(cfg, rank, cfg2, s))
  {
    hide Spec, WellFormed, Ranked, Names, Loaded, Reproduced, LoadedConfig, LineOf;
    hide ConfigText.Restored, ConfigText.ItemOk, ConfigText.ReadFile, ConfigText.Written;
    ConfigText.WrittenRoundTrip(prefix, title, body, known, ResetSaved(cfg));
    ConfigText.SettingsRestored(known, body, ResetSaved(cfg));
    FileLoaded(cfg, rank, known, l);
    RoundTripExact(cfg, rank, LoadedConfig(cfg, ConfigText.Restored(known, LinesOf(cfg, rank, l), ResetSaved(cfg))));
  }

  // ----- which values are reproduced -----

  /** Decided by the choice alone. */
  ghost predicate Follows(cfg: Config, rank: map<Sym, nat>, s: Sym)
    requires WellFormed(cfg) && Ranked(cfg, rank) && s in cfg.decls
  {
    cfg.Owned(s) && (s.Type() == SBoolean || s.Type() == STristate) && Spec(cfg, rank, s).visible == YES
  }

  /** The value that has been written is a value that can be set. */
  ghost predicate Fits(cfg: Config, rank: map<Sym, nat>, s: Sym)
    requires WellFormed(cfg) && Ranked(cfg, rank) && s in cfg.decls && HasLine(cfg, s)
  {
    RankAt(cfg, rank, s);
    var v := Spec(cfg, rank, s);
    if s.Type() == SBoolean || s.Type() == STristate then v.tri <= Or3(v.visible, v.rev)
    else
      RangeChecked(cfg, s, if ConfigText.Printable(s.Type(), v.str) then v.str else DefaultText(cfg, rank, s),
                   ValsBelow(cfg, rank, rank[s]), EnvBelow(cfg, rank, rank[s])) == v.str
  }

  lemma RankAt(cfg: Config, rank: map<Sym, nat>, s: Sym)
    requires Ranked(cfg, rank) && s in cfg.decls
    ensures s in rank
  {
  }

  /** For a file in which every visible symbol has a line, as conf_write writes it: exactly the visible
      symbols whose value is none that could be set come back changed, and choices that do. */
  lemma FullFile(cfg: Config, rank: map<Sym, nat>, known: ConfigText.Known, l: seq<Sym>, s: Sym)
    requires WellFormed(cfg) && Ranked(cfg, rank) && Names(cfg, known) && Listed(cfg, l) && s in cfg.decls && HasLine(cfg, s)
    requires Spec(cfg, rank, s).visible != NO && !Follows(cfg, rank, s) ==> s in l
    ensures var cfg2 := LoadedConfig(cfg, ConfigText.Restored(known, LinesOf(cfg, rank, l), ResetSaved(cfg)));
      && Loaded(cfg, rank, cfg2)
      && (Reproduced(cfg, rank, cfg2, s) <==>
            (Spec(cfg, rank, s).visible != NO && !Follows(cfg, rank, s) ==> Fits(cfg, rank, s)))
  {
    hide Spec, WellFormed, Ranked, Names, Listed, LoadedConfig, LineOf, Loaded, RangeChecked, DefaultTri, DefaultText;
    hide ConfigText.Restored, ConfigText.Printable, LineText;
    FileLoaded(cfg, rank, known, l);
    RankAt(cfg, rank, s);
    LineStored(cfg, rank, s);
    LineTaken(cfg, rank, s);
  }

  lemma LineTaken(cfg: Config, rank: map<Sym, nat>, s: Sym)
    requires WellFormed(cfg) && Ranked(cfg, rank) && s in cfg.decls
    ensures LineOf(cfg, rank, s).Stores() <==> ConfigText.Printable(s.Type(), LineText(s, Spec(cfg, rank, s)))
    ensures s.Type() != SBoolean && s.Type() != STristate ==> LineText(s, Spec(cfg, rank, s)) == Spec(cfg, rank, s).str
  {
  }

  /** A boolean or tristate outside choices that has been set by the user fits. */
  lemma UserFits(cfg: Config, rank: map<Sym, nat>, s: Sym)
    requires WellFormed(cfg) && Ranked(cfg, rank) && s in cfg.decls && HasLine(cfg, s) && s in cfg.hasUser
    requires (s.Type() == SBoolean || s.Type() == STristate) && Spec(cfg, rank, s).visible != NO && !Follows(cfg, rank, s)
    ensures Fits(cfg, rank, s)
  {
    hide Spec, Ranked, Needs, EnvBelow, ValsBelow, Visible, Selected, FirstDefault, Eval, EvalOpt;
    RankAt(cfg, rank, s);
    DeclsOk(cfg, s);
    SpecUnfolds(cfg, rank, s);
    BooleanLimits(cfg, s, EnvBelow(cfg, rank, rank[s]));
  }

  // ----- a value that cannot be set -----

  /** "config S / tristate / prompt if C / default y" while C is m by the user. */
  predicate DefaultAboveLimit(cfg: Config, c: Sym, s: Sym) {
    && c == Declared(0, STristate) && s == Declared(1, STristate) && cfg.decls.Keys == {SymYes, c, s}
    && cfg.decls[SymYes] == Decl("y", [], [], [], None, None, [], None)
    && cfg.decls[c] == Decl("C", [None], [], [], None, None, [], None)
    && cfg.decls[s] == Decl("S", [Some(Symbol(c))], [Default(None, Symbol(SymYes))], [], None, None, [], None)
    && cfg.modules == YES && cfg.hasUser == {c} && cfg.user(c).tri == MOD
  }

  lemma DefaultAboveLimitValues(cfg: Config, rank: map<Sym, nat>, c: Sym, s: Sym)
    requires DefaultAboveLimit(cfg, c, s) && WellFormed(cfg) && Ranked(cfg, rank)
    ensures Spec(cfg, rank, c).tri == MOD && Spec(cfg, rank, c).visible == YES
    ensures Spec(cfg, rank, s).tri == YES && Spec(cfg, rank, s).visible == MOD && Spec(cfg, rank, s).rev == NO
  {
    hide Spec, WellFormed, Ranked, Needs;
    RankAt(cfg, rank, c);
    OnePromptMax(None, EnvBelow(cfg, rank, rank[c]));
    SpecUnfolds(cfg, rank, c);
    FollowerValue(cfg, rank, c, s);
    DefaultNeeded(cfg, rank, s);
    SpecTyped(cfg, rank, SymYes);
    SpecUnfolds(cfg, rank, s);
  }

  lemma DefaultNeeded(cfg: Config, rank: map<Sym, nat>, s: Sym)
    requires Ranked(cfg, rank) && s in cfg.decls && cfg.decls[s].defaults == [Default(None, Symbol(SymYes))]
    requires !cfg.decls[s].Choice()
    ensures SymYes in cfg.decls && rank[SymYes] < rank[s]
  {
    hide Needs, OptSyms;
    RanksBelow(cfg, rank, s);
    NeedsParts(cfg, s);
    assert Default(None, Symbol(SymYes)) in cfg.decls[s].defaults;
  }

  /** The written file has C=m and S=y; loaded, S is m. */
  lemma DefaultNotReproduced(cfg: Config, rank: map<Sym, nat>, known: ConfigText.Known, c: Sym, s: Sym)
    requires DefaultAboveLimit(cfg, c, s) && WellFormed(cfg) && Ranked(cfg, rank) && Names(cfg, known)
    ensures Listed(cfg, [c, s])
    ensures var cfg2 := LoadedConfig(cfg, ConfigText.Restored(known, LinesOf(cfg, rank, [c, s]), ResetSaved(cfg)));
      && Loaded(cfg, rank, cfg2) && !Reproduced(cfg, rank, cfg2, s)
      && Spec(cfg, rank, s).tri == YES && Spec(cfg2, rank, s).tri == MOD
  {
    hide Spec, WellFormed, Ranked, Needs, Names, LoadedConfig, Loaded, ConfigText.Restored, LineOf;
    var l := [c, s];
    var cfg2 := LoadedConfig(cfg, ConfigText.Restored(known, LinesOf(cfg, rank, l), ResetSaved(cfg)));
    DefaultAboveLimitValues(cfg, rank, c, s);
    FileLoaded(cfg, rank, known, l);
    FullFile(cfg, rank, known, l, s);
    FullFile(cfg, rank, known, l, c);
    LoadedParts(cfg, rank, cfg2, c);
    LoadedParts(cfg, rank, cfg2, s);
    LineStored(cfg, rank, s);
    LineTaken(cfg, rank, s);
    NoNeeds(cfg, c);
    SameHere(cfg, rank, cfg2, c);
    FollowerValue(cfg2, rank, c, s);
    SpecUnfolds(cfg2, rank, s);
  }

  lemma NoNeeds(cfg: Config, c: Sym)
    requires c in cfg.decls && cfg.decls[c].prompts == [None] && cfg.decls[c].defaults == [] && cfg.decls[c].ranges == []
    requires cfg.decls[c].members == [] && cfg.decls[c].owner.None? && cfg.decls[c].dirDep.None? && cfg.decls[c].revDep.None?
    ensures Needs(cfg, c) == {}
  {
    OnePromptSyms(None);
    assert PromptSyms([None]) == {};
  }

  lemma DefaultAboveLimitOk(cfg: Config, c: Sym, s: Sym, rank: map<Sym, nat>)
    requires DefaultAboveLimit(cfg, c, s) && rank.Keys == cfg.decls.Keys && rank[SymYes] == 0 && rank[c] == 0 && rank[s] == 1
    ensures WellFormed(cfg) && Ranked(cfg, rank)
  {
    NoNeeds(cfg, c);
    FollowerNeeds(cfg, c, s);
    NoDeclNeeds(cfg, SymYes);
    hide Needs;
    assert RankedAt(cfg, rank, SymYes) && RankedAt(cfg, rank, c) && RankedAt(cfg, rank, s);
    assert DeclOk(cfg, SymYes) && DeclOk(cfg, c) && DeclOk(cfg, s);
  }

  lemma FollowerNeeds(cfg: Config, c: Sym, s: Sym)
    requires DefaultAboveLimit(cfg, c, s)
    ensures Needs(cfg, s) == {c, SymYes}
  {
    OnePromptSyms(Some(Symbol(c)));
    var p := Default(None, Symbol(SymYes));
    assert p in cfg.decls[s].defaults && SymYes in OptSyms(p.visible) + ExprSyms(p.value);
    assert DefaultSyms(cfg.decls[s]) == {SymYes};
    assert MemberSyms(cfg, s) == {};
  }

  lemma NoDeclNeeds(cfg: Config, s: Sym)
    requires s in cfg.decls && cfg.decls[s] == Decl("y", [], [], [], None, None, [], None)
    ensures Needs(cfg, s) == {}
  {
  }

  // ----- the minimal configuration -----

  /** sym_get_string_default, as a tristate */
  function DefaultVal(cfg: Config, s: Sym, rev: Tristate, env: Env): Tristate
    requires s in cfg.decls
  {
    var p := FirstDefault(cfg.decls[s].defaults, env);
    var own := if p.None? then NO else And3(Eval(p.value.value, env), EvalOpt(p.value.visible, env));
    var tri := Or3(own, rev);
    if tri == MOD && ((!cfg.Owned(s) && cfg.modules == NO) || s.Type() == SBoolean) then YES else tri
  }

  /** The value printed is the one sym_get_string_default gives. */
  ghost predicate AtDefault(cfg: Config, rank: map<Sym, nat>, s: Sym)
    requires WellFormed(cfg) && Ranked(cfg, rank) && s in cfg.decls && HasLine(cfg, s)
  {
    RankAt(cfg, rank, s);
    var v, env := Spec(cfg, rank, s), EnvBelow(cfg, rank, rank[s]);
    if s.Type() == SBoolean || s.Type() == STristate then v.tri == DefaultVal(cfg, s, v.rev, env)
    else v.str == DefaultText(cfg, rank, s)
  }

  /** sym_is_changable */
  ghost predicate Changeable(cfg: Config, rank: map<Sym, nat>, s: Sym)
    requires WellFormed(cfg) && Ranked(cfg, rank) && s in cfg.decls
  {
    Spec(cfg, rank, s).visible > Spec(cfg, rank, s).rev
  }

  /** Outside choices that means that there are two values the user can set it to. */
  lemma ChangeableExactly(cfg: Config, rank: map<Sym, nat>, s: Sym)
    requires WellFormed(cfg) && Ranked(cfg, rank) && s in cfg.decls && !cfg.Owned(s)
    requires s.Type() == SBoolean || s.Type() == STristate
    ensures Changeable(cfg, rank, s) <==>
      exists a, b :: a != b && WithinRange(cfg, s, Spec(cfg, rank, s), a) && WithinRange(cfg, s, Spec(cfg, rank, s), b)
  {
    hide Spec, WellFormed, Ranked, Needs, Visible, Selected, TextOf, RangeChecked, TristateOf, Pick;
    var v := Spec(cfg, rank, s);
    SpecUnfolds(cfg, rank, s);
    RankAt(cfg, rank, s);
    if s.Type() == SBoolean || cfg.modules == NO { LimitsTyped(cfg, s, EnvBelow(cfg, rank, rank[s])); }
    if v.visible > v.rev {
      assert WithinRange(cfg, s, v, v.rev) && WithinRange(cfg, s, v, v.visible);
    }
  }

  /** A symbol without a line that was at its default comes back; a text only if its range does not change
      it, which sym_get_string_default does not look at. */
  lemma DefaultReproduced(cfg: Config, rank: map<Sym, nat>, cfg2: Config, s: Sym)
    requires Loaded(cfg, rank, cfg2) && s in cfg.decls && HasLine(cfg, s) && s !in cfg2.hasUser && AtDefault(cfg, rank, s)
    requires Spec(cfg, rank, s).visible != NO
    ensures s in rank
    ensures Reproduced(cfg, rank, cfg2, s) <==>
      s.Type() == SBoolean || s.Type() == STristate
      || RangeChecked(cfg, s, Spec(cfg, rank, s).str, ValsBelow(cfg, rank, rank[s]), EnvBelow(cfg, rank, rank[s]))
           == Spec(cfg, rank, s).str
  {
    hide Spec, Loaded, Needs, FirstDefault, Eval, EvalOpt, RangeChecked, DefaultText, WellFormed, Ranked, Visible, Selected;
    LoadedParts(cfg, rank, cfg2, s);
    if s.Type() == SBoolean || s.Type() == STristate {
      SpecLimits(cfg, rank, s);
      BooleanLimits(cfg, s, EnvBelow(cfg, rank, rank[s]));
    }
  }

  lemma SpecLimits(cfg: Config, rank: map<Sym, nat>, s: Sym)
    requires WellFormed(cfg) && Ranked(cfg, rank) && s in cfg.decls && (s.Type() == SBoolean || s.Type() == STristate)
    ensures s in rank
    ensures var v, env := Spec(cfg, rank, s), EnvBelow(cfg, rank, rank[s]);
      && v.visible == Visible(cfg, s, env) && v.rev == Selected(cfg, s, v.visible, env)
      && (cfg.Owned(s) && v.visible == MOD ==> cfg.modules != NO)
  {
    hide Spec, Needs, Selected, EnvBelow, ValsBelow, TristateOf, Pick, PromptMax;
    RankAt(cfg, rank, s);
    SpecUnfolds(cfg, rank, s);
  }

  /** A symbol without a line that could not be changed comes back if and only if it had no user value, or its
      default gives no more than what selects it. */
  lemma UnchangeableReproduced(cfg: Config, rank: map<Sym, nat>, cfg2: Config, s: Sym)
    requires Loaded(cfg, rank, cfg2) && s in cfg.decls && HasLine(cfg, s) && s !in cfg2.hasUser
    requires (s.Type() == SBoolean || s.Type() == STristate) && !cfg.Owned(s)
    requires Spec(cfg, rank, s).visible != NO && !Changeable(cfg, rank, s)
    ensures s in rank
    ensures Reproduced(cfg, rank, cfg2, s) <==>
      s !in cfg.hasUser
      || DefaultVal(cfg, s, Spec(cfg, rank, s).rev, EnvBelow(cfg, rank, rank[s])) == Spec(cfg, rank, s).rev
  {
    hide Loaded, Needs, FirstDefault, Eval, EvalOpt, Ranked, Visible, Selected, Spec, EnvBelow, ValsBelow;
    LoadedParts(cfg, rank, cfg2, s);
    RankAt(cfg, rank, s);
    SpecUnfolds(cfg, rank, s);
    BooleanLimits(cfg, s, EnvBelow(cfg, rank, rank[s]));
  }
}
