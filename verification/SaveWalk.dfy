/** Saving with conf_write or conf_write_defconfig and loading again: from the evaluation through the walk and
    the file to the evaluation of what has been read (scripts/config/confdata.c). */
module ConfigSaveWalk {
  import opened Options
  import opened Tristates
  import opened Exprs
  import opened SymbolSpec
  import opened SymbolState
  import opened SymbolTheorems
  import opened SymbolSetting
  import opened SymbolMarks
  import opened SymbolRoundTrip
  import opened MenuTree
  import opened MenuWalk
  import opened ConfigSaveLoad
  import opened ConfigSaveChoices
  import ConfigText

  /** What an evaluation of all symbols may mark: what is due in any case, and of the members of a choice that is
      not y any others as well. */
  ghost predicate MarksOk(cfg: Config, rank: map<Sym, nat>, w: set<Sym>)
    requires WellFormed(cfg) && Ranked(cfg, rank)
  {
    && (forall s :: s in w ==> s in cfg.decls)
    && (forall s :: s in cfg.decls ==>
          (Due(cfg, rank, s) ==> s in w) && (s in w ==> Writes(cfg, rank, s) || ChoiceMayMark(cfg, rank, s)))
  }

  /** The walk knows of the symbols what their evaluation decides: which are marked, which are members, and which
      are choices. */
  ghost predicate Follow(cfg: Config, rank: map<Sym, nat>, order: seq<Entry>, r: Rules)
    requires WellFormed(cfg) && Ranked(cfg, rank)
  {
    && MarksOk(cfg, rank, r.writes)
    && (forall s :: s in r.members <==> s in cfg.decls && cfg.Owned(s))
    && (forall e :: e in order && e.sym.Some? && e.sym.value in cfg.decls ==>
          (e.choice <==> cfg.decls[e.sym.value].Choice()))
  }

  /** The marks the evaluator leaves, by the rules of the walk. */
  ghost function Left(cfg: Config, rank: map<Sym, nat>, wa: set<Sym>, wb: set<Sym>): set<Sym>
    requires WellFormed(cfg) && Ranked(cfg, rank)
  {
    set s | s in cfg.decls && s in wb && Typed(s) && (cfg.Owned(s) ==> s !in wa || Due(cfg, rank, s))
  }

  /** Evaluating everything anew, in any order, marks what the walk expects: the rules are those of the
      evaluator. */
  lemma EvaluationMarks(cfg: Config, rank: map<Sym, nat>, a: Memory, wa: set<Sym>, b: Memory, wb: set<Sym>, r: Rules)
    requires Noted(cfg, rank, a, wa, b, wb)
    requires forall s :: s in cfg.decls && Typed(s) ==> !a[s].valid && b[s].valid
    requires r.writes == Left(cfg, rank, wa, wb) && forall s :: s in r.members <==> s in cfg.decls && cfg.Owned(s)
    ensures MarksOk(cfg, rank, r.writes)
    ensures forall s :: s in cfg.decls && Typed(s) ==> (s in wb <==> Marked(Flags({}, wa), r, s))
  {
    hide Noted, NotedAt, WellFormed, Ranked, Writes, Due, ChoiceMayMark;
    NotedParts(cfg, rank, a, wa, b, wb);
    forall s | s in cfg.decls
      ensures Due(cfg, rank, s) ==> s in r.writes
      ensures s in r.writes ==> Writes(cfg, rank, s) || ChoiceMayMark(cfg, rank, s)
      ensures Typed(s) ==> (s in wb <==> Marked(Flags({}, wa), r, s))
    {
      MarkedAnew(cfg, rank, a, wa, b, wb, s);
    }
  }

  lemma MarkedAnew(cfg: Config, rank: map<Sym, nat>, a: Memory, wa: set<Sym>, b: Memory, wb: set<Sym>, s: Sym)
    requires WellFormed(cfg) && Ranked(cfg, rank) && a.Keys == b.Keys == cfg.decls.Keys && s in cfg.decls
    requires forall t :: t in cfg.decls && Typed(t) ==> !a[t].valid && b[t].valid
    requires NotedAt(cfg, rank, a, wa, b, wb, s)
    ensures Due(cfg, rank, s) ==> Typed(s) && s in wb
    ensures Typed(s) && s in wb && (cfg.Owned(s) ==> s !in wa) ==> Writes(cfg, rank, s) || ChoiceMayMark(cfg, rank, s)
    ensures Due(cfg, rank, s) ==> Writes(cfg, rank, s) || ChoiceMayMark(cfg, rank, s)
    ensures cfg.Owned(s) && s in wa ==> s in wb && Typed(s)
  {
    hide WellFormed, Ranked, Spec, Writes, Needs;
    if Writes(cfg, rank, s) && !Typed(s) { UntypedUnmarked(cfg, rank, s); }
    if cfg.Owned(s) {
      OwnerKind(cfg, s);
      DeclsOk(cfg, s);
      DeclsOk(cfg, cfg.decls[s].owner.value);
    }
  }

  /** A symbol with a type that has an entry of its own. */
  ghost predicate HasEntry(order: seq<Entry>, s: Sym) { exists e :: e in order && e.sym == Some(s) && !e.choice }

  lemma MarkedHasLine(cfg: Config, rank: map<Sym, nat>, order: seq<Entry>, f: Flags, r: Rules, s: Sym)
    requires WellFormed(cfg) && Ranked(cfg, rank) && Follow(cfg, rank, order, r) && f.valid == {} && Marked(f, r, s)
    ensures s in cfg.decls && (!cfg.decls[s].Choice() ==> HasLine(cfg, s))
    ensures Writes(cfg, rank, s) || cfg.Owned(s)
  {
    hide Spec, Needs, Writes;
    DeclsOk(cfg, s);
    if Writes(cfg, rank, s) && !Typed(s) { UntypedUnmarked(cfg, rank, s); }
  }

  /** A member that is not due is n: it has nothing to say. */
  lemma NotDue(cfg: Config, rank: map<Sym, nat>, s: Sym)
    requires WellFormed(cfg) && Ranked(cfg, rank) && s in cfg.decls && cfg.Owned(s) && !Due(cfg, rank, s)
    ensures Spec(cfg, rank, s).tri == NO
  {
    hide Spec, WellFormed, Ranked, Needs, Visible, FirstDefault, Eval, EvalOpt, EnvBelow, ValsBelow;
    OwnerKind(cfg, s);
    DeclsOk(cfg, s);
    var c := cfg.decls[s].owner.value;
    RankAt(cfg, rank, s);
    OwnerBelow(cfg, rank, s);
    SpecUnfolds(cfg, rank, s);
    if Spec(cfg, rank, s).visible == YES {
      if Spec(cfg, rank, c).tri == YES { YesWrites(cfg, rank, c); }
      NoPickUnlessYes(cfg, rank, c);
      MemberSpec(cfg, rank, c, s);
    }
  }

  /** So whatever is not n is due. */
  lemma NotNoIsDue(cfg: Config, rank: map<Sym, nat>, s: Sym)
    requires WellFormed(cfg) && Ranked(cfg, rank) && s in cfg.decls && s.Declared?
    requires (s.Type() == SBoolean || s.Type() == STristate) && Spec(cfg, rank, s).tri != NO
    ensures Due(cfg, rank, s)
  {
    hide Spec, WellFormed, Ranked, Needs, Visible, FirstDefault, Eval, EvalOpt, EnvBelow, ValsBelow, Pick, Selected, Due, ChoiceMarks;
    if cfg.Owned(s) {
      if !Due(cfg, rank, s) { NotDue(cfg, rank, s); }
    } else {
      DeclsOk(cfg, s);
      RankAt(cfg, rank, s);
      SpecUnfolds(cfg, rank, s);
      WritesDue(cfg, rank, s);
    }
  }

  /** A choice that is y is written, so it marks its members. */
  lemma YesWrites(cfg: Config, rank: map<Sym, nat>, c: Sym)
    requires WellFormed(cfg) && Ranked(cfg, rank) && c in cfg.decls && cfg.decls[c].Choice() && Spec(cfg, rank, c).tri == YES
    ensures Writes(cfg, rank, c)
  {
    hide Spec, WellFormed, Ranked, Needs, Visible, Selected, EnvBelow, ValsBelow, Pick;
    DeclsOk(cfg, c);
    RankAt(cfg, rank, c);
    SpecUnfolds(cfg, rank, c);
  }

  /** The lines of conf_write, everything having been calculated anew: each symbol at most once; all that are due
      and have an entry, and else only members at n. */
  lemma LinesListed(cfg: Config, rank: map<Sym, nat>, order: seq<Entry>, f: Flags, r: Rules)
    requires WellFormed(cfg) && Ranked(cfg, rank) && Follow(cfg, rank, order, r) && f.valid == {}
    ensures Listed(cfg, Lines(order, f, r))
    ensures forall s :: s in cfg.decls && Due(cfg, rank, s) && HasEntry(order, s) ==> s in Lines(order, f, r)
    ensures forall s :: s in Lines(order, f, r) ==>
      HasEntry(order, s) && (Due(cfg, rank, s) || (cfg.Owned(s) && Spec(cfg, rank, s).tri == NO))
  {
    hide Spec, WellFormed, Ranked, Lines, Follow, Marked, HasLine, Due, Writes;
    var l := Lines(order, f, r);
    LinesOnce(order, f, r);
    forall s | s in l
      ensures s in cfg.decls && HasLine(cfg, s) && HasEntry(order, s)
      ensures Due(cfg, rank, s) || (cfg.Owned(s) && Spec(cfg, rank, s).tri == NO)
    {
      var e :| e in order && e.sym == Some(s) && !e.choice;
      MarkedHasLine(cfg, rank, order, f, r, s);
      EntryOfChoice(cfg, rank, order, r, e);
      WritesDue(cfg, rank, s);
      if !Due(cfg, rank, s) { NotDue(cfg, rank, s); }
    }
    forall s | s in cfg.decls && Due(cfg, rank, s) ensures Marked(f, r, s) { DueMarked(cfg, rank, order, f, r, s); }
  }

  lemma WritesDue(cfg: Config, rank: map<Sym, nat>, s: Sym)
    requires WellFormed(cfg) && Ranked(cfg, rank) && s in cfg.decls
    ensures Writes(cfg, rank, s) ==> Due(cfg, rank, s)
  {
  }

  lemma DueMarked(cfg: Config, rank: map<Sym, nat>, order: seq<Entry>, f: Flags, r: Rules, s: Sym)
    requires WellFormed(cfg) && Ranked(cfg, rank) && Follow(cfg, rank, order, r) && f.valid == {}
    requires s in cfg.decls && Due(cfg, rank, s)
    ensures Marked(f, r, s)
  {
    hide WellFormed, Ranked, Due, Writes, ChoiceMayMark;
  }

  lemma EntryOfChoice(cfg: Config, rank: map<Sym, nat>, order: seq<Entry>, r: Rules, e: Entry)
    requires WellFormed(cfg) && Ranked(cfg, rank) && Follow(cfg, rank, order, r) && e in order && e.sym.Some?
    ensures e.sym.value in cfg.decls ==> (e.choice <==> cfg.decls[e.sym.value].Choice())
  {
  }

  /** A visible symbol is due, but for members that follow a choice that is not y. */
  lemma VisibleDue(cfg: Config, rank: map<Sym, nat>, s: Sym)
    requires WellFormed(cfg) && Ranked(cfg, rank) && s in cfg.decls && HasLine(cfg, s) && Spec(cfg, rank, s).visible != NO
    ensures Due(cfg, rank, s) || (Follows(cfg, rank, s) && !OwnerYes(cfg, rank, s))
  {
    hide Spec, WellFormed, Ranked, FirstDefault, EnvBelow, Needs;
    if Follows(cfg, rank, s) {
      OwnerKind(cfg, s);
      DeclsOk(cfg, cfg.decls[s].owner.value);
      if OwnerYes(cfg, rank, s) { YesWrites(cfg, rank, cfg.decls[s].owner.value); }
    }
  }

  /** Saving with conf_write and loading again gives every symbol its value if and only if the values of the
      visible ones can be set, and the choices come back from the lines of their members. */
  lemma SaveExact(cfg: Config, rank: map<Sym, nat>, known: ConfigText.Known, order: seq<Entry>, f: Flags, r: Rules)
    requires WellFormed(cfg) && Ranked(cfg, rank) && Names(cfg, known)
    requires Follow(cfg, rank, order, r) && f.valid == {}
    requires forall s :: s in cfg.decls && HasLine(cfg, s) && Spec(cfg, rank, s).visible != NO ==> HasEntry(order, s)
    ensures Listed(cfg, Lines(order, f, r))
    ensures var cfg2 := LoadedConfig(cfg, ConfigText.Restored(known, LinesOf(cfg, rank, Lines(order, f, r)), ResetSaved(cfg)));
      && Loaded(cfg, rank, cfg2)
      && ((forall s :: s in cfg.decls ==> Spec(cfg2, rank, s) == Spec(cfg, rank, s)) <==>
            && (forall s :: s in cfg.decls && HasLine(cfg, s) && Spec(cfg, rank, s).visible != NO && !Follows(cfg, rank, s)
                  ==> Fits(cfg, rank, s))
            && (forall c :: c in cfg.decls && cfg.decls[c].Choice() ==> ChoiceKept(cfg, rank, Lines(order, f, r), c)))
  {
    hide Spec, WellFormed, Ranked, Lines, Follow, Follows, Fits, Names, LoadedConfig, Loaded, Reproduced, ConfigText.Restored;
    hide ChoiceKept, Due;
    var l := Lines(order, f, r);
    LinesListed(cfg, rank, order, f, r);
    var cfg2 := LoadedConfig(cfg, ConfigText.Restored(known, LinesOf(cfg, rank, l), ResetSaved(cfg)));
    FileLoaded(cfg, rank, known, l);
    RoundTripExact(cfg, rank, cfg2);
    forall s | s in cfg.decls && HasLine(cfg, s)
      ensures Reproduced(cfg, rank, cfg2, s) <==>
        (Spec(cfg, rank, s).visible != NO && !Follows(cfg, rank, s) ==> Fits(cfg, rank, s))
    {
      if Spec(cfg, rank, s).visible != NO { VisibleDue(cfg, rank, s); }
      FullFile(cfg, rank, known, l, s);
    }
    forall c | c in cfg.decls && cfg.decls[c].Choice() ensures Reproduced(cfg, rank, cfg2, c) <==> ChoiceKept(cfg, rank, l, c) {
      ChoiceExact(cfg, rank, known, l, c);
    }
    forall s | s in cfg.decls && !HasLine(cfg, s) && !cfg.decls[s].Choice() ensures Reproduced(cfg, rank, cfg2, s) {
      UntypedReproduced(cfg, rank, cfg2, s);
    }
  }

  lemma UntypedReproduced(cfg: Config, rank: map<Sym, nat>, cfg2: Config, s: Sym)
    requires Loaded(cfg, rank, cfg2) && s in cfg.decls && !HasLine(cfg, s) && !cfg.decls[s].Choice()
    ensures Reproduced(cfg, rank, cfg2, s)
  {
  }

  /** If all choices have booleans without defaults as members, that is: the visible symbols can be set, a choice at
      m is selected to m, and one at n is not or cannot be m. Choices at y always come back. */
  lemma SavePlain(cfg: Config, rank: map<Sym, nat>, known: ConfigText.Known, order: seq<Entry>, f: Flags, r: Rules)
    requires WellFormed(cfg) && Ranked(cfg, rank) && Names(cfg, known)
    requires Follow(cfg, rank, order, r) && f.valid == {}
    requires forall s :: s in cfg.decls && HasLine(cfg, s) && Spec(cfg, rank, s).visible != NO ==> HasEntry(order, s)
    requires forall c :: c in cfg.decls && cfg.decls[c].Choice() ==> Plain(cfg, c)
    ensures Listed(cfg, Lines(order, f, r))
    ensures var cfg2 := LoadedConfig(cfg, ConfigText.Restored(known, LinesOf(cfg, rank, Lines(order, f, r)), ResetSaved(cfg)));
      && Loaded(cfg, rank, cfg2)
      && ((forall s :: s in cfg.decls ==> Spec(cfg2, rank, s) == Spec(cfg, rank, s)) <==>
            && (forall s :: s in cfg.decls && HasLine(cfg, s) && Spec(cfg, rank, s).visible != NO && !Follows(cfg, rank, s)
                  ==> Fits(cfg, rank, s))
            && (forall c :: c in cfg.decls && cfg.decls[c].Choice() ==> PlainFits(cfg, rank, c)))
  {
    hide Spec, WellFormed, Ranked, Lines, Follow, Follows, Fits, Names, LoadedConfig, Loaded, Plain, ConfigText.Restored, ChoiceKept,
         PlainFits, HasLine;
    SaveExact(cfg, rank, known, order, f, r);
    forall c | c in cfg.decls && cfg.decls[c].Choice()
      ensures ChoiceKept(cfg, rank, Lines(order, f, r), c) <==> PlainFits(cfg, rank, c)
    {
      PlainSaved(cfg, rank, order, f, r, c);
    }
  }

  ghost predicate PlainFits(cfg: Config, rank: map<Sym, nat>, c: Sym)
    requires WellFormed(cfg) && Ranked(cfg, rank) && c in cfg.decls
  {
    var v := Spec(cfg, rank, c);
    && (v.tri == MOD ==> v.rev == MOD)
    && (v.tri == NO ==> v.rev != MOD || EffectiveType(cfg, c, v.visible) == SBoolean)
  }

  lemma PlainSaved(cfg: Config, rank: map<Sym, nat>, order: seq<Entry>, f: Flags, r: Rules, c: Sym)
    requires WellFormed(cfg) && Ranked(cfg, rank) && Follow(cfg, rank, order, r) && f.valid == {}
    requires forall s :: s in cfg.decls && HasLine(cfg, s) && Spec(cfg, rank, s).visible != NO ==> HasEntry(order, s)
    requires c in cfg.decls && cfg.decls[c].Choice() && Plain(cfg, c)
    ensures ChoiceKept(cfg, rank, Lines(order, f, r), c) <==> PlainFits(cfg, rank, c)
    ensures Spec(cfg, rank, c).tri == YES ==> Spec(cfg, rank, c).pick.Some? && Spec(cfg, rank, c).pick.value in Lines(order, f, r)
  {
    hide Spec, WellFormed, Ranked, Lines, Follow, Plain, ChoiceKept, Due, HasLine, FavouredBy, HasEntry;
    PlainKept(cfg, rank, Lines(order, f, r), c);
    if Spec(cfg, rank, c).tri == YES {
      PickDue(cfg, rank, c);
      LinesListed(cfg, rank, order, f, r);
    }
  }

  /** A choice at y marks its pick. */
  lemma PickDue(cfg: Config, rank: map<Sym, nat>, c: Sym)
    requires WellFormed(cfg) && Ranked(cfg, rank) && c in cfg.decls && cfg.decls[c].Choice() && Plain(cfg, c)
    requires Spec(cfg, rank, c).tri == YES
    ensures var p := Spec(cfg, rank, c).pick;
      && p.Some? && p.value in cfg.decls && cfg.Owned(p.value) && Due(cfg, rank, p.value) && HasLine(cfg, p.value)
      && Spec(cfg, rank, p.value).visible == YES && Spec(cfg, rank, p.value).tri == YES && Follows(cfg, rank, p.value)
  {
    hide Spec, WellFormed, Ranked, Plain, Writes;
    PickOwned(cfg, rank, c);
    var p := Spec(cfg, rank, c).pick.value;
    PlainMemberValue(cfg, rank, c, p);
    YesWrites(cfg, rank, c);
    MemberOfOwner(cfg, p, c);
    MembersHaveLines(cfg, rank, c);
    OwnerIsChoice(cfg, p);
  }

  // ----- the whole file -----

  /** What conf_write prints behind the heading: the frames around the titles of visible menus, and the lines. */
  ghost function BodyOf(cfg: Config, rank: map<Sym, nat>, order: seq<Entry>, f: Flags, r: Rules, titles: Entry -> Option<string>)
    : seq<ConfigText.Item>
    requires WellFormed(cfg) && Ranked(cfg, rank)
  {
    if order == [] then []
    else
      var init, e := order[..|order| - 1], order[|order| - 1];
      BodyOf(cfg, rank, init, f, r, titles) +
        if e.sym.None? then (if titles(e).None? then [] else ConfigText.FrameItems(titles(e).value))
        else if !e.choice && e.sym.value in cfg.decls && Marked(f, r, e.sym.value) && e.sym.value !in Lines(init, f, r)
          then [LineOf(cfg, rank, e.sym.value)]
        else []
  }

  lemma {:induction false} SettingsAppend(a: seq<ConfigText.Item>, b: seq<ConfigText.Item>)
    ensures ConfigText.Settings(a + b) == ConfigText.Settings(a) + ConfigText.Settings(b)
  {
    if a == [] {
      assert a + b == b;
    } else {
      var first := if a[0].Setting? then [a[0]] else [];
      assert (a + b)[0] == a[0] && (a + b)[1..] == a[1..] + b;
      SettingsAppend(a[1..], b);
      assert ConfigText.Settings(a + b) == first + ConfigText.Settings(a[1..] + b);
      assert ConfigText.Settings(a) == first + ConfigText.Settings(a[1..]);
    }
  }

  lemma FrameSettings(title: string)
    ensures ConfigText.Settings(ConfigText.FrameItems(title)) == []
  {
    NoSettings(ConfigText.FrameItems(title));
  }

  lemma {:induction false} NoSettings(items: seq<ConfigText.Item>)
    requires forall i :: i in items ==> !i.Setting?
    ensures ConfigText.Settings(items) == []
  {
    if items != [] { NoSettings(items[1..]); }
  }

  lemma LineSettings(cfg: Config, rank: map<Sym, nat>, s: Sym)
    requires WellFormed(cfg) && Ranked(cfg, rank) && s in cfg.decls
    ensures ConfigText.Settings([LineOf(cfg, rank, s)]) == [LineOf(cfg, rank, s)] && ConfigText.Settings([]) == []
  {
    assert ConfigText.Settings([LineOf(cfg, rank, s)][1..]) == [];
  }

  /** Among the items the settings are the lines of the walk. */
  lemma {:induction false} BodySettings(cfg: Config, rank: map<Sym, nat>, order: seq<Entry>, f: Flags, r: Rules,
                                        titles: Entry -> Option<string>)
    requires WellFormed(cfg) && Ranked(cfg, rank) && forall s :: Marked(f, r, s) ==> s in cfg.decls
    ensures forall s :: s in Lines(order, f, r) ==> s in cfg.decls
    ensures ConfigText.Settings(BodyOf(cfg, rank, order, f, r, titles)) == LinesOf(cfg, rank, Lines(order, f, r))
  {
    hide WellFormed, Ranked, Marked, LineOf;
    LinesOnce(order, f, r);
    if order != [] {
      var init, e := order[..|order| - 1], order[|order| - 1];
      BodySettings(cfg, rank, init, f, r, titles);
      var before := BodyOf(cfg, rank, init, f, r, titles);
      assert before + [] == before;
      if e.sym.None? {
        if titles(e).Some? {
          FrameSettings(titles(e).value);
          SettingsAppend(before, ConfigText.FrameItems(titles(e).value));
        }
      } else if !e.choice && Marked(f, r, e.sym.value) && e.sym.value !in Lines(init, f, r) {
        LineSettings(cfg, rank, e.sym.value);
        SettingsAppend(before, [LineOf(cfg, rank, e.sym.value)]);
      }
    }
  }

  /** Names and values can be printed, and no title of a menu looks like the line of a symbol. */
  ghost predicate Printed(cfg: Config, rank: map<Sym, nat>, known: ConfigText.Known, order: seq<Entry>, prefix: string,
                          titles: Entry -> Option<string>)
    requires WellFormed(cfg) && Ranked(cfg, rank)
  {
    && (forall s :: s in cfg.decls && HasLine(cfg, s) ==> ConfigText.ItemOk(prefix, LineOf(cfg, rank, s), known))
    && (forall e :: e in order && titles(e).Some? ==> TitleOk(prefix, titles(e).value))
  }

  predicate TitleOk(prefix: string, title: string) {
    ConfigText.Text(title) && '\n' !in title && ConfigText.CommentOk(prefix, " " + title)
  }

  lemma {:induction false} BodyOk(cfg: Config, rank: map<Sym, nat>, known: ConfigText.Known, order: seq<Entry>, f: Flags, r: Rules,
                                  prefix: string, titles: Entry -> Option<string>)
    requires WellFormed(cfg) && Ranked(cfg, rank) && Printed(cfg, rank, known, order, prefix, titles)
    requires forall s :: s in Lines(order, f, r) ==> s in cfg.decls && HasLine(cfg, s)
    ensures forall i | i in BodyOf(cfg, rank, order, f, r, titles) :: ConfigText.ItemOk(prefix, i, known)
  {
    hide WellFormed, Ranked, Marked, LineOf, HasLine, ConfigText.ItemOk, ConfigText.CommentOk;
    if order != [] {
      var init, e := order[..|order| - 1], order[|order| - 1];
      assert forall x :: x in init ==> x in order;
      assert forall s :: s in Lines(init, f, r) ==> s in Lines(order, f, r);
      BodyOk(cfg, rank, known, init, f, r, prefix, titles);
      if e.sym.None? && titles(e).Some? { ConfigText.FrameOk(prefix, titles(e).value, known); }
    }
  }

  /** The whole way, from the flags conf_write finds: what is in the file after the walk over the tree k, read into
      a configuration that has been reset, gives all symbols their values if and only if the visible ones can be
      set and the choices come back from the lines of their members. */
  lemma SavedFile(cfg: Config, rank: map<Sym, nat>, known: ConfigText.Known, k: Forest, f: Flags, modules: Option<Sym>, r: Rules,
                  prefix: string, title: string, titles: Entry -> Option<string>)
    requires WellFormed(cfg) && Ranked(cfg, rank) && Names(cfg, known) && Follow(cfg, rank, PreOrder(k), r)
    requires forall s :: s in cfg.decls && HasLine(cfg, s) && Spec(cfg, rank, s).visible != NO ==> HasEntry(PreOrder(k), s)
    requires ConfigText.PrefixText(prefix) && ConfigText.Text(title) && '\n' !in title
    requires ConfigText.ItemOk(prefix, ConfigText.CommentLineItem(ConfigText.HeadingTitle(title)), known)
    requires Printed(cfg, rank, known, PreOrder(k), prefix, titles)
    ensures var start := Started(f, false, modules, r); var l := Lines(PreOrder(k), start, r);
      var file := ConfigText.Written(prefix, title, BodyOf(cfg, rank, PreOrder(k), start, r, titles));
      var cfg2 := LoadedConfig(cfg, ConfigText.ReadFile(prefix, file, known, ResetSaved(cfg)));
      && Loaded(cfg, rank, cfg2)
      && ((forall s :: s in cfg.decls ==> Spec(cfg2, rank, s) == Spec(cfg, rank, s)) <==>
            && (forall s :: s in cfg.decls && HasLine(cfg, s) && Spec(cfg, rank, s).visible != NO && !Follows(cfg, rank, s)
                  ==> Fits(cfg, rank, s))
            && (forall c :: c in cfg.decls && cfg.decls[c].Choice() ==> ChoiceKept(cfg, rank, l, c)))
  {
    hide *;
    var order, start, anew := PreOrder(k), Started(f, false, modules, r), Flags({}, f.write);
    LinesStarted(order, f, modules, r);
    LinesListed(cfg, rank, order, anew, r);
    StartedThere(cfg, rank, order, f, modules, r);
    BodySettings(cfg, rank, order, start, r, titles);
    ListedLines(cfg, Lines(order, anew, r));
    BodyOk(cfg, rank, known, order, start, r, prefix, titles);
    var body := BodyOf(cfg, rank, order, start, r, titles);
    ConfigText.WrittenRoundTrip(prefix, title, body, known, ResetSaved(cfg));
    ConfigText.SettingsRestored(known, body, ResetSaved(cfg));
    SaveExact(cfg, rank, known, order, anew, r);
  }

  lemma ListedLines(cfg: Config, l: seq<Sym>)
    requires Listed(cfg, l)
    ensures forall s :: s in l ==> s in cfg.decls && HasLine(cfg, s)
  {
  }

  lemma StartedThere(cfg: Config, rank: map<Sym, nat>, order: seq<Entry>, f: Flags, modules: Option<Sym>, r: Rules)
    requires WellFormed(cfg) && Ranked(cfg, rank) && Follow(cfg, rank, order, r)
    ensures forall s :: Marked(Started(f, false, modules, r), r, s) ==> s in cfg.decls
  {
    hide WellFormed, Ranked, Marked, Started;
    forall s | Marked(Started(f, false, modules, r), r, s) ensures s in cfg.decls {
      StartedMarks(f, false, modules, r, s);
    }
  }

  // ----- the minimal configuration -----

  /** A boolean at y that its choice, not being optional, would pick by itself. */
  ghost predicate DefaultPick(cfg: Config, rank: map<Sym, nat>, optional: set<Sym>, s: Sym)
    requires WellFormed(cfg) && Ranked(cfg, rank) && s in cfg.decls
  {
    && Follows(cfg, rank, s) && s.Type() == SBoolean && Spec(cfg, rank, s).tri == YES
    && var c := cfg.decls[s].owner.value;
       c !in optional && c in cfg.decls && cfg.decls[c].Choice() && FavouredBy(cfg, rank, c, None) == Some(s)
  }

  /** What conf_write_defconfig skips: what cannot be changed, what is at its default, and the default of a
      choice. */
  ghost predicate SkipsFor(cfg: Config, rank: map<Sym, nat>, optional: set<Sym>, skip: Sym -> bool)
    requires WellFormed(cfg) && Ranked(cfg, rank)
  {
    forall s :: s in cfg.decls && HasLine(cfg, s) ==>
      (skip(s) <==> AtDefault(cfg, rank, s) || !Changeable(cfg, rank, s) || DefaultPick(cfg, rank, optional, s))
  }

  lemma {:induction false} KeptDifferent(l: seq<Sym>, skip: Sym -> bool)
    requires Different(l)
    ensures Different(Kept(l, skip))
  {
    if l != [] {
      var init, last := l[..|l| - 1], l[|l| - 1];
      KeptDifferent(init, skip);
      KeptLines(init, skip);
      OneMore(Kept(init, skip), last);
    }
  }

  lemma OneMore(l: seq<Sym>, s: Sym)
    requires Different(l) && s !in l
    ensures Different(l + [s]) && l + [] == l
  {
  }

  lemma MinimalListed(cfg: Config, rank: map<Sym, nat>, order: seq<Entry>, f: Flags, r: Rules, skip: Sym -> bool)
    requires WellFormed(cfg) && Ranked(cfg, rank) && Follow(cfg, rank, order, r) && f.valid == {}
    ensures Listed(cfg, Kept(Lines(order, f, r), skip))
  {
    hide Spec, WellFormed, Ranked, Follow, HasLine, Lines;
    LinesListed(cfg, rank, order, f, r);
    KeptDifferent(Lines(order, f, r), skip);
    KeptLines(Lines(order, f, r), skip);
  }

  /** Saving with conf_write_defconfig and loading again: a symbol that has a line comes back under the same
      condition as before; one skipped at its default comes back; one skipped because it could not be changed
      does unless it had a user value and its default gives more than what selects it. */
  lemma SaveMinimal(cfg: Config, rank: map<Sym, nat>, known: ConfigText.Known, order: seq<Entry>, f: Flags, r: Rules,
                    optional: set<Sym>, skip: Sym -> bool, s: Sym)
    requires WellFormed(cfg) && Ranked(cfg, rank) && Names(cfg, known)
    requires Follow(cfg, rank, order, r) && f.valid == {} && SkipsFor(cfg, rank, optional, skip)
    requires s in cfg.decls && HasLine(cfg, s) && Spec(cfg, rank, s).visible != NO && !Follows(cfg, rank, s)
    requires s.Type() == SBoolean || s.Type() == STristate
    requires HasEntry(order, s)
    ensures s in rank && Listed(cfg, Kept(Lines(order, f, r), skip))
    ensures var l := Kept(Lines(order, f, r), skip);
      var cfg2 := LoadedConfig(cfg, ConfigText.Restored(known, LinesOf(cfg, rank, l), ResetSaved(cfg)));
      && Loaded(cfg, rank, cfg2)
      && (s in l <==> Changeable(cfg, rank, s) && !AtDefault(cfg, rank, s))
      && (s in l ==> (Reproduced(cfg, rank, cfg2, s) <==> Fits(cfg, rank, s)))
      && (s !in l && AtDefault(cfg, rank, s) ==> Reproduced(cfg, rank, cfg2, s))
      && (s !in l && !AtDefault(cfg, rank, s) && !cfg.Owned(s) ==>
            (Reproduced(cfg, rank, cfg2, s) <==>
               s !in cfg.hasUser
               || DefaultVal(cfg, s, Spec(cfg, rank, s).rev, EnvBelow(cfg, rank, rank[s])) == Spec(cfg, rank, s).rev))
  {
    hide Spec, WellFormed, Ranked, Follow, Lines, LoadedConfig, Loaded, Names, AtDefault, Reproduced, Fits, ConfigText.Restored,
         Due, HasEntry;
    RankAt(cfg, rank, s);
    MinimalListed(cfg, rank, order, f, r, skip);
    LinesListed(cfg, rank, order, f, r);
    VisibleDue(cfg, rank, s);
    FollowsNoPick(cfg, rank, optional, s);
    KeptLines(Lines(order, f, r), skip);
    var l := Kept(Lines(order, f, r), skip);
    var cfg2 := LoadedConfig(cfg, ConfigText.Restored(known, LinesOf(cfg, rank, l), ResetSaved(cfg)));
    FileLoaded(cfg, rank, known, l);
    hide Kept;
    if s in l {
      FullFile(cfg, rank, known, l, s);
    } else if AtDefault(cfg, rank, s) {
      DefaultReproduced(cfg, rank, cfg2, s);
    } else if !cfg.Owned(s) {
      UnchangeableReproduced(cfg, rank, cfg2, s);
    }
  }

  lemma FollowsNoPick(cfg: Config, rank: map<Sym, nat>, optional: set<Sym>, s: Sym)
    requires WellFormed(cfg) && Ranked(cfg, rank) && s in cfg.decls && !Follows(cfg, rank, s)
    ensures !DefaultPick(cfg, rank, optional, s)
  {
  }

  /** Without a line the symbol has the value that is saved. */
  ghost predicate FitsAlone(cfg: Config, rank: map<Sym, nat>, s: Sym)
    requires WellFormed(cfg) && Ranked(cfg, rank) && s in cfg.decls
  {
    RankAt(cfg, rank, s);
    var v := Spec(cfg, rank, s);
    if s.Type() == SBoolean || s.Type() == STristate then v.tri == DefaultTri(cfg, rank, s)
    else RangeChecked(cfg, s, DefaultText(cfg, rank, s), ValsBelow(cfg, rank, rank[s]), EnvBelow(cfg, rank, rank[s])) == v.str
  }

  /** Saving with conf_write_defconfig and loading again gives every symbol its value if and only if each visible one
      that is written can be set and each that is skipped has its value by default, and the choices come back
      from the lines that are left. */
  lemma SaveMinimalExact(cfg: Config, rank: map<Sym, nat>, known: ConfigText.Known, order: seq<Entry>, f: Flags, r: Rules,
                         optional: set<Sym>, skip: Sym -> bool)
    requires WellFormed(cfg) && Ranked(cfg, rank) && Names(cfg, known)
    requires Follow(cfg, rank, order, r) && f.valid == {} && SkipsFor(cfg, rank, optional, skip)
    requires forall s :: s in cfg.decls && HasLine(cfg, s) && Spec(cfg, rank, s).visible != NO ==> HasEntry(order, s)
    ensures Listed(cfg, Kept(Lines(order, f, r), skip))
    ensures var l := Kept(Lines(order, f, r), skip);
      var cfg2 := LoadedConfig(cfg, ConfigText.Restored(known, LinesOf(cfg, rank, l), ResetSaved(cfg)));
      && Loaded(cfg, rank, cfg2)
      && ((forall s :: s in cfg.decls ==> Spec(cfg2, rank, s) == Spec(cfg, rank, s)) <==>
            && (forall s :: s in cfg.decls && HasLine(cfg, s) && Spec(cfg, rank, s).visible != NO && !Follows(cfg, rank, s) ==>
                  if Changeable(cfg, rank, s) && !AtDefault(cfg, rank, s) then Fits(cfg, rank, s) else FitsAlone(cfg, rank, s))
            && (forall c :: c in cfg.decls && cfg.decls[c].Choice() ==> ChoiceKept(cfg, rank, l, c)))
  {
    hide Spec, WellFormed, Ranked, Lines, Follow, Follows, Fits, FitsAlone, Names, LoadedConfig, Loaded, Reproduced,
         ConfigText.Restored, ChoiceKept, Due, HasEntry, HasLine, SkipsFor, Changeable, AtDefault;
    var l := Kept(Lines(order, f, r), skip);
    MinimalListed(cfg, rank, order, f, r, skip);
    var cfg2 := LoadedConfig(cfg, ConfigText.Restored(known, LinesOf(cfg, rank, l), ResetSaved(cfg)));
    FileLoaded(cfg, rank, known, l);
    RoundTripExact(cfg, rank, cfg2);
    forall s | s in cfg.decls && HasLine(cfg, s)
      ensures Reproduced(cfg, rank, cfg2, s) <==>
        (Spec(cfg, rank, s).visible != NO && !Follows(cfg, rank, s) ==>
           if Changeable(cfg, rank, s) && !AtDefault(cfg, rank, s) then Fits(cfg, rank, s) else FitsAlone(cfg, rank, s))
    {
      MinimalOne(cfg, rank, known, order, f, r, optional, skip, s);
    }
    forall c | c in cfg.decls && cfg.decls[c].Choice() ensures Reproduced(cfg, rank, cfg2, c) <==> ChoiceKept(cfg, rank, l, c) {
      ChoiceExact(cfg, rank, known, l, c);
      ChoiceNoLine(cfg, c);
    }
    forall s | s in cfg.decls && !HasLine(cfg, s) && !cfg.decls[s].Choice() ensures Reproduced(cfg, rank, cfg2, s) {
      UntypedReproduced(cfg, rank, cfg2, s);
    }
  }

  lemma ChoiceNoLine(cfg: Config, c: Sym)
    requires c in cfg.decls && cfg.decls[c].Choice()
    ensures !HasLine(cfg, c)
  {
  }

  lemma MinimalOne(cfg: Config, rank: map<Sym, nat>, known: ConfigText.Known, order: seq<Entry>, f: Flags, r: Rules,
                   optional: set<Sym>, skip: Sym -> bool, s: Sym)
    requires WellFormed(cfg) && Ranked(cfg, rank) && Names(cfg, known)
    requires Follow(cfg, rank, order, r) && f.valid == {} && SkipsFor(cfg, rank, optional, skip)
    requires s in cfg.decls && HasLine(cfg, s) && (Spec(cfg, rank, s).visible != NO ==> HasEntry(order, s))
    ensures Listed(cfg, Kept(Lines(order, f, r), skip))
    ensures var l := Kept(Lines(order, f, r), skip);
      var cfg2 := LoadedConfig(cfg, ConfigText.Restored(known, LinesOf(cfg, rank, l), ResetSaved(cfg)));
      && Loaded(cfg, rank, cfg2)
      && (Reproduced(cfg, rank, cfg2, s) <==>
            (Spec(cfg, rank, s).visible != NO && !Follows(cfg, rank, s) ==>
               if Changeable(cfg, rank, s) && !AtDefault(cfg, rank, s) then Fits(cfg, rank, s) else FitsAlone(cfg, rank, s)))
  {
    hide Spec, WellFormed, Ranked, Lines, Follow, Names, LoadedConfig, Loaded, ConfigText.Restored, Due, HasEntry, HasLine,
         Changeable, AtDefault, Fits, FitsAlone, Kept, Follows, DefaultPick, Reproduced;
    var l := Kept(Lines(order, f, r), skip);
    MinimalListed(cfg, rank, order, f, r, skip);
    var cfg2 := LoadedConfig(cfg, ConfigText.Restored(known, LinesOf(cfg, rank, l), ResetSaved(cfg)));
    FileLoaded(cfg, rank, known, l);
    if Spec(cfg, rank, s).visible == NO || Follows(cfg, rank, s) {
      FullFile(cfg, rank, known, l, s);
    } else {
      LinesListed(cfg, rank, order, f, r);
      KeptLines(Lines(order, f, r), skip);
      VisibleDue(cfg, rank, s);
      FollowsNoPick(cfg, rank, optional, s);
      if s in l {
        FullFile(cfg, rank, known, l, s);
      } else {
        AloneExact(cfg, rank, cfg2, s);
      }
    }
  }

  lemma AloneExact(cfg: Config, rank: map<Sym, nat>, cfg2: Config, s: Sym)
    requires Loaded(cfg, rank, cfg2) && s in cfg.decls && HasLine(cfg, s) && s !in cfg2.hasUser
    requires Spec(cfg, rank, s).visible != NO && !Follows(cfg, rank, s)
    ensures Reproduced(cfg, rank, cfg2, s) <==> FitsAlone(cfg, rank, s)
  {
    hide Spec, Loaded, RangeChecked, DefaultTri, DefaultText;
    LoadedShape(cfg, rank, cfg2);
  }

  /** A choice of booleans without defaults in the minimal configuration: at y it comes back if its pick has a line,
      which it has unless it is the default of a choice that is not optional, or if being selected is enough to
      make it y. */
  lemma MinimalChoice(cfg: Config, rank: map<Sym, nat>, order: seq<Entry>, f: Flags, r: Rules,
                      optional: set<Sym>, skip: Sym -> bool, c: Sym)
    requires WellFormed(cfg) && Ranked(cfg, rank) && Follow(cfg, rank, order, r) && f.valid == {}
    requires SkipsFor(cfg, rank, optional, skip)
    requires forall s :: s in cfg.decls && HasLine(cfg, s) && Spec(cfg, rank, s).visible != NO ==> HasEntry(order, s)
    requires c in cfg.decls && cfg.decls[c].Choice() && Plain(cfg, c)
    ensures var v, l := Spec(cfg, rank, c), Kept(Lines(order, f, r), skip);
      && (v.tri == YES ==>
            v.pick.Some? && v.pick.value in cfg.decls
            && (v.pick.value in l <==> c in optional || FavouredBy(cfg, rank, c, None) != v.pick)
            && (ChoiceKept(cfg, rank, l, c) <==> v.pick.value in l || Given(cfg, c, NO, v) == YES))
      && (v.tri != YES ==> (ChoiceKept(cfg, rank, l, c) <==> PlainFits(cfg, rank, c)))
  {
    hide Spec, WellFormed, Ranked, Lines, Follow, Plain, ChoiceKept, Due, FavouredBy, HasEntry, Kept, HasLine, SkipsFor, Given;
    var v, l := Spec(cfg, rank, c), Kept(Lines(order, f, r), skip);
    PlainKept(cfg, rank, l, c);
    if v.tri == YES {
      PlainSaved(cfg, rank, order, f, r, c);
      PickDue(cfg, rank, c);
      KeptLines(Lines(order, f, r), skip);
      PickSkipped(cfg, rank, optional, skip, c);
    }
  }

  lemma PickSkipped(cfg: Config, rank: map<Sym, nat>, optional: set<Sym>, skip: Sym -> bool, c: Sym)
    requires WellFormed(cfg) && Ranked(cfg, rank) && SkipsFor(cfg, rank, optional, skip)
    requires c in cfg.decls && cfg.decls[c].Choice() && Plain(cfg, c) && Spec(cfg, rank, c).tri == YES
    ensures var p := Spec(cfg, rank, c).pick;
      p.Some? && (skip(p.value) <==> c !in optional && FavouredBy(cfg, rank, c, None) == p)
  {
    hide Spec, WellFormed, Ranked, FavouredBy, EnvBelow;
    PickDue(cfg, rank, c);
    PickOwned(cfg, rank, c);
    var p := Spec(cfg, rank, c).pick.value;
    MemberOfOwner(cfg, p, c);
    SpecLimits(cfg, rank, p);
    assert cfg.decls[p].defaults == [];
  }
}
