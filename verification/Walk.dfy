/** The walks over the menu tree of conf_write and conf_write_defconfig (scripts/config/confdata.c): no
    stack, only next, list and parent. */
module MenuWalk {
  import opened Options
  import opened Exprs
  import opened MenuTree

  /** What is still to be visited once the list at hand is exhausted: the siblings that follow its parent,
      then those that follow the parent of that, and so on up to the root. */
  datatype Pending = Root | After(rest: Forest, up: Pending)

  ghost function Remaining(c: Pending): seq<Entry> {
    match c
    case Root => []
    case After(rest, up) => PreOrder(rest) + Remaining(up)
  }

  /** Climbing from p, the parent pointers lead through c. */
  ghost predicate Climbs(c: Pending, p: Entry)
    reads *
  {
    match c
    case Root => p.next == null && p.parent == null
    case After(rest, up) => Links(rest, p.next, p.parent, null) && p.parent != null && Climbs(up, p.parent)
  }

  /** The walk is at menu, the first entry of todo, in the list of p. */
  ghost predicate At(menu: Entry?, todo: Forest, p: Entry, c: Pending)
    reads *
  {
    Links(todo, menu, p, null) && Climbs(c, p)
  }

  /** From an entry without children and later siblings, up to the next entry to visit. */
  method Climb(menu: Entry, ghost p: Entry, ghost c: Pending)
    returns (m: Entry?, ghost todo: Forest, ghost p': Entry, ghost c': Pending)
    requires menu.parent == p && Climbs(c, p)
    ensures m == null ==> Remaining(c) == []
    ensures m != null ==> At(m, todo, p', c') && Remaining(c) == PreOrder(todo) + Remaining(c')
  {
    hide Links, PreOrder;
    m, p', c', todo := menu.parent, p, c, Nil;
    while m != null && m.next == null
      invariant m == null ==> Remaining(c) == []
      invariant m != null ==> p' == m && Climbs(c', m) && Remaining(c') == Remaining(c)
      decreases if m == null then 0 else 1, c'
    {
      if c'.After? {
        HeadLinks(c'.rest, m.next, m.parent);
        NilOrder(c'.up);
        c', p' := c'.up, m.parent;
      }
      m := m.parent;
    }
    if m != null {
      HeadLinks(c'.rest, m.next, m.parent);
      todo, p', c', m := c'.rest, m.parent, c'.up, m.next;
    }
  }

  lemma NilOrder(up: Pending)
    ensures Remaining(After(Nil, up)) == Remaining(up)
  {
  }

  lemma VisitOrder(todo: Forest, c: Pending)
    requires todo.Cons?
    ensures PreOrder(todo) + Remaining(c) == [todo.entry] + (PreOrder(todo.kids) + Remaining(After(todo.rest, c)))
    ensures todo.kids == Nil ==> PreOrder(todo) + Remaining(c) == [todo.entry] + (PreOrder(todo.rest) + Remaining(c))
    ensures todo.kids == Nil && todo.rest == Nil ==> PreOrder(todo) + Remaining(c) == [todo.entry] + Remaining(c)
  {
    ConsParts(todo, c);
    NilOrders();
    hide PreOrder, Remaining;
    Regroup(todo.entry, PreOrder(todo.kids), PreOrder(todo.rest), Remaining(c));
  }

  lemma ConsParts(todo: Forest, c: Pending)
    requires todo.Cons?
    ensures PreOrder(todo) == [todo.entry] + PreOrder(todo.kids) + PreOrder(todo.rest)
    ensures Remaining(After(todo.rest, c)) == PreOrder(todo.rest) + Remaining(c)
  {
  }

  lemma NilOrders()
    ensures PreOrder(Nil) == []
  {
  }

  lemma Regroup(e: Entry, a: seq<Entry>, b: seq<Entry>, c: seq<Entry>)
    ensures [e] + a + b + c == [e] + (a + (b + c))
    ensures a == [] ==> [e] + a + b + c == [e] + (b + c)
    ensures a == [] && b == [] ==> [e] + a + b + c == [e] + c
  {
  }

  // ----- the flags -----

  /** The symbols with SYMBOL_VALID and those with SYMBOL_WRITE. */
  datatype Flags = Flags(valid: set<Sym>, write: set<Sym>)

  /** What calculating does to the flags. Calculating a symbol may calculate others, given by needs, and
      so may looking at a menu or at a default, given by shown and probes. Calculating a symbol decides
      whether it is to be written; for a member of a choice, which does not lose SYMBOL_WRITE first, also its
      choice may set the flag, and before the member is calculated: marks. In writes are all that are marked in
      the end, by themselves or by their choice. */
  datatype Rules = Rules(needs: Sym -> set<Sym>, shown: Entry -> set<Sym>, probes: Sym -> set<Sym>,
                         marks: set<Sym> -> set<Sym>, members: set<Sym>, writes: set<Sym>)

  function Calc(f: Flags, xs: set<Sym>, r: Rules): Flags {
    var news := xs - f.valid;
    Flags(f.valid + news,
          (f.write - (news - r.members)) + news * r.writes + (r.marks(news) * r.members * r.writes - f.valid))
  }

  /** sym_calc_value */
  function CalcSymbol(f: Flags, s: Sym, r: Rules): Flags {
    if s in f.valid then f else Calc(f, {s} + r.needs(s), r)
  }

  /** The symbols a walk that starts with the flags f finds marked: what has been calculated before keeps its
      flag, the others get theirs. */
  ghost predicate Marked(f: Flags, r: Rules, s: Sym) {
    if s in f.valid then s in f.write else s in r.writes || (s in r.members && s in f.write)
  }

  /** Calculating does not change that. */
  lemma MarkedStays(f: Flags, xs: set<Sym>, r: Rules, s: Sym)
    ensures Marked(Calc(f, xs, r), r, s) <==> Marked(f, r, s)
  {
  }

  /** The flags f after the lines have been written, the walk having started with the flags f0. */
  ghost predicate Written(f0: Flags, f: Flags, lines: seq<Sym>, r: Rules) {
    && (forall s | s in lines :: s in f.valid && s !in f.write && Marked(f0, r, s))
    && (forall s | s !in lines :: Marked(f, r, s) <==> Marked(f0, r, s))
  }

  // ----- what is written -----

  /** The symbols marked, each where it first occurs. */
  ghost function Lines(order: seq<Entry>, f: Flags, r: Rules): seq<Sym> {
    if order == [] then []
    else
      var before, e := Lines(order[..|order| - 1], f, r), order[|order| - 1];
      if e.sym.Some? && !e.choice && Marked(f, r, e.sym.value) && e.sym.value !in before then before + [e.sym.value]
      else before
  }

  lemma {:induction false} LinesOnce(order: seq<Entry>, f: Flags, r: Rules)
    ensures var l := Lines(order, f, r);
      && (forall i, j :: 0 <= i < j < |l| ==> l[i] != l[j])
      && (forall s :: s in l <==> Marked(f, r, s) && exists e :: e in order && e.sym == Some(s) && !e.choice)
  {
    hide Marked;
    if order != [] {
      var init, last := order[..|order| - 1], order[|order| - 1];
      LinesOnce(init, f, r);
      assert order == init + [last];
    }
  }

  /** The entry at which s occurs first. */
  ghost function FirstEntry(order: seq<Entry>, s: Sym): nat {
    if order == [] || (order[0].sym == Some(s) && !order[0].choice) then 0 else 1 + FirstEntry(order[1..], s)
  }

  lemma {:induction false} FirstEntryIs(order: seq<Entry>, s: Sym, i: nat)
    requires i < |order| && order[i].sym == Some(s) && !order[i].choice
    ensures FirstEntry(order, s) <= i
    ensures forall more :: FirstEntry(order + more, s) == FirstEntry(order, s)
    decreases |order|
  {
    forall more ensures FirstEntry(order + more, s) == FirstEntry(order, s) {
      assert (order + more)[0] == order[0] && (order + more)[1..] == order[1..] + more;
      if i > 0 { FirstEntryIs(order[1..], s, i - 1); }
    }
    if i > 0 { FirstEntryIs(order[1..], s, i - 1); }
  }

  lemma {:induction false} FirstEntryNone(order: seq<Entry>, e: Entry, s: Sym)
    requires forall x :: x in order ==> !(x.sym == Some(s) && !x.choice)
    ensures FirstEntry(order + [e], s) >= |order|
    decreases |order|
  {
    if order != [] {
      assert (order + [e])[0] == order[0] && (order + [e])[1..] == order[1..] + [e] && order[0] in order;
      FirstEntryNone(order[1..], e, s);
    }
  }

  /** The lines come in the order of the menus. */
  lemma {:induction false} LinesInOrder(order: seq<Entry>, f: Flags, r: Rules)
    ensures var l := Lines(order, f, r);
      && (forall j :: 0 <= j < |l| ==> FirstEntry(order, l[j]) < |order|)
      && (forall i, j :: 0 <= i < j < |l| ==> FirstEntry(order, l[i]) < FirstEntry(order, l[j]))
  {
    if order != [] {
      hide Marked;
      var init, e := order[..|order| - 1], order[|order| - 1];
      var before, l := Lines(init, f, r), Lines(order, f, r);
      assert order == init + [e];
      LinesInOrder(init, f, r);
      LinesOnce(init, f, r);
      forall j | 0 <= j < |before| ensures FirstEntry(order, before[j]) == FirstEntry(init, before[j]) {
        assert before[j] in before;
        var x :| x in init && x.sym == Some(before[j]) && !x.choice;
        var i :| 0 <= i < |init| && init[i] == x;
        FirstEntryIs(init, before[j], i);
      }
      if l != before {
        FirstEntryNone(init, e, e.sym.value);
        FirstEntryIs(order, e.sym.value, |init|);
      }
    }
  }

  /** The flags the walk of conf_write starts with: unless something has changed, everything but the modules
      symbol is calculated anew. */
  function Started(f: Flags, changed: bool, modules: Option<Sym>, r: Rules): Flags {
    if changed then f
    else if modules.None? then Flags({}, f.write)
    else CalcSymbol(Flags({}, f.write), modules.value, r)
  }

  /** Starting anew, what is written is what the evaluation decides, and the members of choices that were
      marked before; that the modules symbol is calculated first does not matter. */
  lemma StartedMarks(f: Flags, changed: bool, modules: Option<Sym>, r: Rules, s: Sym)
    ensures Marked(Started(f, changed, modules, r), r, s) <==>
      if changed then Marked(f, r, s) else s in r.writes || (s in r.members && s in f.write)
  {
    hide Calc;
    if !changed && modules.Some? { MarkedStays(Flags({}, f.write), {modules.value} + r.needs(modules.value), r, s); }
  }

  /** So the lines are those of a walk before which nothing has been calculated. */
  lemma {:induction false} LinesStarted(order: seq<Entry>, f: Flags, modules: Option<Sym>, r: Rules)
    ensures Lines(order, Started(f, false, modules, r), r) == Lines(order, Flags({}, f.write), r)
  {
    hide Started, Marked;
    if order != [] {
      LinesStarted(order[..|order| - 1], f, modules, r);
      var e := order[|order| - 1];
      if e.sym.Some? {
        StartedMarks(f, false, modules, r, e.sym.value);
        FreshMarks(f, r, e.sym.value);
      }
    }
  }

  lemma FreshMarks(f: Flags, r: Rules, s: Sym)
    ensures Marked(Flags({}, f.write), r, s) <==> s in r.writes || (s in r.members && s in f.write)
  {
  }

  // ----- conf_write -----

  /** The loop of conf_write visits the entries below root in the order of the recursive definition, each
      once, and writes every symbol that is marked, at its first entry only; then no symbol of the tree is
      marked any more. */
  method Write(root: Entry, f: Flags, changed: bool, modules: Option<Sym>, r: Rules, ghost k: Forest)
    returns (visited: seq<Entry>, lines: seq<Sym>, flags: Flags)
    requires root.parent == null && root.next == null && Links(k, root.list, root, null)
    ensures visited == PreOrder(k)
    ensures lines == Lines(PreOrder(k), Started(f, changed, modules, r), r)
    ensures forall e :: e in PreOrder(k) && e.sym.Some? && !e.choice ==> e.sym.value in flags.valid - flags.write
  {
    hide Links, PreOrder, Remaining, Lines, Written, Calc, CalcSymbol, Marked, AllDone;
    visited, lines := [], [];
    flags := Started(f, changed, modules, r);
    var menu := root.list;
    ghost var f0, todo: Forest, p: Entry, c: Pending := flags, k, root, Root;
    RootOrder(k);
    HeadLinks(k, menu, root);
    NoLines(f0, r);
    while menu != null
      invariant menu != null ==> At(menu, todo, p, c) && visited + (PreOrder(todo) + Remaining(c)) == PreOrder(k)
      invariant menu == null ==> visited == PreOrder(k)
      invariant lines == Lines(visited, f0, r) && Written(f0, flags, lines, r) && AllDone(visited, flags)
      decreases if menu == null then 0 else 1 + |PreOrder(todo) + Remaining(c)|
    {
      HeadLinks(todo, menu, p);
      HeadLinks(todo.kids, menu.list, menu);
      HeadLinks(todo.rest, menu.next, p);
      VisitOrder(todo, c);
      OneLine(visited, menu, f0, r);
      ghost var before, later := visited, PreOrder(todo) + Remaining(c);
      visited := visited + [menu];
      flags, lines := WriteEntry(f0, flags, menu, r, before, lines);
      if menu.list != null {
        c, p, todo := After(todo.rest, c), menu, todo.kids;
        menu := menu.list;
      } else if menu.next != null {
        todo := todo.rest;
        menu := menu.next;
      } else {
        menu, todo, p, c := Climb(menu, p, c);
      }
      Moved(before, visited, later, if menu == null then [] else PreOrder(todo) + Remaining(c));
    }
    DoneAt(visited, flags);
  }

  /** The symbols of the entries visited are calculated, and not marked any more. */
  ghost predicate AllDone(visited: seq<Entry>, f: Flags) {
    forall e :: e in visited && e.sym.Some? && !e.choice ==> e.sym.value in f.valid - f.write
  }

  lemma DoneAt(visited: seq<Entry>, f: Flags)
    requires AllDone(visited, f)
    ensures forall e :: e in visited && e.sym.Some? && !e.choice ==> e.sym.value in f.valid - f.write
  {
  }

  lemma DoneMore(visited: seq<Entry>, e: Entry, f: Flags, f': Flags)
    requires AllDone(visited, f) && f.valid - f.write <= f'.valid - f'.write
    requires e.sym.Some? && !e.choice ==> e.sym.value in f'.valid - f'.write
    ensures AllDone(visited + [e], f')
  {
  }

  /** What conf_write does at one entry. */
  method WriteEntry(ghost f0: Flags, f: Flags, e: Entry, r: Rules, ghost visited: seq<Entry>, before: seq<Sym>)
    returns (f': Flags, lines: seq<Sym>)
    requires Written(f0, f, before, r) && AllDone(visited, f)
    ensures Written(f0, f', lines, r) && AllDone(visited + [e], f')
    ensures lines ==
      if e.sym.Some? && !e.choice && Marked(f0, r, e.sym.value) && e.sym.value !in before then before + [e.sym.value] else before
  {
    hide Marked, Calc, CalcSymbol, Written, AllDone;
    lines := before;
    if e.sym.None? {
      f' := Calc(f, r.shown(e), r);
      CalcWritten(f0, f, r.shown(e), before, r);
    } else if e.choice {
      f' := f;
    } else {
      var s := e.sym.value;
      f' := CalcSymbol(f, s, r);
      SymbolWritten(f0, f, s, before, r);
      if s in f'.write {
        LineWritten(f0, f', s, before, r);
        f' := f'.(write := f'.write - {s});
        lines := lines + [s];
      }
    }
    DoneMore(visited, e, f, f');
  }

  lemma CalcWritten(f0: Flags, f: Flags, xs: set<Sym>, lines: seq<Sym>, r: Rules)
    requires Written(f0, f, lines, r)
    ensures Written(f0, Calc(f, xs, r), lines, r)
    ensures f.valid - f.write <= Calc(f, xs, r).valid - Calc(f, xs, r).write
  {
    hide Marked, Calc;
    var f' := Calc(f, xs, r);
    ValidKept(f, xs, r);
    forall s | s !in lines ensures Marked(f', r, s) <==> Marked(f0, r, s) { MarkedStays(f, xs, r, s); }
  }

  lemma ValidKept(f: Flags, xs: set<Sym>, r: Rules)
    ensures xs <= Calc(f, xs, r).valid
    ensures forall s :: s in f.valid ==> s in Calc(f, xs, r).valid && (s in Calc(f, xs, r).write <==> s in f.write)
  {
  }

  /** After a symbol has been calculated its flag says whether its line is still due. */
  lemma SymbolWritten(f0: Flags, f: Flags, s: Sym, lines: seq<Sym>, r: Rules)
    requires Written(f0, f, lines, r)
    ensures var f' := CalcSymbol(f, s, r);
      && Written(f0, f', lines, r) && s in f'.valid && f.valid - f.write <= f'.valid - f'.write
      && (s in f'.write <==> Marked(f0, r, s) && s !in lines)
  {
    hide Calc;
    if s !in f.valid {
      CalcWritten(f0, f, {s} + r.needs(s), lines, r);
      ValidKept(f, {s} + r.needs(s), r);
    }
  }

  lemma LineWritten(f0: Flags, f: Flags, s: Sym, lines: seq<Sym>, r: Rules)
    requires Written(f0, f, lines, r) && s in f.valid && s in f.write && Marked(f0, r, s)
    ensures Written(f0, f.(write := f.write - {s}), lines + [s], r)
    ensures f.valid - f.write <= f.valid - (f.write - {s})
  {
  }

  // ----- conf_write_defconfig -----

  /** The lines that are kept. */
  ghost function Kept(lines: seq<Sym>, skip: Sym -> bool): seq<Sym> {
    if lines == [] then []
    else Kept(lines[..|lines| - 1], skip) + (if skip(lines[|lines| - 1]) then [] else [lines[|lines| - 1]])
  }

  /** The loop of conf_write_defconfig is the same walk. A symbol may be left out after it has lost its mark,
      being unchangeable or at its default, so it is not looked at again at a later entry: the minimal
      configuration has the lines of the full one, in the same order, less the redundant ones. */
  method WriteDefconfig(root: Entry, f: Flags, modules: Option<Sym>, r: Rules, skip: Sym -> bool, ghost k: Forest)
    returns (visited: seq<Entry>, lines: seq<Sym>)
    requires root.parent == null && root.next == null && Links(k, root.list, root, null)
    ensures visited == PreOrder(k)
    ensures lines == Kept(Lines(PreOrder(k), Started(f, false, modules, r), r), skip)
  {
    hide Links, PreOrder, Remaining, Lines, Written, Calc, CalcSymbol, Marked, Kept, AllDone;
    visited, lines := [], [];
    var flags := Started(f, false, modules, r);
    var menu := root.list;
    ghost var f0, due: seq<Sym>, todo: Forest, p: Entry, c: Pending := flags, [], k, root, Root;
    RootOrder(k);
    HeadLinks(k, menu, root);
    NoLines(f0, r);
    NoneKept(skip);
    while menu != null
      invariant menu != null ==> At(menu, todo, p, c) && visited + (PreOrder(todo) + Remaining(c)) == PreOrder(k)
      invariant menu == null ==> visited == PreOrder(k)
      invariant due == Lines(visited, f0, r) && Written(f0, flags, due, r) && lines == Kept(due, skip)
      decreases if menu == null then 0 else 1 + |PreOrder(todo) + Remaining(c)|
    {
      HeadLinks(todo, menu, p);
      HeadLinks(todo.kids, menu.list, menu);
      HeadLinks(todo.rest, menu.next, p);
      VisitOrder(todo, c);
      OneLine(visited, menu, f0, r);
      ghost var before, later := visited, PreOrder(todo) + Remaining(c);
      visited := visited + [menu];
      flags, lines, due := KeepEntry(f0, flags, menu, r, skip, due, lines);
      if menu.list != null {
        c, p, todo := After(todo.rest, c), menu, todo.kids;
        menu := menu.list;
      } else if menu.next != null {
        todo := todo.rest;
        menu := menu.next;
      } else {
        menu, todo, p, c := Climb(menu, p, c);
      }
      Moved(before, visited, later, if menu == null then [] else PreOrder(todo) + Remaining(c));
    }
  }

  /** What conf_write_defconfig does at one entry; due are the lines conf_write would have written. */
  method KeepEntry(ghost f0: Flags, f: Flags, e: Entry, r: Rules, skip: Sym -> bool, ghost due: seq<Sym>, before: seq<Sym>)
    returns (f': Flags, lines: seq<Sym>, ghost due': seq<Sym>)
    requires Written(f0, f, due, r) && before == Kept(due, skip)
    ensures Written(f0, f', due', r) && lines == Kept(due', skip)
    ensures due' ==
      if e.sym.Some? && !e.choice && Marked(f0, r, e.sym.value) && e.sym.value !in due then due + [e.sym.value] else due
  {
    hide Marked, Calc, CalcSymbol, Written;
    lines, due' := before, due;
    if e.sym.None? {
      f' := Calc(f, r.shown(e), r);
      CalcWritten(f0, f, r.shown(e), due, r);
    } else if e.choice {
      f' := f;
    } else {
      var s := e.sym.value;
      f' := CalcSymbol(f, s, r);
      SymbolWritten(f0, f, s, due, r);
      if s in f'.write {
        LineWritten(f0, f', s, due, r);
        f' := f'.(write := f'.write - {s});
        due' := due + [s];
        assert due'[..|due|] == due;
        CalcWritten(f0, f', r.probes(s), due', r);
        f' := Calc(f', r.probes(s), r);
        if !skip(s) {
          lines := lines + [s];
        }
      }
    }
  }

  lemma NoneKept(skip: Sym -> bool)
    ensures Kept([], skip) == []
  {
  }

  /** Exactly the lines not skipped are kept. */
  lemma {:induction false} KeptLines(a: seq<Sym>, skip: Sym -> bool)
    ensures forall s :: s in Kept(a, skip) <==> s in a && !skip(s)
  {
    if a != [] {
      KeptLines(a[..|a| - 1], skip);
      assert a == a[..|a| - 1] + [a[|a| - 1]];
    }
  }

  /** And in their order. */
  lemma {:induction false} KeptAppend(a: seq<Sym>, b: seq<Sym>, skip: Sym -> bool)
    ensures Kept(a + b, skip) == Kept(a, skip) + Kept(b, skip)
    decreases |b|
  {
    if b == [] {
      assert a + b == a;
    } else {
      var init, last := b[..|b| - 1], b[|b| - 1];
      KeptAppend(a, init, skip);
      assert (a + b)[..|a + b| - 1] == a + init && (a + b)[|a + b| - 1] == last;
    }
  }

  lemma NoLines(f: Flags, r: Rules)
    ensures Lines([], f, r) == [] && Written(f, f, [], r)
    ensures AllDone([], f)
  {
  }

  lemma OneLine(order: seq<Entry>, e: Entry, f: Flags, r: Rules)
    ensures Lines(order + [e], f, r) ==
      if e.sym.Some? && !e.choice && Marked(f, r, e.sym.value) && e.sym.value !in Lines(order, f, r)
      then Lines(order, f, r) + [e.sym.value] else Lines(order, f, r)
  {
    assert (order + [e])[..|order|] == order;
  }

  lemma RootOrder(k: Forest)
    ensures [] + (PreOrder(k) + Remaining(Root)) == PreOrder(k)
    ensures k == Nil ==> PreOrder(k) == []
  {
  }

  lemma Moved(before: seq<Entry>, visited: seq<Entry>, later: seq<Entry>, rest: seq<Entry>)
    requires |visited| == |before| + 1 && visited[..|before|] == before && later == [visited[|before|]] + rest
    ensures before + later == visited + rest && |rest| < |later|
  {
  }
}
