/** Config lines as text: what is printed for a symbol and how a line is read (scripts/config/confdata.c,
    scripts/config/symbol.c). */
module ConfigText {
  import opened Options
  import opened Tristates
  import opened Exprs

  const NUL: char := '\0'

  /** A string of C: no NUL inside. */
  predicate Text(s: string) { NUL !in s }

  /** strchr: the index of the first c, or the length. */
  function Find(s: string, c: char): (n: nat)
    ensures n <= |s|
    ensures c !in s[..n] && (n < |s| ==> s[n] == c)
  {
    if s == [] || s[0] == c then 0 else
      var n := Find(s[1..], c);
      assert s[..1 + n] == [s[0]] + s[1..][..n];
      1 + n
  }

  // ----- quoting -----

  predicate Special(c: char) { c == '"' || c == '\\' }

  function Escaped(s: string): string {
    if s == [] then [] else (if Special(s[0]) then ['\\', s[0]] else [s[0]]) + Escaped(s[1..])
  }

  /** sym_escape_string_value. */
  function Quoted(s: string): string { ['"'] + Escaped(s) + ['"'] }

  /** What the reader makes of the text behind the opening quote: the string up to the closing quote, or an
      error because there is none, or, when a backslash is last, a scan that leaves the string. */
  datatype Scan = Closed(text: string) | Unclosed | PastEnd

  function Prepend(c: char, r: Scan): Scan { if r.Closed? then Closed([c] + r.text) else r }

  function Unescape(s: string): Scan {
    if s == [] then Unclosed
    else if s[0] == '"' then Closed([])
    else if s[0] != '\\' then Prepend(s[0], Unescape(s[1..]))
    else if |s| == 1 then PastEnd
    else Prepend(s[1], Unescape(s[2..]))
  }

  /** Each character is read back from what it was written as. */
  lemma UnescapeOne(c: char, t: string)
    ensures Unescape((if Special(c) then ['\\', c] else [c]) + t) == Prepend(c, Unescape(t))
  {
    assert ([c] + t)[1..] == t && (['\\', c] + t)[2..] == t;
  }

  /** Reading undoes quoting, whatever follows the closing quote. */
  lemma {:induction false} UnescapeQuoted(s: string, rest: string)
    ensures Unescape(Escaped(s) + ['"'] + rest) == Closed(s)
  {
    if s == [] {
      assert Escaped(s) + ['"'] + rest == ['"'] + rest;
    } else {
      hide Unescape;
      var head, tail := if Special(s[0]) then ['\\', s[0]] else [s[0]], Escaped(s[1..]);
      assert head + tail + ['"'] + rest == head + (tail + ['"'] + rest);
      UnescapeOne(s[0], tail + ['"'] + rest);
      UnescapeQuoted(s[1..], rest);
      assert s == [s[0]] + s[1..];
    }
  }

  /** How many backslashes s ends in. */
  function Backslashes(s: string): nat {
    if s == [] || s[|s| - 1] != '\\' then 0 else 1 + Backslashes(s[..|s| - 1])
  }

  /** A quote that no backslash takes away its meaning. */
  predicate ClosesAt(s: string, i: int) { 0 <= i < |s| && s[i] == '"' && Backslashes(s[..i]) % 2 == 0 }

  lemma {:induction false} PlainFirst(c: char, u: string)
    requires c != '\\'
    ensures Backslashes([c] + u) == Backslashes(u)
    decreases |u|
  {
    if u != [] {
      assert ([c] + u)[..|u|] == [c] + u[..|u| - 1];
      PlainFirst(c, u[..|u| - 1]);
    }
  }

  lemma {:induction false} EscapedFirst(c: char, u: string)
    ensures Backslashes(['\\', c] + u) % 2 == Backslashes(u) % 2
    decreases |u|
  {
    if u == [] {
      assert (['\\', c] + u)[..1] == ['\\'] && ['\\'][..0] == [];
    } else {
      assert (['\\', c] + u)[..|u| + 1] == ['\\', c] + u[..|u| - 1];
      EscapedFirst(c, u[..|u| - 1]);
    }
  }

  /** When the scan succeeds and when it leaves the string: there is a quote that counts; or there is none,
      and the string ends in an odd number of backslashes, so that its NUL is taken for an escaped
      character. */
  lemma {:induction false} UnescapeOutcome(s: string)
    ensures Unescape(s).Closed? <==> exists i :: ClosesAt(s, i)
    ensures Unescape(s).PastEnd? <==> (forall i :: !ClosesAt(s, i)) && Backslashes(s) % 2 == 1
    decreases |s|
  {
    hide Backslashes, ClosesAt;
    NoBackslashes();
    if s == [] {
      assert forall i :: !ClosesAt(s, i) by { NoneCloses(s); }
    } else if s[0] == '"' {
      FirstCloses(s);
    } else if s[0] != '\\' {
      UnescapeOutcome(s[1..]);
      PlainStep(s);
    } else if |s| == 1 {
      assert s == ['\\'];
      assert forall i :: !ClosesAt(s, i) by { NoneCloses(s); }
    } else {
      UnescapeOutcome(s[2..]);
      EscapedStep(s);
    }
  }

  lemma NoBackslashes()
    ensures Backslashes([]) == 0 && Backslashes(['\\']) == 1
  {
    assert ['\\'][..0] == [];
  }

  lemma NoneCloses(s: string)
    requires '"' !in s
    ensures forall i :: !ClosesAt(s, i)
  {
  }

  lemma FirstCloses(s: string)
    requires s != [] && s[0] == '"'
    ensures ClosesAt(s, 0)
  {
  }

  /** Whether a quote closes what is behind the first character, or behind an escaped one. */
  lemma PlainStep(s: string)
    requires s != [] && s[0] != '"' && s[0] != '\\'
    ensures (exists i :: ClosesAt(s, i)) <==> exists i :: ClosesAt(s[1..], i)
    ensures Backslashes(s) == Backslashes(s[1..])
  {
    var t := s[1..];
    assert s == [s[0]] + t;
    PlainFirst(s[0], t);
    forall i | 1 <= i ensures ClosesAt(s, i) <==> ClosesAt(t, i - 1) {
      if i < |s| {
        assert s[..i] == [s[0]] + t[..i - 1];
        PlainFirst(s[0], t[..i - 1]);
      }
    }
    Shifted(s, t, 1);
  }

  lemma EscapedStep(s: string)
    requires |s| >= 2 && s[0] == '\\'
    ensures (exists i :: ClosesAt(s, i)) <==> exists i :: ClosesAt(s[2..], i)
    ensures Backslashes(s) % 2 == Backslashes(s[2..]) % 2
  {
    hide Backslashes, ClosesAt;
    var t := s[2..];
    assert s == ['\\', s[1]] + t;
    EscapedFirst(s[1], t);
    forall i | 0 <= i < 2 ensures !ClosesAt(s, i) { NotInEscape(s, i); }
    forall i | 2 <= i ensures ClosesAt(s, i) <==> ClosesAt(t, i - 2) { EscapedCloses(s, i); }
    Shifted(s, t, 2);
  }

  lemma NotInEscape(s: string, i: nat)
    requires |s| >= 2 && s[0] == '\\' && i < 2
    ensures !ClosesAt(s, i)
  {
    NoBackslashes();
    if i == 1 { assert s[..1] == ['\\']; }
  }

  lemma EscapedCloses(s: string, i: nat)
    requires |s| >= 2 && s[0] == '\\' && 2 <= i
    ensures ClosesAt(s, i) <==> ClosesAt(s[2..], i - 2)
  {
    hide Backslashes;
    if i < |s| {
      assert s[..i] == ['\\', s[1]] + s[2..][..i - 2];
      EscapedFirst(s[1], s[2..][..i - 2]);
    }
  }

  lemma Shifted(s: string, t: string, n: nat)
    requires (forall i | 0 <= i < n :: !ClosesAt(s, i)) && forall i | n <= i :: ClosesAt(s, i) <==> ClosesAt(t, i - n)
    ensures (exists i :: ClosesAt(s, i)) <==> exists i :: ClosesAt(t, i)
  {
    if i :| ClosesAt(t, i) { assert ClosesAt(s, i + n); }
  }

  lemma {:induction false} EscapedChars(s: string, c: char)
    requires c != '\\'
    ensures c in Escaped(s) <==> c in s
  {
    if s != [] { EscapedChars(s[1..], c); }
  }

  // ----- what a value may look like -----

  predicate Digit(c: char) { '0' <= c <= '9' }

  predicate HexDigit(c: char) { Digit(c) || 'a' <= c <= 'f' || 'A' <= c <= 'F' }

  /** sym_string_valid for int: an optional sign, and no leading zero. */
  predicate IntText(s: string) {
    var t := if s != [] && s[0] == '-' then s[1..] else s;
    && t != [] && (forall c | c in t :: Digit(c))
    && (t[0] == '0' ==> |t| == 1)
  }

  /** sym_string_valid for hex: digits after an optional 0x. */
  predicate HexText(s: string) {
    var t := if |s| >= 2 && s[0] == '0' && (s[1] == 'x' || s[1] == 'X') then s[2..] else s;
    t != [] && forall c | c in t :: HexDigit(c)
  }

  // ----- setting a value -----

  /** def.tri or def.val */
  datatype Value = Tri(tri: Tristate) | Val(val: string)

  /** Stored: the value has been taken. Ignored: nothing stored, without complaint. Rejected: nothing
      stored, with a warning. OutOfString: the scan for the closing quote has left the string. */
  datatype Outcome = Stored(value: Value) | Ignored | Rejected | OutOfString

  function TextOutcome(valid: bool, s: string): Outcome { if valid then Stored(Val(s)) else Rejected }

  /** The value behind an opening quote. */
  function QuotedOutcome(valid: bool, s: string): Outcome {
    match Unescape(s)
    case Closed(text) => TextOutcome(valid, text)
    case Unclosed => Rejected
    case PastEnd => OutOfString
  }

  /** conf_set_sym_val. A symbol of unknown kind, met only in auto.conf, takes any text that is not quoted. */
  function SetValue(stype: SymType, s: string): Outcome {
    match stype
    case STristate => if s != [] && s[0] == 'm' then Stored(Tri(MOD)) else SetBool(s)
    case SBoolean => SetBool(s)
    case SOther => if s == [] || s[0] != '"' then Stored(Val(s)) else QuotedOutcome(false, s[1..])
    case SString => if s == [] || s[0] != '"' then Ignored else QuotedOutcome(true, s[1..])
    case SInt => TextOutcome(IntText(s), s)
    case SHex => TextOutcome(HexText(s), s)
    case SUnknown => Ignored
  }

  function SetBool(s: string): Outcome {
    if s != [] && s[0] == 'y' then Stored(Tri(YES))
    else if s != [] && s[0] == 'n' then Stored(Tri(NO))
    else Rejected
  }

  // ----- lines -----

  const NOT_SET: string := "is not set"

  /** NotSet: "# CONFIG_name is not set". Assigned: "CONFIG_name=value". */
  datatype Line = Skipped | Unexpected | NotSet(name: string) | Assigned(name: string, value: string)

  /** The text behind '=' without the end of the line. */
  function TrimEol(s: string): string {
    var n := Find(s, '\n');
    if n == |s| then s
    else if n > 0 && s[n - 1] == '\r' then s[..n - 1]
    else s[..n]
  }

  function ParseComment(prefix: string, s: string): Line {
    if !(prefix <= s) then Skipped
    else
      var t := s[|prefix|..];
      var n := Find(t, ' ');
      if n == |t| || !(NOT_SET <= t[n + 1..]) then Skipped else NotSet(t[..n])
  }

  function ParseAssignment(prefix: string, s: string): Line
    requires prefix <= s
  {
    var t := s[|prefix|..];
    var n := Find(t, '=');
    if n == |t| then Skipped else Assigned(t[..n], TrimEol(t[n + 1..]))
  }

  /** How conf_read_simple takes a line apart. A line consisting of # alone, with not even an end of line,
      would make it look at what the line before has left in the buffer; the line "#" with its end of line
      is a comment like any other. */
  function ParseLine(prefix: string, s: string): Line
    requires s != "#"
  {
    if s != [] && s[0] == '#' then ParseComment(prefix, s[2..])
    else if prefix <= s then ParseAssignment(prefix, s)
    else if s == [] || (s[0] != '\r' && s[0] != '\n') then Unexpected
    else Skipped
  }

  /** The text of a C string in a buffer that goes on behind its NUL. */
  function CStr(s: string): string { s[..Find(s, NUL)] }

  /** What the reader sees of a line of the file, in which there may be NULs: the text up to the first; but of
      a comment it looks at the text from the third character on, whatever the second is. */
  function Seen(line: string): string {
    if |line| >= 2 && line[0] == '#' then line[..2] + CStr(line[2..]) else CStr(line)
  }

  lemma TextSeen(line: string)
    requires Text(line)
    ensures Seen(line) == line
  {
    if |line| >= 2 { assert line == line[..2] + line[2..]; }
  }

  lemma SeenHash(line: string)
    ensures Seen(line) == "#" ==> line == "#"
  {
    if line != [] && line[0] == '#' && |line| < 2 { assert line == "#"; }
  }

  // ----- printing -----

  /** kconfig_print_symbol, preceded by conf_write_symbol; values of boolean and tristate symbols are given
      by their letter. */
  function PrintLine(prefix: string, name: string, stype: SymType, value: string): string {
    if (stype == SBoolean || stype == STristate) && value != [] && value[0] == 'n'
      then "# " + prefix + name + " " + NOT_SET + "\n"
    else prefix + name + "=" + (if stype == SString then Quoted(value) else value) + "\n"
  }

  /** A name or prefix that can be printed: not broken by what separates it from the rest. */
  predicate NameText(s: string) { forall c | c in s :: c != NUL && c != '\n' && c != '=' && c != ' ' }

  predicate PrefixText(s: string) { Text(s) && '\n' !in s && (s != [] ==> s[0] != '#') }

  /** The values a symbol of the type can have; any string without NUL and end of line will do. */
  predicate Printable(stype: SymType, v: string) {
    match stype
    case SBoolean => v == "y" || v == "n"
    case STristate => v == "y" || v == "m" || v == "n"
    case SInt => IntText(v)
    case SHex => HexText(v)
    case SString => Text(v) && '\n' !in v
    case _ => false
  }

  /** The values that can be put in a line at all. A number may have a text that is no number, such as none. */
  predicate Writable(stype: SymType, v: string) {
    || Printable(stype, v)
    || ((stype == SInt || stype == SHex) && Text(v) && '\n' !in v && (v != [] ==> v[|v| - 1] != '\r'))
  }

  /** What is stored for a printable value. */
  function ValueOf(stype: SymType, v: string): Value
  {
    if stype == SBoolean || stype == STristate then Tri(if v == "n" then NO else if v == "m" then MOD else YES)
    else Val(v)
  }

  lemma FindAt(s: string, t: string, c: char)
    requires c !in s
    ensures Find(s + [c] + t, c) == |s|
    decreases s
  {
    if s == [] {
      assert s + [c] + t == [c] + t;
    } else {
      assert (s + [c] + t)[1..] == s[1..] + [c] + t;
      FindAt(s[1..], t, c);
    }
  }

  /** The text printed for a value, as the reader gets it. */
  function Shown(stype: SymType, v: string): string { if stype == SString then Quoted(v) else v }

  lemma NumberText(stype: SymType, v: string)
    requires (stype == SInt && IntText(v)) || (stype == SHex && HexText(v))
    ensures v != [] && forall c | c in v :: c == '-' || c == 'x' || c == 'X' || HexDigit(c)
  {
    if stype == SInt {
      var t := if v[0] == '-' then v[1..] else v;
      forall c | c in v ensures c == '-' || Digit(c) {
        if c != '-' { assert c in t; }
      }
    } else {
      var t := if |v| >= 2 && v[0] == '0' && (v[1] == 'x' || v[1] == 'X') then v[2..] else v;
      forall c | c in v ensures c == 'x' || c == 'X' || HexDigit(c) {
        if c != 'x' && c != 'X' && c != '0' { assert c in t; }
      }
    }
  }

  lemma QuotedText(v: string)
    requires Text(v) && '\n' !in v
    ensures Quoted(v) != [] && '\n' !in Quoted(v) && NUL !in Quoted(v) && Quoted(v)[0] == '"' && Quoted(v)[|Quoted(v)| - 1] == '"'
    ensures Unescape(Quoted(v)[1..]) == Closed(v)
  {
    hide Escaped, Unescape;
    EscapedChars(v, '\n');
    EscapedChars(v, NUL);
    UnescapeQuoted(v, []);
    assert Quoted(v)[1..] == Escaped(v) + ['"'] + [];
  }

  lemma ShownText(stype: SymType, v: string)
    requires Printable(stype, v)
    ensures '\n' !in Shown(stype, v) && NUL !in Shown(stype, v)
    ensures Shown(stype, v) != [] && Shown(stype, v)[|Shown(stype, v)| - 1] != '\r'
    ensures SetValue(stype, Shown(stype, v)) == Stored(ValueOf(stype, v))
  {
    hide Quoted, Unescape, IntText, HexText;
    if stype == SString {
      QuotedText(v);
    } else if stype == SInt || stype == SHex {
      NumberText(stype, v);
      assert v[|v| - 1] in v;
    }
  }

  lemma NotSetRoundTrip(prefix: string, name: string)
    requires PrefixText(prefix) && NameText(name)
    ensures ParseLine(prefix, "# " + prefix + name + " " + NOT_SET + "\n") == NotSet(name)
  {
    hide Find;
    var line := "# " + prefix + name + " " + NOT_SET + "\n";
    var t := name + [' '] + (NOT_SET + "\n");
    assert line[2..] == prefix + t;
    assert (prefix + t)[|prefix|..] == t;
    FindAt(name, NOT_SET + "\n", ' ');
    assert t[|name| + 1..] == NOT_SET + "\n";
    assert t[..|name|] == name;
  }

  lemma TrimEolAt(shown: string)
    requires '\n' !in shown && (shown != [] ==> shown[|shown| - 1] != '\r')
    ensures TrimEol(shown + ['\n']) == shown
  {
    assert shown + ['\n'] + [] == shown + ['\n'];
    FindAt(shown, [], '\n');
    assert (shown + ['\n'])[..|shown|] == shown;
  }

  lemma AssignedRoundTrip(prefix: string, name: string, shown: string)
    requires PrefixText(prefix) && NameText(name) && (prefix == [] ==> name != [] && name[0] != '#')
    requires '\n' !in shown && (shown != [] ==> shown[|shown| - 1] != '\r')
    ensures ParseLine(prefix, prefix + name + "=" + shown + "\n") == Assigned(name, shown)
  {
    hide Find, TrimEol, ParseLine;
    var v := shown + ['\n'];
    var t := name + ['='] + v;
    var line := prefix + t;
    Grouped(prefix, name, ['='], shown, ['\n']);
    FindAt(name, v, '=');
    Cuts(name, '=', v);
    TrimEolAt(shown);
    assert line[0] != '#';
    ParsedAsAssignment(prefix, line);
  }

  lemma Grouped(a: string, b: string, c: string, d: string, e: string)
    ensures a + b + c + d + e == a + (b + c + (d + e))
    ensures (a + (b + c + (d + e)))[|a|..] == b + c + (d + e) && (a + (b + c + (d + e)))[..|a|] == a
  {
  }

  lemma Cuts(a: string, c: char, b: string)
    ensures (a + [c] + b)[..|a|] == a && (a + [c] + b)[|a| + 1..] == b
  {
  }

  lemma ParsedAsAssignment(prefix: string, s: string)
    requires prefix <= s && s != [] && s[0] != '#'
    ensures ParseLine(prefix, s) == ParseAssignment(prefix, s)
  {
  }

  /** The printed line, taken apart again, gives the name and a text that stores the printed value. */
  lemma LineRoundTrip(prefix: string, name: string, stype: SymType, v: string)
    requires PrefixText(prefix) && NameText(name) && Printable(stype, v)
    requires prefix == [] ==> name != [] && name[0] != '#'
    ensures PrintLine(prefix, name, stype, v) != "#"
    ensures var line := ParseLine(prefix, PrintLine(prefix, name, stype, v));
      if ValueOf(stype, v) == Tri(NO) then line == NotSet(name)
      else line.Assigned? && line.name == name && SetValue(stype, line.value) == Stored(ValueOf(stype, v))
  {
    hide ParseLine, SetValue, Quoted, IntText, HexText;
    if (stype == SBoolean || stype == STristate) && v == "n" {
      NotSetRoundTrip(prefix, name);
    } else {
      ShownText(stype, v);
      AssignedRoundTrip(prefix, name, Shown(stype, v));
    }
  }

  /** A number that is none is taken apart as well, but not stored. */
  lemma UnprintableLine(prefix: string, name: string, stype: SymType, v: string)
    requires PrefixText(prefix) && NameText(name) && Writable(stype, v) && !Printable(stype, v)
    requires prefix == [] ==> name != [] && name[0] != '#'
    ensures PrintLine(prefix, name, stype, v) != "#"
    ensures ParseLine(prefix, PrintLine(prefix, name, stype, v)) == Assigned(name, v) && SetValue(stype, v) == Rejected
  {
    hide ParseLine, IntText, HexText;
    AssignedRoundTrip(prefix, name, v);
    assert |PrintLine(prefix, name, stype, v)| > 1 || prefix + name == [];
    var line := PrintLine(prefix, name, stype, v);
    assert line[|line| - 1] == '\n';
  }

  // ----- whole files -----

  /** A line of the file: of a symbol, or a comment given by what follows the #, or nothing. */
  datatype Item = Setting(name: string, stype: SymType, value: string) | Comment(rest: string) | Blank
  {
    /** A setting that is taken when it is read. */
    predicate Stores() { Setting? && Printable(stype, value) }
  }

  function PrintItem(prefix: string, i: Item): string {
    match i
    case Setting(name, stype, value) => PrintLine(prefix, name, stype, value)
    case Comment(rest) => "#" + rest + "\n"
    case Blank => "\n"
  }

  function PrintItems(prefix: string, items: seq<Item>): string {
    if items == [] then [] else PrintItem(prefix, items[0]) + PrintItems(prefix, items[1..])
  }

  /** compat_getline: the text up to and including the next end of line. */
  function FirstLine(file: string): (n: nat)
    requires file != []
    ensures 1 <= n <= |file|
  {
    var n := Find(file, '\n'); if n < |file| then n + 1 else n
  }

  // ----- what reading stores -----

  /** What def holds for a choice: its tristate, the member selected, and whether it counts as set by the
      user. conf_reset leaves (n, none, set). */
  datatype ChoiceDef = ChoiceDef(tri: Tristate, pick: Option<string>, hasUser: bool)

  const Reset: ChoiceDef := ChoiceDef(NO, None, true)

  /** The symbols there are, with their types, and for the members of choices the number of the choice. */
  datatype Known = Known(types: map<string, SymType>, owner: map<string, nat>)

  datatype Saved = Saved(values: map<string, Value>, choices: map<nat, ChoiceDef>)

  /** At the label setsym: a member of a choice that has been set to m or y also sets its choice. */
  function SetChoice(c: ChoiceDef, member: string, tri: Tristate): ChoiceDef {
    if tri == NO then c
    else if tri == MOD then
      ChoiceDef(Or3(c.tri, MOD), c.pick, c.hasUser && c.tri != YES)
    else ChoiceDef(YES, Some(member), c.hasUser)
  }

  function Store(known: Known, def: Saved, name: string, v: Value): Saved {
    var choices :=
      if name in known.owner && known.owner[name] in def.choices && v.Tri?
        then def.choices[known.owner[name] := SetChoice(def.choices[known.owner[name]], name, v.tri)]
        else def.choices;
    Saved(def.values[name := v], choices)
  }

  /** What one line does: a symbol that does not exist, or a value that cannot be stored, leaves everything
      alone. */
  function ReadLine(prefix: string, line: string, known: Known, def: Saved): Saved {
    if line == "#" then def
    else
      SeenHash(line);
      match ParseLine(prefix, Seen(line))
      case NotSet(name) =>
        if name in known.types && (known.types[name] == SBoolean || known.types[name] == STristate)
          then Store(known, def, name, Tri(NO)) else def
      case Assigned(name, value) =>
        if name in known.types && SetValue(known.types[name], value).Stored?
          then Store(known, def, name, SetValue(known.types[name], value).value) else def
      case _ => def
  }

  /** conf_read_simple on the contents of a file. */
  function ReadFile(prefix: string, file: string, known: Known, def: Saved): Saved
    decreases |file|
  {
    if file == [] then def
    else
      var n := FirstLine(file);
      ReadFile(prefix, file[n..], known, ReadLine(prefix, file[..n], known, def))
  }

  /** What the items stand for; a later one wins. */
  function Restored(known: Known, items: seq<Item>, def: Saved): Saved {
    if items == [] then def else Restored(known, items[1..], RestoredItem(known, items[0], def))
  }

  function RestoredItem(known: Known, i: Item, def: Saved): Saved {
    if i.Stores() then Store(known, def, i.name, ValueOf(i.stype, i.value)) else def
  }

  /** Settings of existing symbols, and comments that are not taken for one. */
  predicate ItemOk(prefix: string, i: Item, known: Known) {
    match i
    case Setting(name, stype, value) =>
      && NameText(name) && Writable(stype, value) && name in known.types && known.types[name] == stype
      && (prefix == [] ==> name != [] && name[0] != '#')
    case Comment(rest) => CommentOk(prefix, rest)
    case Blank => true
  }

  predicate CommentOk(prefix: string, rest: string) {
    Text(rest) && '\n' !in rest && ParseLine(prefix, "#" + rest + "\n") == Skipped
  }

  /** Only such comments change nothing whatever the symbols are. */
  lemma CommentExact(prefix: string, rest: string)
    requires Text(rest) && '\n' !in rest
    ensures CommentOk(prefix, rest) <==>
      forall known: Known, def: Saved :: ReadLine(prefix, "#" + rest + "\n", known, def) == def
  {
    hide ParseComment;
    var line := "#" + rest + "\n";
    assert line != "#" && line[0] == '#' && line[|line| - 1] == '\n';
    var r := ParseLine(prefix, line);
    CommentLine(prefix, line[2..]);
    TextSeen(line);
    if !CommentOk(prefix, rest) {
      assert r.NotSet?;
      var known, def := Known(map[r.name := SBoolean], map[]), Saved(map[], map[]);
      assert r.name in ReadLine(prefix, line, known, def).values;
    }
  }

  lemma CommentLine(prefix: string, s: string)
    ensures var r := ParseComment(prefix, s); r.Skipped? || r.NotSet?
  {
  }

  lemma ItemLine(prefix: string, i: Item, known: Known, def: Saved)
    requires PrefixText(prefix) && ItemOk(prefix, i, known)
    ensures var l := PrintItem(prefix, i);
      && Text(l) && l != [] && l[|l| - 1] == '\n' && '\n' !in l[..|l| - 1]
      && ReadLine(prefix, l, known, def) == RestoredItem(known, i, def)
  {
    hide ParseLine, PrintLine, ReadLine;
    match i
    case Setting(name, stype, value) =>
      LineShape(prefix, name, stype, value);
      LineRead(prefix, name, stype, value, known, def);
    case Comment(rest) =>
      CommentExact(prefix, rest);
    case Blank =>
      BlankRead(prefix, known, def);
  }

  lemma LineShape(prefix: string, name: string, stype: SymType, value: string)
    requires PrefixText(prefix) && NameText(name) && Writable(stype, value)
    ensures var l := PrintLine(prefix, name, stype, value);
      Text(l) && l != [] && l[|l| - 1] == '\n' && '\n' !in l[..|l| - 1]
  {
    hide Quoted, IntText, HexText, SetValue;
    if Printable(stype, value) { ShownText(stype, value); }
  }

  lemma LineRead(prefix: string, name: string, stype: SymType, value: string, known: Known, def: Saved)
    requires PrefixText(prefix) && ItemOk(prefix, Setting(name, stype, value), known)
    ensures ReadLine(prefix, PrintLine(prefix, name, stype, value), known, def) ==
      RestoredItem(known, Setting(name, stype, value), def)
  {
    hide ParseLine, PrintLine, SetValue, IntText, HexText, Quoted;
    LineShape(prefix, name, stype, value);
    TextSeen(PrintLine(prefix, name, stype, value));
    if Printable(stype, value) {
      LineRoundTrip(prefix, name, stype, value);
    } else {
      UnprintableLine(prefix, name, stype, value);
    }
  }

  lemma BlankRead(prefix: string, known: Known, def: Saved)
    requires PrefixText(prefix)
    ensures ReadLine(prefix, "\n", known, def) == def
  {
    assert ParseLine(prefix, "\n") == Skipped;
    TextSeen("\n");
  }

  /** Reading back a written file stores exactly what the items stand for. */
  lemma {:induction false} FileRoundTrip(prefix: string, items: seq<Item>, known: Known, def: Saved)
    requires PrefixText(prefix) && forall i | i in items :: ItemOk(prefix, i, known)
    ensures ReadFile(prefix, PrintItems(prefix, items), known, def) == Restored(known, items, def)
  {
    hide ReadLine, PrintItem, RestoredItem;
    if items != [] {
      var i := items[0];
      var l, rest := PrintItem(prefix, i), PrintItems(prefix, items[1..]);
      ItemLine(prefix, i, known, def);
      var body := l[..|l| - 1];
      assert l + rest == body + ['\n'] + rest;
      FindAt(body, rest, '\n');
      assert (l + rest)[..|l|] == l && (l + rest)[|l|..] == rest;
      FileRoundTrip(prefix, items[1..], known, ReadLine(prefix, l, known, def));
    }
  }

  /** The lines of symbols among the items. */
  function Settings(items: seq<Item>): seq<Item> {
    if items == [] then [] else (if items[0].Setting? then [items[0]] else []) + Settings(items[1..])
  }

  lemma {:induction false} SettingsRestored(known: Known, items: seq<Item>, def: Saved)
    ensures Restored(known, items, def) == Restored(known, Settings(items), def)
  {
    if items != [] {
      SettingsRestored(known, items[1..], RestoredItem(known, items[0], def));
      if items[0].Setting? {
        assert Settings(items)[1..] == Settings(items[1..]);
      } else {
        assert Settings(items) == Settings(items[1..]);
      }
    }
  }

  /** In particular every symbol written once gets its value back. */
  lemma {:induction false} RestoredOnce(known: Known, items: seq<Item>, def: Saved, k: nat)
    requires k < |items| && items[k].Stores()
    requires forall j :: k < j < |items| && items[j].Stores() ==> items[j].name != items[k].name
    ensures items[k].name in Restored(known, items, def).values
    ensures Restored(known, items, def).values[items[k].name] == ValueOf(items[k].stype, items[k].value)
  {
    var next := RestoredItem(known, items[0], def);
    if k > 0 {
      RestoredOnce(known, items[1..], next, k - 1);
    } else {
      RestoredElse(known, items[1..], next, items[0].name);
    }
  }

  lemma {:induction false} RestoredElse(known: Known, items: seq<Item>, def: Saved, name: string)
    requires forall j :: 0 <= j < |items| && items[j].Stores() ==> items[j].name != name
    ensures name in Restored(known, items, def).values <==> name in def.values
    ensures name in def.values ==> Restored(known, items, def).values[name] == def.values[name]
  {
    if items != [] {
      RestoredElse(known, items[1..], RestoredItem(known, items[0], def), name);
    }
  }

  // ----- choices -----

  /** The item gives a member of the choice c the tristate t. */
  predicate Sets(known: Known, i: Item, c: nat, t: Tristate) {
    && i.Stores() && i.name in known.owner && known.owner[i.name] == c && ValueOf(i.stype, i.value) == Tri(t)
  }

  predicate AnySets(known: Known, items: seq<Item>, c: nat, t: Tristate) { exists i | i in items :: Sets(known, i, c, t) }

  /** Some member is set to m when the choice is y already, from before or by an earlier member. */
  ghost predicate Conflict(known: Known, items: seq<Item>, c: nat, before: bool) {
    exists j :: 0 <= j < |items| && Sets(known, items[j], c, MOD) && (before || AnySets(known, items[..j], c, YES))
  }

  lemma AnySplit(known: Known, items: seq<Item>, c: nat, t: Tristate)
    requires items != []
    ensures AnySets(known, items, c, t) <==> Sets(known, items[0], c, t) || AnySets(known, items[1..], c, t)
  {
    hide Sets;
    assert items == [items[0]] + items[1..];
  }

  lemma ConflictSplit(known: Known, items: seq<Item>, c: nat, before: bool)
    requires items != []
    ensures Conflict(known, items, c, before) <==>
      (Sets(known, items[0], c, MOD) && before)
      || Conflict(known, items[1..], c, before || Sets(known, items[0], c, YES))
  {
    hide Sets, AnySets;
    var first, rest := items[0], items[1..];
    assert !AnySets(known, items[..0], c, YES) by { NoneSet(known, c, YES); }
    forall j | 0 <= j < |rest|
      ensures rest[j] == items[j + 1]
      ensures AnySets(known, items[..j + 1], c, YES) <==> Sets(known, first, c, YES) || AnySets(known, rest[..j], c, YES)
    {
      AnySplit(known, items[..j + 1], c, YES);
      assert items[..j + 1][1..] == rest[..j];
    }
    if j :| 0 <= j < |items| && Sets(known, items[j], c, MOD) && (before || AnySets(known, items[..j], c, YES)) {
      assert j > 0 ==> Sets(known, rest[j - 1], c, MOD);
    }
    if j :| 0 <= j < |rest| && Sets(known, rest[j], c, MOD)
            && (before || Sets(known, first, c, YES) || AnySets(known, rest[..j], c, YES)) {
      assert Sets(known, items[j + 1], c, MOD);
    }
  }

  lemma NoneSet(known: Known, c: nat, t: Tristate)
    ensures !AnySets(known, [], c, t)
  {
  }

  /** What reading makes of a choice: it is y if some member is, else m if some member is; and it no longer
      counts as set by the user if a member is m after the choice was y. */
  lemma {:induction false} ChoiceRestored(known: Known, items: seq<Item>, def: Saved, c: nat)
    requires c in def.choices
    ensures c in Restored(known, items, def).choices
    ensures var a, b := def.choices[c], Restored(known, items, def).choices[c];
      && b.tri == (if a.tri == YES || AnySets(known, items, c, YES) then YES
                   else if a.tri == MOD || AnySets(known, items, c, MOD) then MOD else NO)
      && (b.hasUser <==> a.hasUser && !Conflict(known, items, c, a.tri == YES))
    decreases |items|
  {
    hide Sets, AnySets, Conflict, RestoredItem;
    if items == [] {
      NoneSet(known, c, YES);
      NoneSet(known, c, MOD);
      NoConflict(known, c, def.choices[c].tri == YES);
    } else {
      ChoiceStep(known, items[0], def, c);
      ChoiceRestored(known, items[1..], RestoredItem(known, items[0], def), c);
      AnySplit(known, items, c, YES);
      AnySplit(known, items, c, MOD);
      ConflictSplit(known, items, c, def.choices[c].tri == YES);
    }
  }

  lemma NoConflict(known: Known, c: nat, before: bool)
    ensures !Conflict(known, [], c, before)
  {
  }

  /** The last member at y is the one selected. */
  lemma {:induction false} PickRestored(known: Known, items: seq<Item>, def: Saved, c: nat, k: nat)
    requires c in def.choices && k <= |items| && !AnySets(known, items[k..], c, YES)
    requires k > 0 ==> Sets(known, items[k - 1], c, YES)
    ensures c in Restored(known, items, def).choices
    ensures Restored(known, items, def).choices[c].pick == if k == 0 then def.choices[c].pick else Some(items[k - 1].name)
    decreases |items|
  {
    hide Sets, AnySets, RestoredItem;
    if items != [] {
      var next := RestoredItem(known, items[0], def);
      ChoiceStep(known, items[0], def, c);
      if k == 0 {
        AnySplit(known, items, c, YES);
        assert items[0..] == items && items[1..][0..] == items[1..];
        PickRestored(known, items[1..], next, c, 0);
      } else {
        assert items[k..] == items[1..][k - 1..];
        PickRestored(known, items[1..], next, c, k - 1);
      }
    }
  }

  lemma ChoiceStep(known: Known, i: Item, def: Saved, c: nat)
    requires c in def.choices
    ensures c in RestoredItem(known, i, def).choices
    ensures var a, b := def.choices[c], RestoredItem(known, i, def).choices[c];
      && (Sets(known, i, c, YES) ==> b == ChoiceDef(YES, Some(i.name), a.hasUser))
      && (Sets(known, i, c, MOD) ==> b == ChoiceDef(Or3(a.tri, MOD), a.pick, a.hasUser && a.tri != YES))
      && (!Sets(known, i, c, YES) && !Sets(known, i, c, MOD) ==> b == a)
      && !(Sets(known, i, c, YES) && Sets(known, i, c, MOD))
  {
  }

  /** A choice written as y, its other members not set, is read back as y with that member selected. */
  lemma ChoiceReadBack(known: Known, items: seq<Item>, def: Saved, c: nat, k: nat)
    requires c in def.choices && def.choices[c] == Reset && k < |items| && Sets(known, items[k], c, YES)
    requires forall j :: 0 <= j < |items| && j != k ==> !Sets(known, items[j], c, YES) && !Sets(known, items[j], c, MOD)
    ensures c in Restored(known, items, def).choices
    ensures Restored(known, items, def).choices[c] == ChoiceDef(YES, Some(items[k].name), true)
  {
    hide Sets;
    OneValue(known, items[k], c);
    ChoiceRestored(known, items, def, c);
    PickRestored(known, items, def, c, k + 1);
    assert items[k] in items;
  }

  lemma OneValue(known: Known, i: Item, c: nat)
    ensures !(Sets(known, i, c, YES) && Sets(known, i, c, MOD))
  {
  }

  // ----- the comments of a written file -----

  /** kconfig_print_comment: every line of the text behind a #. */
  function CommentItems(text: string): (items: seq<Item>)
    ensures items != []
    decreases |text|
  {
    var l := Find(text, '\n');
    var first := Comment(if l > 0 then " " + text[..l] else []);
    if l == |text| then [first] else [first] + CommentItems(text[l + 1..])
  }

  const NOTICE: string := "Automatically generated "

  const NOTICE_END: string := "file; DO NOT EDIT."

  const DO_NOT_EDIT: string := NOTICE + NOTICE_END

  const HEADING_SIZE := 256

  /** The text conf_write_heading puts together, cut to its buffer. */
  function Heading(title: string): string {
    var text := "\n" + DO_NOT_EDIT + "\n" + title + "\n";
    if |text| < HEADING_SIZE then text else text[..HEADING_SIZE - 1]
  }

  /** What conf_write prints for a menu. */
  function MenuFrame(title: string): string { "\n" + "#\n" + "# " + title + "\n" + "#\n" }

  function FrameItems(title: string): seq<Item> { [Blank, Comment([]), Comment(" " + title), Comment([])] }

  lemma FramePrinted(prefix: string, title: string)
    ensures PrintItems(prefix, FrameItems(title)) == MenuFrame(title)
  {
    hide PrintItems, PrintItem, MenuFrame;
    var a, b := Comment([]), Comment(" " + title);
    FirstPrinted(prefix, Blank, [a, b, a]);
    FirstPrinted(prefix, a, [b, a]);
    FirstPrinted(prefix, b, [a]);
    FirstPrinted(prefix, a, []);
    FrameParts(title, a, b);
    NonePrinted(prefix);
    CommentPrinted(prefix, []);
    CommentPrinted(prefix, " " + title);
    FrameText(title);
  }

  lemma FrameParts(title: string, a: Item, b: Item)
    requires a == Comment([]) && b == Comment(" " + title)
    ensures FrameItems(title) == [Blank] + [a, b, a]
    ensures [a, b, a] == [a] + [b, a] && [b, a] == [b] + [a] && [a] == [a] + []
  {
  }

  lemma CommentPrinted(prefix: string, rest: string)
    ensures PrintItem(prefix, Comment(rest)) == "#" + rest + "\n" && PrintItem(prefix, Blank) == "\n"
  {
  }

  lemma FrameText(title: string)
    ensures "\n" + ("#" + [] + "\n" + ("#" + (" " + title) + "\n" + ("#" + [] + "\n" + []))) == MenuFrame(title)
  {
  }

  lemma FirstPrinted(prefix: string, i: Item, rest: seq<Item>)
    ensures PrintItems(prefix, [i] + rest) == PrintItem(prefix, i) + PrintItems(prefix, rest)
  {
    assert ([i] + rest)[1..] == rest;
  }

  lemma NonePrinted(prefix: string)
    ensures PrintItems(prefix, []) == []
  {
  }

  /** Exactly the titles that do not look like a line of a symbol may head a menu. */
  lemma FrameOk(prefix: string, title: string, known: Known)
    requires Text(title) && '\n' !in title
    ensures (forall i | i in FrameItems(title) :: ItemOk(prefix, i, known)) <==> CommentOk(prefix, " " + title)
  {
    hide ParseLine;
    HarmlessComment(prefix, []);
    var items := FrameItems(title);
    assert items[2] == Comment(" " + title);
    if CommentOk(prefix, " " + title) {
      forall i | i in items ensures ItemOk(prefix, i, known) {
        assert i == Blank || i == Comment([]) || i == Comment(" " + title);
      }
    } else {
      assert items[2] in items && !ItemOk(prefix, items[2], known);
    }
  }

  /** A menu called "CONFIG_FOO is not set" is not among them: reading its frame sets FOO to n. */
  lemma TitleUnsets(prefix: string, name: string, known: Known, def: Saved)
    requires PrefixText(prefix) && NameText(name) && name in known.types && known.types[name] == SBoolean
    ensures var title := prefix + name + " " + NOT_SET;
      && !CommentOk(prefix, " " + title)
      && ReadLine(prefix, "# " + title + "\n", known, def) == Store(known, def, name, Tri(NO))
  {
    NotSetRoundTrip(prefix, name);
    TitleLine(prefix, name, NOT_SET);
    NotSetLineText(prefix, name);
    TextSeen("# " + prefix + name + " " + NOT_SET + "\n");
  }

  lemma NotSetLineText(prefix: string, name: string)
    requires PrefixText(prefix) && NameText(name)
    ensures Text("# " + prefix + name + " " + NOT_SET + "\n")
  {
    assert Text(NOT_SET) && Text("# ") && Text(name);
  }

  lemma TitleLine(prefix: string, name: string, e: string)
    ensures "#" + (" " + (prefix + name + " " + e)) + "\n" == "# " + prefix + name + " " + e + "\n"
    ensures "# " + (prefix + name + " " + e) + "\n" == "# " + prefix + name + " " + e + "\n"
    ensures "# " + prefix + name + " " + e + "\n" != "#"
  {
    assert |"# " + prefix + name + " " + e + "\n"| > 1;
  }

  /** A comment without the letter s cannot be taken for "is not set". */
  lemma HarmlessComment(prefix: string, rest: string)
    requires Text(rest) && '\n' !in rest && 's' !in rest
    ensures CommentOk(prefix, rest)
  {
    var line := "#" + rest + "\n";
    assert line[0] == '#' && forall c | c in line[2..] :: c in rest || c == '\n';
    if prefix <= line[2..] {
      var t := line[2..][|prefix|..];
      var n := Find(t, ' ');
      if n < |t| { NotSetHasS(t[n + 1..]); }
    }
  }

  lemma NotSetHasS(t: string)
    ensures NOT_SET <= t ==> 's' in t
  {
    if NOT_SET <= t { assert t[1] == 's'; }
  }

  /** The comment for the line l of the text. */
  function CommentLineItem(l: string): Item { Comment(if l == [] then [] else " " + l) }

  lemma CommentSplit(l: string, text: string)
    requires '\n' !in l
    ensures CommentItems(l) == [CommentLineItem(l)]
    ensures CommentItems(l + "\n" + text) == [CommentLineItem(l)] + CommentItems(text)
  {
    FindAt(l, text, '\n');
    var whole := l + ['\n'] + text;
    assert l + "\n" + text == whole && whole[..|l|] == l && whole[|l| + 1..] == text;
    assert l[..|l|] == l;
  }

  const TITLE_ROOM := HEADING_SIZE - 3 - |DO_NOT_EDIT|

  /** What is left of the title. */
  function HeadingTitle(title: string): string { if |title| <= TITLE_ROOM then title else title[..TITLE_ROOM] }

  /** The heading has an empty line, the notice, the title, and an empty line unless the title fills the
      buffer. */
  lemma HeadingLines(title: string)
    requires '\n' !in title
    ensures CommentItems(Heading(title)) ==
      [Comment([]), Comment(" " + DO_NOT_EDIT), CommentLineItem(HeadingTitle(title))]
      + (if |title| < TITLE_ROOM then [Comment([])] else [])
  {
    hide CommentItems;
    var t := HeadingTitle(title);
    var tail := if |title| < TITLE_ROOM then t + "\n" + [] else t;
    HeadingText(title);
    NoticeText();
    assert "\n" + DO_NOT_EDIT + "\n" + tail == [] + "\n" + (DO_NOT_EDIT + "\n" + tail);
    CommentSplit([], DO_NOT_EDIT + "\n" + tail);
    CommentSplit(DO_NOT_EDIT, tail);
    CommentSplit(t, []);
    CommentSplit([], []);
  }

  lemma HeadingText(title: string)
    ensures Heading(title) == "\n" + DO_NOT_EDIT + "\n" +
      (if |title| < TITLE_ROOM then HeadingTitle(title) + "\n" + [] else HeadingTitle(title))
  {
  }

  lemma NoticeText()
    ensures '\n' !in DO_NOT_EDIT && 's' !in DO_NOT_EDIT && Text(DO_NOT_EDIT) && DO_NOT_EDIT != []
  {
    NoticeStart();
    NoticeEnd();
  }

  lemma NoticeStart()
    ensures '\n' !in NOTICE && 's' !in NOTICE && NUL !in NOTICE
  {
  }

  lemma NoticeEnd()
    ensures '\n' !in NOTICE_END && 's' !in NOTICE_END && NUL !in NOTICE_END
  {
  }

  /** A file as conf_write writes it: the heading, and then menus and symbols. */
  function Written(prefix: string, title: string, body: seq<Item>): string {
    PrintItems(prefix, CommentItems(Heading(title)) + body)
  }

  lemma {:induction false} RestoredAppend(known: Known, a: seq<Item>, b: seq<Item>, def: Saved)
    ensures Restored(known, a + b, def) == Restored(known, b, Restored(known, a, def))
  {
    if a == [] {
      assert a + b == b;
    } else {
      assert (a + b)[1..] == a[1..] + b;
      RestoredAppend(known, a[1..], b, RestoredItem(known, a[0], def));
    }
  }

  lemma {:induction false} CommentsRestored(known: Known, items: seq<Item>, def: Saved)
    requires forall i | i in items :: !i.Setting?
    ensures Restored(known, items, def) == def
  {
    if items != [] { CommentsRestored(known, items[1..], def); }
  }

  /** A whole written file gives back what the symbols in it stand for, if neither the title of the
      configuration nor any menu looks like a line of a symbol. */
  lemma WrittenRoundTrip(prefix: string, title: string, body: seq<Item>, known: Known, def: Saved)
    requires PrefixText(prefix) && Text(title) && '\n' !in title && ItemOk(prefix, CommentLineItem(HeadingTitle(title)), known)
    requires forall i | i in body :: ItemOk(prefix, i, known)
    ensures forall i | i in CommentItems(Heading(title)) :: ItemOk(prefix, i, known)
    ensures ReadFile(prefix, Written(prefix, title, body), known, def) == Restored(known, body, def)
  {
    hide ParseLine, CommentItems, PrintItem, ReadFile;
    var head := CommentItems(Heading(title));
    HeadingLines(title);
    NoticeText();
    HarmlessComment(prefix, []);
    HarmlessComment(prefix, " " + DO_NOT_EDIT);
    FileRoundTrip(prefix, head + body, known, def);
    RestoredAppend(known, head, body, def);
    CommentsRestored(known, head, def);
  }
}
