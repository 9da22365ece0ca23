/** The grammar of config lines (scripts/config/confdata.c), told without the scan that takes a line apart. */
module ConfigGrammar {
  import opened Options
  import opened Tristates
  import opened Exprs
  import opened ConfigText

  lemma CommentParsed(prefix: string, s: string, name: string)
    requires ' ' !in name && prefix + name + " " + NOT_SET <= s
    ensures ParseComment(prefix, s) == NotSet(name)
  {
    hide Find;
    var head, t := name + " " + NOT_SET, s[|prefix|..];
    assert prefix + name + " " + NOT_SET == prefix + head;
    StartsWith(s, prefix, head);
    var more := t[|head|..];
    assert t == name + [' '] + (NOT_SET + more) by { assert t == head + more; }
    FindAt(name, NOT_SET + more, ' ');
    assert t[|name| + 1..] == NOT_SET + more && t[..|name|] == name;
  }

  lemma StartsWith(s: string, a: string, b: string)
    requires a + b <= s
    ensures a <= s && b <= s[|a|..] && s == a + s[|a|..] && s[|a|..] == b + s[|a|..][|b|..]
  {
  }

  lemma CommentIs(prefix: string, s: string, name: string)
    requires ParseComment(prefix, s) == NotSet(name)
    ensures ' ' !in name && prefix + name + " " + NOT_SET <= s
  {
    var t := s[|prefix|..];
    var n := Find(t, ' ');
    hide Find;
    assert t == name + [' '] + t[n + 1..];
    var more := t[n + 1..][|NOT_SET|..];
    assert t[n + 1..] == NOT_SET + more;
    assert s == prefix + t;
    hide ParseComment;
    Regroup(prefix, name, " ", NOT_SET, more);
    Begins(prefix + name + " " + NOT_SET, more);
  }

  lemma Regroup(a: string, b: string, c: string, d: string, e: string)
    ensures a + (b + c + (d + e)) == a + b + c + d + e
  {
    assert a + b + c + d + e == a + b + c + (d + e);
    assert a + b + c + (d + e) == a + (b + c + (d + e));
  }

  lemma Begins(a: string, b: string)
    ensures a <= a + b
  {
  }

  /** A line unsets a symbol exactly if it is a #, any character, the prefix, the name, a space, and "is not set", with
      anything behind. */
  lemma NotSetExact(prefix: string, line: string, name: string)
    requires line != "#"
    ensures ParseLine(prefix, line) == NotSet(name) <==>
      |line| >= 2 && line[0] == '#' && ' ' !in name && prefix + name + " " + NOT_SET <= line[2..]
  {
    hide ParseComment;
    if |line| >= 2 && line[0] == '#' {
      if ' ' !in name && prefix + name + " " + NOT_SET <= line[2..] { CommentParsed(prefix, line[2..], name); }
      if ParseComment(prefix, line[2..]) == NotSet(name) { CommentIs(prefix, line[2..], name); }
    }
  }

  /** The value is what is behind the =, up to the end of the line, without a carriage return before that. */
  ghost predicate ValueIs(rest: string, value: string) {
    || ('\n' !in rest && value == rest)
    || ('\n' !in value && value + "\r\n" <= rest)
    || ('\n' !in value && value + "\n" <= rest && (value == [] || value[|value| - 1] != '\r'))
  }

  lemma TrimEolExact(rest: string, value: string)
    ensures TrimEol(rest) == value <==> ValueIs(rest, value)
  {
    hide Find;
    if ValueIs(rest, value) { TrimEolOf(rest, value); }
    if TrimEol(rest) == value { TrimEolIs(rest); }
  }

  lemma TrimEolOf(rest: string, value: string)
    requires ValueIs(rest, value)
    ensures TrimEol(rest) == value
  {
    hide Find;
    if '\n' !in rest {
      NoEnd(rest);
      EndIn(value, rest);
    } else if value + "\r\n" <= rest && '\n' !in value {
      var more := rest[|value| + 2..];
      assert rest == (value + "\r") + ['\n'] + more;
      FindAt(value + "\r", more, '\n');
    } else {
      var more := rest[|value| + 1..];
      assert rest == value + ['\n'] + more;
      FindAt(value, more, '\n');
    }
  }

  lemma EndIn(value: string, rest: string)
    ensures value + "\n" <= rest || value + "\r\n" <= rest ==> '\n' in rest
  {
    if value + "\n" <= rest {
      assert rest[|value|] == '\n';
    } else if value + "\r\n" <= rest {
      assert rest[|value| + 1] == '\n';
    }
  }

  lemma NoEnd(rest: string)
    requires '\n' !in rest
    ensures Find(rest, '\n') == |rest|
  {
  }

  lemma TrimEolIs(rest: string)
    ensures ValueIs(rest, TrimEol(rest))
  {
    var n := Find(rest, '\n');
    hide Find;
    if n == |rest| {
      assert rest[..n] == rest;
    } else {
      var more := rest[n + 1..];
      assert rest == rest[..n] + "\n" + more;
      if n > 0 && rest[n - 1] == '\r' { LastOff(rest[..n]); }
    }
  }

  lemma LastOff(s: string)
    requires s != [] && s[|s| - 1] == '\r'
    ensures s == s[..|s| - 1] + "\r" && forall c :: c in s[..|s| - 1] ==> c in s
  {
  }

  /** A line gives a symbol a value exactly if it is no comment and is the prefix, the name, a = and the value with the
      end of the line. */
  lemma AssignedExact(prefix: string, line: string, name: string, value: string)
    requires line != "#"
    ensures ParseLine(prefix, line) == Assigned(name, value) <==>
      && !("#" <= line) && '=' !in name && prefix + name + "=" <= line
      && ValueIs(line[|prefix| + |name| + 1..], value)
  {
    hide TrimEol, ValueIs, ParseAssignment, Find;
    if !("#" <= line) && prefix <= line {
      if '=' !in name && prefix + name + "=" <= line {
        AssignmentParsed(prefix, line, name);
        TrimEolExact(line[|prefix| + |name| + 1..], value);
      }
      if ParseAssignment(prefix, line) == Assigned(name, value) {
        AssignmentIs(prefix, line, name, value);
        TrimEolExact(line[|prefix| + |name| + 1..], value);
      }
    }
  }

  lemma AssignmentParsed(prefix: string, s: string, name: string)
    requires prefix <= s && '=' !in name && prefix + name + "=" <= s
    ensures ParseAssignment(prefix, s) == Assigned(name, TrimEol(s[|prefix| + |name| + 1..]))
  {
    hide Find, TrimEol;
    var head, t := name + "=", s[|prefix|..];
    assert prefix + name + "=" == prefix + head;
    StartsWith(s, prefix, head);
    var more := t[|head|..];
    assert t == name + ['='] + more;
    FindAt(name, more, '=');
    assert t[..|name|] == name && t[|name| + 1..] == more == s[|prefix| + |name| + 1..];
  }

  lemma AssignmentIs(prefix: string, s: string, name: string, value: string)
    requires prefix <= s && ParseAssignment(prefix, s) == Assigned(name, value)
    ensures '=' !in name && prefix + name + "=" <= s && value == TrimEol(s[|prefix| + |name| + 1..])
  {
    hide TrimEol;
    var t := s[|prefix|..];
    var n := Find(t, '=');
    hide Find;
    var more := t[n + 1..];
    assert t == name + "=" + more;
    assert s == prefix + t;
    assert s == prefix + name + "=" + more;
    assert s[|prefix| + |name| + 1..] == more;
  }

  /** Of the value of a boolean or tristate only the first letter counts. */
  lemma FirstLetter(stype: SymType, s: string)
    requires stype == SBoolean || stype == STristate
    ensures SetValue(stype, s) == SetValue(stype, if s == [] then [] else [s[0]])
    ensures SetValue(stype, s) == if "y" <= s then Stored(Tri(YES)) else if "n" <= s then Stored(Tri(NO))
      else if stype == STristate && "m" <= s then Stored(Tri(MOD)) else Rejected
  {
  }

  /** How many characters of s need a backslash. */
  function Specials(s: string): nat {
    if s == [] then 0 else (if s[0] == '"' || s[0] == '\\' then 1 else 0) + Specials(s[1..])
  }

  /** Quoting puts a backslash before each of these and nothing else. */
  lemma {:induction false} EscapedExact(s: string)
    ensures |Escaped(s)| == |s| + Specials(s)
    ensures Escaped(s) == s <==> '"' !in s && '\\' !in s
  {
    if s != [] {
      EscapedExact(s[1..]);
      assert s == [s[0]] + s[1..];
      if Escaped(s) == s { assert |Escaped(s)| == |s|; }
      if Specials(s) == 0 { NoSpecials(s[1..]); }
    }
  }

  lemma {:induction false} NoSpecials(s: string)
    ensures Specials(s) == 0 <==> '"' !in s && '\\' !in s
  {
    if s != [] {
      NoSpecials(s[1..]);
      assert s == [s[0]] + s[1..];
    }
  }

  /** A NUL ends the line for the reader. */
  lemma NulEnds(prefix: string, a: string, b: string, known: Known, def: Saved)
    requires Text(a) && !("#" <= a)
    ensures ReadLine(prefix, a + [NUL] + b, known, def) == ReadLine(prefix, a, known, def)
  {
    hide ParseLine;
    FindAt(a, b, NUL);
    var line := a + [NUL] + b;
    assert line[..|a|] == a;
    assert a == [] || line[0] == a[0];
    TextSeen(a);
  }

  /** Three lines, letter by letter. */
  lemma WrittenExample()
    ensures PrintLine("CONFIG_", "IPV6", STristate, "m") == "CONFIG_IPV6=m\n"
    ensures PrintLine("CONFIG_", "DEVEL", SBoolean, "n") == "# CONFIG_DEVEL is not set\n"
    ensures PrintLine("CONFIG_", "BANNER", SString, "a\"") == "CONFIG_BANNER=\"a\\\"\"\n"
  {
    assert Quoted("a\"") == "\"a\\\"\"" by { QuotedExample(); }
    hide Quoted;
  }

  lemma QuotedExample()
    ensures Quoted("a\"") == "\"a\\\"\""
  {
    assert Escaped("\"") == "\\\"";
    assert Escaped("a\"") == "a\\\"";
  }

  lemma NoticeSpelt()
    ensures "\n" + DO_NOT_EDIT + "\n" == "\nAutomatically generated file; DO NOT EDIT.\n"
  {
  }

  /** The heading is the notice and the title, cut to the 255 characters that fit its buffer. */
  lemma HeadingCut(title: string)
    ensures var all := "\nAutomatically generated file; DO NOT EDIT.\n" + title + "\n";
      Heading(title) <= all && (if |all| <= 255 then Heading(title) == all else |Heading(title)| == 255)
  {
    NoticeSpelt();
    var notice := "\nAutomatically generated file; DO NOT EDIT.\n";
    assert "\n" + DO_NOT_EDIT + "\n" + title + "\n" == notice + title + "\n";
  }
}
