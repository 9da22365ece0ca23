/** The same on the buffers of the program: strings end at a NUL, a line is cut up by writing NULs into it,
    and escapes are removed in place. */
module ConfigBuffers {
  import opened Options
  import opened Tristates
  import opened Exprs
  import opened ConfigText

  /** The string that starts at i: up to the first NUL. */
  function Str(b: seq<char>, i: nat): string
    decreases |b| - i
  {
    if i >= |b| || b[i] == NUL then [] else [b[i]] + Str(b, i + 1)
  }

  /** There is a NUL at or behind i. */
  ghost predicate Terminated(b: seq<char>, i: nat) { exists n :: i <= n < |b| && b[n] == NUL }

  lemma {:induction false} StrShape(b: seq<char>, i: nat)
    requires Terminated(b, i)
    ensures var n := i + |Str(b, i)|; n < |b| && b[n] == NUL && Str(b, i) == b[i..n] && NUL !in Str(b, i)
    decreases |b| - i
  {
    if b[i] != NUL { StrShape(b, i + 1); }
  }

  lemma {:induction false} StrIs(b: seq<char>, i: nat, n: nat)
    requires i <= n < |b| && b[n] == NUL && NUL !in b[i..n]
    ensures Str(b, i) == b[i..n] && Terminated(b, i)
    decreases n - i
  {
    if i < n {
      assert b[i..n][0] == b[i] && b[i..n][1..] == b[i + 1..n];
      StrIs(b, i + 1, n);
    }
  }

  // ----- the library functions -----

  /** strlen */
  method StrLen(a: array<char>, p: nat) returns (n: nat)
    requires Terminated(a[..], p)
    ensures n == |Str(a[..], p)|
  {
    ghost var s := Str(a[..], p);
    StrShape(a[..], p);
    n := 0;
    while a[p + n] != NUL
      invariant n <= |s|
      decreases |s| - n
    {
      n := n + 1;
    }
    StrSkip(a[..], p, n);
  }

  /** strchr: the offset of the first c in the string at p. */
  method StrChr(a: array<char>, p: nat, c: char) returns (n: nat)
    requires Terminated(a[..], p) && c != NUL
    ensures n == Find(Str(a[..], p), c)
  {
    ghost var s := Str(a[..], p);
    StrShape(a[..], p);
    n := 0;
    while a[p + n] != NUL && a[p + n] != c
      invariant n <= |s| && c !in s[..n]
      decreases |s| - n
    {
      assert a[p + n] == s[n];
      n := n + 1;
    }
    assert n < |s| ==> a[p + n] == s[n];
    FirstFind(s, c, n);
  }

  lemma {:induction false} FirstFind(s: string, c: char, n: nat)
    requires n <= |s| && c !in s[..n] && (n < |s| ==> s[n] == c)
    ensures Find(s, c) == n
  {
    if n > 0 {
      assert s[..n][0] == s[0] && s[..n][1..] == s[1..][..n - 1];
      FirstFind(s[1..], c, n - 1);
    }
  }

  /** strpbrk(p, "\"\\"): the offset of the first special character, or the length. */
  method FindSpecial(a: array<char>, p: nat) returns (n: nat)
    requires Terminated(a[..], p)
    ensures n <= |Str(a[..], p)| && (forall c | c in Str(a[..], p)[..n] :: !Special(c))
    ensures n < |Str(a[..], p)| ==> Special(Str(a[..], p)[n])
  {
    ghost var s := Str(a[..], p);
    StrShape(a[..], p);
    n := 0;
    while a[p + n] != NUL && !Special(a[p + n])
      invariant n <= |s| && forall c | c in s[..n] :: !Special(c)
      decreases |s| - n
    {
      assert a[p + n] == s[n];
      n := n + 1;
    }
    assert n < |s| ==> a[p + n] == s[n];
  }

  /** memcmp on a string and a prefix without NUL. */
  method StartsAt(a: array<char>, p: nat, prefix: string) returns (yes: bool)
    requires Terminated(a[..], p) && Text(prefix)
    ensures yes == (prefix <= Str(a[..], p))
  {
    ghost var s := Str(a[..], p);
    StrShape(a[..], p);
    var n := 0;
    while n < |prefix|
      invariant n <= |prefix| && n <= |s| && prefix[..n] == s[..n]
    {
      assert n < |s| ==> a[p + n] == s[n];
      if a[p + n] != prefix[n] {
        return false;
      }
      n := n + 1;
    }
    return true;
  }

  /** memmove(p, p + 1, len) */
  method ShiftLeft(a: array<char>, p: nat, len: nat)
    requires p + len < a.Length
    modifies a
    ensures a[..] == old(a[..p]) + old(a[p + 1..p + 1 + len]) + old(a[p + len..])
  {
    for n := 0 to len
      invariant a[..p + n] == old(a[..p]) + old(a[p + 1..p + 1 + n])
      invariant a[p + n..] == old(a[p + n..])
    {
      assert a[p + n + 1] == a[p + n..][1];
      a[p + n] := a[p + n + 1];
    }
    assert a[..] == a[..p + len] + a[p + len..];
  }

  // ----- removing the escapes -----

  function PrependAll(s: string, r: Scan): Scan { if r.Closed? then Closed(s + r.text) else r }

  lemma {:induction false} UnescapePlain(s: string, n: nat)
    requires n <= |s| && forall c | c in s[..n] :: !Special(c)
    ensures Unescape(s) == PrependAll(s[..n], Unescape(s[n..]))
  {
    var r := Unescape(s[n..]);
    if n == 0 {
      assert s[n..] == s;
      if r.Closed? { assert [] + r.text == r.text; }
    } else {
      assert s[..n] == [s[0]] + s[1..][..n - 1] && s[1..][n - 1..] == s[n..];
      assert s[0] in s[..n];
      UnescapePlain(s[1..], n - 1);
      if r.Closed? { assert [s[0]] + (s[1..][..n - 1] + r.text) == s[..n] + r.text; }
    }
  }

  /** What is left of the string at q when its first character has been shifted out. */
  lemma ShiftedStr(b: seq<char>, b': seq<char>, q: nat, len: nat)
    requires Terminated(b, q) && len == |Str(b, q)| && len > 0 && q + len < |b|
    requires b' == b[..q] + b[q + 1..q + 1 + len] + b[q + len..]
    ensures Str(b', q) == Str(b, q)[1..] && Terminated(b', q) && b'[q] == b[q + 1]
    ensures b'[..q] == b[..q] && |b'| == |b|
  {
    StrShape(b, q);
    assert b[q..q + len][1..] == b[q + 1..q + len];
    assert b'[q..q + len] == b[q + 1..q + 1 + len];
    assert b'[q..q + len - 1] == b'[q..q + len][..len - 1];
    assert b[q + 1..q + len] == b[q + 1..q + 1 + len][..len - 1];
    assert b'[q..q + len - 1] == b[q + 1..q + len];
    StrIs(b', q, q + len - 1);
  }

  lemma StrSkip(b: seq<char>, q: nat, n: nat)
    requires Terminated(b, q) && n <= |Str(b, q)|
    ensures Str(b, q + n) == Str(b, q)[n..] && Terminated(b, q + n) && q + n < |b|
    ensures b[q..q + n] == Str(b, q)[..n]
    ensures n < |Str(b, q)| ==> b[q + n] == Str(b, q)[n] && b[q + n] != NUL
    ensures n == |Str(b, q)| ==> b[q + n] == NUL
  {
    StrShape(b, q);
    var m := q + |Str(b, q)|;
    assert b[q + n..m] == b[q..m][n..];
    StrIs(b, q + n, m);
  }

  /** The loop of conf_set_sym_val that takes the escapes out of the text at p, in the buffer itself. When
      a backslash is the last character, the scan goes on behind the end of the string; from there on the
      model says nothing. */
  method UnescapeInPlace(a: array<char>, p: nat) returns (closed: bool, past: bool)
    requires Terminated(a[..], p)
    modifies a
    ensures a[..p] == old(a[..p])
    ensures match Unescape(Str(old(a[..]), p))
      case Closed(text) => closed && Terminated(a[..], p) && Str(a[..], p) == text
      case Unclosed => !closed && !past
      case PastEnd => !closed && past
  {
    hide Unescape, Str, Terminated;
    closed, past := false, false;
    ghost var r := Unescape(Str(a[..], p));
    var q: nat := p;
    UnescapeStart(a[..], p);
    while true
      invariant Unescaping(a[..], p, q, r) && a[..p] == old(a[..p])
      decreases |Str(a[..], q)|
    {
      var n := FindSpecial(a, q);
      UnescapeSkip(a[..], p, q, n, r);
      q := q + n;
      if a[q] == NUL {
        return;
      }
      if a[q] == '"' {
        ghost var b := a[..];
        a[q] := NUL;
        UnescapeClosed(b, a[..], p, q, r);
        closed := true;
        return;
      }
      var len := StrLen(a, q);
      ghost var b := a[..];
      ShiftLeft(a, q, len);
      UnescapeStep(b, a[..], p, q, len, r);
      if a[q] == NUL {
        past := true;
        return;
      }
      q := q + 1;
    }
  }

  /** The text between p and q has been treated; r is the result of the whole. */
  ghost predicate Unescaping(b: seq<char>, p: nat, q: nat, r: Scan) {
    p <= q < |b| && Terminated(b, q) && NUL !in b[p..q] && r == PrependAll(b[p..q], Unescape(Str(b, q)))
  }

  lemma UnescapeStart(b: seq<char>, p: nat)
    requires Terminated(b, p)
    ensures Unescaping(b, p, p, Unescape(Str(b, p)))
  {
    StrShape(b, p);
    assert b[p..p] == [];
    assert forall s: string :: [] + s == s;
  }

  lemma UnescapeSkip(b: seq<char>, p: nat, q: nat, n: nat, r: Scan)
    requires Unescaping(b, p, q, r) && n <= |Str(b, q)|
    requires forall c | c in Str(b, q)[..n] :: !Special(c)
    ensures Unescaping(b, p, q + n, r) && Str(b, q + n) == Str(b, q)[n..] && q + n + |Str(b, q + n)| < |b|
    ensures b[q + n] == NUL ==> r == Unclosed
    ensures b[q + n] != NUL ==> Str(b, q + n) != [] && n < |Str(b, q)| && b[q + n] == Str(b, q)[n]
  {
    hide Str, Terminated, Unescape;
    StrSkip(b, q, n);
    StrShape(b, q + n);
    StrShape(b, q);
    UnescapePlain(Str(b, q), n);
    SliceSplit(b, p, q, q + n);
    var rest := Unescape(Str(b, q)[n..]);
    if rest.Closed? { assert b[p..q] + (b[q..q + n] + rest.text) == b[p..q + n] + rest.text; }
    UnescapeEmpty();
  }

  lemma SliceSplit(b: seq<char>, p: nat, q: nat, r: nat)
    requires p <= q <= r <= |b|
    ensures b[p..r] == b[p..q] + b[q..r]
  {
  }

  lemma UnescapeEmpty()
    ensures Unescape([]) == Unclosed
  {
  }

  lemma UnescapeClosed(b: seq<char>, b': seq<char>, p: nat, q: nat, r: Scan)
    requires Unescaping(b, p, q, r) && b[q] == '"' && b' == b[q := NUL]
    ensures r == Closed(b[p..q]) && Str(b', p) == b[p..q] && Terminated(b', p)
  {
    assert b'[p..q] == b[p..q];
    StrIs(b', p, q);
  }

  lemma UnescapeStep(b: seq<char>, b': seq<char>, p: nat, q: nat, len: nat, r: Scan)
    requires Unescaping(b, p, q, r) && b[q] == '\\' && len == |Str(b, q)| && q + len < |b|
    requires b' == b[..q] + b[q + 1..q + 1 + len] + b[q + len..]
    ensures b'[..p] == b[..p] && |b'| == |b|
    ensures b'[q] == NUL ==> r == PastEnd
    ensures b'[q] != NUL ==> Unescaping(b', p, q + 1, r) && |Str(b', q + 1)| < |Str(b, q)|
  {
    hide Str;
    StrShape(b, q);
    ShiftedStr(b, b', q, len);
    assert b'[p..q] == b[p..q];
    var s := Str(b, q);
    if b'[q] != NUL {
      StrSkip(b', q, 1);
      assert s[1..][1..] == s[2..];
      assert b'[p..q + 1] == b[p..q] + [b'[q]];
      var rest := Unescape(s[2..]);
      if rest.Closed? { assert b[p..q] + ([b'[q]] + rest.text) == b[p..q] + [b'[q]] + rest.text; }
    }
  }

  // ----- adding the escapes -----

  function Specials(s: string): nat {
    if s == [] then 0 else (if Special(s[0]) then 1 else 0) + Specials(s[1..])
  }

  lemma {:induction false} EscapedSize(s: string)
    ensures |Escaped(s)| == |s| + Specials(s)
  {
    if s != [] { EscapedSize(s[1..]); }
  }

  lemma {:induction false} EscapedAppend(s: string, t: string)
    ensures Escaped(s + t) == Escaped(s) + Escaped(t) && Specials(s + t) == Specials(s) + Specials(t)
  {
    if s == [] {
      assert s + t == t;
    } else {
      assert (s + t)[1..] == s[1..] + t;
      EscapedAppend(s[1..], t);
    }
  }

  lemma {:induction false} EscapedPlain(s: string)
    requires forall c | c in s :: !Special(c)
    ensures Escaped(s) == s && Specials(s) == 0
  {
    if s != [] { EscapedPlain(s[1..]); }
  }

  /** strcspn(p, "\"\\"): how far the text at p goes without a special character. */
  method PlainSpan(s: string, p: nat) returns (l: nat)
    requires p <= |s|
    ensures p + l <= |s| && Escaped(s[p..p + l]) == s[p..p + l] && Specials(s[p..p + l]) == 0
    ensures p + l < |s| ==> Special(s[p + l])
  {
    l := 0;
    while p + l < |s| && !Special(s[p + l])
      invariant p + l <= |s| && forall c | c in s[p..p + l] :: !Special(c)
    {
      l := l + 1;
    }
    EscapedPlain(s[p..p + l]);
  }

  /** The part up to p + l, and one special character more. */
  lemma EscapedStep(s: string, p: nat, l: nat)
    requires p + l <= |s| && Escaped(s[p..p + l]) == s[p..p + l] && Specials(s[p..p + l]) == 0
    ensures Escaped(s[..p + l]) == Escaped(s[..p]) + s[p..p + l] && Specials(s[..p + l]) == Specials(s[..p])
    ensures p + l < |s| && Special(s[p + l]) ==>
      && Escaped(s[..p + l + 1]) == Escaped(s[..p + l]) + ['\\', s[p + l]]
      && Specials(s[..p + l + 1]) == Specials(s[..p]) + 1
  {
    assert s[..p + l] == s[..p] + s[p..p + l];
    EscapedAppend(s[..p], s[p..p + l]);
    if p + l < |s| {
      assert s[..p + l + 1] == s[..p + l] + [s[p + l]];
      EscapedAppend(s[..p + l], [s[p + l]]);
      assert [s[p + l]][1..] == [];
    }
  }

  /** The first loop of sym_escape_string_value: the size of the buffer. */
  method EscapedSpace(s: string) returns (size: nat)
    ensures size == |Quoted(s)| + 1
  {
    hide Escaped, Specials;
    size := |s| + 2 + 1;
    var p := 0;
    assert s[..0] == [];
    EscapedPlain([]);
    while true
      invariant p <= |s| && size == |s| + 3 + Specials(s[..p])
      decreases |s| - p
    {
      var l := PlainSpan(s, p);
      EscapedStep(s, p, l);
      p := p + l;
      if p == |s| {
        break;
      }
      size := size + 1;
      p := p + 1;
    }
    assert s[..|s|] == s;
    EscapedSize(s);
  }

  /** The buffer holds the string t. */
  ghost predicate Holds(b: seq<char>, t: string) { |t| < |b| && b[..|t|] == t && b[|t|] == NUL && Text(t) }

  lemma HoldsStr(b: seq<char>, t: string)
    requires Holds(b, t)
    ensures Terminated(b, 0) && Str(b, 0) == t
  {
    assert b[0..|t|] == t;
    StrIs(b, 0, |t|);
  }

  /** strcat or strncat */
  method StrCat(res: array<char>, t: string, ghost before: string)
    requires Holds(res[..], before) && |before| + |t| < res.Length && Text(t)
    modifies res
    ensures Holds(res[..], before + t)
  {
    HoldsStr(res[..], before);
    var n := StrLen(res, 0);
    for i := 0 to |t|
      invariant res[..n + i] == before + t[..i]
    {
      res[n + i] := t[i];
    }
    assert t[..|t|] == t;
    res[n + |t|] := NUL;
  }

  /** sym_escape_string_value: the quoted text and its NUL fill the buffer exactly. */
  method EscapeString(s: string) returns (res: array<char>)
    requires Text(s)
    ensures fresh(res) && res[..] == Quoted(s) + [NUL]
  {
    hide Escaped, Specials, Holds;
    var size := EscapedSpace(s);
    res := new char[size];
    res[0] := NUL;
    EscapeStart(res[..], s);
    StrCat(res, ['"'], []);
    var p := 0;
    while true
      invariant p <= |s| && res.Length == size && Holds(res[..], ['"'] + Escaped(s[..p]))
      decreases |s| - p
    {
      var l := PlainSpan(s, p);
      EscapedStep(s, p, l);
      EscapedPart(s, p + l);
      Regroup(s, p, l);
      StrCat(res, s[p..p + l], ['"'] + Escaped(s[..p]));
      p := p + l;
      if p == |s| {
        break;
      }
      EscapedPart(s, p + 1);
      StrCat(res, ['\\'], ['"'] + Escaped(s[..p]));
      StrCat(res, [s[p]], ['"'] + Escaped(s[..p]) + ['\\']);
      p := p + 1;
    }
    assert s[..p] == s;
    StrCat(res, ['"'], ['"'] + Escaped(s));
    EscapeEnd(res[..], Quoted(s));
  }

  lemma EscapeStart(b: seq<char>, s: string)
    requires b != [] && b[0] == NUL
    ensures Holds(b, []) && [] + ['"'] == ['"'] + Escaped(s[..0])
  {
  }

  lemma EscapeEnd(b: seq<char>, t: string)
    requires Holds(b, t) && |b| == |t| + 1
    ensures b == t + [NUL]
  {
  }

  /** What is appended for the part up to p + l and for the special character behind it. */
  lemma Regroup(s: string, p: nat, l: nat)
    requires p + l <= |s| && Escaped(s[..p + l]) == Escaped(s[..p]) + s[p..p + l]
    ensures ['"'] + Escaped(s[..p]) + s[p..p + l] == ['"'] + Escaped(s[..p + l])
    ensures p + l < |s| && Escaped(s[..p + l + 1]) == Escaped(s[..p + l]) + ['\\', s[p + l]] ==>
      ['"'] + Escaped(s[..p + l]) + ['\\'] + [s[p + l]] == ['"'] + Escaped(s[..p + l + 1])
  {
  }

  lemma EscapedPart(s: string, p: nat)
    requires p <= |s| && Text(s)
    ensures |Escaped(s[..p])| <= |Escaped(s)| && NUL !in Escaped(s[..p])
  {
    EscapedChars(s[..p], NUL);
    assert s == s[..p] + s[p..];
    EscapedAppend(s[..p], s[p..]);
  }

  // ----- storing a value -----

  /** sym_string_valid */
  function StringValid(stype: SymType, s: string): bool {
    match stype
    case SString => true
    case SInt => IntText(s)
    case SHex => HexText(s)
    case _ => false
  }

  /** conf_set_sym_val, on the text at p in the buffer. */
  method SetSymVal(stype: SymType, a: array<char>, p: nat) returns (o: Outcome)
    requires Terminated(a[..], p)
    modifies a
    ensures o == SetValue(stype, Str(old(a[..]), p))
  {
    hide Unescape, IntText, HexText;
    ghost var s := Str(a[..], p);
    StrShape(a[..], p);
    StrSkip(a[..], p, 0);
    var c := a[p];
    if stype == STristate && c == 'm' {
      return Stored(Tri(MOD));
    }
    if stype == STristate || stype == SBoolean {
      o := if c == 'y' then Stored(Tri(YES)) else if c == 'n' then Stored(Tri(NO)) else Rejected;
      return;
    }
    if stype == SUnknown {
      return Ignored;
    }
    var q := p;
    if stype == SOther && c != '"' {
      var t := CopyString(a, p);
      return Stored(Val(t));
    }
    if stype == SString && c != '"' {
      return Ignored;
    }
    if stype == SOther || stype == SString {
      q := p + 1;
      StrSkip(a[..], p, 1);
      var closed, past := UnescapeInPlace(a, q);
      if !closed {
        o := if past then OutOfString else Rejected;
        return;
      }
    }
    var t := CopyString(a, q);
    o := if StringValid(stype, t) then Stored(Val(t)) else Rejected;
  }

  /** strdup */
  method CopyString(a: array<char>, p: nat) returns (s: string)
    requires Terminated(a[..], p)
    ensures s == Str(a[..], p)
  {
    var n := StrLen(a, p);
    StrShape(a[..], p);
    s := a[p..p + n];
  }

  // ----- taking a line apart -----

  /** A NUL written into the string at p ends it there; what is behind the NUL is a string of its own. */
  lemma Cut(b: seq<char>, p: nat, n: nat)
    requires Terminated(b, p) && n < |Str(b, p)| && p + n < |b|
    ensures var b' := b[p + n := NUL];
      && Terminated(b', p) && Str(b', p) == Str(b, p)[..n]
      && Terminated(b', p + n + 1) && Str(b', p + n + 1) == Str(b, p)[n + 1..]
  {
    StrShape(b, p);
    var b', m := b[p + n := NUL], p + |Str(b, p)|;
    assert b'[p..p + n] == b[p..m][..n];
    StrIs(b', p, p + n);
    assert b'[p + n + 1..m] == b[p..m][n + 1..];
    StrIs(b', p + n + 1, m);
  }

  /** The comment branch of conf_read_simple. */
  method TakeComment(line: array<char>, prefix: string) returns (r: Line)
    requires Text(prefix) && Terminated(line[..], 2)
    modifies line
    ensures r == ParseComment(prefix, old(Str(line[..], 2)))
  {
    hide Str, Find, Terminated;
    NotSetText();
    var found := StartsAt(line, 2, prefix);
    if !found {
      return Skipped;
    }
    var p := 2 + |prefix|;
    StrSkip(line[..], 2, |prefix|);
    var n := StrChr(line, p, ' ');
    StrSkip(line[..], p, n);
    if line[p + n] == NUL {
      return Skipped;
    }
    Cut(line[..], p, n);
    line[p + n] := NUL;
    found := StartsAt(line, p + n + 1, NOT_SET);
    if !found {
      return Skipped;
    }
    var name := CopyString(line, p);
    r := NotSet(name);
  }

  lemma NotSetText()
    ensures Text(NOT_SET)
  {
  }

  /** The assignment branch: the name, and where its value is. */
  method TakeAssignment(line: array<char>, prefix: string) returns (r: Line, v: nat)
    requires Text(prefix) && Terminated(line[..], 0) && prefix <= Str(line[..], 0)
    modifies line
    ensures r == ParseAssignment(prefix, old(Str(line[..], 0)))
    ensures r.Assigned? ==> Terminated(line[..], v) && Str(line[..], v) == r.value
  {
    hide Str, Find, Terminated;
    var p := |prefix|;
    StrSkip(line[..], 0, p);
    var n := StrChr(line, p, '=');
    StrSkip(line[..], p, n);
    v := p + n + 1;
    if line[p + n] == NUL {
      return Skipped, v;
    }
    Cut(line[..], p, n);
    line[p + n] := NUL;
    var name := CopyString(line, p);
    TrimLine(line, v);
    var text := CopyString(line, v);
    r := Assigned(name, text);
  }

  /** The end of the line is taken off, and a carriage return before it. */
  method TrimLine(line: array<char>, v: nat)
    requires Terminated(line[..], v) && v > 0 && line[v - 1] != '\r'
    modifies line
    ensures Terminated(line[..], v) && Str(line[..], v) == TrimEol(old(Str(line[..], v)))
  {
    hide Str, Find, Terminated;
    ghost var s := Str(line[..], v);
    StrSkip(line[..], v, 0);
    var m := StrChr(line, v, '\n');
    StrSkip(line[..], v, m);
    if line[v + m] != NUL {
      Cut(line[..], v, m);
      line[v + m] := NUL;
      LastOf(line[..], v, m);
      if line[v + m - 1] == '\r' {
        Cut(line[..], v, m - 1);
        line[v + m - 1] := NUL;
        assert s[..m][..m - 1] == s[..m - 1];
      }
    }
  }

  lemma LastOf(b: seq<char>, v: nat, m: nat)
    requires Terminated(b, v) && |Str(b, v)| == m
    ensures v + m < |b| && (m > 0 ==> b[v + m - 1] == Str(b, v)[m - 1])
  {
    StrShape(b, v);
  }

  /** The buffer holds the line raw of the file and a NUL behind it. */
  ghost predicate HoldsLine(b: seq<char>, raw: string) { |raw| < |b| && b[..|raw|] == raw && b[|raw|] == NUL }

  lemma LineStr(b: seq<char>, raw: string, i: nat)
    requires HoldsLine(b, raw) && i <= |raw|
    ensures Terminated(b, i) && Str(b, i) == CStr(raw[i..])
  {
    var t := raw[i..];
    var n := Find(t, NUL);
    assert b[i..i + n] == t[..n] by { assert b[..|raw|][i..i + n] == b[i..i + n]; }
    assert n < |t| ==> b[i + n] == b[..|raw|][i + n] == t[n];
    StrIs(b, i, i + n);
  }

  /** The loop body of conf_read_simple up to the symbol, the user's values being read. */
  method TakeLine(line: array<char>, prefix: string, ghost raw: string) returns (r: Line, v: nat)
    requires Text(prefix) && HoldsLine(line[..], raw) && raw != "#" && Seen(raw) != "#"
    modifies line
    ensures r == ParseLine(prefix, Seen(raw))
    ensures r.Assigned? ==> Terminated(line[..], v) && Str(line[..], v) == r.value
  {
    hide Find, ParseComment, ParseAssignment, CStr, Str, Terminated;
    LineStr(line[..], raw, 0);
    StrSkip(line[..], 0, 0);
    v := 0;
    if line[0] == '#' {
      assert |raw| == 1 ==> raw == "#";
      LineStr(line[..], raw, 2);
      r := TakeComment(line, prefix);
      assert Seen(raw)[2..] == CStr(raw[2..]);
      CommentKind(prefix, Seen(raw)[2..]);
      return;
    }
    assert raw[0..] == raw && Seen(raw) == CStr(raw);
    StrShape(line[..], 0);
    var found := StartsAt(line, 0, prefix);
    if found {
      r, v := TakeAssignment(line, prefix);
    } else if line[0] != '\r' && line[0] != '\n' {
      r := Unexpected;
    } else {
      r := Skipped;
    }
  }

  lemma CommentKind(prefix: string, s: string)
    ensures !ParseComment(prefix, s).Assigned?
  {
  }

  /** One line of the file, read into the buffer, and what it sets; from the label setsym on also for the
      choice of a member. */
  method LoadLine(line: array<char>, prefix: string, known: Known, def: Saved, ghost raw: string) returns (def': Saved)
    requires Text(prefix) && HoldsLine(line[..], raw) && raw != "#"
    modifies line
    ensures def' == ReadLine(prefix, raw, known, def)
  {
    hide ParseLine, SetValue, Str, Terminated, Seen, HoldsLine;
    SeenHash(raw);
    var r, v := TakeLine(line, prefix, raw);
    var name := "";
    var value := Val([]);
    match r {
      case NotSet(n) =>
        if n !in known.types || (known.types[n] != SBoolean && known.types[n] != STristate) {
          return def;
        }
        name, value := n, Tri(NO);
      case Assigned(n, _) =>
        if n !in known.types {
          return def;
        }
        var o := SetSymVal(known.types[n], line, v);
        if !o.Stored? {
          return def;
        }
        name, value := n, o.value;
      case _ =>
        return def;
    }
    def' := def.(values := def.values[name := value]);
    if name in known.owner && known.owner[name] in def.choices && value.Tri? {
      var c := known.owner[name];
      var choice := def.choices[c];
      if value.tri == MOD {
        if choice.tri == YES {
          choice := choice.(hasUser := false);
        }
      } else if value.tri == YES {
        choice := choice.(pick := Some(name));
      }
      choice := choice.(tri := Or3(choice.tri, value.tri));
      def' := def'.(choices := def.choices[c := choice]);
      assert choice == SetChoice(def.choices[c], name, value.tri);
    }
  }

  // ----- reading a file -----

  const LINE_GROWTH := 16

  /** add_byte: the buffer is replaced by a larger one when it is full. */
  method AddByte(c: char, line: array<char>, slen: nat) returns (line': array<char>)
    requires slen <= line.Length
    modifies line
    ensures (line' == line || fresh(line')) && slen < line'.Length
    ensures line'[..slen + 1] == old(line[..slen]) + [c]
  {
    line' := line;
    var newSize := slen + 1;
    if newSize > line.Length {
      newSize := newSize + LINE_GROWTH - 1;
      newSize := newSize * 2;
      line' := new char[newSize];
      forall i | 0 <= i < slen { line'[i] := line[i]; }
    }
    line'[slen] := c;
  }

  /** compat_getline: the line at the head of the file, with its end of line, and a NUL behind it. */
  method GetLine(buffer: array<char>, file: string) returns (line: array<char>, n: nat)
    requires file != []
    modifies buffer
    ensures (line == buffer || fresh(line)) && n == FirstLine(file)
    ensures HoldsLine(line[..], file[..n])
  {
    hide Find;
    line, n := buffer, 0;
    while n < |file| && file[n] != '\n'
      invariant n <= |file| && n <= line.Length && (line == buffer || fresh(line))
      invariant line[..n] == file[..n] && '\n' !in file[..n]
    {
      line := AddByte(file[n], line, n);
      n := n + 1;
    }
    FirstFind(file, '\n', n);
    if n < |file| {
      line := AddByte('\n', line, n);
      n := n + 1;
    }
    line := AddByte(NUL, line, n);
  }

  /** The file ends in a line that is just #, without an end of line. */
  ghost predicate LoneHash(file: string) { file == "#" || (|file| >= 2 && file[|file| - 2..] == "\n#") }

  lemma LaterLines(file: string)
    requires file != []
    ensures var n := FirstLine(file); if file[..n] == "#" then n == |file| && LoneHash(file) else LoneHash(file) <==> LoneHash(file[n..])
  {
    hide Find;
    var n := FirstLine(file);
    if n < |file| {
      assert file[n - 1] == '\n';
      assert file[..n][n - 1] == '\n';
      assert file[..n] != "#";
      if |file| - n >= 2 {
        assert file[n..][|file| - n - 2..] == file[|file| - 2..];
      } else {
        assert file[|file| - 2..] == [file[n - 1]] + file[n..];
      }
    } else {
      assert file[..n] == file;
      if LoneHash(file) && file != "#" { OneLine(file); }
    }
  }

  /** A file with an end of line before its last character has more than one line. */
  lemma OneLine(file: string)
    requires |file| >= 2 && file[|file| - 2..] == "\n#"
    ensures FirstLine(file) < |file|
  {
    assert file[|file| - 2] == file[|file| - 2..][0] == '\n';
    FindNotAfter(file, '\n', |file| - 2);
  }

  lemma {:induction false} FindNotAfter(s: string, c: char, k: nat)
    requires k < |s| && s[k] == c
    ensures Find(s, c) <= k
    decreases |s|
  {
    if k > 0 && s[0] != c { FindNotAfter(s[1..], c, k - 1); }
  }

  /** conf_read_simple on the contents of a file. At a last line that is just # the program looks at what
      the buffer holds from before; this is reported, and nothing read into it. */
  method ReadConfig(file: string, prefix: string, known: Known, start: Saved) returns (def: Saved, stale: bool)
    requires Text(prefix)
    ensures def == ReadFile(prefix, file, known, start)
    ensures stale <==> LoneHash(file)
  {
    hide ReadLine, HoldsLine, LoneHash, FirstLine;
    def, stale := start, false;
    var rest := file;
    var line := new char[0];
    NotLone();
    while rest != []
      invariant fresh(line) && !stale && (LoneHash(rest) <==> LoneHash(file))
      invariant ReadFile(prefix, rest, known, def) == ReadFile(prefix, file, known, start)
      decreases |rest|
    {
      LaterLines(rest);
      var n;
      line, n := GetLine(line, rest);
      if rest[..n] == "#" {
        HashIgnored(prefix, rest, known, def);
        return def, true;
      }
      def := LoadLine(line, prefix, known, def, rest[..n]);
      rest := rest[n..];
    }
  }

  lemma NotLone()
    ensures !LoneHash([])
  {
  }

  lemma HashIgnored(prefix: string, file: string, known: Known, def: Saved)
    requires file != [] && file[..FirstLine(file)] == "#" && FirstLine(file) == |file|
    ensures ReadFile(prefix, file, known, def) == def
  {
    assert file[FirstLine(file)..] == [];
  }

  /** So a file that has been written can be read by the program, and gives back what was written. */
  lemma {:induction false} ReadBack(prefix: string, items: seq<Item>, known: Known, def: Saved)
    requires PrefixText(prefix) && forall i | i in items :: ItemOk(prefix, i, known)
    ensures var file := PrintItems(prefix, items);
      && Text(file) && !LoneHash(file) && (file != [] ==> file[|file| - 1] == '\n')
      && ReadFile(prefix, file, known, def) == Restored(known, items, def)
  {
    hide ReadFile, PrintItem, ReadLine, RestoredItem;
    FileRoundTrip(prefix, items, known, def);
    if items != [] {
      ItemLine(prefix, items[0], known, def);
      ReadBack(prefix, items[1..], known, RestoredItem(known, items[0], def));
      var file := PrintItems(prefix, items);
      assert file[|file| - 1] == '\n';
      assert |file| >= 2 ==> file[|file| - 2..][1] == '\n';
    }
  }

  // ----- printing comments -----

  /** What is printed for the text from p on. */
  ghost function PrintedFrom(prefix: string, value: string, p: nat): string
    requires p <= |value|
  {
    PrintItems(prefix, CommentItems(value[p..]))
  }

  /** kconfig_print_comment */
  method PrintComment(ghost prefix: string, value: string) returns (out: string)
    ensures out == PrintItems(prefix, CommentItems(value))
  {
    hide *;
    out := [];
    var p := 0;
    FromStart(prefix, value);
    while true
      invariant p <= |value|
      invariant out + PrintedFrom(prefix, value, p) == PrintItems(prefix, CommentItems(value))
      decreases |value| - p
    {
      var l := LineSpan(value, p);
      var line := CommentText(prefix, value[p..p + l]);
      OneComment(prefix, value, p, l);
      ghost var rest := if p + l == |value| then [] else PrintedFrom(prefix, value, p + l + 1);
      Joined(out, line, rest);
      out := out + line;
      p := p + l;
      if p == |value| {
        break;
      }
      p := p + 1;
    }
  }

  lemma FromStart(prefix: string, value: string)
    ensures [] + PrintedFrom(prefix, value, 0) == PrintItems(prefix, CommentItems(value))
  {
    assert value[0..] == value;
  }

  lemma Joined(out: string, line: string, rest: string)
    ensures out + (line + rest) == out + line + rest
    ensures rest == [] ==> out + (line + rest) == out + line
  {
  }

  method CommentText(ghost prefix: string, l: string) returns (line: string)
    ensures line == PrintItem(prefix, CommentLineItem(l))
  {
    line := "#";
    if l != [] {
      line := line + (" " + l);
    }
    line := line + "\n";
  }

  /** strcspn(p, "\n") */
  method LineSpan(value: string, p: nat) returns (l: nat)
    requires p <= |value|
    ensures p + l <= |value| && '\n' !in value[p..p + l] && (p + l < |value| ==> value[p + l] == '\n')
  {
    l := 0;
    while p + l < |value| && value[p + l] != '\n'
      invariant p + l <= |value| && '\n' !in value[p..p + l]
    {
      l := l + 1;
    }
  }

  /** The comment line for the part up to the next end of line, and those for the rest. */
  lemma OneComment(prefix: string, value: string, p: nat, l: nat)
    requires p + l <= |value| && '\n' !in value[p..p + l] && (p + l < |value| ==> value[p + l] == '\n')
    ensures PrintedFrom(prefix, value, p) ==
      PrintItem(prefix, CommentLineItem(value[p..p + l]))
      + (if p + l == |value| then [] else PrintedFrom(prefix, value, p + l + 1))
  {
    hide Find, CommentItems, PrintItem;
    var first := value[p..p + l];
    if p + l == |value| {
      CommentSplit(first, []);
      assert value[p..] == first;
      var items := [CommentLineItem(first)];
      assert items[1..] == [] && PrintItems(prefix, items[1..]) == [];
    } else {
      var rest := value[p + l + 1..];
      assert value[p..] == first + "\n" + rest;
      CommentSplit(first, rest);
      var items := [CommentLineItem(first)] + CommentItems(rest);
      assert items[1..] == CommentItems(rest);
    }
  }
}
