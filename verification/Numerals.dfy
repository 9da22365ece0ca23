/** Which texts int and hex symbols take (sym_string_valid, scripts/config/symbol.c), told by the numerals of
    numbers: every number can be written and read. */
module ConfigNumerals {
  import opened Options
  import opened Tristates
  import opened Exprs
  import opened ConfigText

  /** The digit of value d, in lower case. */
  function DigitOf(d: nat): char
    requires d < 16
  {
    "0123456789abcdef"[d]
  }

  lemma DigitOfIs(d: nat)
    requires d < 16
    ensures HexDigit(DigitOf(d)) && (d < 10 <==> Digit(DigitOf(d))) && (DigitOf(d) == '0' <==> d == 0)
  {
  }

  // ----- decimal numerals -----

  function DecimalNat(n: nat): string {
    if n < 10 then [DigitOf(n)] else DecimalNat(n / 10) + [DigitOf(n % 10)]
  }

  /** The usual way to write a number. */
  function Decimal(n: int): string { if n < 0 then "-" + DecimalNat(-n) else DecimalNat(n) }

  lemma {:induction false} DecimalShape(n: nat)
    ensures var t := DecimalNat(n); t != [] && (forall c :: c in t ==> Digit(c)) && (t[0] == '0' <==> n == 0) && (n == 0 ==> |t| == 1)
  {
    DigitOfIs(n % 10);
    if n >= 10 { DecimalShape(n / 10); }
  }

  function DigitValue(c: char): nat
    requires Digit(c)
  {
    c as nat - '0' as nat
  }

  /** A row of digits is the numeral of a number, if it does not begin with a superfluous zero. */
  lemma {:induction false} DecimalOf(t: string) returns (n: nat)
    requires t != [] && (forall c :: c in t ==> Digit(c)) && (t[0] == '0' ==> |t| == 1)
    ensures DecimalNat(n) == t && (n == 0 <==> t == "0")
  {
    var last := t[|t| - 1];
    var d := DigitValue(last);
    assert DigitOf(d) == last;
    if |t| == 1 {
      n := d;
      assert t == [last];
    } else {
      var init := t[..|t| - 1];
      var m := DecimalOf(init);
      n := 10 * m + d;
      assert n / 10 == m && n % 10 == d && t == init + [last];
    }
  }

  /** The texts that an int symbol takes are the numerals of the numbers, and "-0". */
  lemma IntTextExact(s: string)
    ensures IntText(s) <==> s == "-0" || exists n: int :: s == Decimal(n)
  {
    if IntText(s) {
      if s[0] == '-' {
        var m: int := DecimalOf(s[1..]);
        assert s == "-" + s[1..];
        if m > 0 { assert s == Decimal(-m); }
      } else {
        var m := DecimalOf(s);
        assert s == Decimal(m);
      }
    }
    if n: int :| s == Decimal(n) {
      if n < 0 {
        DecimalShape(-n);
        assert s[1..] == DecimalNat(-n);
      } else {
        DecimalShape(n);
        assert s[0] in s;
      }
    }
  }

  /** So every number that is read is stored, as it is written. */
  lemma DecimalStored(n: int)
    ensures SetValue(SInt, Decimal(n)) == Stored(Val(Decimal(n)))
  {
    IntTextExact(Decimal(n));
  }

  // ----- hexadecimal numerals -----

  function LowerCase(c: char): char { if 'A' <= c <= 'F' then (c as nat + 32) as char else c }

  function Lower(s: string): (r: string)
    ensures |r| == |s|
  {
    seq(|s|, i requires 0 <= i < |s| => LowerCase(s[i]))
  }

  /** The last w digits of n to base 16. */
  function HexNat(n: nat, w: nat): (s: string)
    ensures |s| == w
  {
    if w == 0 then [] else HexNat(n / 16, w - 1) + [DigitOf(n % 16)]
  }

  lemma {:induction false} HexShape(n: nat, w: nat)
    ensures forall c :: c in HexNat(n, w) ==> HexDigit(c)
    decreases w
  {
    if w > 0 {
      HexShape(n / 16, w - 1);
      DigitOfIs(n % 16);
    }
  }

  function HexValue(c: char): nat
    requires HexDigit(c)
  {
    if Digit(c) then c as nat - '0' as nat else LowerCase(c) as nat - 'a' as nat + 10
  }

  lemma HexValueIs(c: char)
    requires HexDigit(c)
    ensures HexValue(c) < 16 && DigitOf(HexValue(c)) == LowerCase(c)
  {
  }

  /** A row of digits in either case is the numeral of a number, zeros in front included. */
  lemma {:induction false} HexOf(t: string) returns (n: nat)
    requires forall c :: c in t ==> HexDigit(c)
    ensures Lower(t) == HexNat(n, |t|)
  {
    if t == [] {
      n := 0;
    } else {
      var init, last := t[..|t| - 1], t[|t| - 1];
      var m := HexOf(init);
      HexValueIs(last);
      n := 16 * m + HexValue(last);
      assert n / 16 == m && n % 16 == HexValue(last);
      assert Lower(t) == Lower(init) + [LowerCase(last)];
    }
  }

  lemma HexCase(t: string)
    requires forall c :: c in Lower(t) ==> HexDigit(c)
    ensures forall c :: c in t ==> HexDigit(c)
  {
    forall i | 0 <= i < |t| ensures HexDigit(t[i]) {
      assert Lower(t)[i] == LowerCase(t[i]);
      assert Lower(t)[i] in Lower(t);
    }
  }

  /** What may stand before the digits. */
  predicate HexPrefix(p: string) { p == "" || p == "0x" || p == "0X" }

  /** The digits t, in either case, are the numeral of a number. */
  ghost predicate HexNumeral(t: string) { t != [] && exists n: nat :: Lower(t) == HexNat(n, |t|) }

  /** The texts that a hex symbol takes are the numerals to base 16, in either case and with any zeros in front,
      with or without 0x. */
  lemma HexTextExact(s: string)
    ensures HexText(s) <==> exists p, t :: HexPrefix(p) && HexNumeral(t) && s == p + t
  {
    if HexText(s) {
      var p := if |s| >= 2 && s[0] == '0' && (s[1] == 'x' || s[1] == 'X') then s[..2] else [];
      var t := s[|p|..];
      var n := HexOf(t);
      assert s == p + t && HexPrefix(p) && HexNumeral(t);
    }
    if p, t :| HexPrefix(p) && HexNumeral(t) && s == p + t {
      var n: nat :| Lower(t) == HexNat(n, |t|);
      HexShape(n, |t|);
      HexCase(t);
      if p == "" {
        assert s == t && t[0] in t && (|t| >= 2 ==> t[1] in t);
      } else {
        assert s[2..] == t;
      }
    }
  }

  lemma {:induction false} LowerStays(n: nat, w: nat)
    ensures Lower(HexNat(n, w)) == HexNat(n, w)
    decreases w
  {
    if w > 0 {
      LowerStays(n / 16, w - 1);
      var init, d := HexNat(n / 16, w - 1), DigitOf(n % 16);
      assert LowerCase(d) == d;
      assert Lower(init + [d]) == Lower(init) + [LowerCase(d)];
    }
  }

  lemma HexIsNumeral(n: nat, w: nat)
    requires w > 0
    ensures HexNumeral(HexNat(n, w))
  {
    LowerStays(n, w);
  }

  lemma HexStored(n: nat, w: nat)
    requires w > 0
    ensures SetValue(SHex, HexNat(n, w)) == Stored(Val(HexNat(n, w)))
    ensures SetValue(SHex, "0x" + HexNat(n, w)) == Stored(Val("0x" + HexNat(n, w)))
  {
    hide HexNat, Lower, HexNumeral, HexText;
    var t := HexNat(n, w);
    HexIsNumeral(n, w);
    assert HexPrefix("") && HexPrefix("0x") && "" + t == t;
    HexTextExact(t);
    HexTextExact("0x" + t);
  }

  /** Every number written for an int symbol is stored again when the line is read. */
  lemma NumberRoundTrip(prefix: string, name: string, n: int)
    requires PrefixText(prefix) && NameText(name) && (prefix == [] ==> name != [] && name[0] != '#')
    ensures PrintLine(prefix, name, SInt, Decimal(n)) != "#"
    ensures var line := ParseLine(prefix, PrintLine(prefix, name, SInt, Decimal(n)));
      line == Assigned(name, Decimal(n)) && SetValue(SInt, line.value) == Stored(Val(Decimal(n)))
  {
    hide ParseLine, PrintLine;
    DecimalStored(n);
    IntTextExact(Decimal(n));
    LineRoundTrip(prefix, name, SInt, Decimal(n));
  }
}
