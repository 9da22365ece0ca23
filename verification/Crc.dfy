/** The table-driven CRC of mkbrnimg (tools/firmware-utils/src/mkbrnimg.c), for any polynomial. */
module Crc {
  import opened Bits

  const WORD: nat := 0x1_0000_0000
  const ALL_ONES: nat := 0xffff_ffff
  const DEFAULT_POLY: nat := 0x2083_b8ed

  type word = n: int | 0 <= n < WORD

  /** ntohl on a little-endian host. */
  function ByteSwap(w: word): word {
    (w % 0x100) * 0x100_0000 + (w / 0x100 % 0x100) * 0x1_0000 + (w / 0x1_0000 % 0x100) * 0x100 + w / 0x100_0000
  }

  /** The polynomial of CRC-32 in the bit order of section 8 of RFC 1952. */
  lemma DefaultPolynomial()
    ensures ByteSwap(DEFAULT_POLY) == 0xedb8_8320
  {
  }

  // ----- the CRC bit by bit -----

  /** One bit, the lowest first, is taken into the register. */
  function Feed(poly: nat, crc: nat, bit: nat): nat
    requires bit < 2
  {
    if crc % 2 == bit then crc / 2 else Xor(poly, crc / 2)
  }

  function FeedBits(poly: nat, crc: nat, b: nat, n: nat): nat
    decreases n
  {
    if n == 0 then crc else FeedBits(poly, Feed(poly, crc, b % 2), b / 2, n - 1)
  }

  function FeedBytes(poly: nat, crc: nat, data: seq<byte>): nat {
    if data == [] then crc else FeedBits(poly, FeedBytes(poly, crc, data[..|data| - 1]), data[|data| - 1], 8)
  }

  /** The reflected CRC of a message, bit by bit, from all ones and complemented at the end. */
  function Reference(poly: nat, data: seq<byte>): nat { Xor(FeedBytes(poly, ALL_ONES, data), ALL_ONES) }

  /** Of nothing: the complement undoes the start value. */
  lemma ReferenceOfNothing(poly: nat)
    ensures Reference(poly, []) == 0
  {
    XorSame(ALL_ONES);
  }

  // ----- the CRC by table -----

  /** The inner loop of init_crc32. */
  function Shift(poly: nat, crc: nat): nat { if crc % 2 == 1 then Xor(poly, crc / 2) else crc / 2 }

  function Shifts(poly: nat, crc: nat, n: nat): nat
    decreases n
  {
    if n == 0 then crc else Shifts(poly, Shift(poly, crc), n - 1)
  }

  lemma ShiftLinear(poly: nat, x: nat, y: nat)
    ensures Shift(poly, Xor(x, y)) == Xor(Shift(poly, x), Shift(poly, y))
  {
    hide Xor;
    XorHalf(x, y);
    var a, b := x / 2, y / 2;
    XorAssociates(poly, a, b);
    if x % 2 == 0 && y % 2 == 1 {
      XorCommutes(poly, a);
      XorAssociates(a, poly, b);
    } else if x % 2 == 1 && y % 2 == 1 {
      XorAssociates(poly, a, Xor(poly, b));
      XorCommutes(a, Xor(poly, b));
      XorAssociates(poly, b, a);
      XorCommutes(b, a);
      XorAssociates(poly, poly, Xor(a, b));
      XorSame(poly);
      XorCommutes(0, Xor(a, b));
      XorZero(Xor(a, b));
    }
  }

  lemma {:induction false} ShiftsLinear(poly: nat, x: nat, y: nat, n: nat)
    ensures Shifts(poly, Xor(x, y), n) == Xor(Shifts(poly, x, n), Shifts(poly, y, n))
    decreases n
  {
    if n > 0 {
      hide Shift;
      ShiftLinear(poly, x, y);
      ShiftsLinear(poly, Shift(poly, x), Shift(poly, y), n - 1);
    }
  }

  /** What is above the bits shifted out only moves down. */
  lemma {:induction false} ShiftsHigh(poly: nat, h: nat, n: nat)
    ensures Shifts(poly, h * Pow2(n), n) == h
    decreases n
  {
    if n > 0 {
      Doubled(h, n);
      Even(0, h * Pow2(n - 1));
      ShiftsHigh(poly, h, n - 1);
    }
  }

  lemma Doubled(h: nat, n: nat)
    requires n > 0
    ensures h * Pow2(n) == 2 * (h * Pow2(n - 1)) && Pow2(n) == 2 * Pow2(n - 1)
  {
  }

  lemma Even(l: nat, m: nat)
    ensures (l + 2 * m) / 2 == l / 2 + m && (l + 2 * m) % 2 == l % 2 && (2 * m) / 2 == m && (2 * m) % 2 == 0
  {
  }

  lemma {:induction false} XorLowHigh(h: nat, l: nat, n: nat)
    requires l < Pow2(n)
    ensures Xor(l, h * Pow2(n)) == l + h * Pow2(n)
    decreases n
  {
    if n == 0 {
      XorCommutes(0, h);
      XorZero(h);
    } else {
      hide Xor, Pow2;
      Doubled(h, n);
      var m := h * Pow2(n - 1);
      XorLowHigh(h, l / 2, n - 1);
      XorHalf(l, 2 * m);
      Even(l, m);
      Halves(Xor(l, 2 * m), l + 2 * m);
    }
  }

  /** Eight shifts of a word: the table entry of its low byte, and the rest moved down. */
  lemma ShiftsByTable(poly: nat, x: nat)
    ensures Shifts(poly, x, 8) == Xor(Shifts(poly, x % 256, 8), x / 256)
  {
    hide Shifts, Xor;
    Pow2Values();
    XorLowHigh(x / 256, x % 256, 8);
    ShiftsLinear(poly, x % 256, (x / 256) * 256, 8);
    ShiftsHigh(poly, x / 256, 8);
  }

  lemma {:induction false} FeedIsShifts(poly: nat, crc: nat, b: nat, n: nat)
    requires b < Pow2(n)
    ensures FeedBits(poly, crc, b, n) == Shifts(poly, Xor(crc, b), n)
    decreases n
  {
    if n == 0 {
      XorZero(crc);
    } else {
      FeedIsShifts(poly, Feed(poly, crc, b % 2), b / 2, n - 1);
      FeedIsShift(poly, crc, b);
    }
  }

  lemma FeedIsShift(poly: nat, crc: nat, b: nat)
    ensures Xor(Feed(poly, crc, b % 2), b / 2) == Shift(poly, Xor(crc, b))
  {
    hide Xor;
    XorHalf(crc, b);
    XorAssociates(poly, crc / 2, b / 2);
  }

  /** A byte only meets the low byte of the register. */
  lemma XorLowByte(crc: nat, b: byte)
    ensures Xor(crc, b) % 256 == Xor(crc % 256, b) && Xor(crc, b) / 256 == crc / 256
  {
    hide Xor;
    var l, h := crc % 256, crc / 256;
    Pow2Values();
    XorLowHigh(h, l, 8);
    assert crc == l + h * 256;
    XorCommutes(l, h * 256);
    XorAssociates(h * 256, l, b);
    XorBound(l, b, 8);
    XorLowHigh(h, Xor(l, b), 8);
    XorCommutes(h * 256, Xor(l, b));
  }

  /** One step of crc32buf does what feeding the eight bits does. */
  lemma TableStep(poly: nat, crc: nat, b: byte)
    ensures FeedBits(poly, crc, b, 8) == Xor(Shifts(poly, Xor(crc % 256, b), 8), crc / 256)
  {
    hide Xor, Shifts;
    Pow2Values();
    FeedIsShifts(poly, crc, b, 8);
    ShiftsByTable(poly, Xor(crc, b));
    XorLowByte(crc, b);
  }

  // ----- the program -----

  class Table {
    const poly: word
    const crc32: array<nat>

    /** init_crc32 */
    constructor (poly: word)
      ensures Valid() && this.poly == poly
    {
      this.poly := poly;
      var table := new nat[256];
      crc32 := table;
      new;
      for n := 0 to 256
        invariant forall m :: 0 <= m < n ==> table[m] == Shifts(poly, m, 8)
      {
        var crc: nat := n;
        for bit := 0 to 8
          invariant Shifts(poly, crc, 8 - bit) == Shifts(poly, n, 8)
        {
          crc := if crc % 2 == 1 then Xor(poly, crc / 2) else crc / 2;
        }
        table[n] := crc;
      }
    }

    ghost predicate Valid()
      reads crc32
    {
      crc32.Length == 256 && forall m :: 0 <= m < 256 ==> crc32[m] == Shifts(poly, m, 8)
    }

    /** crc32buf */
    method Crc32Buf(buf: array<byte>) returns (r: nat)
      requires Valid()
      ensures r == Reference(poly, buf[..])
    {
      hide Shifts, FeedBits, Xor;
      var crc: nat := ALL_ONES;
      for k := 0 to buf.Length
        invariant crc == FeedBytes(poly, ALL_ONES, buf[..k])
      {
        TableStep(poly, crc, buf[k]);
        IndexBound(crc, buf[k]);
        crc := Xor(crc32[Xor(crc % 256, buf[k])], crc / 256);
        assert buf[..k + 1][..k] == buf[..k];
      }
      assert buf[..buf.Length] == buf[..];
      r := Xor(crc, ALL_ONES);
    }
  }

  lemma IndexBound(crc: nat, b: byte)
    ensures Xor(crc % 256, b) < 256
  {
    Pow2Values();
    XorBound(crc % 256, b, 8);
  }

  /** The register, and with it the result, stays within 32 bits. */
  lemma ReferenceIsWord(poly: word, data: seq<byte>)
    ensures FeedBytes(poly, ALL_ONES, data) < WORD && Reference(poly, data) < WORD
  {
    FeedBytesBound(poly, ALL_ONES, data);
    Pow2Values();
    XorBound(FeedBytes(poly, ALL_ONES, data), ALL_ONES, 32);
  }

  lemma {:induction false} FeedBitsBound(poly: word, crc: nat, b: nat, n: nat)
    requires crc < WORD
    ensures FeedBits(poly, crc, b, n) < WORD
    decreases n
  {
    if n > 0 {
      Pow2Values();
      XorBound(poly, crc / 2, 32);
      FeedBitsBound(poly, Feed(poly, crc, b % 2), b / 2, n - 1);
    }
  }

  // ----- the residue -----

  /** The four bytes of a word, the low one first. */
  function WordBytes(w: word): (s: seq<byte>)
    ensures |s| == 4
  {
    [w % 0x100, w / 0x100 % 0x100, w / 0x1_0000 % 0x100, w / 0x100_0000]
  }

  /** The m lowest bits of b, and the others. */
  function LowBits(b: nat, m: nat): nat { if m == 0 then 0 else b % 2 + 2 * LowBits(b / 2, m - 1) }

  function HighBits(b: nat, m: nat): nat { if m == 0 then b else HighBits(b / 2, m - 1) }

  lemma {:induction false} FeedBitsSplit(poly: nat, crc: nat, b: nat, m: nat, n: nat)
    ensures FeedBits(poly, crc, b, m + n) == FeedBits(poly, FeedBits(poly, crc, LowBits(b, m), m), HighBits(b, m), n)
    decreases m
  {
    if m > 0 {
      hide Feed;
      var low := LowBits(b, m);
      assert low % 2 == b % 2 && low / 2 == LowBits(b / 2, m - 1);
      assert m + n - 1 == (m - 1) + n;
      FeedBitsSplit(poly, Feed(poly, crc, b % 2), b / 2, m - 1, n);
    }
  }

  lemma {:induction false} LowAndHigh(b: nat, m: nat)
    ensures b == LowBits(b, m) + HighBits(b, m) * Pow2(m) && LowBits(b, m) < Pow2(m)
    decreases m
  {
    if m > 0 {
      LowAndHigh(b / 2, m - 1);
      Doubled(HighBits(b, m), m);
    }
  }

  lemma EightBits(b: nat)
    ensures LowBits(b, 8) == b % 0x100 && HighBits(b, 8) == b / 0x100
  {
    hide LowBits, HighBits;
    LowAndHigh(b, 8);
    Pow2Values();
  }

  /** The number spelt by bytes, the low one first. */
  function Number(s: seq<byte>): nat { if s == [] then 0 else s[0] + 0x100 * Number(s[1..]) }

  lemma {:induction false} NumberBound(s: seq<byte>)
    ensures Number(s) < Pow2(8 * |s|)
  {
    if s != [] {
      NumberBound(s[1..]);
      Pow2Byte(8 * |s[1..]|);
    }
  }

  lemma Pow2Byte(n: nat)
    ensures Pow2(8 + n) == 0x100 * Pow2(n)
  {
    assert Pow2(2 + n) == 4 * Pow2(n);
    assert Pow2(4 + n) == 4 * Pow2(2 + n);
    assert Pow2(6 + n) == 4 * Pow2(4 + n);
  }

  lemma {:induction false} Pow2Grows(m: nat, n: nat)
    requires m <= n
    ensures Pow2(m) <= Pow2(n)
    decreases n
  {
    if m < n { Pow2Grows(m, n - 1); }
  }

  lemma NumberOfWord(w: word)
    ensures Number(WordBytes(w)) == w
  {
    var s := WordBytes(w);
    hide Number;
    NumberOfFour(s[0], s[1], s[2], s[3]);
  }

  lemma NumberOfFour(a: byte, b: byte, c: byte, d: byte)
    ensures Number([a, b, c, d]) == a + 0x100 * (b + 0x100 * (c + 0x100 * d))
  {
    assert [a, b, c, d][1..] == [b, c, d] && [b, c, d][1..] == [c, d] && [c, d][1..] == [d];
    assert Number([d]) == d;
    assert Number([c, d]) == c + 0x100 * Number([d]);
    assert Number([b, c, d]) == b + 0x100 * Number([c, d]);
  }

  lemma {:induction false} FeedBytesAppend(poly: nat, crc: nat, a: seq<byte>, b: seq<byte>)
    ensures FeedBytes(poly, crc, a + b) == FeedBytes(poly, FeedBytes(poly, crc, a), b)
    decreases b
  {
    hide FeedBits;
    if b == [] {
      assert a + b == a;
    } else {
      var init := b[..|b| - 1];
      assert (a + b)[..|a + b| - 1] == a + init && (a + b)[|a + b| - 1] == b[|b| - 1];
      FeedBytesAppend(poly, crc, a, init);
    }
  }

  lemma FeedFirst(poly: nat, crc: nat, b: byte, x: nat, n: nat)
    ensures FeedBits(poly, crc, b + 0x100 * x, 8 + n) == FeedBits(poly, FeedBits(poly, crc, b, 8), x, n)
  {
    hide FeedBits, LowBits, HighBits;
    EightBits(b + 0x100 * x);
    FeedBitsSplit(poly, crc, b + 0x100 * x, 8, n);
  }

  /** Feeding bytes is feeding the bits of the number they spell. */
  lemma {:induction false} BytesAsBits(poly: nat, crc: nat, s: seq<byte>)
    ensures FeedBytes(poly, crc, s) == FeedBits(poly, crc, Number(s), 8 * |s|)
    decreases |s|
  {
    hide FeedBits, FeedBytes;
    if s == [] {
      NothingFed(poly, crc);
    } else {
      var rest, n := s[1..], 8 * |s[1..]|;
      assert 8 * |s| == 8 + n;
      BytesAsBits(poly, FeedBits(poly, crc, s[0], 8), rest);
      assert s == [s[0]] + rest;
      FeedBytesAppend(poly, crc, [s[0]], rest);
      FeedByte(poly, crc, s[0]);
      FeedFirst(poly, crc, s[0], Number(rest), n);
    }
  }

  lemma NothingFed(poly: nat, crc: nat)
    ensures FeedBytes(poly, crc, []) == crc == FeedBits(poly, crc, 0, 0)
  {
  }

  lemma FeedByte(poly: nat, crc: nat, b: byte)
    ensures FeedBytes(poly, crc, [b]) == FeedBits(poly, crc, b, 8)
  {
    assert [b][..0] == [];
    hide FeedBits;
  }

  /** A message followed by its CRC leaves the register at a constant, whatever the message is: this is how a
      receiver checks it. */
  lemma Residue(poly: word, data: seq<byte>)
    ensures Reference(poly, data) < WORD
    ensures FeedBytes(poly, ALL_ONES, data + WordBytes(Reference(poly, data))) == Shifts(poly, ALL_ONES, 32)
  {
    hide FeedBits, Shifts, FeedBytes, Xor, WordBytes;
    ReferenceIsWord(poly, data);
    var crc, w := FeedBytes(poly, ALL_ONES, data), Reference(poly, data);
    FeedBytesAppend(poly, ALL_ONES, data, WordBytes(w));
    BytesAsBits(poly, crc, WordBytes(w));
    NumberOfWord(w);
    Pow2Values();
    FeedIsShifts(poly, crc, w, 32);
    XorAssociates(crc, crc, ALL_ONES);
    XorSame(crc);
    XorCommutes(0, ALL_ONES);
    XorZero(ALL_ONES);
  }

  // ----- what is detected -----

  /** Any change within four consecutive bytes of a message changes its CRC. */
  ghost predicate Detects(poly: word) {
    forall a: seq<byte>, s: seq<byte>, t: seq<byte>, c: seq<byte> ::
      |s| == |t| <= 4 && s != t ==> Reference(poly, a + s + c) != Reference(poly, a + t + c)
  }

  /** The polynomials with that property are those with their highest bit set, as the default one has. */
  lemma DetectsExactly(poly: word)
    ensures Detects(poly) <==> poly >= 0x8000_0000
  {
    hide Reference;
    if poly >= 0x8000_0000 {
      forall a: seq<byte>, s: seq<byte>, t: seq<byte>, c: seq<byte> | |s| == |t| <= 4 && s != t
        ensures Reference(poly, a + s + c) != Reference(poly, a + t + c)
      {
        BurstDetected(poly, a, s, t, c);
      }
    } else {
      BurstMissed(poly);
    }
  }

  lemma ShiftInjective(poly: word, x: word, y: word)
    requires poly >= 0x8000_0000 && Shift(poly, x) == Shift(poly, y)
    ensures x == y
  {
    hide Xor;
    var h, k := x / 2, y / 2;
    if x % 2 == 1 { HighBitStays(poly, h); }
    if y % 2 == 1 { HighBitStays(poly, k); }
    if x % 2 == 1 && y % 2 == 1 {
      XorCommutes(poly, h);
      XorCommutes(poly, k);
      XorTwice(h, poly);
      XorTwice(k, poly);
    }
  }

  lemma HighBitStays(poly: word, h: nat)
    requires poly >= 0x8000_0000 && h < 0x8000_0000
    ensures Xor(poly, h) >= 0x8000_0000
  {
    hide Xor;
    Pow2Values();
    XorTwice(poly, h);
    if Xor(poly, h) < 0x8000_0000 { XorBound(Xor(poly, h), h, 31); }
  }

  lemma {:induction false} ShiftsInjective(poly: word, x: word, y: word, n: nat)
    requires poly >= 0x8000_0000 && Shifts(poly, x, n) == Shifts(poly, y, n)
    ensures x == y
    decreases n
  {
    if n > 0 {
      hide Shift;
      ShiftBound(poly, x);
      ShiftBound(poly, y);
      ShiftsInjective(poly, Shift(poly, x), Shift(poly, y), n - 1);
      ShiftInjective(poly, x, y);
    }
  }

  lemma ShiftBound(poly: word, x: word)
    ensures Shift(poly, x) < WORD
  {
    Pow2Values();
    XorBound(poly, x / 2, 32);
  }

  /** From different registers, or with different bits, the registers end up different. */
  lemma FeedInjective(poly: word, c: word, d: word, x: nat, y: nat, n: nat)
    requires poly >= 0x8000_0000 && n <= 32 && x < Pow2(n) && y < Pow2(n)
    requires FeedBits(poly, c, x, n) == FeedBits(poly, d, y, n)
    ensures Xor(c, x) == Xor(d, y)
  {
    hide Xor, Shifts, FeedBits;
    FeedIsShifts(poly, c, x, n);
    FeedIsShifts(poly, d, y, n);
    Pow2Values();
    Pow2Grows(n, 32);
    XorBound(c, x, 32);
    XorBound(d, y, 32);
    ShiftsInjective(poly, Xor(c, x), Xor(d, y), n);
  }

  lemma {:induction false} FeedSame(poly: word, c: word, d: word, data: seq<byte>)
    requires poly >= 0x8000_0000 && FeedBytes(poly, c, data) == FeedBytes(poly, d, data)
    ensures c == d
  {
    if data != [] {
      hide FeedBits, Xor;
      var init, b := data[..|data| - 1], data[|data| - 1];
      FeedBytesBound(poly, c, init);
      FeedBytesBound(poly, d, init);
      var c', d' := FeedBytes(poly, c, init), FeedBytes(poly, d, init);
      Pow2Values();
      FeedInjective(poly, c', d', b, b, 8);
      XorTwice(c', b);
      XorTwice(d', b);
      FeedSame(poly, c, d, init);
    }
  }

  lemma BurstDetected(poly: word, a: seq<byte>, s: seq<byte>, t: seq<byte>, c: seq<byte>)
    requires poly >= 0x8000_0000 && |s| == |t| <= 4 && s != t
    ensures Reference(poly, a + s + c) != Reference(poly, a + t + c)
  {
    hide FeedBytes, FeedBits, Xor;
    if Reference(poly, a + s + c) == Reference(poly, a + t + c) {
      XorTwice(FeedBytes(poly, ALL_ONES, a + s + c), ALL_ONES);
      XorTwice(FeedBytes(poly, ALL_ONES, a + t + c), ALL_ONES);
      FeedBytesAppend(poly, ALL_ONES, a + s, c);
      FeedBytesAppend(poly, ALL_ONES, a + t, c);
      FeedBytesBound(poly, ALL_ONES, a + s);
      FeedBytesBound(poly, ALL_ONES, a + t);
      FeedSame(poly, FeedBytes(poly, ALL_ONES, a + s), FeedBytes(poly, ALL_ONES, a + t), c);
      FeedBytesAppend(poly, ALL_ONES, a, s);
      FeedBytesAppend(poly, ALL_ONES, a, t);
      FeedBytesBound(poly, ALL_ONES, a);
      SameBytes(poly, FeedBytes(poly, ALL_ONES, a), s, t);
    }
  }

  lemma SameBytes(poly: word, crc: word, s: seq<byte>, t: seq<byte>)
    requires poly >= 0x8000_0000 && |s| == |t| <= 4 && FeedBytes(poly, crc, s) == FeedBytes(poly, crc, t)
    ensures s == t
  {
    hide FeedBytes, FeedBits, Xor;
    BytesAsBits(poly, crc, s);
    BytesAsBits(poly, crc, t);
    NumberBound(s);
    NumberBound(t);
    var x, y := Number(s), Number(t);
    FeedInjective(poly, crc, crc, x, y, 8 * |s|);
    XorCommutes(crc, x);
    XorCommutes(crc, y);
    XorTwice(x, crc);
    XorTwice(y, crc);
    NumberInjective(s, t);
  }

  lemma {:induction false} NumberInjective(s: seq<byte>, t: seq<byte>)
    requires |s| == |t| && Number(s) == Number(t)
    ensures s == t
  {
    if s != [] {
      NumberInjective(s[1..], t[1..]);
      assert s == [s[0]] + s[1..] && t == [t[0]] + t[1..];
    }
  }

  lemma {:induction false} FeedBytesBound(poly: word, crc: word, data: seq<byte>)
    ensures FeedBytes(poly, crc, data) < WORD
  {
    if data != [] {
      hide FeedBits;
      FeedBytesBound(poly, crc, data[..|data| - 1]);
      FeedBitsBound(poly, FeedBytes(poly, crc, data[..|data| - 1]), data[|data| - 1], 8);
    }
  }

  /** Without the highest bit, two registers lead to the same one, and so do the four bytes that lead to them. */
  lemma BurstMissed(poly: word)
    requires poly < 0x8000_0000
    ensures !Detects(poly)
  {
    hide FeedBits, FeedBytes, Xor, Shifts, WordBytes, Number;
    Pow2Values();
    XorBound(ALL_ONES, 1, 32);
    XorBound(ALL_ONES, 2 * poly, 32);
    var x, y := Xor(ALL_ONES, 1), Xor(ALL_ONES, 2 * poly);
    var s, t := WordBytes(x), WordBytes(y);
    FourBytes(poly, 1);
    FourBytes(poly, 2 * poly);
    OnlyStep(poly);
    assert x != y by { XorBack(1); XorBack(2 * poly); }
    NumberOfWord(x);
    NumberOfWord(y);
    assert [] + s + [] == s && [] + t + [] == t;
    assert Reference(poly, [] + s + []) == Reference(poly, [] + t + []);
  }

  lemma XorBack(z: nat)
    ensures Xor(Xor(ALL_ONES, z), ALL_ONES) == z
  {
    XorCommutes(ALL_ONES, z);
    XorTwice(z, ALL_ONES);
  }

  lemma OnlyStep(poly: word)
    ensures Shifts(poly, 1, 32) == Shifts(poly, 2 * poly, 32)
  {
    XorZero(poly);
    assert Shift(poly, 1) == poly == Shift(poly, 2 * poly);
    hide Shift, Xor;
  }

  /** The four bytes that bring the register to z. */
  lemma FourBytes(poly: word, z: word)
    ensures Xor(ALL_ONES, z) < WORD
    ensures FeedBytes(poly, ALL_ONES, WordBytes(Xor(ALL_ONES, z))) == Shifts(poly, z, 32)
  {
    hide FeedBits, FeedBytes, Xor, Shifts, WordBytes, Number;
    Pow2Values();
    XorBound(ALL_ONES, z, 32);
    var w := Xor(ALL_ONES, z);
    BytesAsBits(poly, ALL_ONES, WordBytes(w));
    NumberOfWord(w);
    FeedIsShifts(poly, ALL_ONES, w, 32);
    XorBack(z);
    XorCommutes(ALL_ONES, w);
  }

  /** Of one byte whose bits all meet their equal but the last one: the polynomial is taken in once. */
  lemma ReferenceOfOne(poly: word)
    ensures Reference(poly, [0x7f]) == Xor(poly, 0xff00_0000)
  {
    hide Xor;
    FeedByte(poly, ALL_ONES, 0x7f);
    assert FeedBits(poly, ALL_ONES, 0x7f, 8) == Xor(poly, 0xff_ffff);
    XorAssociates(poly, 0xff_ffff, ALL_ONES);
    HighByte();
  }

  lemma HighByte()
    ensures Xor(0xff_ffff, ALL_ONES) == 0xff00_0000
  {
    hide Xor, Pow2;
    Pow2Values();
    XorLowHigh(0xff, 0xff_ffff, 24);
    XorCommutes(0xff_ffff, 0xff00_0000);
    XorTwice(0xff00_0000, 0xff_ffff);
    XorCommutes(ALL_ONES, 0xff_ffff);
  }
}
