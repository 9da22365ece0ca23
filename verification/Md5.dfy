/** The streaming MD5 of the firmware tools (tools/firmware-utils/src/md5.c) against sections 3.1 to 3.5
    of RFC 1321. The transformation of one block is a parameter. */
module Md5 {
  import opened Bits

  const TWO_TO_THE_32: nat := 0x1_0000_0000
  const TWO_TO_THE_64: nat := 0x1_0000_0000_0000_0000

  /** The four words of the digest under construction. */
  datatype State = State(a: nat, b: nat, c: nat, d: nat)

  /** Section 3.3. */
  const INITIAL: State := State(0x6745_2301, 0xefcd_ab89, 0x98ba_dcfe, 0x1032_5476)

  /** Section 3.4: the state and the sixteen words of a block give the new state. */
  type Transform = (State, seq<nat>) -> State

  // ----- the specification -----

  /** A word of four bytes, the low one first (section 2). */
  function Word(s: seq<byte>): nat
    requires |s| == 4
  {
    s[0] as nat + (s[1] as nat) * 0x100 + (s[2] as nat) * 0x1_0000 + (s[3] as nat) * 0x100_0000
  }

  function Bytes(w: nat): (s: seq<byte>)
    ensures |s| == 4
  {
    [w % 0x100, w / 0x100 % 0x100, w / 0x1_0000 % 0x100, w / 0x100_0000 % 0x100]
  }

  function Words(block: seq<byte>): (w: seq<nat>)
    requires |block| % 4 == 0
    ensures |w| == |block| / 4
  {
    seq(|block| / 4, i requires 0 <= i < |block| / 4 => Word(block[4 * i..4 * i + 4]))
  }

  /** The whole blocks of a text, one after the other. */
  function Fold(f: Transform, text: seq<byte>): State
    requires |text| % 64 == 0
    decreases |text|
  {
    if text == [] then INITIAL else f(Fold(f, text[..|text| - 64]), Words(text[|text| - 64..]))
  }

  /** Section 3.1: a single 1 bit, then zeros, up to 56 bytes modulo 64. */
  function PadLen(n: nat): (k: nat)
    ensures 1 <= k <= 64 && (n + k) % 64 == 56
  {
    if n % 64 < 56 then 56 - n % 64 else 120 - n % 64
  }

  function Padding(k: nat): (p: seq<byte>)
    ensures |p| == k
  {
    seq(k, i => if i == 0 then 0x80 else 0)
  }

  /** Section 3.2: the length in bits, modulo 2^64, low word first. */
  function Length(n: nat): (s: seq<byte>)
    ensures |s| == 8
  {
    var bits := 8 * n % TWO_TO_THE_64; Bytes(bits % TWO_TO_THE_32) + Bytes(bits / TWO_TO_THE_32)
  }

  lemma Plus8(x: nat)
    requires x % 64 == 56
    ensures (x + 8) % 64 == 0
  {
  }

  function Padded(m: seq<byte>): (p: seq<byte>)
    ensures |p| % 64 == 0
  {
    Plus8(|m| + PadLen(|m|));
    m + Padding(PadLen(|m|)) + Length(|m|)
  }

  /** Section 3.5. */
  function Digest(f: Transform, m: seq<byte>): seq<byte> {
    var s := Fold(f, Padded(m)); Bytes(s.a) + Bytes(s.b) + Bytes(s.c) + Bytes(s.d)
  }

  // ----- arithmetic -----

  lemma WordOfBytes(w: nat)
    requires w < TWO_TO_THE_32
    ensures Word(Bytes(w)) == w
  {
    var q := w / 0x100;
    assert w == q * 0x100 + w % 0x100;
    var r := q / 0x100;
    assert q == r * 0x100 + q % 0x100 && w / 0x1_0000 == r;
    assert r == (r / 0x100) * 0x100 + r % 0x100 && w / 0x100_0000 == r / 0x100;
  }

  /** The two words of the bit count, after len more bytes. */
  lemma CountBits(lo: nat, hi: nat, len: nat)
    requires lo < TWO_TO_THE_32 && hi < TWO_TO_THE_32 && len < TWO_TO_THE_32
    ensures var t := 8 * len % TWO_TO_THE_32;
      var lo' := (lo + t) % TWO_TO_THE_32;
      var carried := if lo' < lo then (hi + 1) % TWO_TO_THE_32 else hi;
      var hi' := (carried + len / 0x2000_0000) % TWO_TO_THE_32;
      lo' + TWO_TO_THE_32 * hi' == (lo + TWO_TO_THE_32 * hi + 8 * len) % TWO_TO_THE_64
  {
    var t, u := 8 * len % TWO_TO_THE_32, len / 0x2000_0000;
    HighWord(len);
    Carry(lo, t);
    var carry := if lo + t >= TWO_TO_THE_32 then 1 else 0;
    HighPart(lo + t - TWO_TO_THE_32 * carry, hi + carry + u);
    ModTwice(hi + carry, u);
  }

  lemma HighWord(len: nat)
    ensures 8 * len == 8 * len % TWO_TO_THE_32 + TWO_TO_THE_32 * (len / 0x2000_0000)
  {
    var u := len / 0x2000_0000;
    assert 8 * len == 8 * (len % 0x2000_0000) + TWO_TO_THE_32 * u;
  }

  /** A sum that has wrapped around is smaller than what has been added to. */
  lemma Carry(lo: nat, t: nat)
    requires lo < TWO_TO_THE_32 && t < TWO_TO_THE_32
    ensures (lo + t) % TWO_TO_THE_32 == if lo + t >= TWO_TO_THE_32 then lo + t - TWO_TO_THE_32 else lo + t
    ensures (lo + t) % TWO_TO_THE_32 < lo <==> lo + t >= TWO_TO_THE_32
  {
  }

  lemma HighPart(l: nat, h: nat)
    requires l < TWO_TO_THE_32
    ensures (l + TWO_TO_THE_32 * h) % TWO_TO_THE_64 == l + TWO_TO_THE_32 * (h % TWO_TO_THE_32)
  {
    var q, r := h / TWO_TO_THE_32, h % TWO_TO_THE_32;
    assert l + TWO_TO_THE_32 * h == (l + TWO_TO_THE_32 * r) + TWO_TO_THE_64 * q;
  }

  lemma ModTwice(a: nat, b: nat)
    ensures (a % TWO_TO_THE_32 + b) % TWO_TO_THE_32 == (a + b) % TWO_TO_THE_32
  {
    var q := a / TWO_TO_THE_32;
    assert a + b == (a % TWO_TO_THE_32 + b) + TWO_TO_THE_32 * q;
  }

  /** The byte position in the block can be read off the bit count. */
  lemma Position(lo: nat, hi: nat, n: nat)
    requires lo < TWO_TO_THE_32 && lo + TWO_TO_THE_32 * hi == 8 * n % TWO_TO_THE_64
    ensures lo / 8 % 64 == n % 64
  {
    var q := 8 * n / TWO_TO_THE_64;
    assert 8 * n == lo + TWO_TO_THE_32 * hi + TWO_TO_THE_64 * q;
    var k := 0x2000_0000 * hi + 0x2000_0000_0000_0000 * q;
    assert 8 * n == lo + 8 * k;
    assert n == lo / 8 + k && k == 64 * (0x80_0000 * hi + 0x80_0000_0000_0000 * q);
  }

  // ----- the bytes that wait for their block to be filled -----

  function Whole(m: seq<byte>): (t: seq<byte>)
    ensures |t| % 64 == 0
  {
    m[..|m| - |m| % 64]
  }

  function Waiting(m: seq<byte>): (t: seq<byte>)
    ensures |t| == |m| % 64
  {
    m[|m| - |m| % 64..]
  }

  lemma OneMore(m: seq<byte>, b: byte)
    ensures |m| % 64 < 63 ==> Whole(m + [b]) == Whole(m) && Waiting(m + [b]) == Waiting(m) + [b]
    ensures |m| % 64 == 63 ==> Whole(m + [b]) == Whole(m) + (Waiting(m) + [b]) && Waiting(m + [b]) == []
  {
    var r := |m| % 64;
    assert (|m| + 1) % 64 == if r == 63 then 0 else r + 1;
    assert m + [b] == Whole(m) + (Waiting(m) + [b]);
  }

  lemma FoldMore(f: Transform, text: seq<byte>, block: seq<byte>)
    requires |text| % 64 == 0 && |block| == 64
    ensures Fold(f, text + block) == f(Fold(f, text), Words(block))
  {
    assert (text + block)[..|text + block| - 64] == text;
    assert (text + block)[|text + block| - 64..] == block;
  }

  /** What Final makes of the message: the last block is what waits after the padding, and the length. */
  lemma LastBlock(f: Transform, m: seq<byte>)
    ensures var p := m + Padding(PadLen(|m|));
      |p| % 64 == 56 && Fold(f, Padded(m)) == f(Fold(f, Whole(p)), Words(Waiting(p) + Length(|m|)))
  {
    var p := m + Padding(PadLen(|m|));
    assert Padded(m) == Whole(p) + (Waiting(p) + Length(|m|));
    FoldMore(f, Whole(p), Waiting(p) + Length(|m|));
  }

  lemma LastWords(front: seq<byte>, lo: nat, hi: nat, n: nat)
    requires |front| == 56 && lo < TWO_TO_THE_32 && hi < TWO_TO_THE_32
    requires lo + TWO_TO_THE_32 * hi == 8 * n % TWO_TO_THE_64
    ensures Words(front + Length(n)) == Words(front) + [lo, hi]
  {
    hide Word, Bytes;
    var block := front + Length(n);
    assert Length(n) == Bytes(lo) + Bytes(hi);
    WordOfBytes(lo);
    WordOfBytes(hi);
    forall i | 0 <= i < 16 ensures Words(block)[i] == (Words(front) + [lo, hi])[i] {
      if i < 14 {
        assert block[4 * i..4 * i + 4] == front[4 * i..4 * i + 4];
      } else if i == 14 {
        assert block[56..60] == Bytes(lo);
      } else {
        assert block[60..64] == Bytes(hi);
      }
    }
  }

  // ----- the program -----

  /** MD5_CTX. The message is what has been passed to Update so far. */
  class Context {
    const transform: Transform
    const input: array<byte>
    var lo: nat
    var hi: nat
    var buf: State
    ghost var message: seq<byte>

    ghost predicate Valid()
      reads this, input
    {
      && input.Length == 64 && lo < TWO_TO_THE_32 && hi < TWO_TO_THE_32
      && lo + TWO_TO_THE_32 * hi == 8 * |message| % TWO_TO_THE_64
      && Holds(message)
    }

    /** The buffers stand for m. */
    ghost predicate Holds(m: seq<byte>)
      reads this`buf, input
    {
      && input.Length == 64 && buf == Fold(transform, Whole(m)) && input[..|m| % 64] == Waiting(m)
    }

    /** MD5_Init */
    constructor (transform: Transform)
      ensures Valid() && fresh(input) && message == [] && this.transform == transform
    {
      this.transform := transform;
      input := new byte[64];
      lo, hi, buf, message := 0, 0, INITIAL, [];
    }

    /** The sixteen, or the first n, words of the block. */
    method BlockWords(n: nat) returns (w: seq<nat>)
      requires 4 * n <= input.Length
      ensures w == Words(input[..4 * n])
    {
      w := [];
      for i := 0 to n
        invariant w == Words(input[..4 * i])
      {
        var x := Word(input[4 * i..4 * i + 4]);
        WordsMore(input[..4 * i], input[4 * i..4 * i + 4]);
        assert input[..4 * (i + 1)] == input[..4 * i] + input[4 * i..4 * i + 4];
        w := w + [x];
      }
    }

    /** The body of the loop of MD5_Update. */
    method Take(b: byte, mdi: nat, ghost m: seq<byte>) returns (next: nat)
      requires Holds(m) && mdi == |m| % 64
      modifies this`buf, input
      ensures Holds(m + [b]) && next == |m + [b]| % 64
    {
      hide Fold, Words, Whole, Waiting;
      OneMore(m, b);
      input[mdi] := b;
      assert input[..mdi + 1] == Waiting(m) + [b];
      next := mdi + 1;
      if next == 64 {
        var w := BlockWords(16);
        FoldMore(transform, Whole(m), input[..64]);
        buf := transform(buf, w);
        next := 0;
      }
      NextPosition(|m|);
    }

    /** The bit count, in two words. */
    method Count(len: nat, ghost n: nat)
      requires lo < TWO_TO_THE_32 && hi < TWO_TO_THE_32 && len < TWO_TO_THE_32
      requires lo + TWO_TO_THE_32 * hi == 8 * n % TWO_TO_THE_64
      modifies this`lo, this`hi
      ensures lo < TWO_TO_THE_32 && hi < TWO_TO_THE_32
      ensures lo + TWO_TO_THE_32 * hi == 8 * (n + len) % TWO_TO_THE_64
    {
      CountBits(lo, hi, len);
      CountMore(n, len);
      var bits := 8 * len % TWO_TO_THE_32;
      if (lo + bits) % TWO_TO_THE_32 < lo {
        hi := (hi + 1) % TWO_TO_THE_32;
      }
      lo := (lo + bits) % TWO_TO_THE_32;
      hi := (hi + len / 0x2000_0000) % TWO_TO_THE_32;
    }

    /** The loop of MD5_Update. */
    method TakeAll(data: seq<byte>, start: nat, ghost m: seq<byte>)
      requires Holds(m) && start == |m| % 64
      modifies this`buf, input
      ensures Holds(m + data)
    {
      hide Holds;
      var mdi := start;
      assert m + data[..0] == m;
      for k := 0 to |data|
        invariant Holds(m + data[..k]) && mdi == |m + data[..k]| % 64
      {
        assert m + data[..k] + [data[k]] == m + data[..k + 1];
        mdi := Take(data[k], mdi, m + data[..k]);
      }
      assert data[..|data|] == data;
    }

    /** MD5_Update */
    method Update(data: seq<byte>)
      requires Valid() && |data| < TWO_TO_THE_32
      modifies this`lo, this`hi, this`buf, this`message, input
      ensures Valid() && message == old(message) + data
    {
      hide Holds;
      Position(lo, hi, |message|);
      var mdi := lo / 8 % 64;
      Count(|data|, |message|);
      TakeAll(data, mdi, message);
      message := message + data;
    }

    /** MD5_Final */
    method Final() returns (digest: seq<byte>)
      requires Valid()
      modifies this, input
      ensures digest == Digest(transform, old(message))
    {
      hide Fold, Words, Whole, Waiting, Word, Bytes, Length;
      ghost var m := message;
      var low, high := lo, hi;
      Position(lo, hi, |m|);
      var mdi := lo / 8 % 64;
      var padLen := if mdi < 56 then 56 - mdi else 120 - mdi;
      LastBlock(transform, m);
      Update(Padding(padLen));
      var w := BlockWords(14);
      LastWords(input[..56], low, high, |m|);
      buf := transform(buf, w + [low, high]);
      digest := Bytes(buf.a) + Bytes(buf.b) + Bytes(buf.c) + Bytes(buf.d);
    }
  }

  function Concat(pieces: seq<seq<byte>>): seq<byte> {
    if pieces == [] then [] else Concat(pieces[..|pieces| - 1]) + pieces[|pieces| - 1]
  }

  /** However a message is cut into pieces, the digest is that of the whole. */
  method DigestOfPieces(transform: Transform, pieces: seq<seq<byte>>) returns (digest: seq<byte>)
    requires forall p | p in pieces :: |p| < TWO_TO_THE_32
    ensures digest == Digest(transform, Concat(pieces))
  {
    var c := new Context(transform);
    for k := 0 to |pieces|
      invariant c.Valid() && fresh(c) && fresh(c.input) && c.transform == transform
      invariant c.message == Concat(pieces[..k])
    {
      c.Update(pieces[k]);
      assert pieces[..k + 1][..k] == pieces[..k];
    }
    assert pieces[..|pieces|] == pieces;
    digest := c.Final();
  }

  lemma WordsMore(s: seq<byte>, t: seq<byte>)
    requires |s| % 4 == 0 && |t| == 4
    ensures Words(s + t) == Words(s) + [Word(t)]
  {
    forall i | 0 <= i < |s| / 4 ensures Words(s + t)[i] == Words(s)[i] {
      assert (s + t)[4 * i..4 * i + 4] == s[4 * i..4 * i + 4];
    }
    assert (s + t)[|s|..|s| + 4] == t;
  }

  lemma NextPosition(n: nat)
    ensures (n + 1) % 64 == if n % 64 == 63 then 0 else n % 64 + 1
  {
  }

  lemma CountMore(n: nat, len: nat)
    ensures (8 * n % TWO_TO_THE_64 + 8 * len) % TWO_TO_THE_64 == 8 * (n + len) % TWO_TO_THE_64
  {
    var q := 8 * n / TWO_TO_THE_64;
    assert 8 * (n + len) == (8 * n % TWO_TO_THE_64 + 8 * len) + TWO_TO_THE_64 * q;
  }

  // ----- the bytes of the specification -----

  lemma BytesOfWord(s: seq<byte>)
    requires |s| == 4
    ensures Bytes(Word(s)) == s
  {
    var a, b, c, d := s[0] as nat, s[1] as nat, s[2] as nat, s[3] as nat;
    var w := Word(s);
    assert w % 0x100 == a && w / 0x100 == b + c * 0x100 + d * 0x1_0000;
    assert w / 0x100 % 0x100 == b && w / 0x1_0000 == c + d * 0x100;
    assert w / 0x1_0000 % 0x100 == c && w / 0x100_0000 == d;
  }

  /** The number a text spells, the low byte first. */
  function LittleEndian(s: seq<byte>): nat { if s == [] then 0 else s[0] as nat + 0x100 * LittleEndian(s[1..]) }

  lemma LittleEndianFour(s: seq<byte>, t: seq<byte>)
    requires |s| == 4
    ensures LittleEndian(s + t) == Word(s) + TWO_TO_THE_32 * LittleEndian(t)
  {
    var u := s + t;
    assert u[1..] == s[1..] + t && u[2..] == s[2..] + t && u[3..] == s[3..] + t && u[4..] == t;
    assert u[1..][1..] == u[2..] && u[2..][1..] == u[3..] && u[3..][1..] == u[4..];
    assert LittleEndian(u[3..]) == s[3] as nat + 0x100 * LittleEndian(t);
    assert LittleEndian(u[2..]) == s[2] as nat + 0x100 * LittleEndian(u[3..]);
    assert LittleEndian(u[1..]) == s[1] as nat + 0x100 * LittleEndian(u[2..]);
  }

  /** The length field spells the number of bits modulo 2^64. */
  lemma LengthSpelt(n: nat)
    ensures LittleEndian(Length(n)) == 8 * n % TWO_TO_THE_64
  {
    var bits := 8 * n % TWO_TO_THE_64;
    var lo, hi := bits % TWO_TO_THE_32, bits / TWO_TO_THE_32;
    WordOfBytes(lo);
    WordOfBytes(hi);
    LittleEndianFour(Bytes(lo), Bytes(hi));
    LittleEndianFour(Bytes(hi), []);
    assert Bytes(hi) + [] == Bytes(hi);
  }

  /** What is hashed: the message, the byte 80, as few zeros as lead to a whole number of blocks, and the length. */
  lemma PaddedExact(m: seq<byte>)
    ensures var p := Padded(m);
      && |p| % 64 == 0 && |m| + 9 <= |p| < |m| + 73
      && p[..|m|] == m && p[|m|] == 0x80
      && (forall i :: |m| < i < |p| - 8 ==> p[i] == 0)
      && LittleEndian(p[|p| - 8..]) == 8 * |m| % TWO_TO_THE_64
  {
    hide Length, LittleEndian;
    var p := Padded(m);
    LengthSpelt(|m|);
    assert p[|p| - 8..] == Length(|m|);
  }

  /** If the blocks changed nothing the digest would be the initial state: the sixteen bytes of section 3.3. */
  lemma InitialBytes(m: seq<byte>)
    ensures Digest((s: State, w: seq<nat>) => s, m) ==
      [0x01, 0x23, 0x45, 0x67, 0x89, 0xab, 0xcd, 0xef, 0xfe, 0xdc, 0xba, 0x98, 0x76, 0x54, 0x32, 0x10]
  {
    hide Padded, Bytes, Fold;
    FoldIdle(Padded(m));
    InitialWords();
  }

  lemma InitialWords()
    ensures Bytes(INITIAL.a) == [0x01, 0x23, 0x45, 0x67] && Bytes(INITIAL.b) == [0x89, 0xab, 0xcd, 0xef]
    ensures Bytes(INITIAL.c) == [0xfe, 0xdc, 0xba, 0x98] && Bytes(INITIAL.d) == [0x76, 0x54, 0x32, 0x10]
  {
  }

  lemma {:induction false} FoldIdle(text: seq<byte>)
    requires |text| % 64 == 0
    ensures Fold((s: State, w: seq<nat>) => s, text) == INITIAL
    decreases |text|
  {
    if text != [] { FoldIdle(text[..|text| - 64]); }
  }

  /** Four of the sixteen words of a block, from word i on. */
  function Part(i: nat): Transform { (s: State, w: seq<nat>) => if i + 4 <= |w| then State(w[i], w[i + 1], w[i + 2], w[i + 3]) else s }

  /** If a block put words of its own into the state the digest would be bytes of the last block: words are read
      and written the low byte first, and in order. */
  lemma BlockBytes(m: seq<byte>, i: nat)
    requires i <= 12
    ensures var p := Padded(m); Digest(Part(i), m) == p[|p| - 64 + 4 * i..][..16]
  {
    hide Padded, Word, Bytes;
    var p := Padded(m);
    PaddedNotEmpty(m);
    var block := p[|p| - 64..];
    var w := Words(block);
    assert Fold(Part(i), p) == Part(i)(Fold(Part(i), p[..|p| - 64]), w);
    forall j | i <= j < i + 4 ensures Bytes(w[j]) == block[4 * j..4 * j + 4] { BytesOfWord(block[4 * j..4 * j + 4]); }
    assert p[|p| - 64 + 4 * i..][..16] == block[4 * i..4 * i + 16];
    assert block[4 * i..4 * i + 16] == block[4 * i..4 * i + 4] + block[4 * (i + 1)..4 * (i + 1) + 4]
      + block[4 * (i + 2)..4 * (i + 2) + 4] + block[4 * (i + 3)..4 * (i + 3) + 4];
  }

  lemma PaddedNotEmpty(m: seq<byte>)
    ensures |Padded(m)| >= 64
  {
    PaddedExact(m);
  }
}
