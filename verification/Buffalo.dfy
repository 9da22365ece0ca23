/** The container around an encrypted Buffalo firmware image (tools/firmware-utils/src/buffalo-lib.c). */
module BuffaloContainer {
  import opened Options
  import opened Bits
  import opened BuffaloCipher

  const MAGIC_LEN := 6
  const PRODUCT_LEN := 32
  const VERSION_LEN := 8
  const TWO_TO_THE_32: nat := 0x1_0000_0000

  // ----- numbers -----

  /** put_be32 */
  function PutBe32(v: nat): (s: seq<byte>)
    ensures |s| == 4
  {
    [Low(v / 0x100_0000), Low(v / 0x1_0000), Low(v / 0x100), Low(v)]
  }

  /** get_be32 */
  function GetBe32(s: seq<byte>): (v: nat)
    requires |s| == 4
    ensures v < TWO_TO_THE_32
  {
    (s[0] as nat) * 0x100_0000 + (s[1] as nat) * 0x1_0000 + (s[2] as nat) * 0x100 + s[3] as nat
  }

  lemma GetPut(v: nat)
    requires v < TWO_TO_THE_32
    ensures GetBe32(PutBe32(v)) == v
  {
    var q := v / 0x100;
    assert v == q * 0x100 + v % 0x100;
    var r := q / 0x100;
    assert q == r * 0x100 + q % 0x100 && v / 0x1_0000 == r;
    assert r == (r / 0x100) * 0x100 + r % 0x100 && v / 0x100_0000 == r / 0x100;
  }

  lemma PutGet(s: seq<byte>)
    requires |s| == 4
    ensures PutBe32(GetBe32(s)) == s
  {
    Digits(s[0], s[1], s[2], s[3]);
  }

  lemma Digits(a: nat, b: nat, c: nat, d: nat)
    requires a < 256 && b < 256 && c < 256 && d < 256
    ensures var v := a * 0x100_0000 + b * 0x1_0000 + c * 0x100 + d;
      v / 0x100_0000 == a && (v / 0x1_0000) % 256 == b && (v / 0x100) % 256 == c && v % 256 == d
  {
    var v := a * 0x100_0000 + b * 0x1_0000 + c * 0x100 + d;
    assert v / 0x1_0000 == a * 256 + b;
    assert v / 0x100 == (a * 256 + b) * 256 + c;
  }

  /** The number a text spells, the high byte first. */
  function BigEndian(s: seq<byte>): nat { if s == [] then 0 else 0x100 * BigEndian(s[..|s| - 1]) + s[|s| - 1] as nat }

  lemma BigEndianIs(s: seq<byte>)
    requires |s| == 4
    ensures BigEndian(s) == GetBe32(s)
  {
    assert s[..3][..2] == s[..2] && s[..2][..1] == s[..1] && s[..1][..0] == [];
    assert BigEndian(s[..1]) == s[0] as nat;
    assert BigEndian(s[..2]) == 0x100 * BigEndian(s[..1]) + s[1] as nat;
    assert BigEndian(s[..3]) == 0x100 * BigEndian(s[..2]) + s[2] as nat;
  }

  // ----- checksum -----

  /** A char is signed: the byte is extended to 32 bits with its sign. */
  function SignExtend(b: byte): bv32 { if b < 0x80 then b as bv32 else (b as bv32) | 0xffff_ff00 }

  function Shift(csum: bv32): bv32 { (csum >> 1) ^ (if csum & 1 == 1 then 0xedb8_8320 else 0) }

  function Shifts(csum: bv32, n: nat): bv32 { if n == 0 then csum else Shift(Shifts(csum, n - 1)) }

  function Csum(csum: bv32, data: seq<byte>): bv32 {
    if data == [] then csum
    else Shifts(Csum(csum, data[..|data| - 1]) ^ SignExtend(data[|data| - 1]), 8)
  }

  /** The checksum of a text continues that of its first part. */
  lemma {:induction false} CsumAppend(csum: bv32, a: seq<byte>, b: seq<byte>)
    ensures Csum(csum, a + b) == Csum(Csum(csum, a), b)
    decreases |b|
  {
    if b == [] {
      assert a + b == a;
    } else {
      hide Shifts, SignExtend;
      assert (a + b)[..|a + b| - 1] == a + b[..|b| - 1];
      CsumAppend(csum, a, b[..|b| - 1]);
    }
  }

  /** Three bytes: 01 meets every bit of the polynomial, 80 and ff have a sign. */
  lemma CsumExamples()
    ensures Csum(0, [0x01]) == 0x7707_3096 && Csum(0, [0x80]) == 0xed47_7cdf && Csum(1, [0xff]) == 0x5afa_20e4
    ensures CsumOf([0xff]) == 0x5afa_20e4
  {
    assert Csum(0, []) == 0 && Csum(1, []) == 1;
    EightShifts(0x01);
    EightShifts(0xffff_ff80);
    EightShifts(0xffff_fffe);
  }

  lemma EightShifts(x: bv32)
    ensures Shifts(x, 8) == Shift(Shift(Shift(Shift(Shift(Shift(Shift(Shift(x))))))))
  {
    hide Shift;
    assert Shifts(x, 1) == Shift(Shifts(x, 0));
    assert Shifts(x, 2) == Shift(Shifts(x, 1));
    assert Shifts(x, 3) == Shift(Shifts(x, 2));
    assert Shifts(x, 4) == Shift(Shifts(x, 3));
    assert Shifts(x, 5) == Shift(Shifts(x, 4));
    assert Shifts(x, 6) == Shift(Shifts(x, 5));
    assert Shifts(x, 7) == Shift(Shifts(x, 6));
  }

  /** buffalo_csum of a block whose length is the start value. */
  function CsumOf(data: seq<byte>): (v: nat)
    requires |data| < TWO_TO_THE_32
    ensures v < TWO_TO_THE_32
  {
    Csum(|data| as bv32, data) as nat
  }

  method BuffaloCsum(start: bv32, a: array<byte>, p: nat, len: nat) returns (csum: bv32)
    requires p + len <= a.Length
    ensures csum == Csum(start, a[p..p + len])
  {
    csum := start;
    for k := 0 to len
      invariant csum == Csum(start, a[p..p + k])
    {
      ghost var before := csum;
      csum := csum ^ SignExtend(a[p + k]);
      for i := 0 to 8
        invariant csum == Shifts(before ^ SignExtend(a[p + k]), i)
      {
        csum := (csum >> 1) ^ (if csum & 1 == 1 then 0xedb8_8320 else 0);
      }
      assert a[p..p + k + 1][..k] == a[p..p + k];
    }
  }

  // ----- the format -----

  const MAGIC_START: seq<byte> := [0x73, 0x74, 0x61, 0x72, 0x74, 0]
  const MAGIC_ASAR1: seq<byte> := [0x61, 0x73, 0x61, 0x72, 0x31, 0]

  /** check_magic */
  predicate MagicOk(m: seq<byte>) { m == MAGIC_START || m == MAGIC_ASAR1 }

  /** What is packed: the two names include their NUL. */
  datatype Image = Image(magic: seq<byte>, seed: byte, product: seq<byte>, version: seq<byte>, data: seq<byte>, csum: nat)

  predicate ImageOk(m: Image) { FieldsOk(m) && m.product != [] && m.version != [] }

  /** The same without the NULs, as a file from elsewhere may have it. */
  predicate FieldsOk(m: Image) {
    && MagicOk(m.magic) && |m.product| <= PRODUCT_LEN && |m.version| <= VERSION_LEN
    && |m.data| < TWO_TO_THE_32 && m.csum == CsumOf(m.data)
  }

  function Chars(s: seq<byte>): string { seq(|s|, i requires 0 <= i < |s| => s[i] as char) }

  /** What can be packed: either magic, names of up to 32 and 8 bytes, data whose length fits four bytes. */
  lemma FieldsExact(m: Image)
    ensures FieldsOk(m) <==>
      && (Chars(m.magic) == "start\0" || Chars(m.magic) == "asar1\0") && |m.product| <= 32 && |m.version| <= 8
      && |m.data| < 0x1_0000_0000 && m.csum == CsumOf(m.data)
  {
    hide CsumOf;
    MagicText(m.magic);
  }

  lemma MagicText(m: seq<byte>)
    ensures MagicOk(m) <==> Chars(m) == "start\0" || Chars(m) == "asar1\0"
  {
    if Chars(m) == "start\0" {
      CharsEqual(m, MAGIC_START);
    } else if Chars(m) == "asar1\0" {
      CharsEqual(m, MAGIC_ASAR1);
    }
    assert Chars(MAGIC_START) == "start\0" && Chars(MAGIC_ASAR1) == "asar1\0";
  }

  lemma CharsEqual(a: seq<byte>, b: seq<byte>)
    requires Chars(a) == Chars(b)
    ensures a == b
  {
    assert |a| == |Chars(a)| == |Chars(b)| == |b|;
    forall i | 0 <= i < |a| ensures a[i] == b[i] {
      assert Chars(a)[i] == a[i] as char && Chars(b)[i] == b[i] as char;
    }
  }

  /** A length followed by that many bytes. */
  function PutSized(s: seq<byte>): seq<byte> { PutBe32(|s|) + s }

  function FirstOr(s: seq<byte>, d: byte): byte { if s == [] then d else s[0] }

  /** The three encrypted parts; each but the first is keyed with the first byte of the one before. What
      encrypt_buf packs has none that is empty; p0 and v0 are the keys that take the place of one that is. */
  function Parts(m: Image, key: seq<byte>, longstate: bool, p0: byte := 0, v0: byte := 0)
    : (r: (seq<byte>, seq<byte>, seq<byte>))
    ensures |r.0| == |m.product| && |r.1| == |m.version| && |r.2| == |m.data|
  {
    var p := CryptBuf(m.seed, key, m.product, longstate);
    var v := CryptBuf(FirstOr(p, p0), key, m.version, longstate);
    (p, v, CryptBuf(FirstOr(v, v0), key, m.data, longstate))
  }

  function Header(m: Image, key: seq<byte>, longstate: bool, p0: byte := 0, v0: byte := 0): seq<byte> {
    var (p, v, d) := Parts(m, key, longstate, p0, v0);
    m.magic + [m.seed] + PutSized(p) + PutSized(v) + PutBe32(|m.data|)
  }

  /** encrypt_buf: the header, the encrypted data and the checksum. */
  function Encode(m: Image, key: seq<byte>, longstate: bool, p0: byte := 0, v0: byte := 0): seq<byte> {
    Header(m, key, longstate, p0, v0) + Parts(m, key, longstate, p0, v0).2 + PutBe32(m.csum)
  }

  /** A sized field at p, and where it ends. */
  function TakeSized(b: seq<byte>, p: nat, max: nat): (r: Option<(seq<byte>, nat)>)
    ensures r.Some? ==> p + 4 <= r.value.1 <= |b| && r.value.0 == b[p + 4..r.value.1] && |r.value.0| <= max
  {
    if |b| < p + 4 then None
    else
      var n := GetBe32(b[p..p + 4]);
      if n > max || |b| < p + 4 + n then None else Some((b[p + 4..p + 4 + n], p + 4 + n))
  }

  /** The fields of a header as they are stored, and where the data begins. */
  datatype Fields = Fields(magic: seq<byte>, seed: byte, product: seq<byte>, version: seq<byte>, datalen: nat, pos: nat)

  function TakeHeader(b: seq<byte>): (r: Option<Fields>)
    ensures r.Some? ==> r.value.pos + r.value.datalen <= |b| && MagicOk(r.value.magic) && r.value.datalen < TWO_TO_THE_32
  {
    if |b| < MAGIC_LEN || !MagicOk(b[..MAGIC_LEN]) || |b| < MAGIC_LEN + 1 then None
    else
      var product := TakeSized(b, MAGIC_LEN + 1, PRODUCT_LEN);
      if product.None? then None
      else
        var version := TakeSized(b, product.value.1, VERSION_LEN);
        if version.None? || |b| < version.value.1 + 4 then None
        else
          var pos := version.value.1 + 4;
          var datalen := GetBe32(b[pos - 4..pos]);
          if |b| < pos + datalen then None
          else Some(Fields(b[..MAGIC_LEN], b[MAGIC_LEN], product.value.0, version.value.0, datalen, pos))
  }

  /** decrypt_buf. A name of length 0 is keyed with what its buffer held before, p0 and v0. */
  function Decode(b: seq<byte>, key: seq<byte>, longstate: bool, p0: byte, v0: byte): Option<Image> {
    var h := TakeHeader(b);
    if h.None? then None
    else
      var f := h.value;
      var end := f.pos + f.datalen;
      var data := CryptBuf(FirstOr(f.version, v0), key, b[f.pos..end], longstate);
      if |b| < end + 4 then None
      else
        var csum := GetBe32(b[end..end + 4]);
        if CsumOf(data) != csum then None
        else Some(Image(f.magic, f.seed, CryptBuf(f.seed, key, f.product, longstate),
                        CryptBuf(FirstOr(f.product, p0), key, f.version, longstate), data, csum))
  }

  // ----- round trips -----

  lemma TakePutSized(pre: seq<byte>, s: seq<byte>, post: seq<byte>, max: nat)
    requires |s| <= max < TWO_TO_THE_32
    ensures TakeSized(pre + PutSized(s) + post, |pre|, max) == Some((s, |pre| + 4 + |s|))
  {
    hide GetBe32, PutBe32;
    var b := pre + PutSized(s) + post;
    assert b[|pre|..|pre| + 4] == PutBe32(|s|);
    GetPut(|s|);
    assert b[|pre| + 4..|pre| + 4 + |s|] == s;
  }

  lemma HeaderRoundTrip(m: Image, key: seq<byte>, longstate: bool, tail: seq<byte>, p0: byte, v0: byte)
    requires FieldsOk(m) && |m.data| <= |tail|
    ensures var (p, v, _) := Parts(m, key, longstate, p0, v0); var h := Header(m, key, longstate, p0, v0);
      TakeHeader(h + tail) == Some(Fields(m.magic, m.seed, p, v, |m.data|, |h|))
  {
    hide GetBe32, PutBe32, CryptBuf, CsumOf, TakeSized;
    var (p, v, d) := Parts(m, key, longstate, p0, v0);
    var start, size := m.magic + [m.seed], PutBe32(|d|);
    var b := start + PutSized(p) + PutSized(v) + size + tail;
    assert b == start + PutSized(p) + (PutSized(v) + size + tail);
    TakePutSized(start, p, PutSized(v) + size + tail, PRODUCT_LEN);
    assert b == (start + PutSized(p)) + PutSized(v) + (size + tail);
    TakePutSized(start + PutSized(p), v, size + tail, VERSION_LEN);
    var pos := |start| + 4 + |p| + 4 + |v| + 4;
    assert b[pos - 4..pos] == size;
    GetPut(|d|);
    assert b[..MAGIC_LEN] == m.magic && b[MAGIC_LEN] == m.seed;
  }

  /** Where things are in a packed image: the magic, the seed, each name behind its length, the length of the data, the
      data, the checksum; numbers with the high byte first. */
  lemma Layout(m: Image, key: seq<byte>, longstate: bool)
    requires FieldsOk(m)
    ensures var b, v, d := Encode(m, key, longstate), 11 + |m.product|, 15 + |m.product| + |m.version|;
      && |b| == d + 8 + |m.data|
      && b[..6] == m.magic && b[6] == m.seed
      && BigEndian(b[7..11]) == |m.product| && BigEndian(b[v..v + 4]) == |m.version|
      && BigEndian(b[d..d + 4]) == |m.data| && BigEndian(b[|b| - 4..]) == m.csum
      && b[11..v] == CryptBuf(m.seed, key, m.product, longstate)
      && (m.product != [] ==> b[v + 4..d] == CryptBuf(b[11], key, m.version, longstate))
      && (m.version != [] ==> b[d + 4..|b| - 4] == CryptBuf(b[v + 4], key, m.data, longstate))
  {
    hide CryptBuf, PutBe32, GetBe32, BigEndian, CsumOf;
    var b := Encode(m, key, longstate);
    var (p, v, d) := Parts(m, key, longstate);
    var i, j := 11 + |m.product|, 15 + |m.product| + |m.version|;
    assert b == m.magic + [m.seed] + (PutBe32(|p|) + p) + (PutBe32(|v|) + v) + PutBe32(|m.data|) + d + PutBe32(m.csum);
    assert b[7..11] == PutBe32(|p|) && b[i..i + 4] == PutBe32(|v|) && b[j..j + 4] == PutBe32(|m.data|);
    assert b[|b| - 4..] == PutBe32(m.csum) && b[11..i] == p && b[i + 4..j] == v && b[j + 4..|b| - 4] == d;
    Spelt(|p|);
    Spelt(|v|);
    Spelt(|m.data|);
    Spelt(m.csum);
  }

  lemma Spelt(v: nat)
    requires v < TWO_TO_THE_32
    ensures BigEndian(PutBe32(v)) == v
  {
    GetPut(v);
    BigEndianIs(PutBe32(v));
  }

  /** Unpacking recovers everything that was packed, whatever padding follows. */
  lemma DecodeEncode(m: Image, key: seq<byte>, longstate: bool, padding: seq<byte>, p0: byte, v0: byte)
    requires FieldsOk(m)
    ensures Decode(Encode(m, key, longstate, p0, v0) + padding, key, longstate, p0, v0) == Some(m)
    ensures ImageOk(m) ==> Decode(Encode(m, key, longstate) + padding, key, longstate, p0, v0) == Some(m)
  {
    hide GetBe32, PutBe32, CryptBuf, CsumOf, TakeHeader, Header;
    if ImageOk(m) { SameEncode(m, key, longstate, p0, v0); }
    var (p, v, d) := Parts(m, key, longstate, p0, v0);
    var h, tail := Header(m, key, longstate, p0, v0), d + PutBe32(m.csum) + padding;
    HeaderRoundTrip(m, key, longstate, tail, p0, v0);
    var b := Encode(m, key, longstate, p0, v0) + padding;
    assert b == h + tail;
    assert b[|h|..|h| + |d|] == d;
    assert b[|h| + |d|..|h| + |d| + 4] == PutBe32(m.csum);
    GetPut(m.csum);
    CryptBufTwice(m.seed, key, m.product, longstate);
    CryptBufTwice(FirstOr(p, p0), key, m.version, longstate);
    CryptBufTwice(FirstOr(v, v0), key, m.data, longstate);
  }

  /** With names that are not empty the other keys do not matter. */
  lemma SameEncode(m: Image, key: seq<byte>, longstate: bool, p0: byte, v0: byte)
    requires m.product != [] && m.version != []
    ensures Encode(m, key, longstate, p0, v0) == Encode(m, key, longstate)
  {
    hide CryptBuf, PutSized, PutBe32;
  }

  lemma TakenSized(b: seq<byte>, p: nat, max: nat)
    requires TakeSized(b, p, max).Some? && max < TWO_TO_THE_32
    ensures var (s, q) := TakeSized(b, p, max).value; b[p..q] == PutSized(s)
  {
    PutGet(b[p..p + 4]);
  }

  /** Only what packing produces is accepted: an accepted file starts with the packed form of the image
      it is unpacked to. */
  lemma EncodeDecode(b: seq<byte>, key: seq<byte>, longstate: bool, p0: byte, v0: byte)
    requires Decode(b, key, longstate, p0, v0).Some?
    ensures var m := Decode(b, key, longstate, p0, v0).value;
      && FieldsOk(m) && Encode(m, key, longstate, p0, v0) <= b
      && (m.product != [] && m.version != [] ==> ImageOk(m) && Encode(m, key, longstate) <= b)
  {
    hide GetBe32, PutBe32, CryptBuf, CsumOf, TakeSized, Encode;
    var m, f := Decode(b, key, longstate, p0, v0).value, TakeHeader(b).value;
    var end := f.pos + f.datalen;
    CryptBufTwice(m.seed, key, f.product, longstate);
    CryptBufTwice(FirstOr(f.product, p0), key, f.version, longstate);
    CryptBufTwice(FirstOr(f.version, v0), key, b[f.pos..end], longstate);
    assert Parts(m, key, longstate, p0, v0) == (f.product, f.version, b[f.pos..end]);
    HeaderTaken(b);
    PutGet(b[end..end + 4]);
    assert Header(m, key, longstate, p0, v0) == b[..f.pos];
    assert b[..end + 4] == b[..f.pos] + b[f.pos..end] + b[end..end + 4];
    EncodeIs(m, key, longstate, p0, v0);
    if m.product != [] && m.version != [] { SameEncode(m, key, longstate, p0, v0); }
  }

  lemma EncodeIs(m: Image, key: seq<byte>, longstate: bool, p0: byte, v0: byte)
    ensures Encode(m, key, longstate, p0, v0) ==
      Header(m, key, longstate, p0, v0) + Parts(m, key, longstate, p0, v0).2 + PutBe32(m.csum)
  {
  }

  lemma HeaderTaken(b: seq<byte>)
    requires TakeHeader(b).Some?
    ensures var f := TakeHeader(b).value;
      b[..f.pos] == f.magic + [f.seed] + PutSized(f.product) + PutSized(f.version) + PutBe32(f.datalen)
  {
    hide GetBe32, PutBe32, TakeSized, PutSized;
    var (p, q) := TakeSized(b, MAGIC_LEN + 1, PRODUCT_LEN).value;
    var (v, r) := TakeSized(b, q, VERSION_LEN).value;
    TakenSized(b, MAGIC_LEN + 1, PRODUCT_LEN);
    TakenSized(b, q, VERSION_LEN);
    PutGet(b[r..r + 4]);
    assert b[..r + 4] == b[..MAGIC_LEN] + [b[MAGIC_LEN]] + b[MAGIC_LEN + 1..q] + b[q..r] + b[r..r + 4];
  }

  // ----- the program -----

  /** struct enc_param; the strings are kept with their NUL. */
  class Param {
    const key: seq<byte>
    const magic: array<byte>
    const product: array<byte>
    const version: array<byte>
    const longstate: bool
    var seed: byte
    var datalen: nat
    var csum: nat

    constructor (key: seq<byte>, longstate: bool)
      requires |key| <= MAX_KEYLEN
      ensures Valid() && fresh(magic) && fresh(product) && fresh(version)
      ensures this.key == key && this.longstate == longstate
      ensures magic[..] == seq(MAGIC_LEN, _ => 0) && product[..] == seq(PRODUCT_LEN, _ => 0)
      ensures version[..] == seq(VERSION_LEN, _ => 0)
    {
      this.key, this.longstate, seed, datalen, csum := key, longstate, 0, 0, 0;
      magic := new byte[MAGIC_LEN](_ => 0);
      product := new byte[PRODUCT_LEN](_ => 0);
      version := new byte[VERSION_LEN](_ => 0);
    }

    ghost predicate Valid() {
      && |key| <= MAX_KEYLEN
      && magic.Length == MAGIC_LEN && product.Length == PRODUCT_LEN && version.Length == VERSION_LEN
      && magic != product && magic != version && product != version
    }
  }

  /** Through the NUL. */
  function String(s: seq<byte>): (r: seq<byte>)
    requires 0 in s
    ensures 1 <= |r| <= |s| && r == s[..|r|]
  {
    if s[0] == 0 then [s[0]] else [s[0]] + String(s[1..])
  }

  /** The bytes from strlen(a) + 1. */
  method CopyString(a: array<byte>) returns (r: seq<byte>)
    requires 0 in a[..]
    ensures r == String(a[..])
  {
    var n := 0;
    while a[n] != 0
      invariant n < a.Length && 0 in a[n..] && String(a[..]) == a[..n] + String(a[n..])
      decreases a.Length - n
    {
      assert a[n..][0] == a[n] && a[n..][1..] == a[n + 1..];
      assert a[..n] + ([a[n]] + String(a[n + 1..])) == a[..n + 1] + String(a[n + 1..]);
      n := n + 1;
    }
    assert a[n..][0] == a[n];
    r := a[..n + 1];
  }

  /** memcpy */
  method Put(buf: array<byte>, p: nat, s: seq<byte>)
    requires p + |s| <= buf.Length
    modifies buf
    ensures buf[..] == old(buf[..p]) + s + old(buf[p + |s|..])
  {
    for k := 0 to |s|
      invariant buf[..] == old(buf[..p]) + s[..k] + old(buf[p + k..])
    {
      buf[p + k] := s[k];
    }
  }

  /** The buffer holds what has been written, then what it held before. */
  ghost predicate Filled(buf: array<byte>, done: seq<byte>, before: seq<byte>)
    reads buf
  {
    |before| == buf.Length && |done| <= |before| && buf[..] == done + before[|done|..]
  }

  method Emit(buf: array<byte>, p: nat, s: seq<byte>, ghost done: seq<byte>, ghost before: seq<byte>) returns (q: nat)
    requires Filled(buf, done, before) && p == |done| && p + |s| <= buf.Length
    modifies buf
    ensures Filled(buf, done + s, before) && q == |done + s|
  {
    Put(buf, p, s);
    q := p + |s|;
  }

  /** A name, encrypted where it has been copied to; its first byte is the next seed. */
  method EmitCrypted(buf: array<byte>, p: nat, s: seq<byte>, seed: byte, key: seq<byte>, longstate: bool,
                     ghost done: seq<byte>, ghost before: seq<byte>)
    returns (q: nat, next: byte)
    requires s != [] && |key| <= MAX_KEYLEN && |s| < TWO_TO_THE_32
    requires Filled(buf, done, before) && p == |done| && p + 4 + |s| <= buf.Length
    modifies buf
    ensures var c := CryptBuf(seed, key, s, longstate);
      next == c[0] && Filled(buf, done + PutSized(c), before) && q == |done + PutSized(c)|
  {
    hide CryptBuf, PutBe32, Filled;
    q := Emit(buf, p, PutBe32(|s|), done, before);
    ghost var sized := done + PutBe32(|s|);
    var end := Emit(buf, q, s, sized, before);
    ghost var filled := buf[..];
    FilledTail(buf, sized, s, before);
    BcryptBuf(seed, key, buf, q, q, |s|, longstate);
    Recrypted(buf, sized, s, CryptBuf(seed, key, s, longstate), before, filled);
    next := buf[q];
    q := end;
    assert done + PutSized(CryptBuf(seed, key, s, longstate)) == sized + CryptBuf(seed, key, s, longstate);
  }

  lemma FilledTail(buf: array<byte>, done: seq<byte>, s: seq<byte>, before: seq<byte>)
    requires Filled(buf, done + s, before)
    ensures |done| + |s| <= buf.Length && buf[|done|..|done| + |s|] == s
  {
  }

  /** The last part written has been replaced by one of the same length. */
  lemma Recrypted(buf: array<byte>, done: seq<byte>, s: seq<byte>, c: seq<byte>, before: seq<byte>, filled: seq<byte>)
    requires |filled| == |before| == buf.Length && |done| + |s| <= |before| && |c| == |s|
    requires filled == (done + s) + before[|done + s|..]
    requires buf[..] == filled[..|done|] + c + filled[|done| + |s|..]
    ensures Filled(buf, done + c, before) && (c != [] ==> buf[|done|] == c[0])
  {
    assert filled[..|done|] == done;
    assert filled[|done| + |s|..] == before[|done + s|..];
  }

  /** The image that the parameters and the data in the buffer describe. */
  ghost function Described(ep: Param, data: seq<byte>): Image
    requires ep.Valid() && 0 in ep.product[..] && 0 in ep.version[..]
    reads ep, ep.magic, ep.product, ep.version
  {
    Image(ep.magic[..], ep.seed, String(ep.product[..]), String(ep.version[..]), data, ep.csum)
  }

  /** enc_compute_header_len, the names being given with their NUL */
  function HeaderLen(product: seq<byte>, version: seq<byte>): nat {
    MAGIC_LEN + 1 + |product| + |version| + 3 * 4
  }

  lemma HeaderSize(m: Image, key: seq<byte>, longstate: bool)
    requires 1 <= |m.product| && 1 <= |m.version| && |m.magic| == MAGIC_LEN
    ensures |Header(m, key, longstate)| == HeaderLen(m.product, m.version)
    ensures |Encode(m, key, longstate)| == HeaderLen(m.product, m.version) + |m.data| + 4
  {
  }

  /** encrypt_buf, the data following the header in the same buffer. */
  method EncryptBuf(ep: Param, buf: array<byte>)
    requires ep.Valid() && buf !in {ep.magic, ep.product, ep.version}
    requires 0 in ep.magic[..] && String(ep.magic[..]) == ep.magic[..] && 0 in ep.product[..] && 0 in ep.version[..]
    requires ep.datalen < TWO_TO_THE_32 && ep.csum < TWO_TO_THE_32
    requires HeaderLen(String(ep.product[..]), String(ep.version[..])) + ep.datalen + 4 <= buf.Length
    modifies buf
    ensures var d := HeaderLen(String(ep.product[..]), String(ep.version[..]));
      var e := Encode(Described(ep, old(buf[d..d + ep.datalen])), ep.key, ep.longstate);
      |e| == d + ep.datalen + 4 && buf[..] == e + old(buf[d + ep.datalen + 4..])
  {
    hide CryptBuf, PutBe32, Filled, Header, Encode, Parts, String, PutSized;
    ghost var before := buf[..];
    var magic := CopyString(ep.magic);
    var product := CopyString(ep.product);
    var version := CopyString(ep.version);
    ghost var d := HeaderLen(product, version);
    ghost var m := Described(ep, before[d..d + ep.datalen]);
    HeaderSize(m, ep.key, ep.longstate);
    var p, s := WriteHeader(buf, magic, ep.seed, product, version, ep.datalen, ep.key, ep.longstate, m, before);
    SizedLen(m, ep.key, ep.longstate);
    CryptRest(buf, p, ep.datalen, s, ep.key, ep.longstate, ep.csum, Header(m, ep.key, ep.longstate), before);
    EncodeEnd(m, ep.key, ep.longstate);
  }

  method WriteHeader(buf: array<byte>, magic: seq<byte>, seed: byte, product: seq<byte>, version: seq<byte>, datalen: nat,
                     key: seq<byte>, longstate: bool, ghost m: Image, ghost before: seq<byte>)
    returns (p: nat, s: byte)
    requires before == buf[..] && |key| <= MAX_KEYLEN
    requires m.magic == magic && m.seed == seed && m.product == product && m.version == version && |m.data| == datalen
    requires |magic| == MAGIC_LEN && 1 <= |product| < TWO_TO_THE_32 && 1 <= |version| < TWO_TO_THE_32
    requires HeaderLen(product, version) <= buf.Length
    modifies buf
    ensures var h := Header(m, key, longstate); Filled(buf, h, before) && p == |h|
    ensures s == Parts(m, key, longstate).1[0]
  {
    hide CryptBuf, PutBe32, Filled, Header, Parts, PutSized;
    SizedLen(m, key, longstate);
    NothingFilled(buf);
    ghost var done := magic + [seed];
    assert [] + done == done;
    p := Emit(buf, 0, magic + [seed], [], before);
    p, s := EmitCrypted(buf, p, product, seed, key, longstate, done, before);
    done := done + PutSized(Parts(m, key, longstate).0);
    p, s := EmitCrypted(buf, p, version, s, key, longstate, done, before);
    done := done + PutSized(Parts(m, key, longstate).1);
    p := Emit(buf, p, PutBe32(datalen), done, before);
  }

  lemma NothingFilled(buf: array<byte>)
    ensures Filled(buf, [], buf[..])
  {
    assert [] + buf[..] == buf[..];
  }

  /** How the parts make up the header, and their sizes. */
  lemma SizedLen(m: Image, key: seq<byte>, longstate: bool)
    requires 1 <= |m.product| && 1 <= |m.version| && |m.magic| == MAGIC_LEN
    ensures var (p, v, d) := Parts(m, key, longstate);
      && |PutSized(p)| == 4 + |m.product| && |PutSized(v)| == 4 + |m.version|
      && p == CryptBuf(m.seed, key, m.product, longstate) && v == CryptBuf(p[0], key, m.version, longstate)
      && d == CryptBuf(v[0], key, m.data, longstate)
      && Header(m, key, longstate) == m.magic + [m.seed] + PutSized(p) + PutSized(v) + PutBe32(|m.data|)
  {
  }

  lemma EncodeEnd(m: Image, key: seq<byte>, longstate: bool)
    requires 1 <= |m.product| && 1 <= |m.version|
    ensures Encode(m, key, longstate) == Header(m, key, longstate) + Parts(m, key, longstate).2 + PutBe32(m.csum)
  {
  }

  /** The data is encrypted where it is, and the checksum put behind it. */
  method CryptRest(buf: array<byte>, p: nat, len: nat, seed: byte, key: seq<byte>, longstate: bool, csum: nat,
                   ghost done: seq<byte>, ghost before: seq<byte>)
    requires Filled(buf, done, before) && p == |done| && p + len + 4 <= buf.Length && |key| <= MAX_KEYLEN
    modifies buf
    ensures buf[..] == done + CryptBuf(seed, key, before[p..p + len], longstate) + PutBe32(csum) + before[p + len + 4..]
  {
    hide CryptBuf, PutBe32;
    assert buf[p..p + len] == before[p..p + len];
    BcryptBuf(seed, key, buf, p, p, len, longstate);
    Put(buf, p + len, PutBe32(csum));
  }

  /** A length and a field of at most max bytes, copied to dst. */
  method ReadSized(buf: array<byte>, p: nat, n: nat, max: nat, dst: array<byte>) returns (ok: bool, len: nat, q: nat)
    requires n <= buf.Length && max <= dst.Length && dst != buf && p <= n
    modifies dst
    ensures var r := TakeSized(buf[..n], p, max);
      ok == r.Some? && (ok ==> q == r.value.1 && len == |r.value.0| && dst[..] == r.value.0 + old(dst[len..]))
    ensures ok ==> q <= n
  {
    hide GetBe32;
    ok, len, q := false, 0, p;
    if n < p + 4 {
      return;
    }
    assert buf[..n][p..p + 4] == buf[p..p + 4];
    len := GetBe32(buf[p..p + 4]);
    if len > max || n < p + 4 + len {
      return;
    }
    q := p + 4 + len;
    assert buf[..n][p + 4..q] == buf[p + 4..q];
    Put(dst, 0, buf[p + 4..q]);
    ok := true;
  }

  /** The first half of decrypt_buf, up to where the data begins. */
  method ReadHeader(ep: Param, buf: array<byte>, n: nat) returns (ok: bool, pos: nat, prodLen: nat, verLen: nat)
    requires ep.Valid() && n <= buf.Length && buf !in {ep.magic, ep.product, ep.version}
    modifies ep, ep.magic, ep.product, ep.version
    ensures var r := TakeHeader(buf[..n]);
      && ok == r.Some?
      && (ok ==>
          && ep.magic[..] == r.value.magic && ep.seed == r.value.seed && ep.datalen == r.value.datalen
          && pos == r.value.pos && prodLen == |r.value.product| && verLen == |r.value.version|
          && ep.product[..] == r.value.product + old(ep.product[prodLen..])
          && ep.version[..] == r.value.version + old(ep.version[verLen..]))
  {
    hide GetBe32, TakeSized;
    ok, pos, prodLen, verLen := false, 0, 0, 0;
    if n < MAGIC_LEN {
      return;
    }
    assert buf[..n][..MAGIC_LEN] == buf[..MAGIC_LEN];
    if !MagicOk(buf[..MAGIC_LEN]) {
      return;
    }
    Put(ep.magic, 0, buf[..MAGIC_LEN]);
    if n < MAGIC_LEN + 1 {
      return;
    }
    ep.seed := buf[MAGIC_LEN];
    var found;
    found, prodLen, pos := ReadSized(buf, MAGIC_LEN + 1, n, PRODUCT_LEN, ep.product);
    if !found {
      return;
    }
    found, verLen, pos := ReadSized(buf, pos, n, VERSION_LEN, ep.version);
    if !found || n < pos + 4 {
      return;
    }
    assert buf[..n][pos..pos + 4] == buf[pos..pos + 4];
    ep.datalen := GetBe32(buf[pos..pos + 4]);
    pos := pos + 4;
    ok := n >= pos + ep.datalen;
  }

  method CsumOfBlock(buf: array<byte>, len: nat) returns (csum: nat)
    requires len <= buf.Length && len < TWO_TO_THE_32
    ensures csum == CsumOf(buf[..len])
  {
    assert buf[0..len] == buf[..len];
    var v := BuffaloCsum(len as bv32, buf, 0, len);
    csum := v as nat;
  }

  /** The data is decrypted to the start of the buffer and its checksum compared. */
  method DecryptData(ep: Param, buf: array<byte>, pos: nat, n: nat) returns (ok: bool)
    requires ep.Valid() && pos + ep.datalen <= n <= buf.Length && buf != ep.version && ep.datalen < TWO_TO_THE_32
    modifies ep`csum, buf
    ensures var end := pos + ep.datalen;
      var data := CryptBuf(ep.version[0], ep.key, old(buf[pos..end]), ep.longstate);
      && (ok <==> end + 4 <= n && CsumOf(data) == GetBe32(old(buf[end..end + 4])))
      && (ok ==> buf[..ep.datalen] == data && ep.csum == CsumOf(data))
  {
    hide GetBe32, CryptBuf, CsumOf;
    var end := pos + ep.datalen;
    ghost var before, data := buf[..], CryptBuf(ep.version[0], ep.key, buf[pos..end], ep.longstate);
    BcryptBuf(ep.version[0], ep.key, buf, pos, 0, ep.datalen, ep.longstate);
    DataInFront(buf[..], before, data, pos);
    if n < end + 4 {
      return false;
    }
    ep.csum := GetBe32(buf[end..end + 4]);
    var csum := CsumOfBlock(buf, ep.datalen);
    ok := csum == ep.csum;
  }

  /** Writing the data to the front leaves the checksum behind the encrypted data alone. */
  lemma DataInFront(b: seq<byte>, before: seq<byte>, data: seq<byte>, pos: nat)
    requires pos + |data| <= |before| && b == before[..0] + data + before[|data|..]
    ensures b[..|data|] == data
    ensures pos + |data| + 4 <= |before| ==>
      b[pos + |data|..pos + |data| + 4] == before[pos + |data|..pos + |data| + 4]
  {
  }

  /** The version is keyed with the first byte of the product name as it is stored, so it comes first. */
  method DecryptNames(ep: Param, prodLen: nat, verLen: nat)
    requires ep.Valid() && prodLen <= PRODUCT_LEN && verLen <= VERSION_LEN
    modifies ep.product, ep.version
    ensures ep.version[..] ==
      CryptBuf(old(ep.product[0]), ep.key, old(ep.version[..verLen]), ep.longstate) + old(ep.version[verLen..])
    ensures ep.product[..] ==
      CryptBuf(ep.seed, ep.key, old(ep.product[..prodLen]), ep.longstate) + old(ep.product[prodLen..])
  {
    hide CryptBuf;
    assert ep.version[0..verLen] == ep.version[..verLen];
    BcryptBuf(ep.product[0], ep.key, ep.version, 0, 0, verLen, ep.longstate);
    assert ep.product[0..prodLen] == ep.product[..prodLen];
    BcryptBuf(ep.seed, ep.key, ep.product, 0, 0, prodLen, ep.longstate);
  }

  /** decrypt_buf: the data is decrypted to the start of the buffer. */
  method DecryptBuf(ep: Param, buf: array<byte>, n: nat) returns (ret: int)
    requires ep.Valid() && n <= buf.Length && buf !in {ep.magic, ep.product, ep.version}
    modifies ep, ep.magic, ep.product, ep.version, buf
    ensures ret == 0 || ret == -1
    ensures var r := Decode(old(buf[..n]), ep.key, ep.longstate, old(ep.product[0]), old(ep.version[0]));
      && (ret == 0 <==> r.Some?)
      && (ret == 0 ==>
          && ep.magic[..] == r.value.magic && ep.seed == r.value.seed && ep.csum == r.value.csum
          && ep.datalen == |r.value.data| && ep.datalen <= n && buf[..ep.datalen] == r.value.data
          && ep.product[..] == r.value.product + old(ep.product[|r.value.product|..])
          && ep.version[..] == r.value.version + old(ep.version[|r.value.version|..]))
  {
    hide GetBe32, TakeHeader, CryptBuf, CsumOf;
    ret := -1;
    ghost var b := buf[..n];
    var ok, pos, prodLen, verLen := ReadHeader(ep, buf, n);
    if !ok {
      return;
    }
    ghost var end := pos + ep.datalen;
    assert buf[pos..end] == b[pos..end] && (end + 4 <= n ==> buf[end..end + 4] == b[end..end + 4]);
    ok := DecryptData(ep, buf, pos, n);
    if !ok {
      return;
    }
    DecryptNames(ep, prodLen, verLen);
    ret := 0;
  }
}
