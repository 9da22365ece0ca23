/** The stream cipher of the Buffalo firmware container (tools/firmware-utils/src/buffalo-lib.c). */
module BuffaloCipher {
  import opened Bits

  const DEFAULT_STATE_LEN := 256
  const MAX_KEYLEN := 254

  /** A number cut down to a byte. */
  function Low(n: nat): byte { n % 256 }

  function XorByte(a: byte, b: byte): byte {
    Pow2Values();
    XorBound(a, b, 8);
    Xor(a, b)
  }

  // ----- the state as a value -----

  /** The contents of the state array with the two indices, which are kept in single bytes. */
  datatype State = State(i: nat, j: nat, s: seq<byte>)

  function Swap(s: seq<byte>, a: nat, b: nat): (r: seq<byte>)
    requires a < |s| && b < |s|
    ensures |r| == |s|
  {
    s[a := s[b]][b := s[a]]
  }

  lemma SwapMultiset(s: seq<byte>, a: nat, b: nat)
    requires a < |s| && b < |s|
    ensures multiset(Swap(s, a, b)) == multiset(s)
  {
  }

  /** state[i] = i, stored in a byte. */
  function Identity(n: nat): (s: seq<byte>)
    ensures |s| == n
  {
    seq(n, i requires 0 <= i < n => Low(i))
  }

  /** The second loop of bcrypt_init from index i on. */
  function Schedule(key: seq<byte>, s: seq<byte>, i: nat, j: nat, k: nat): (r: seq<byte>)
    requires i <= |s| && j < |key|
    ensures |r| == |s|
    decreases |s| - i
  {
    if i == |s| then s
    else
      var k' := (k + key[j] + s[i]) % |s|;
      Schedule(key, Swap(s, i, k'), i + 1, (j + 1) % |key|, k')
  }

  function Initial(key: seq<byte>, n: nat): (c: State)
    requires key != []
    ensures |c.s| == n
  {
    State(0, 0, Schedule(key, Identity(n), 0, 0, 0))
  }

  /** One step of bcrypt_process on the state. */
  function Next(c: State): (r: State)
    requires c.s != []
    ensures |r.s| == |c.s| && r.i < |r.s| && r.j < |r.s|
  {
    var n := |c.s|;
    var i := ((c.i + 1) % n) % 256;
    var j := ((c.j + c.s[i]) % n) % 256;
    State(i, j, Swap(c.s, i, j))
  }

  /** The byte the step is good for. */
  function Output(c: State): byte
    requires c.i < |c.s| && c.j < |c.s|
  {
    c.s[(c.s[c.i] + c.s[c.j]) % |c.s|]
  }

  function After(c: State, n: nat): (r: State)
    requires n > 0 ==> c.s != []
    ensures |r.s| == |c.s|
    decreases n
  {
    if n == 0 then c else Next(After(c, n - 1))
  }

  /** src with the output of the cipher added. */
  function Crypt(c: State, src: seq<byte>): (r: seq<byte>)
    requires src != [] ==> c.s != []
    ensures |r| == |src|
  {
    seq(|src|, k requires 0 <= k < |src| => XorByte(src[k], Output(After(c, k + 1))))
  }

  /** bcrypt_buf: the key is the seed followed by the key string. */
  function CryptBuf(seed: byte, key: seq<byte>, src: seq<byte>, longstate: bool): (r: seq<byte>)
    ensures |r| == |src|
  {
    Crypt(Initial([seed] + key, if longstate then |src| else DEFAULT_STATE_LEN), src)
  }

  /** Applying the cipher twice with the same key gives the text back. */
  lemma CryptBufTwice(seed: byte, key: seq<byte>, src: seq<byte>, longstate: bool)
    ensures CryptBuf(seed, key, CryptBuf(seed, key, src, longstate), longstate) == src
  {
    hide Initial, Next, Output;
    var c := Initial([seed] + key, if longstate then |src| else DEFAULT_STATE_LEN);
    forall k | 0 <= k < |src| ensures Crypt(c, Crypt(c, src))[k] == src[k] {
      XorTwice(src[k], Output(After(c, k + 1)));
    }
  }

  lemma {:induction false} ScheduleMultiset(key: seq<byte>, s: seq<byte>, i: nat, j: nat, k: nat)
    requires i <= |s| && j < |key|
    ensures multiset(Schedule(key, s, i, j, k)) == multiset(s)
    decreases |s| - i
  {
    if i < |s| {
      var k' := (k + key[j] + s[i]) % |s|;
      SwapMultiset(s, i, k');
      ScheduleMultiset(key, Swap(s, i, k'), i + 1, (j + 1) % |key|, k');
    }
  }

  /** Whatever the key and however far the cipher has run, its state is a rearrangement of 0, 1, 2, ... */
  lemma {:induction false} StateRearranged(key: seq<byte>, size: nat, n: nat)
    requires key != [] && size > 0
    ensures multiset(After(Initial(key, size), n).s) == multiset(Identity(size))
  {
    if n == 0 {
      ScheduleMultiset(key, Identity(size), 0, 0, 0);
    } else {
      StateRearranged(key, size, n - 1);
      var c := After(Initial(key, size), n - 1);
      SwapMultiset(c.s, Next(c).i, Next(c).j);
    }
  }

  // ----- a worked example -----

  lemma ScheduleStep(key: seq<byte>, s: seq<byte>, i: nat, j: nat, k: nat, s': seq<byte>, j': nat, k': nat)
    requires i < |s| && j < |key| && k' == (k + key[j] + s[i]) % |s| && j' == (j + 1) % |key| && s' == Swap(s, i, k')
    ensures Schedule(key, s, i, j, k) == Schedule(key, s', i + 1, j', k')
  {
  }

  lemma NextStep(c: State, d: State)
    requires c.s != [] && d.i == (c.i + 1) % |c.s| % 256 && d.j == (c.j + c.s[d.i]) % |c.s| % 256
    requires d.s == Swap(c.s, d.i, d.j)
    ensures Next(c) == d
  {
  }

  lemma AfterNext(c: State, n: nat)
    requires c.s != []
    ensures After(c, n + 1) == Next(After(c, n)) && After(c, 0) == c
  {
  }

  /** A worked example: the key stream for the seed 3, the key 01 and a state of six bytes, which for a text of six
      zeros is the cipher text. */
  lemma KnownAnswer()
    ensures CryptBuf(3, [1], [0, 0, 0, 0, 0, 0], true) == [5, 5, 2, 1, 3, 0]
  {
    hide Initial, After, Output, Next;
    KnownStream();
    var c, zeros: seq<byte> := Initial([3, 1], 6), [0, 0, 0, 0, 0, 0];
    assert [3] + [1] == [3, 1];
    var x := Crypt(c, zeros);
    ZeroXor(5);
    ZeroXor(2);
    ZeroXor(1);
    ZeroXor(3);
    ZeroXor(0);
  }

  lemma ZeroXor(b: byte)
    ensures XorByte(0, b) == b
  {
    XorCommutes(0, b);
    XorZero(b);
  }

  lemma KnownState()
    ensures Initial([3, 1], 6) == State(0, 0, [3, 5, 4, 1, 2, 0])
  {
    hide Schedule, Swap;
    var key: seq<byte> := [3, 1];
    assert Identity(6) == [0, 1, 2, 3, 4, 5];
    KnownSwaps();
    ScheduleStep(key, [0, 1, 2, 3, 4, 5], 0, 0, 0, [3, 1, 2, 0, 4, 5], 1, 3);
    ScheduleStep(key, [3, 1, 2, 0, 4, 5], 1, 1, 3, [3, 5, 2, 0, 4, 1], 0, 5);
    ScheduleStep(key, [3, 5, 2, 0, 4, 1], 2, 0, 5, [3, 5, 4, 0, 2, 1], 1, 4);
    ScheduleStep(key, [3, 5, 4, 0, 2, 1], 3, 1, 4, [3, 5, 4, 1, 2, 0], 0, 5);
    ScheduleStep(key, [3, 5, 4, 1, 2, 0], 4, 0, 5, [3, 5, 4, 1, 2, 0], 1, 4);
    ScheduleStep(key, [3, 5, 4, 1, 2, 0], 5, 1, 4, [3, 5, 4, 1, 2, 0], 0, 5);
    ScheduleEnd(key, [3, 5, 4, 1, 2, 0], 6, 0, 5);
  }

  lemma ScheduleEnd(key: seq<byte>, s: seq<byte>, i: nat, j: nat, k: nat)
    requires i == |s| && j < |key|
    ensures Schedule(key, s, i, j, k) == s
  {
  }

  lemma KnownSwaps()
    ensures Swap([0, 1, 2, 3, 4, 5], 0, 3) == [3, 1, 2, 0, 4, 5]
    ensures Swap([3, 1, 2, 0, 4, 5], 1, 5) == [3, 5, 2, 0, 4, 1]
    ensures Swap([3, 5, 2, 0, 4, 1], 2, 4) == [3, 5, 4, 0, 2, 1]
    ensures Swap([3, 5, 4, 0, 2, 1], 3, 5) == [3, 5, 4, 1, 2, 0]
    ensures Swap([3, 5, 4, 1, 2, 0], 4, 4) == [3, 5, 4, 1, 2, 0]
    ensures Swap([3, 5, 4, 1, 2, 0], 5, 5) == [3, 5, 4, 1, 2, 0]
  {
  }

  lemma KnownStream()
    ensures var c := Initial([3, 1], 6);
      && Output(After(c, 1)) == 5 && Output(After(c, 2)) == 5 && Output(After(c, 3)) == 2
      && Output(After(c, 4)) == 1 && Output(After(c, 5)) == 3 && Output(After(c, 6)) == 0
  {
    KnownState();
    hide Initial, After, Next;
    var c := Initial([3, 1], 6);
    AfterNext(c, 0);
    AfterNext(c, 1);
    AfterNext(c, 2);
    AfterNext(c, 3);
    AfterNext(c, 4);
    AfterNext(c, 5);
    NextStep(State(0, 0, [3, 5, 4, 1, 2, 0]), State(1, 5, [3, 0, 4, 1, 2, 5]));
    NextStep(State(1, 5, [3, 0, 4, 1, 2, 5]), State(2, 3, [3, 0, 1, 4, 2, 5]));
    NextStep(State(2, 3, [3, 0, 1, 4, 2, 5]), State(3, 1, [3, 4, 1, 0, 2, 5]));
    NextStep(State(3, 1, [3, 4, 1, 0, 2, 5]), State(4, 3, [3, 4, 1, 2, 0, 5]));
    NextStep(State(4, 3, [3, 4, 1, 2, 0, 5]), State(5, 2, [3, 4, 5, 2, 0, 1]));
    NextStep(State(5, 2, [3, 4, 5, 2, 0, 1]), State(0, 5, [1, 4, 5, 2, 0, 3]));
  }

  // ----- the program -----

  /** struct bcrypt_ctx */
  class Context {
    var i: nat
    var j: nat
    var state: array<byte>

    /** bcrypt_init */
    constructor (key: seq<byte>, stateLen: nat)
      requires key != []
      ensures fresh(state) && Model() == Initial(key, stateLen)
    {
      i, j := 0, 0;
      var state := new byte[stateLen];
      this.state := state;
      new;
      FillIdentity(state);
      Mix(state, key);
    }

    ghost function Model(): State
      reads this, state
    {
      State(i, j, state[..])
    }

    /** The first statements of the loop of bcrypt_process, and the byte the data is combined with. */
    method Advance() returns (b: byte)
      requires state.Length > 0
      modifies this`i, this`j, state
      ensures Model() == Next(old(Model())) && b == Output(Model())
    {
      i := ((i + 1) % state.Length) % 256;
      j := ((j + state[i]) % state.Length) % 256;
      var t := state[j];
      state[j] := state[i];
      state[i] := t;
      b := state[(state[i] + state[j]) % state.Length];
    }

    /** bcrypt_process, from src to dst in one buffer; dst may overlap src from the front. */
    method Process(a: array<byte>, src: nat, dst: nat, len: nat)
      requires a != state && dst <= src && src + len <= a.Length && (len > 0 ==> state.Length > 0)
      modifies this`i, this`j, state, a
      ensures Model() == After(old(Model()), len)
      ensures a[..] == old(a[..dst]) + Crypt(old(Model()), old(a[src..src + len])) + old(a[dst + len..])
    {
      hide Next, Output, XorByte, Crypt;
      ghost var c, before := Model(), a[..];
      ghost var x := Crypt(c, before[src..src + len]);
      assert a[..] == before[..dst] + x[..0] + before[dst..];
      var k := 0;
      while k < len
        invariant k <= len && Model() == After(c, k)
        invariant a[..] == before[..dst] + x[..k] + before[dst + k..]
      {
        var b := Advance();
        CryptAt(c, before[src..src + len], k);
        Overwrite(a[..], before, x, src, dst, k);
        a[dst + k] := XorByte(a[src + k], b);
        k := k + 1;
      }
      assert x[..len] == x;
    }
  }

  lemma CryptAt(c: State, text: seq<byte>, k: nat)
    requires k < |text| && c.s != []
    ensures After(c, k + 1) == Next(After(c, k)) && Crypt(c, text)[k] == XorByte(text[k], Output(After(c, k + 1)))
  {
  }

  /** Writing the next byte of x at dst; the bytes still to be read, at src, are as they were before. */
  lemma Overwrite(b: seq<byte>, before: seq<byte>, x: seq<byte>, src: nat, dst: nat, k: nat)
    requires k < |x| && dst <= src && src + |x| <= |before| && b == before[..dst] + x[..k] + before[dst + k..]
    ensures |b| == |before| && b[src + k] == before[src..src + |x|][k]
    ensures b[dst + k := x[k]] == before[..dst] + x[..k + 1] + before[dst + k + 1..]
  {
  }

  method FillIdentity(state: array<byte>)
    modifies state
    ensures state[..] == Identity(state.Length)
  {
    hide Low;
    var p := 0;
    while p < state.Length
      invariant p <= state.Length && forall i :: 0 <= i < p ==> state[i] == Low(i)
    {
      state[p] := Low(p);
      p := p + 1;
    }
  }

  /** The second loop of bcrypt_init. */
  method Mix(state: array<byte>, key: seq<byte>)
    requires key != []
    modifies state
    ensures state[..] == Schedule(key, old(state[..]), 0, 0, 0)
  {
    hide Swap;
    var p: nat, q: nat, k: nat := 0, 0, 0;
    while p < state.Length
      invariant p <= state.Length && q < |key|
      invariant Schedule(key, state[..], p, q, k) == Schedule(key, old(state[..]), 0, 0, 0)
    {
      var t := state[p];
      k := (k + key[q] + t) % state.Length;
      ghost var s := state[..];
      state[p] := state[k];
      state[k] := t;
      Swapped(s, state[..], p, k);
      p, q := p + 1, (q + 1) % |key|;
    }
  }

  lemma Swapped(s: seq<byte>, r: seq<byte>, a: nat, b: nat)
    requires a < |s| && b < |s| && r == s[a := s[b]][b := s[a]]
    ensures r == Swap(s, a, b)
  {
  }

  /** bcrypt_buf */
  method BcryptBuf(seed: byte, key: seq<byte>, a: array<byte>, src: nat, dst: nat, len: nat, longstate: bool)
    requires dst <= src && src + len <= a.Length && |key| <= MAX_KEYLEN
    modifies a
    ensures a[..] == old(a[..dst]) + CryptBuf(seed, key, old(a[src..src + len]), longstate) + old(a[dst + len..])
  {
    var ctx := new Context([seed] + key, if longstate then len else DEFAULT_STATE_LEN);
    ctx.Process(a, src, dst, len);
  }
}
