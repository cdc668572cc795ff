/** The native reference oracle: ChaCha20 on `u32` values (the quarter round
    and block function of RFC 7539, sections 2.1 and 2.3) and the plain step
    function the circuit is compared against. A `u32` is a natural below 2^32;
    every wrap-around Rust performs is written out. */
module Native {
  import opened Words

  /** `x.wrapping_add(y)`. */
  function WrappingAdd(x: U32, y: U32): (r: U32) {
    if x + y < W then x + y else x + y - W
  }

  /** `x.wrapping_sub(y)`: the value that `wrapping_add(y)` takes back to x. */
  function WrappingSub(x: U32, y: U32): (r: U32)
    ensures WrappingAdd(r, y) == x
  {
    if y <= x then x - y else x + W - y
  }

  /** The bitwise exclusive or of the low n bits of x and y. */
  function BitXor(x: nat, y: nat, n: nat): (r: nat) {
    if n == 0 then 0
    else BitWeight((x % 2 == 1) != (y % 2 == 1)) + 2 * BitXor(x / 2, y / 2, n - 1)
  }

  /** The exclusive or of n-bit values is an n-bit value. */
  lemma {:induction false} BitXorBound(x: nat, y: nat, n: nat)
    ensures BitXor(x, y, n) < Pow2(n)
  {
    if n > 0 {
      BitXorBound(x / 2, y / 2, n - 1);
    }
  }

  /** `x ^ y`. */
  function Xor(x: U32, y: U32): (r: U32) {
    BitXorBound(x, y, WordBits);
    Pow2Values();
    BitXor(x, y, WordBits)
  }

  /** `x.rotate_left(1)`, i.e. `(x << 1) | (x >> 31)`: the top bit wraps
      around to the bottom. */
  function RotateLeft1(x: U32): (r: U32) {
    if x < 0x8000_0000 then 2 * x else 2 * x - W + 1
  }

  /** k successive rotations by one bit. */
  function RotateLeftBy(x: U32, k: nat): (r: U32) {
    if k == 0 then x else RotateLeft1(RotateLeftBy(x, k - 1))
  }

  /** `x.rotate_left(n)`: the amount is taken mod 32. */
  function RotateLeft(x: U32, n: nat): (r: U32) {
    RotateLeftBy(x, n % 32)
  }

  /** The number of double rounds in ChaCha20. */
  const DoubleRoundCount: nat := 10

  /** The ChaCha20 constants "expand 32-byte k". */
  const Sigma: seq<U32> := [0x61707865, 0x3320646e, 0x79622d32, 0x6b206574]

  /** `state[x] = state[x].wrapping_add(state[y])`. */
  function AddAssign(s: seq<U32>, x: nat, y: nat): (r: seq<U32>)
    requires x < |s| && y < |s|
  {
    s[x := WrappingAdd(s[x], s[y])]
  }

  /** `state[x] ^= state[y]; state[x] = state[x].rotate_left(n)`. */
  function XorRotateAssign(s: seq<U32>, x: nat, y: nat, n: nat): (r: seq<U32>)
    requires x < |s| && y < |s|
  {
    s[x := RotateLeft(Xor(s[x], s[y]), n)]
  }

  /** `quarter_round_native(state, a, b, c, d)`: the four add/xor/rotate steps
      with rotations 16, 12, 8 and 7, as in-place updates of the state. */
  function QuarterRound(s: seq<U32>, a: nat, b: nat, c: nat, d: nat): (r: seq<U32>)
    requires a < |s| && b < |s| && c < |s| && d < |s|
    ensures |r| == |s|
    ensures forall k :: 0 <= k < |s| && k != a && k != b && k != c && k != d ==> r[k] == s[k]
  {
    var s1 := XorRotateAssign(AddAssign(s, a, b), d, a, 16);
    var s2 := XorRotateAssign(AddAssign(s1, c, d), b, c, 12);
    var s3 := XorRotateAssign(AddAssign(s2, a, b), d, a, 8);
    XorRotateAssign(AddAssign(s3, c, d), b, c, 7)
  }

  /** The four words a quarter round reads and writes. */
  datatype Quad = Quad(a: U32, b: U32, c: U32, d: U32)

  /** The four add/xor/rotate steps of a quarter round, with rotations 16,
      12, 8 and 7, on the four words themselves. */
  function QuarterRoundWords(q: Quad): (r: Quad) {
    var a1 := WrappingAdd(q.a, q.b);
    var d1 := RotateLeft(Xor(q.d, a1), 16);
    var c1 := WrappingAdd(q.c, d1);
    var b1 := RotateLeft(Xor(q.b, c1), 12);
    var a2 := WrappingAdd(a1, b1);
    var d2 := RotateLeft(Xor(d1, a2), 8);
    var c2 := WrappingAdd(c1, d2);
    var b2 := RotateLeft(Xor(b1, c2), 7);
    Quad(a2, b2, c2, d2)
  }

  /** An index group (a, b, c, d) of one quarter round. */
  type Group = (nat, nat, nat, nat)

  /** The column groups of a double round. */
  const Columns: seq<Group> := [(0, 4, 8, 12), (1, 5, 9, 13), (2, 6, 10, 14), (3, 7, 11, 15)]

  /** The diagonal groups of a double round. */
  const Diagonals: seq<Group> := [(0, 5, 10, 15), (1, 6, 11, 12), (2, 7, 8, 13), (3, 4, 9, 14)]

  /** The group addresses four distinct words of a 16-word state. */
  predicate ValidGroup(g: Group) {
    g.0 < 16 && g.1 < 16 && g.2 < 16 && g.3 < 16 &&
    g.0 != g.1 && g.0 != g.2 && g.0 != g.3 && g.1 != g.2 && g.1 != g.3 && g.2 != g.3
  }

  /** Every group of the list is valid. */
  predicate ValidGroups(groups: seq<Group>) {
    forall k :: 0 <= k < |groups| ==> ValidGroup(groups[k])
  }

  /** No word is addressed by both groups. */
  predicate Disjoint(g: Group, h: Group) {
    g.0 != h.0 && g.0 != h.1 && g.0 != h.2 && g.0 != h.3 &&
    g.1 != h.0 && g.1 != h.1 && g.1 != h.2 && g.1 != h.3 &&
    g.2 != h.0 && g.2 != h.1 && g.2 != h.2 && g.2 != h.3 &&
    g.3 != h.0 && g.3 != h.1 && g.3 != h.2 && g.3 != h.3
  }

  /** The four words group g addresses. */
  function Gather(s: seq<U32>, g: Group): (q: Quad)
    requires ValidGroup(g) && |s| == 16
  {
    Quad(s[g.0], s[g.1], s[g.2], s[g.3])
  }

  /** The state with the words group g addresses replaced by a, b, c and d:
      the write-back of one quarter round, for native words and for field
      elements alike. */
  function Write<T>(s: seq<T>, g: Group, a: T, b: T, c: T, d: T): (r: seq<T>)
    requires ValidGroup(g) && |s| == 16
    ensures |r| == 16
  {
    s[g.0 := a][g.1 := b][g.2 := c][g.3 := d]
  }

  /** The state with the words group g addresses replaced by q. */
  function Scatter(s: seq<U32>, g: Group, q: Quad): (r: seq<U32>)
    requires ValidGroup(g) && |s| == 16
    ensures |r| == 16
  {
    Write(s, g, q.a, q.b, q.c, q.d)
  }

  /** The quarter round of group g: the four addressed words are replaced by
      their quarter round. */
  function ApplyQuarterRound(s: seq<U32>, g: Group): (r: seq<U32>)
    requires |s| == 16 && ValidGroup(g)
    ensures |r| == 16
  {
    Scatter(s, g, QuarterRoundWords(Gather(s, g)))
  }

  /** The quarter rounds of the given groups, applied in order. */
  function QuarterRounds(s: seq<U32>, groups: seq<Group>): (r: seq<U32>)
    requires |s| == 16 && ValidGroups(groups)
    ensures |r| == 16
    decreases |groups|
  {
    if |groups| == 0 then s
    else QuarterRounds(ApplyQuarterRound(s, groups[0]), groups[1..])
  }

  /** One iteration of the block function's loop as written: the four column
      quarter rounds, then the four diagonal quarter rounds, each updating
      the state in place. */
  function InPlaceDoubleRound(s: seq<U32>): (r: seq<U32>)
    requires |s| == 16
    ensures |r| == 16
  {
    var s1 := QuarterRound(s, 0, 4, 8, 12);
    var s2 := QuarterRound(s1, 1, 5, 9, 13);
    var s3 := QuarterRound(s2, 2, 6, 10, 14);
    var s4 := QuarterRound(s3, 3, 7, 11, 15);
    var s5 := QuarterRound(s4, 0, 5, 10, 15);
    var s6 := QuarterRound(s5, 1, 6, 11, 12);
    var s7 := QuarterRound(s6, 2, 7, 8, 13);
    QuarterRound(s7, 3, 4, 9, 14)
  }

  /** A double round as quarter rounds on index groups: the columns, then
      the diagonals. */
  function DoubleRound(s: seq<U32>): (r: seq<U32>)
    requires |s| == 16
    ensures |r| == 16
  {
    GroupsValid();
    QuarterRounds(s, Columns + Diagonals)
  }

  /** Every column and every diagonal addresses four distinct words. */
  lemma GroupsValid()
    ensures ValidGroups(Columns) && ValidGroups(Diagonals) && ValidGroups(Columns + Diagonals)
  {
    forall k | 0 <= k < 4
      ensures ValidGroup(Columns[k]) && ValidGroup(Diagonals[k])
    {
    }
  }

  /** n iterations of the double round. */
  function Rounds(s: seq<U32>, n: nat): (r: seq<U32>)
    requires |s| == 16
    ensures |r| == 16
  {
    if n == 0 then s else DoubleRound(Rounds(s, n - 1))
  }

  /** n iterations of the block function's loop as written: each one the
      eight in-place quarter rounds. */
  function InPlaceRounds(s: seq<U32>, n: nat): (r: seq<U32>)
    requires |s| == 16
    ensures |r| == 16
  {
    if n == 0 then s else InPlaceDoubleRound(InPlaceRounds(s, n - 1))
  }

  /** The initial block state: constants, key, counter, nonce. */
  function Layout(key: seq<U32>, nonce: seq<U32>, counter: U32): (s: seq<U32>)
    requires |key| == 8 && |nonce| == 3
    ensures |s| == 16
    ensures s[..4] == Sigma && s[4..12] == key && s[12] == counter && s[13..] == nonce
  {
    var s := Sigma + key + [counter] + nonce;
    assert s[..4] == Sigma && s[4..12] == key && s[13..] == nonce;
    s
  }

  /** `chacha20_block_native`: 10 double rounds, then the original state is
      added back word by word. */
  function Block(key: seq<U32>, nonce: seq<U32>, counter: U32): (r: seq<U32>)
    requires |key| == 8 && |nonce| == 3
    ensures |r| == 16
  {
    var original := Layout(key, nonce, counter);
    AddStates(Rounds(original, DoubleRoundCount), original)
  }

  /** Word-wise `wrapping_add` of two 16-word states. */
  function AddStates(x: seq<U32>, y: seq<U32>): (r: seq<U32>)
    requires |x| == 16 && |y| == 16
    ensures |r| == 16
  {
    seq(16, i requires 0 <= i < 16 => WrappingAdd(x[i], y[i]))
  }

  /** `into_bigint().as_ref()[0] as u32`: the canonical value's low 64-bit
      limb cast to `u32`, i.e. its low 32 bits. */
  function ToU32(x: nat): (r: U32)
    ensures x < W ==> r == x
  {
    x % W
  }

  /** Every word of a sequence of field values read as a `u32`. */
  function Truncate(s: seq<nat>): (r: seq<U32>)
    ensures |r| == |s|
    ensures forall i :: 0 <= i < |s| ==> r[i] == s[i] % W
  {
    seq(|s|, i requires 0 <= i < |s| => ToU32(s[i]))
  }

  /** The keystream block for a folding state: key from slots 0-7, nonce
      from slots 8-10 and block counter from slot 11, each read as `u32`. */
  function Keystream(z: seq<nat>): (ks: seq<U32>)
    requires |z| >= 12
    ensures |ks| == 16
  {
    Block(Truncate(z[..8]), Truncate(z[8..11]), ToU32(z[11]))
  }

  /** `chacha20_step_native` over the field with modulus p: encrypt the
      plaintext block with the keystream block, store the incremented counter
      and the 16 ciphertext words (`F::from` reduces mod p). `counter + 1`
      panics on `u32` overflow, so the counter must not be 2^32 - 1. */
  function Step(z: seq<nat>, pt: seq<nat>, p: nat): (r: seq<nat>)
    requires |z| >= 28 && |pt| == 16 && p > 0
    requires ToU32(z[11]) < W - 1
    ensures |r| == |z| && r[..11] == z[..11] && r[28..] == z[28..]
    ensures r[11] == (ToU32(z[11]) + 1) % p
    ensures forall i :: 0 <= i < 16 ==> r[12 + i] == Xor(ToU32(pt[i]), Keystream(z)[i]) % p
  {
    var counter := ToU32(z[11]);
    NextState(z, (counter + 1) % p, Encrypt(pt, Keystream(z), p))
  }

  /** The plaintext words, read as `u32`, XOR-ed with the keystream and
      embedded in the field. */
  function Encrypt(pt: seq<nat>, ks: seq<U32>, p: nat): (ct: seq<nat>)
    requires |pt| == 16 && |ks| == 16 && p > 0
    ensures |ct| == 16
  {
    seq(16, i requires 0 <= i < 16 => Xor(ToU32(pt[i]), ks[i]) % p)
  }

  /** The state with the counter slot and the 16 block-output slots replaced. */
  function NextState(z: seq<nat>, counter: nat, ct: seq<nat>): (r: seq<nat>)
    requires |z| >= 28 && |ct| == 16
    ensures |r| == |z| && r[..11] == z[..11] && r[28..] == z[28..]
    ensures r[11] == counter
    ensures forall i :: 0 <= i < 16 ==> r[12 + i] == ct[i]
  {
    var head, tail := z[..11], z[28..];
    var r := head + [counter] + ct + tail;
    assert r[..11] == head && r[28..] == tail;
    r
  }

  // ---------------------------------------------------------------------
  // Properties of the word operations

  lemma {:induction false} BitXorCommutes(x: nat, y: nat, n: nat)
    ensures BitXor(x, y, n) == BitXor(y, x, n)
  {
    if n > 0 {
      BitXorCommutes(x / 2, y / 2, n - 1);
    }
  }

  /** `x ^ y == y ^ x`. */
  lemma XorCommutes(x: U32, y: U32)
    ensures Xor(x, y) == Xor(y, x)
  {
    BitXorCommutes(x, y, WordBits);
  }

  lemma {:induction false} BitXorCancels(x: nat, y: nat, n: nat)
    ensures BitXor(BitXor(x, y, n), y, n) == x % Pow2(n)
  {
    if n > 0 {
      var bit := BitWeight((x % 2 == 1) != (y % 2 == 1));
      var w := BitXor(x / 2, y / 2, n - 1);
      var z := BitXor(x, y, n);
      assert z == bit + 2 * w;
      assert z % 2 == bit && z / 2 == w;
      BitXorCancels(x / 2, y / 2, n - 1);
      ModPow2Step(x, n);
    }
  }

  /** `(x ^ y) ^ y == x`: the keystream XOR is undone by XOR-ing the same
      keystream again. */
  lemma XorCancels(x: U32, y: U32)
    ensures Xor(Xor(x, y), y) == x
  {
    BitXorCancels(x, y, WordBits);
    Pow2Values();
  }

  /** On the wires, a rotation by one moves the top bit to the bottom. */
  lemma RotateLeft1Bits(s: Word)
    ensures Val(RotateBits(s, 1)) == RotateLeft1(WordVal(s))
  {
    Pow2Values();
    RotateBitsOne(s);
    var low, top := s[..31], s[31..];
    assert s == low + top;
    ValAppend(low, top);
    ValBound(low);
    assert Val(top) == BitWeight(s[31]) by {
      assert top == [s[31]] && top[1..] == [];
    }
    ValAppend([s[31]], low);
    assert Val([s[31]]) == BitWeight(s[31]) by {
      assert [s[31]][1..] == [];
    }
    DivModUnique(Val(s), 0x8000_0000, BitWeight(s[31]), Val(low));
    DivModUnique(2 * Val(s), W, BitWeight(s[31]), 2 * Val(low));
  }

  /** `rotate_left` on a value acts on its 32 bits as the rotated wiring. */
  lemma {:induction false} RotateLeftBits(s: Word, k: nat)
    requires k <= 32
    ensures Val(RotateBits(s, k)) == RotateLeftBy(WordVal(s), k)
  {
    WordBelowW(s);
    if k == 0 {
      assert RotateBits(s, 0) == s;
    } else {
      var t := RotateBits(s, k - 1);
      RotateLeftBits(s, k - 1);
      RotateBitsStep(s, k);
      RotateLeft1Bits(t);
      calc {
        Val(RotateBits(s, k));
        Val(RotateBits(t, 1));
        RotateLeft1(Val(t));
        RotateLeft1(RotateLeftBy(WordVal(s), k - 1));
      }
    }
  }

  /** A rotation of a value is the rotated wiring of its 32 bits. */
  lemma RotateLeftByBits(x: U32, k: nat)
    requires k <= 32
    ensures RotateLeftBy(x, k) == Val(RotateBits(ToBits(x, WordBits), k))
  {
    var s := ToBits(x, WordBits);
    assert Val(s) == x by {
      WordBitsVal(x);
    }
    RotateLeftBits(s, k);
  }

  /** Rotating by k and then by 32 - k, one bit at a time, restores x. */
  lemma RotateLeftByInverse(x: U32, k: nat)
    requires k <= 32
    ensures RotateLeftBy(RotateLeftBy(x, k), 32 - k) == x
  {
    var s: Word := ToBits(x, WordBits);
    var t := RotateBits(s, k);
    assert Val(s) == x by {
      WordBitsVal(x);
    }
    assert Val(t) == RotateLeftBy(x, k) by {
      RotateLeftByBits(x, k);
    }
    assert Val(RotateBits(t, 32 - k)) == RotateLeftBy(RotateLeftBy(x, k), 32 - k) by {
      RotateLeftBits(t, 32 - k);
    }
    assert RotateBits(t, 32 - k) == s by {
      RotateBitsInverse(s, k);
    }
  }

  /** Rotating left by n and then by 32 - n restores the word. */
  lemma RotateLeftInverse(x: U32, n: nat)
    requires n <= 32
    ensures RotateLeft(RotateLeft(x, n), 32 - n) == x
  {
    if n % 32 != 0 {
      assert n % 32 == n && (32 - n) % 32 == 32 - n;
      RotateLeftByInverse(x, n);
    } else {
      assert (32 - n) % 32 == 0;
    }
  }

  /** Rotating by 16 twice is the identity. */
  lemma RotateLeft16Twice(x: U32)
    ensures RotateLeft(RotateLeft(x, 16), 16) == x
  {
    RotateLeftInverse(x, 16);
  }

  // ---------------------------------------------------------------------
  // Properties of the quarter round

  /** Writing the words of one group leaves the words of a disjoint group
      as they were. */
  lemma ScatterFrame(t: seq<U32>, g: Group, h: Group, q: Quad)
    requires |t| == 16 && ValidGroup(g) && ValidGroup(h) && Disjoint(g, h)
    ensures Gather(Scatter(t, g, q), h) == Gather(t, h)
  {
  }

  /** The quarter rounds of a list of four groups, one after another. */
  lemma QuarterRoundsFour(t: seq<U32>, gs: seq<Group>)
    requires |t| == 16 && |gs| == 4 && ValidGroups(gs)
    ensures QuarterRounds(t, gs)
         == ApplyQuarterRound(ApplyQuarterRound(ApplyQuarterRound(ApplyQuarterRound(t,
              gs[0]), gs[1]), gs[2]), gs[3])
  {
    var t1 := ApplyQuarterRound(t, gs[0]);
    var t2 := ApplyQuarterRound(t1, gs[1]);
    var t3 := ApplyQuarterRound(t2, gs[2]);
    var t4 := ApplyQuarterRound(t3, gs[3]);
    assert QuarterRounds(t3, gs[3..]) == t4 by {
      assert gs[3..][1..] == [];
    }
    assert QuarterRounds(t2, gs[2..]) == QuarterRounds(t3, gs[3..]) by {
      assert gs[2..][1..] == gs[3..];
    }
    assert QuarterRounds(t1, gs[1..]) == QuarterRounds(t2, gs[2..]) by {
      assert gs[1..][1..] == gs[2..];
    }
  }

  /** Quarter rounds of groups addressing pairwise distinct words do not see
      each other's writes: the four of a column or diagonal half round can
      all read the incoming state. */
  lemma QuarterRoundsIndependent(t: seq<U32>, g0: Group, g1: Group, g2: Group, g3: Group)
    requires |t| == 16
    requires ValidGroup(g0) && ValidGroup(g1) && ValidGroup(g2) && ValidGroup(g3)
    requires Disjoint(g0, g1) && Disjoint(g0, g2) && Disjoint(g0, g3)
    requires Disjoint(g1, g2) && Disjoint(g1, g3) && Disjoint(g2, g3)
    ensures ValidGroups([g0, g1, g2, g3])
    ensures QuarterRounds(t, [g0, g1, g2, g3])
         == Scatter(Scatter(Scatter(Scatter(t,
              g0, QuarterRoundWords(Gather(t, g0))),
              g1, QuarterRoundWords(Gather(t, g1))),
              g2, QuarterRoundWords(Gather(t, g2))),
              g3, QuarterRoundWords(Gather(t, g3)))
  {
    var gs: seq<Group> := [g0, g1, g2, g3];
    var t1 := ApplyQuarterRound(t, g0);
    var t2 := ApplyQuarterRound(t1, g1);
    var t3 := ApplyQuarterRound(t2, g2);
    assert ValidGroups(gs);
    QuarterRoundsFour(t, gs);
    ScatterFrame(t, g0, g1, QuarterRoundWords(Gather(t, g0)));
    ScatterFrame(t, g0, g2, QuarterRoundWords(Gather(t, g0)));
    ScatterFrame(t1, g1, g2, QuarterRoundWords(Gather(t1, g1)));
    ScatterFrame(t, g0, g3, QuarterRoundWords(Gather(t, g0)));
    ScatterFrame(t1, g1, g3, QuarterRoundWords(Gather(t1, g1)));
    ScatterFrame(t2, g2, g3, QuarterRoundWords(Gather(t2, g2)));
  }

  /** With four distinct indices, the in-place quarter round of
      `quarter_round_native` is the quarter round of the four addressed
      words written back to their places. */
  lemma QuarterRoundLocal(s: seq<U32>, a: nat, b: nat, c: nat, d: nat)
    requires |s| == 16 && ValidGroup((a, b, c, d))
    ensures QuarterRound(s, a, b, c, d) == ApplyQuarterRound(s, (a, b, c, d))
  {
  }

  /** Quarter rounds over a concatenation of group lists. */
  lemma {:induction false} QuarterRoundsAppend(s: seq<U32>, g1: seq<Group>, g2: seq<Group>)
    decreases |g1|
    requires |s| == 16 && ValidGroups(g1) && ValidGroups(g2)
    ensures ValidGroups(g1 + g2)
    ensures QuarterRounds(s, g1 + g2) == QuarterRounds(QuarterRounds(s, g1), g2)
  {
    if |g1| == 0 {
      assert g1 + g2 == g2;
    } else {
      assert (g1 + g2)[0] == g1[0] && (g1 + g2)[1..] == g1[1..] + g2;
      QuarterRoundsAppend(ApplyQuarterRound(s, g1[0]), g1[1..], g2);
    }
  }

  /** The double round is the column half round followed by the diagonal
      half round. */
  lemma DoubleRoundHalves(s: seq<U32>)
    requires |s| == 16
    ensures ValidGroups(Columns) && ValidGroups(Diagonals)
    ensures DoubleRound(s) == QuarterRounds(QuarterRounds(s, Columns), Diagonals)
  {
    GroupsValid();
    QuarterRoundsAppend(s, Columns, Diagonals);
  }

  /** The eight in-place quarter rounds of the block function's loop compute
      the double round on index groups. */
  lemma InPlaceDoubleRoundGroups(s: seq<U32>)
    requires |s| == 16
    ensures InPlaceDoubleRound(s) == DoubleRound(s)
  {
    DoubleRoundHalves(s);
    var s1 := ApplyQuarterRound(s, Columns[0]);
    var s2 := ApplyQuarterRound(s1, Columns[1]);
    var s3 := ApplyQuarterRound(s2, Columns[2]);
    var s4 := ApplyQuarterRound(s3, Columns[3]);
    var s5 := ApplyQuarterRound(s4, Diagonals[0]);
    var s6 := ApplyQuarterRound(s5, Diagonals[1]);
    var s7 := ApplyQuarterRound(s6, Diagonals[2]);
    QuarterRoundLocal(s, 0, 4, 8, 12);
    QuarterRoundLocal(s1, 1, 5, 9, 13);
    QuarterRoundLocal(s2, 2, 6, 10, 14);
    QuarterRoundLocal(s3, 3, 7, 11, 15);
    QuarterRoundLocal(s4, 0, 5, 10, 15);
    QuarterRoundLocal(s5, 1, 6, 11, 12);
    QuarterRoundLocal(s6, 2, 7, 8, 13);
    QuarterRoundLocal(s7, 3, 4, 9, 14);
    QuarterRoundsFour(s, Columns);
    QuarterRoundsFour(s4, Diagonals);
  }

  /** Any number of iterations of the loop as written compute the same
      rounds as the double round on index groups. */
  lemma InPlaceRoundsAgree(s: seq<U32>, n: nat)
    requires |s| == 16
    ensures InPlaceRounds(s, n) == Rounds(s, n)
  {
    for k := 0 to n
      invariant InPlaceRounds(s, k) == Rounds(s, k)
    {
      InPlaceRoundStep(s, k + 1);
    }
  }

  /** One more iteration keeps the loop as written and the double rounds on
      index groups in step. */
  lemma InPlaceRoundStep(s: seq<U32>, n: nat)
    requires |s| == 16 && n > 0 && InPlaceRounds(s, n - 1) == Rounds(s, n - 1)
    ensures InPlaceRounds(s, n) == Rounds(s, n)
  {
    InPlaceDoubleRoundGroups(InPlaceRounds(s, n - 1));
  }

  /** `chacha20_block_native` as written, with its in-place loop, is the
      block function on index groups. */
  lemma BlockAsWritten(key: seq<U32>, nonce: seq<U32>, counter: U32)
    requires |key| == 8 && |nonce| == 3
    ensures var original := Layout(key, nonce, counter);
            Block(key, nonce, counter) == AddStates(InPlaceRounds(original, DoubleRoundCount), original)
  {
    InPlaceRoundsAgree(Layout(key, nonce, counter), DoubleRoundCount);
  }

  /** The quarter round run backwards: each add is undone by a subtraction
      and each xor-rotate by the opposite rotation and the same xor. */
  function InverseQuarterRound(q: Quad): (r: Quad) {
    var b1 := Xor(RotateLeft(q.b, 25), q.c);
    var c1 := WrappingSub(q.c, q.d);
    var d1 := Xor(RotateLeft(q.d, 24), q.a);
    var a1 := WrappingSub(q.a, b1);
    var b := Xor(RotateLeft(b1, 20), c1);
    var c := WrappingSub(c1, d1);
    var d := Xor(RotateLeft(d1, 16), a1);
    var a := WrappingSub(a1, b);
    Quad(a, b, c, d)
  }

  /** The quarter round is a permutation of four-word blocks: running it
      backwards restores its input. */
  lemma QuarterRoundInverts(q: Quad)
    ensures InverseQuarterRound(QuarterRoundWords(q)) == q
  {
    var a1 := WrappingAdd(q.a, q.b);
    var x1 := Xor(q.d, a1);
    var d1 := RotateLeft(x1, 16);
    var c1 := WrappingAdd(q.c, d1);
    var y1 := Xor(q.b, c1);
    var b1 := RotateLeft(y1, 12);
    var a2 := WrappingAdd(a1, b1);
    var x2 := Xor(d1, a2);
    var d2 := RotateLeft(x2, 8);
    var c2 := WrappingAdd(c1, d2);
    var y2 := Xor(b1, c2);
    var b2 := RotateLeft(y2, 7);
    assert QuarterRoundWords(q) == Quad(a2, b2, c2, d2);
    assert RotateLeft(b2, 25) == y2 by { RotateLeftInverse(y2, 7); }
    assert Xor(y2, c2) == b1 by { XorCancels(b1, c2); }
    assert WrappingSub(c2, d2) == c1;
    assert RotateLeft(d2, 24) == x2 by { RotateLeftInverse(x2, 8); }
    assert Xor(x2, a2) == d1 by { XorCancels(d1, a2); }
    assert WrappingSub(a2, b1) == a1;
    assert RotateLeft(b1, 20) == y1 by { RotateLeftInverse(y1, 12); }
    assert Xor(y1, c1) == q.b by { XorCancels(q.b, c1); }
    assert WrappingSub(c1, d1) == q.c;
    assert RotateLeft(d1, 16) == x1 by { RotateLeftInverse(x1, 16); }
    assert Xor(x1, a1) == q.d by { XorCancels(q.d, a1); }
    assert WrappingSub(a1, q.b) == q.a;
  }

  // ---------------------------------------------------------------------
  // Properties of the step

  /** One ciphertext word, embedded in a field that holds every `u32`, XOR-ed
      again with its keystream word gives back the plaintext word. */
  lemma DecryptWord(x: U32, k: U32, c: nat, p: nat)
    requires p >= W && c == Xor(x, k) % p
    ensures Xor(ToU32(c), k) == x
  {
    var e := Xor(x, k);
    DivModUnique(e, p, 0, e);
    DivModUnique(e, W, 0, e);
    XorCancels(x, k);
  }

  /** When the field holds every `u32` value, XOR-ing a stored ciphertext
      word with the same keystream word gives back the plaintext word. */
  lemma StepDecrypts(z: seq<nat>, pt: seq<nat>, p: nat)
    requires |z| >= 28 && |pt| == 16 && p >= W
    requires ToU32(z[11]) < W - 1
    ensures forall i :: 0 <= i < 16 ==>
              Xor(ToU32(Step(z, pt, p)[12 + i]), Keystream(z)[i]) == ToU32(pt[i])
  {
    var r, ks := Step(z, pt, p), Keystream(z);
    forall i | 0 <= i < 16
      ensures Xor(ToU32(r[12 + i]), ks[i]) == ToU32(pt[i])
    {
      DecryptWord(ToU32(pt[i]), ks[i], r[12 + i], p);
    }
  }
}
