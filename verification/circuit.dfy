/** The step circuit of the ChaCha20 folding example: the quarter round,
    double round and block gadgets built from the 32-bit gadgets, and the
    step that encrypts one plaintext block and advances the counter. Field
    elements are naturals below the modulus p. */
module Circuit {
  import opened Words
  import opened Field
  import opened Native
  import opened Gadgets

  /** `state_len`: key (8 words), nonce (3), counter (1), block output (16). */
  const StateLen: nat := 28

  /** `quarter_round`: the four inputs are read as words (their low 32
      bits), go through the add/xor/rotate steps with rotations 16, 12, 8
      and 7, and are embedded back into the field. */
  method QuarterRoundGadget(a: nat, b: nat, c: nat, d: nat, p: nat) returns (a': nat, b': nat, c': nat, d': nat)
    requires p >= 2 && a < p && b < p && c < p && d < p
    ensures var q := QuarterRoundWords(Quad(ToU32(a), ToU32(b), ToU32(c), ToU32(d)));
            a' == q.a % p && b' == q.b % p && c' == q.c % p && d' == q.d % p
    ensures a' < W && b' < W && c' < W && d' < W
    ensures var q := QuarterRoundWords(Quad(ToU32(a), ToU32(b), ToU32(c), ToU32(d)));
            p >= W ==> a' == q.a && b' == q.b && c' == q.c && d' == q.d
  {
    var aw := FpToWord(a, p);
    var bw := FpToWord(b, p);
    var cw := FpToWord(c, p);
    var dw := FpToWord(d, p);

    var a1 := AddWord(aw, bw);
    var d1 := XorWord(dw, a1);
    var d2 := RotateLeftWord(d1, 16);

    var c1 := AddWord(cw, d2);
    var b1 := XorWord(bw, c1);
    var b2 := RotateLeftWord(b1, 12);

    var a2 := AddWord(a1, b2);
    var d3 := XorWord(d2, a2);
    var d4 := RotateLeftWord(d3, 8);

    var c2 := AddWord(c1, d4);
    var b3 := XorWord(b2, c2);
    var b4 := RotateLeftWord(b3, 7);

    a' := WordToFp(a2, p);
    b' := WordToFp(b4, p);
    c' := WordToFp(c2, p);
    d' := WordToFp(d4, p);
    ghost var q := QuarterRoundWords(Quad(ToU32(a), ToU32(b), ToU32(c), ToU32(d)));
    ModBelow(q.a, p);
    ModBelow(q.b, p);
    ModBelow(q.c, p);
    ModBelow(q.d, p);
  }

  /** Index i is one of the four words group g addresses. */
  predicate InGroup(i: nat, g: Group) {
    i == g.0 || i == g.1 || i == g.2 || i == g.3
  }

  /** Together the four groups address every word of the state. */
  predicate Covers(g0: Group, g1: Group, g2: Group, g3: Group) {
    forall i :: 0 <= i < 16 ==> InGroup(i, g0) || InGroup(i, g1) || InGroup(i, g2) || InGroup(i, g3)
  }

  /** Writing field elements into a state of field elements keeps every
      word below the modulus. */
  lemma WriteBound(s: seq<nat>, g: Group, a: nat, b: nat, c: nat, d: nat, p: nat)
    requires |s| == 16 && ValidGroup(g)
    requires forall i :: 0 <= i < 16 ==> s[i] < p
    requires a < p && b < p && c < p && d < p
    ensures forall i :: 0 <= i < 16 ==> Write(s, g, a, b, c, d)[i] < p
  {
  }

  /** Writing the four quarter rounds' field elements back keeps every word
      below the modulus. */
  lemma WriteAllBound(s: seq<nat>, g0: Group, g1: Group, g2: Group, g3: Group,
                      q0: Quad, q1: Quad, q2: Quad, q3: Quad, p: nat, r: seq<nat>)
    requires |s| == 16 && ValidGroup(g0) && ValidGroup(g1) && ValidGroup(g2) && ValidGroup(g3)
    requires forall i :: 0 <= i < 16 ==> s[i] < p
    requires q0.a < p && q0.b < p && q0.c < p && q0.d < p
    requires q1.a < p && q1.b < p && q1.c < p && q1.d < p
    requires q2.a < p && q2.b < p && q2.c < p && q2.d < p
    requires q3.a < p && q3.b < p && q3.c < p && q3.d < p
    requires r == Write(Write(Write(Write(s, g0, q0.a, q0.b, q0.c, q0.d),
                   g1, q1.a, q1.b, q1.c, q1.d), g2, q2.a, q2.b, q2.c, q2.d), g3, q3.a, q3.b, q3.c, q3.d)
    ensures |r| == 16 && forall i :: 0 <= i < 16 ==> r[i] < p
  {
    var r0 := Write(s, g0, q0.a, q0.b, q0.c, q0.d);
    WriteBound(s, g0, q0.a, q0.b, q0.c, q0.d, p);
    var r1 := Write(r0, g1, q1.a, q1.b, q1.c, q1.d);
    WriteBound(r0, g1, q1.a, q1.b, q1.c, q1.d, p);
    var r2 := Write(r1, g2, q2.a, q2.b, q2.c, q2.d);
    WriteBound(r1, g2, q2.a, q2.b, q2.c, q2.d, p);
    WriteBound(r2, g3, q3.a, q3.b, q3.c, q3.d, p);
  }

  /** When four groups address every word, writing all of them leaves
      nothing of the state they were written into. */
  lemma UpdatesCover(s: seq<nat>, t: seq<U32>, g0: Group, g1: Group, g2: Group, g3: Group,
                     q0: Quad, q1: Quad, q2: Quad, q3: Quad)
    requires |s| == 16 && |t| == 16
    requires ValidGroup(g0) && ValidGroup(g1) && ValidGroup(g2) && ValidGroup(g3)
    requires Covers(g0, g1, g2, g3)
    ensures Write(Write(Write(Write(s, g0, q0.a, q0.b, q0.c, q0.d),
              g1, q1.a, q1.b, q1.c, q1.d), g2, q2.a, q2.b, q2.c, q2.d), g3, q3.a, q3.b, q3.c, q3.d)
         == Scatter(Scatter(Scatter(Scatter(t, g0, q0), g1, q1), g2, q2), g3, q3)
  {
    var x := Write(Write(Write(Write(s, g0, q0.a, q0.b, q0.c, q0.d),
               g1, q1.a, q1.b, q1.c, q1.d), g2, q2.a, q2.b, q2.c, q2.d), g3, q3.a, q3.b, q3.c, q3.d);
    var y := Scatter(Scatter(Scatter(Scatter(t, g0, q0), g1, q1), g2, q2), g3, q3);
    forall i | 0 <= i < 16
      ensures x[i] == y[i]
    {
      assert InGroup(i, g0) || InGroup(i, g1) || InGroup(i, g2) || InGroup(i, g3);
    }
  }

  /** Half of `chacha20_round`: the quarter rounds of four groups, all
      reading the incoming state, and then their results written back. */
  method HalfRound(s: seq<nat>, g0: Group, g1: Group, g2: Group, g3: Group, p: nat) returns (r: seq<nat>)
    requires |s| == 16 && p >= 2 && forall i :: 0 <= i < 16 ==> s[i] < p
    requires Partition(g0, g1, g2, g3)
    ensures |r| == 16 && forall i :: 0 <= i < 16 ==> r[i] < p
    ensures p >= W ==> ValidGroups([g0, g1, g2, g3]) && r == QuarterRounds(Truncate(s), [g0, g1, g2, g3])
  {
    var q0 := GroupGadget(s, g0, p);
    var q1 := GroupGadget(s, g1, p);
    var q2 := GroupGadget(s, g2, p);
    var q3 := GroupGadget(s, g3, p);
    r := Write(Write(Write(Write(s, g0, q0.a, q0.b, q0.c, q0.d),
           g1, q1.a, q1.b, q1.c, q1.d), g2, q2.a, q2.b, q2.c, q2.d), g3, q3.a, q3.b, q3.c, q3.d);
    WriteAllBound(s, g0, g1, g2, g3, q0, q1, q2, q3, p, r);
    if p >= W {
      HalfRoundAgrees(s, g0, g1, g2, g3, q0, q1, q2, q3);
    }
  }

  /** One `quarter_round` call of `chacha20_round`: the gadget applied to the
      four words group g addresses. Its outputs are `u32` values in the
      field; when the field holds every `u32` they are the native quarter
      round of those words. */
  method GroupGadget(s: seq<nat>, g: Group, p: nat) returns (q: Quad)
    requires |s| == 16 && p >= 2 && ValidGroup(g)
    requires forall i :: 0 <= i < 16 ==> s[i] < p
    ensures q.a < p && q.b < p && q.c < p && q.d < p
    ensures p >= W ==> q == QuarterRoundWords(Gather(Truncate(s), g))
  {
    var a, b, c, d := QuarterRoundGadget(s[g.0], s[g.1], s[g.2], s[g.3], p);
    q := Quad(a, b, c, d);
    if p >= W {
      GatherTruncate(s, g);
    }
  }

  /** The words a group addresses in a state of field elements, read as
      `u32`. */
  lemma GatherTruncate(s: seq<nat>, g: Group)
    requires |s| == 16 && ValidGroup(g)
    ensures Gather(Truncate(s), g) == Quad(ToU32(s[g.0]), ToU32(s[g.1]), ToU32(s[g.2]), ToU32(s[g.3]))
  {
  }

  /** The write-back of four quarter rounds that all read the same words is
      the quarter rounds of the four groups applied one after another. */
  lemma HalfRoundAgrees(s: seq<nat>, g0: Group, g1: Group, g2: Group, g3: Group,
                        q0: Quad, q1: Quad, q2: Quad, q3: Quad)
    requires |s| == 16 && Partition(g0, g1, g2, g3)
    requires q0 == QuarterRoundWords(Gather(Truncate(s), g0))
    requires q1 == QuarterRoundWords(Gather(Truncate(s), g1))
    requires q2 == QuarterRoundWords(Gather(Truncate(s), g2))
    requires q3 == QuarterRoundWords(Gather(Truncate(s), g3))
    ensures ValidGroups([g0, g1, g2, g3])
    ensures Write(Write(Write(Write(s, g0, q0.a, q0.b, q0.c, q0.d),
              g1, q1.a, q1.b, q1.c, q1.d), g2, q2.a, q2.b, q2.c, q2.d), g3, q3.a, q3.b, q3.c, q3.d)
         == QuarterRounds(Truncate(s), [g0, g1, g2, g3])
  {
    var t := Truncate(s);
    QuarterRoundsIndependent(t, g0, g1, g2, g3);
    UpdatesCover(s, t, g0, g1, g2, g3, q0, q1, q2, q3);
  }

  /** Four groups that can form a half round: each addresses four distinct
      words, no word twice, and every word once. */
  predicate Partition(g0: Group, g1: Group, g2: Group, g3: Group) {
    ValidGroup(g0) && ValidGroup(g1) && ValidGroup(g2) && ValidGroup(g3) &&
    Disjoint(g0, g1) && Disjoint(g0, g2) && Disjoint(g0, g3) &&
    Disjoint(g1, g2) && Disjoint(g1, g3) && Disjoint(g2, g3) &&
    Covers(g0, g1, g2, g3)
  }

  /** The columns and the diagonals each partition the state. */
  lemma HalvesPartition()
    ensures Partition(Columns[0], Columns[1], Columns[2], Columns[3])
    ensures Partition(Diagonals[0], Diagonals[1], Diagonals[2], Diagonals[3])
  {
    forall i | 0 <= i < 16
      ensures InGroup(i, Columns[i % 4])
      ensures InGroup(i, Diagonals[(i % 4 + 4 - i / 4) % 4])
    {
    }
  }

  /** Reading words as words changes nothing. */
  lemma TruncateWords(s: seq<U32>)
    ensures Truncate(s) == s
  {
    forall i | 0 <= i < |s|
      ensures Truncate(s)[i] == s[i]
    {
      ModBelow(s[i], W);
    }
  }

  /** `chacha20_round`: the column half round, then the diagonal half round
      on the updated state. */
  method RoundGadget(state: seq<nat>, p: nat) returns (r: seq<nat>)
    requires |state| == 16 && p >= 2 && forall i :: 0 <= i < 16 ==> state[i] < p
    ensures |r| == 16 && forall i :: 0 <= i < 16 ==> r[i] < p
    ensures p >= W ==> r == DoubleRound(Truncate(state))
  {
    HalvesPartition();
    var mid := HalfRound(state, Columns[0], Columns[1], Columns[2], Columns[3], p);
    r := HalfRound(mid, Diagonals[0], Diagonals[1], Diagonals[2], Diagonals[3], p);
    if p >= W {
      DoubleRoundHalves(Truncate(state));
      TruncateWords(QuarterRounds(Truncate(state), Columns));
    }
  }

  /** The final addition of the block, done in a field wide enough for the
      sum of two words, stays below 2^33 and, truncated to 32 bits, is
      `wrapping_add`. */
  lemma CombineTruncates(x: U32, y: U32, p: nat)
    requires NoWrap(p)
    ensures Add(x, y, p) == x + y && x + y < 2 * W - 1
    ensures ToU32(Add(x, y, p)) == WrappingAdd(x, y)
  {
    ModBelow(x + y, p);
    if x + y >= W {
      DivModUnique(x + y, W, 1, x + y - W);
    } else {
      DivModUnique(x + y, W, 0, x + y);
    }
  }

  /** `chacha20_block_gadget` on the first 12 words of the folding state:
      the block state is the constants, the key (words 0-7), the counter
      (word 11) and the nonce (words 8-10); ten rounds are applied and the
      initial state is added back with a field addition. */
  method BlockGadget(prefix: seq<nat>, p: nat) returns (ks: seq<nat>)
    requires |prefix| == 12 && p >= 2 && forall i :: 0 <= i < 12 ==> prefix[i] < p
    ensures |ks| == 16 && forall i :: 0 <= i < 16 ==> ks[i] < p
    ensures NoWrap(p) && (forall i :: 0 <= i < 12 ==> prefix[i] < W) ==>
              forall i :: 0 <= i < 16 ==> ks[i] < 2 * W - 1 && ToU32(ks[i]) == Keystream(prefix)[i]
    ensures NoWrap(p) && CombineFits(prefix, p) ==>
              forall i :: 0 <= i < 16 ==> ToU32(ks[i]) == Keystream(prefix)[i]
  {
    var state: seq<nat> := BlockState(prefix, p);
    var working: seq<nat> := state;
    for round := 0 to DoubleRoundCount
      invariant |working| == 16 && forall i :: 0 <= i < 16 ==> working[i] < p
      invariant round == 0 ==> working == state
      invariant round > 0 && p >= W ==> working == Rounds(Truncate(state), round)
    {
      var next := RoundGadget(working, p);
      if p >= W && round > 0 {
        TruncateWords(Rounds(Truncate(state), round));
      }
      working := next;
    }
    ks := [];
    for i := 0 to 16
      invariant |ks| == i
      invariant forall j :: 0 <= j < i ==> ks[j] == Add(state[j], working[j], p)
    {
      ks := ks + [Add(state[i], working[i], p)];
    }
    if NoWrap(p) && CombineFits(prefix, p) {
      BlockAgreesWide(prefix, working, ks, p);
    }
    if NoWrap(p) && (forall i :: 0 <= i < 12 ==> prefix[i] < W) {
      BlockAgrees(prefix, working, ks, p);
    }
  }

  /** The initial block state the gadget pushes: the four constants
      embedded in the field, the key (prefix words 0-7), the counter (prefix
      word 11) and the nonce (prefix words 8-10). */
  function BlockState(prefix: seq<nat>, p: nat): (s: seq<nat>)
    requires |prefix| == 12 && p > 0
    ensures |s| == 16
    ensures forall i :: 0 <= i < 4 ==> s[i] == Sigma[i] % p
    ensures s[4..12] == prefix[..8] && s[12] == prefix[11] && s[13..] == prefix[8..11]
  {
    var s := [Sigma[0] % p, Sigma[1] % p, Sigma[2] % p, Sigma[3] % p] + prefix[..8] + [prefix[11]] + prefix[8..11];
    assert s[4..12] == prefix[..8] && s[13..] == prefix[8..11];
    s
  }

  /** For words below 2^32 in a field holding every `u32`, the gadget's block
      state is the native initial state: constants, key, counter, nonce. */
  lemma BlockStateLayout(prefix: seq<nat>, p: nat)
    requires |prefix| == 12 && p >= W && forall i :: 0 <= i < 12 ==> prefix[i] < W
    ensures BlockState(prefix, p) == Layout(Truncate(prefix[..8]), Truncate(prefix[8..11]), ToU32(prefix[11]))
  {
    var state := BlockState(prefix, p);
    var init := Layout(Truncate(prefix[..8]), Truncate(prefix[8..11]), ToU32(prefix[11]));
    forall i | 0 <= i < 16
      ensures state[i] == init[i]
    {
      if i < 4 {
        ModBelow(Sigma[i], p);
      } else {
        ModBelow(state[i], W);
      }
    }
  }

  /** With words below 2^32 in a wide field, the gadget's final field
      addition, truncated, is the native keystream. */
  lemma BlockAgrees(prefix: seq<nat>, working: seq<nat>, ks: seq<nat>, p: nat)
    requires |prefix| == 12 && NoWrap(p) && forall i :: 0 <= i < 12 ==> prefix[i] < W
    requires working == Rounds(Truncate(BlockState(prefix, p)), DoubleRoundCount)
    requires |ks| == 16 && forall j :: 0 <= j < 16 ==> ks[j] == Add(BlockState(prefix, p)[j], working[j], p)
    ensures forall i :: 0 <= i < 16 ==> ks[i] < 2 * W - 1 && ToU32(ks[i]) == Keystream(prefix)[i]
  {
    var init := Layout(Truncate(prefix[..8]), Truncate(prefix[8..11]), ToU32(prefix[11]));
    BlockStateLayout(prefix, p);
    TruncateWords(init);
    var rounds := Rounds(init, DoubleRoundCount);
    forall i | 0 <= i < 16
      ensures ks[i] < 2 * W - 1 && ToU32(ks[i]) == Keystream(prefix)[i]
    {
      CombineTruncates(init[i], rounds[i], p);
    }
  }

  /** Every key, nonce and counter word of the prefix plus any `u32` stays
      below the modulus, so the block's final field addition cannot wrap. */
  predicate CombineFits(prefix: seq<nat>, p: nat) {
    forall i :: 0 <= i < |prefix| ==> prefix[i] + (W - 1) < p
  }

  /** Words below 2^32 in a field that holds the sum of two words fit. */
  lemma WordsFit(prefix: seq<nat>, p: nat)
    requires NoWrap(p) && forall i :: 0 <= i < |prefix| ==> prefix[i] < W
    ensures CombineFits(prefix, p)
  {
  }

  /** A field sum that does not wrap, read as `u32`, is `wrapping_add` of
      the first operand's low 32 bits and the second operand. */
  lemma AddTruncates(x: nat, y: U32, p: nat)
    requires x + y < p
    ensures ToU32(Add(x, y, p)) == WrappingAdd(ToU32(x), y)
  {
    ModBelow(x + y, p);
    var q, s := x / W, x % W + y;
    if s < W {
      DivModUnique(x + y, W, q, s);
    } else {
      DivModUnique(x + y, W, q + 1, s - W);
    }
  }

  /** In a field holding every `u32`, the low 32 bits of the gadget's block
      state are the native initial state, whatever the high bits of the key,
      nonce and counter words. */
  lemma TruncatedBlockState(prefix: seq<nat>, p: nat)
    requires |prefix| == 12 && p >= W
    ensures Truncate(BlockState(prefix, p)) == Layout(Truncate(prefix[..8]), Truncate(prefix[8..11]), ToU32(prefix[11]))
  {
    var state := Truncate(BlockState(prefix, p));
    var init := Layout(Truncate(prefix[..8]), Truncate(prefix[8..11]), ToU32(prefix[11]));
    forall i | 0 <= i < 16
      ensures state[i] == init[i]
    {
      if i < 4 {
        ModBelow(Sigma[i], p);
        ModBelow(Sigma[i], W);
      } else if i < 12 {
        assert init[i] == init[4..12][i - 4];
      } else if i > 12 {
        assert init[i] == init[13..][i - 13];
      }
    }
  }

  /** Word i of the gadget's block state plus any `u32` stays below the
      modulus when the prefix fits. */
  lemma BlockStateFits(prefix: seq<nat>, p: nat, i: nat)
    requires |prefix| == 12 && NoWrap(p) && CombineFits(prefix, p) && i < 16
    ensures BlockState(prefix, p)[i] + (W - 1) < p
  {
    var state := BlockState(prefix, p);
    if i < 4 {
      ModBelow(Sigma[i], p);
    } else if i < 12 {
      assert state[i] == state[4..12][i - 4];
    } else if i > 12 {
      assert state[i] == state[13..][i - 13];
    }
  }

  /** When every prefix word plus any `u32` stays below the modulus, the
      gadget's final field addition, read as `u32`, is the native keystream:
      the rounds read only the low 32 bits of the key, nonce and counter
      words, and the sum keeps the low bits of the untruncated word. */
  lemma BlockAgreesWide(prefix: seq<nat>, working: seq<nat>, ks: seq<nat>, p: nat)
    requires |prefix| == 12 && NoWrap(p) && CombineFits(prefix, p)
    requires working == Rounds(Truncate(BlockState(prefix, p)), DoubleRoundCount)
    requires |ks| == 16 && forall j :: 0 <= j < 16 ==> ks[j] == Add(BlockState(prefix, p)[j], working[j], p)
    ensures forall i :: 0 <= i < 16 ==> ToU32(ks[i]) == Keystream(prefix)[i]
  {
    var state := BlockState(prefix, p);
    TruncatedBlockState(prefix, p);
    forall i | 0 <= i < 16
      ensures ToU32(ks[i]) == Keystream(prefix)[i]
    {
      BlockStateFits(prefix, p, i);
      AddTruncates(state[i], working[i], p);
    }
  }

  /** One word of the step's encryption: the plaintext and keystream field
      elements are read as words, XOR-ed, and the result embedded back. */
  method EncryptWord(x: nat, k: nat, p: nat) returns (c: nat)
    requires p >= 2 && x < p && k < p
    ensures c == Xor(ToU32(x), ToU32(k)) % p
    ensures c < W
  {
    var xw := FpToWord(x, p);
    var kw := FpToWord(k, p);
    var cw := XorWord(xw, kw);
    c := WordToFp(cw, p);
    ModBelow(Xor(ToU32(x), ToU32(k)), p);
  }

  /** `generate_step_constraints`: the counter slot becomes the field sum
      counter + 1, the block gadget runs on the first 12 slots, and each
      plaintext word is read as a word, XOR-ed with the keystream word and
      stored in slots 12-27. Slots 0-10 and any slot past 27 are carried
      over. The keystream the block gadget computes is returned beside the
      next state. When the field holds the sum of two words, every key,
      nonce and counter word plus any `u32` stays below the modulus and the
      counter does not overflow, the keystream is the native one and the
      result is the native step. */
  method StepGadget(z: seq<nat>, pt: seq<nat>, p: nat) returns (next: seq<nat>, ks: seq<nat>)
    requires |z| >= StateLen && |pt| == 16 && p >= 2
    requires forall i :: 0 <= i < |z| ==> z[i] < p
    requires forall i :: 0 <= i < 16 ==> pt[i] < p
    ensures |next| == |z| && next[..11] == z[..11] && next[28..] == z[28..]
    ensures next[11] == Add(z[11], 1, p)
    ensures |ks| == 16 && forall i :: 0 <= i < 16 ==> ks[i] < p
    ensures forall i :: 0 <= i < 16 ==>
              next[12 + i] == Xor(ToU32(pt[i]), ToU32(ks[i])) % p && next[12 + i] < W
    ensures forall i :: 0 <= i < |next| ==> next[i] < p
    ensures NoWrap(p) && CombineFits(z[..12], p) ==>
              forall i :: 0 <= i < 16 ==> ToU32(ks[i]) == Keystream(z)[i]
    ensures NoWrap(p) && CombineFits(z[..12], p) && z[11] < W - 1 ==>
              next == Native.Step(z, pt, p)
  {
    next := z[11 := Add(z[11], 1, p)];
    ks := BlockGadget(z[..12], p);
    for i := 0 to 16
      invariant |next| == |z| && next[11] == Add(z[11], 1, p)
      invariant forall j :: 0 <= j < |z| && j != 11 && !(12 <= j < 12 + i) ==> next[j] == z[j]
      invariant forall j :: 0 <= j < i ==> next[12 + j] == Xor(ToU32(pt[j]), ToU32(ks[j])) % p
      invariant forall j :: 12 <= j < 12 + i ==> next[j] < W
      invariant forall j :: 0 <= j < |next| ==> next[j] < p
    {
      var ct := EncryptWord(pt[i], ks[i], p);
      next := next[12 + i := ct];
    }
    assert next[..11] == z[..11] && next[28..] == z[28..];
    if NoWrap(p) && CombineFits(z[..12], p) {
      KeystreamOfState(z);
      if z[11] < W - 1 {
        StepAgrees(z, pt, ks, next, p);
      }
    }
  }

  /** The keystream of the state's first 12 slots is the keystream of the
      state. */
  lemma KeystreamOfState(z: seq<nat>)
    requires |z| >= 12
    ensures Keystream(z[..12]) == Keystream(z)
  {
    var prefix := z[..12];
    assert prefix[..8] == z[..8] && prefix[8..11] == z[8..11] && prefix[11] == z[11];
  }

  /** The ciphertext the gadget stores from the keystream it computes is the
      ciphertext the native step stores. */
  lemma StepAgrees(z: seq<nat>, pt: seq<nat>, ks: seq<nat>, next: seq<nat>, p: nat)
    requires |z| >= StateLen && |pt| == 16 && NoWrap(p)
    requires z[11] < W - 1
    requires |ks| == 16 && forall i :: 0 <= i < 16 ==> ToU32(ks[i]) == Keystream(z[..12])[i]
    requires |next| == |z| && next[..11] == z[..11] && next[28..] == z[28..]
    requires next[11] == Add(z[11], 1, p)
    requires forall j :: 0 <= j < 16 ==> next[12 + j] == Xor(ToU32(pt[j]), ToU32(ks[j])) % p
    ensures next == Native.Step(z, pt, p)
  {
    KeystreamOfState(z);
    var r := Native.Step(z, pt, p);
    assert ToU32(z[11]) == z[11] by {
      ModBelow(z[11], W);
    }
    forall i | 0 <= i < |z|
      ensures next[i] == r[i]
    {
      if i < 11 {
        assert next[i] == next[..11][i] && r[i] == r[..11][i];
      } else if i >= 28 {
        assert next[i] == next[28..][i - 28] && r[i] == r[28..][i - 28];
      } else if i > 11 {
        assert next[12 + (i - 12)] == r[12 + (i - 12)];
      }
    }
  }
}
