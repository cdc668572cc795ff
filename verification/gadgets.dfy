/** The 32-bit gadgets of the circuit: conversions between a field element
    and 32 boolean signals, and the add, xor and rotate operations on those
    signals. Each gadget is a method that builds its output signals the way
    the circuit does; its contract relates the output to the native `u32`
    operation. Witness values are taken to be the honest ones. */
module Gadgets {
  import opened Words
  import opened Field
  import Native

  /** `fpvar_to_uint32`: decompose the canonical value of x into
      `MODULUS_BIT_SIZE` bits and keep the first 32, padding with constant
      false when the modulus is narrower than 32 bits. */
  method FpToWord(x: nat, p: nat) returns (w: Word)
    requires 2 <= p && x < p
    ensures w == ToBits(x, WordBits)
    ensures Val(w) == x % W
  {
    var bits := ToBits(x, BitLength(p));
    var out: seq<bool> := [];
    for i := 0 to 32
      invariant out == ToBits(x, i)
    {
      ToBitsSnoc(x, i);
      if i < |bits| {
        assert bits[i] == ((x / Pow2(i)) % 2 == 1) by {
          ToBitsPrefix(x, |bits|, i + 1);
          assert bits[i] == ToBits(x, i + 1)[i];
        }
        out := out + [bits[i]];
      } else {
        assert x / Pow2(i) == 0 by {
          BitLengthBound(p);
          Pow2Monotone(BitLength(p), i);
          DivModUnique(x, Pow2(i), 0, x);
        }
        out := out + [false];
      }
    }
    w := out;
    assert Val(w) == x % W by {
      ToBitsVal(x, WordBits);
      Pow2Values();
    }
  }

  /** One step of `uint32_to_fpvar`: adding the current power of two when
      the bit is set extends the field sum by that bit. Stated for the plain
      value v of the bits so far and the plain power P. */
  lemma AccumulateBit(v: nat, P: nat, bit: bool, r: nat, power: nat, p: nat)
    requires p >= 2 && r == v % p && power == P % p
    ensures Add(r, if bit then power else 0, p) == (if bit then v + P else v) % p
  {
    AddMod(v, P, p);
    AddMod(v, 0, p);
  }

  /** Doubling the power of two in the field moves it to the next bit. */
  lemma DoublePower(n: nat, power: nat, p: nat)
    requires p >= 2 && power == Pow2(n) % p
    ensures Add(power, power, p) == Pow2(n + 1) % p
  {
    var P := Pow2(n);
    assert Pow2(n + 1) == P + P;
    AddMod(P, P, p);
  }

  /** `uint32_to_fpvar`: the field sum of bit_i * 2^i, with the power of two
      doubled in the field at every step. */
  method WordToFp(w: Word, p: nat) returns (r: nat)
    requires p >= 2
    ensures r == Val(w) % p
    ensures Val(w) < p ==> r == Val(w)
  {
    r := 0;
    var power := 1;
    for i := 0 to 32
      invariant power == Pow2(i) % p
      invariant r == Val(w[..i]) % p
    {
      var bitVal := if w[i] then power else 0;
      assert Val(w[..i + 1]) == if w[i] then Val(w[..i]) + Pow2(i) else Val(w[..i]) by {
        assert w[..i + 1] == w[..i] + [w[i]];
        ValSnoc(w[..i], w[i]);
      }
      AccumulateBit(Val(w[..i]), Pow2(i), w[i], r, power, p);
      DoublePower(i, power, p);
      r := Add(r, bitVal, p);
      power := Add(power, power, p);
    }
    assert w[..32] == w;
    ModBelow(Val(w), p);
  }

  /** A field element read as 32 bits and embedded back: the low 32 bits of
      its value, reduced into the field; a value below 2^32 comes back
      unchanged. */
  lemma FieldRoundTrip(x: nat, p: nat)
    requires 2 <= p && x < p
    ensures Val(ToBits(x, WordBits)) % p == x % W
    ensures x < W ==> Val(ToBits(x, WordBits)) % p == x
  {
    assert Val(ToBits(x, WordBits)) == x % W by {
      ToBitsVal(x, WordBits);
      Pow2Values();
    }
    ModBelow(x, W);
    ModBelow(x % W, p);
  }

  /** 32 signals embedded in a field holding every `u32` and read back as 32
      bits are the same signals. */
  lemma WordRoundTrip(w: Word, p: nat)
    requires p >= W
    ensures ToBits(Val(w) % p, WordBits) == w
  {
    WordBelowW(w);
    ModBelow(Val(w), p);
    ValToBits(w);
  }

  /** One position of the ripple-carry adder: the sum bit and the carry out
      account for the two input bits and the carry in. */
  lemma FullAdder(x: bool, y: bool, c: bool, P: nat)
    ensures var s := x != y;
            BitWeight(s != c) * P + BitWeight((x && y) || (s && c)) * (2 * P)
              == BitWeight(x) * P + BitWeight(y) * P + BitWeight(c) * P
  {
  }

  /** One position of the ripple-carry adder extends the sum of the low i
      bits of both operands to the low i + 1 bits. */
  lemma AdderStep(a: Word, b: Word, i: nat, bits: seq<bool>, carry: bool)
    requires i < 32 && |bits| == i
    requires Val(bits) + BitWeight(carry) * Pow2(i) == Val(a[..i]) + Val(b[..i])
    ensures var sum := a[i] != b[i];
            Val(bits + [sum != carry]) + BitWeight((a[i] && b[i]) || (sum && carry)) * Pow2(i + 1)
              == Val(a[..i + 1]) + Val(b[..i + 1])
  {
    ValSnoc(bits, (a[i] != b[i]) != carry);
    assert a[..i + 1] == a[..i] + [a[i]];
    assert b[..i + 1] == b[..i] + [b[i]];
    ValSnoc(a[..i], a[i]);
    ValSnoc(b[..i], b[i]);
    FullAdder(a[i], b[i], carry, Pow2(i));
  }

  /** Dropping the carry out of the top position leaves the sum mod 2^32. */
  lemma DropCarry(a: Word, b: Word, r: Word, carry: bool)
    requires Val(r) + BitWeight(carry) * Pow2(WordBits) == Val(a) + Val(b)
    ensures Val(r) == Native.WrappingAdd(WordVal(a), WordVal(b))
  {
    Pow2Values();
    WordBelowW(r);
  }

  /** `add_uint32`: a 32-position ripple-carry adder; the final carry is
      dropped. */
  method AddWord(a: Word, b: Word) returns (r: Word)
    ensures Val(r) == Native.WrappingAdd(WordVal(a), WordVal(b))
  {
    var bits: seq<bool> := [];
    var carry := false;
    for i := 0 to 32
      invariant |bits| == i
      invariant Val(bits) + BitWeight(carry) * Pow2(i) == Val(a[..i]) + Val(b[..i])
    {
      var sum := a[i] != b[i];
      var newCarry := (a[i] && b[i]) || (sum && carry);
      AdderStep(a, b, i, bits, carry);
      bits := bits + [sum != carry];
      carry := newCarry;
    }
    r := bits;
    assert a[..32] == a && b[..32] == b;
    DropCarry(a, b, r, carry);
  }

  /** The value of the bitwise exclusive or of two bit strings. */
  lemma {:induction false} XorBitsVal(a: seq<bool>, b: seq<bool>, r: seq<bool>)
    requires |a| == |b| == |r|
    requires forall i :: 0 <= i < |r| ==> r[i] == (a[i] != b[i])
    ensures Val(r) == Native.BitXor(Val(a), Val(b), |r|)
  {
    if |r| > 0 {
      XorBitsVal(a[1..], b[1..], r[1..]);
      assert Val(a) % 2 == BitWeight(a[0]) && Val(a) / 2 == Val(a[1..]);
      assert Val(b) % 2 == BitWeight(b[0]) && Val(b) / 2 == Val(b[1..]);
    }
  }

  /** `xor_uint32`: the bitwise exclusive or of the signals. */
  method XorWord(a: Word, b: Word) returns (r: Word)
    ensures forall i :: 0 <= i < 32 ==> r[i] == (a[i] != b[i])
    ensures Val(r) == Native.Xor(WordVal(a), WordVal(b))
  {
    var bits: seq<bool> := [];
    for i := 0 to 32
      invariant |bits| == i
      invariant forall j :: 0 <= j < i ==> bits[j] == (a[j] != b[j])
    {
      bits := bits + [a[i] != b[i]];
    }
    r := bits;
    XorBitsVal(a, b, r);
  }

  /** `rotate_left_32`: output signal i is input signal (i + 32 - n) mod 32.
      The source computes `i + 32 - n` on `usize`, so n may not exceed 32. */
  method RotateLeftWord(x: Word, n: nat) returns (r: Word)
    requires n <= 32
    ensures forall i :: 0 <= i < 32 ==> r[i] == x[(i + 32 - n) % 32]
    ensures multiset(r) == multiset(x)
    ensures Val(r) == Native.RotateLeft(WordVal(x), n)
  {
    var bits: seq<bool> := [];
    for i := 0 to 32
      invariant |bits| == i
      invariant forall j :: 0 <= j < i ==> bits[j] == x[(j + 32 - n) % 32]
    {
      bits := bits + [x[(i + 32 - n) % 32]];
    }
    r := bits;
    assert r == RotateBits(x, n);
    RotateBitsPermutes(x, n);
    var k := n % 32;
    assert r == RotateBits(x, k) by {
      if n == 32 {
        RotateBitsWhole(x);
      }
    }
    assert Val(r) == Native.RotateLeftBy(WordVal(x), k) by {
      Native.RotateLeftBits(x, k);
    }
  }
}
