/** Little-endian bit strings, their numeric values and the 32-bit word types
    shared by the circuit gadgets and the native oracle. */
module Words {

  /** 2^32: the modulus of Rust's `u32` arithmetic. */
  const W: nat := 0x1_0000_0000

  /** The width of a word in bits. */
  const WordBits: nat := 32

  /** A native `u32` value. */
  type U32 = x: nat | x < W

  /** A circuit word: exactly 32 boolean signals, least-significant first
      (what `UInt32::from_bits_le` accepts). */
  type Word = s: seq<bool> | |s| == 32 witness seq(32, _ => false)

  function Pow2(n: nat): (r: nat)
    ensures r >= 1
  {
    if n == 0 then 1 else 2 * Pow2(n - 1)
  }

  /** The numeric weight of one bit. */
  function BitWeight(b: bool): (r: nat) {
    if b then 1 else 0
  }

  /** The value Σ s[i]·2^i of a little-endian bit string. */
  function Val(s: seq<bool>): (v: nat) {
    if |s| == 0 then 0 else BitWeight(s[0]) + 2 * Val(s[1..])
  }

  /** A bit string of length n denotes a number below 2^n. */
  lemma {:induction false} ValBound(s: seq<bool>)
    ensures Val(s) < Pow2(|s|)
  {
    if |s| > 0 {
      ValBound(s[1..]);
    }
  }

  /** The low n bits of x, least-significant first. */
  function ToBits(x: nat, n: nat): (s: seq<bool>)
    ensures |s| == n
  {
    if n == 0 then [] else [x % 2 == 1] + ToBits(x / 2, n - 1)
  }

  lemma {:induction false} Pow2Add(a: nat, b: nat)
    ensures Pow2(a + b) == Pow2(a) * Pow2(b)
  {
    if a > 0 {
      Pow2Add(a - 1, b);
      Associate(2, Pow2(a - 1), Pow2(b));
    }
  }

  /** The powers of two the model names by value: the word modulus and the
      weight of the top bit. */
  lemma Pow2Values()
    ensures Pow2(WordBits) == W && Pow2(WordBits - 1) == 0x8000_0000
  {
    assert Pow2(4) == 16;
    Pow2Add(4, 4);
    Pow2Add(8, 8);
    Pow2Add(16, 16);
    assert Pow2(32) == 2 * Pow2(31);
  }

  /** Euclidean division is determined by quotient and remainder. */
  lemma DivModUnique(x: nat, m: nat, q: nat, r: nat)
    requires m > 0 && r < m && x == q * m + r
    ensures x / m == q && x % m == r
  {
    var q', r' := x / m, x % m;
    if q' < q {
      MulLeft(q - q', m);
    } else if q' > q {
      MulLeft(q' - q, m);
    }
  }

  /** A positive multiple of m is at least m. */
  lemma MulLeft(d: nat, m: nat)
    requires d >= 1
    ensures d * m >= m
  {
    assert d * m == (d - 1) * m + m;
  }

  /** Splitting off the lowest bit: x mod 2^n is x's low bit plus twice
      (x/2) mod 2^(n-1). */
  lemma ModPow2Step(x: nat, n: nat)
    requires n > 0
    ensures x % Pow2(n) == x % 2 + 2 * ((x / 2) % Pow2(n - 1))
    ensures x / Pow2(n) == (x / 2) / Pow2(n - 1)
  {
    var m := Pow2(n - 1);
    var q, r := (x / 2) / m, (x / 2) % m;
    assert x / 2 == q * m + r;
    assert x == q * (2 * m) + (x % 2 + 2 * r);
    DivModUnique(x, 2 * m, q, x % 2 + 2 * r);
  }

  /** The value of a concatenation: the second part is weighted by 2^|s|. */
  lemma {:induction false} ValAppend(s: seq<bool>, t: seq<bool>)
    ensures Val(s + t) == Val(s) + Pow2(|s|) * Val(t)
  {
    if |s| > 0 {
      var p, v, rest := Pow2(|s| - 1), Val(t), Val(s[1..]);
      assert (s + t)[0] == s[0] && (s + t)[1..] == s[1..] + t;
      assert Val(s + t) == BitWeight(s[0]) + 2 * Val(s[1..] + t);
      ValAppend(s[1..], t);
      assert Pow2(|s|) * v == 2 * (p * v) by {
        assert Pow2(|s|) == 2 * p;
        Associate(2, p, v);
      }
    } else {
      assert s + t == t;
    }
  }

  /** Appending one bit adds its weight at the top. */
  lemma {:induction false} ValSnoc(s: seq<bool>, b: bool)
    ensures Val(s + [b]) == if b then Val(s) + Pow2(|s|) else Val(s)
    ensures Val(s + [b]) == Val(s) + BitWeight(b) * Pow2(|s|)
  {
    if |s| == 0 {
      assert s + [b] == [b] && [b][1..] == [];
    } else {
      assert (s + [b])[0] == s[0] && (s + [b])[1..] == s[1..] + [b];
      ValSnoc(s[1..], b);
    }
    if b {
      assert BitWeight(b) == 1;
    } else {
      assert BitWeight(b) == 0;
    }
  }

  /** Decoding then re-weighting gives the value mod 2^n. */
  lemma {:induction false} ToBitsVal(x: nat, n: nat)
    ensures Val(ToBits(x, n)) == x % Pow2(n)
  {
    if n > 0 {
      var s := ToBits(x, n);
      assert s[1..] == ToBits(x / 2, n - 1);
      ToBitsVal(x / 2, n - 1);
      ModPow2Step(x, n);
    }
  }

  /** Re-weighting then decoding gives back the same bits. */
  lemma {:induction false} ValToBits(s: seq<bool>)
    ensures ToBits(Val(s), |s|) == s
  {
    if |s| > 0 {
      var v := Val(s);
      assert v % 2 == BitWeight(s[0]) && v / 2 == Val(s[1..]);
      ValToBits(s[1..]);
      assert ToBits(v, |s|) == [s[0]] + s[1..];
    }
  }

  /** Decoding to fewer bits keeps a prefix. */
  lemma {:induction false} ToBitsPrefix(x: nat, m: nat, n: nat)
    requires n <= m
    ensures ToBits(x, m)[..n] == ToBits(x, n)
  {
    if n > 0 {
      ToBitsPrefix(x / 2, m - 1, n - 1);
      assert ToBits(x, m)[..n] == [x % 2 == 1] + ToBits(x / 2, m - 1)[..n - 1];
    }
  }

  /** A bit string of length n denotes a number below 2^n, so its value is its
      value mod 2^n; with Pow2Values this is the 32-bit range bound. */
  lemma WordBelowW(w: Word)
    ensures Val(w) < W
  {
    ValBound(w);
    Pow2Values();
  }

  /** The next bit of x is bit n of its binary expansion. */
  lemma {:induction false} ToBitsSnoc(x: nat, n: nat)
    ensures ToBits(x, n + 1) == ToBits(x, n) + [(x / Pow2(n)) % 2 == 1]
  {
    if n > 0 {
      ToBitsSnoc(x / 2, n - 1);
      ModPow2Step(x, n);
      assert ToBits(x, n + 1) == [x % 2 == 1] + ToBits(x / 2, n);
    }
  }

  /** Powers of two grow with the exponent. */
  lemma Pow2Monotone(a: nat, b: nat)
    requires a <= b
    ensures Pow2(a) <= Pow2(b)
  {
    Pow2Add(a, b - a);
    MulLeft(Pow2(b - a), Pow2(a));
    Commute(Pow2(b - a), Pow2(a));
  }

  /** The 32 low bits of a `u32` value denote that value. */
  lemma WordBitsVal(x: U32)
    ensures |ToBits(x, WordBits)| == 32 && Val(ToBits(x, WordBits)) == x
  {
    Pow2Values();
    ToBitsVal(x, WordBits);
    DivModUnique(x, W, 0, x);
  }

  /** The value of a word, as a `u32`. */
  function WordVal(w: Word): (v: U32)
    ensures v == Val(w)
  {
    WordBelowW(w);
    Val(w)
  }

  /** The defining equation of Euclidean division. */
  lemma DivMod(x: nat, m: nat)
    requires m > 0
    ensures x == (x / m) * m + x % m && x % m < m
  {
  }

  lemma Distribute(a: nat, b: nat, c: nat)
    ensures (a + b) * c == a * c + b * c
  {
  }

  lemma Commute(a: nat, b: nat)
    ensures a * b == b * a
  {
  }

  lemma Associate(a: nat, b: nat, c: nat)
    ensures (a * b) * c == a * (b * c)
  {
  }

  /** The wiring of a left rotation by k: output bit i is input bit
      (i - k) mod 32. */
  function RotateBits(s: Word, k: nat): (r: Word)
    requires k <= 32
  {
    seq(32, i requires 0 <= i < 32 => s[(i + 32 - k) % 32])
  }

  /** Rotations by 0 and by 32 leave every wire in place. */
  lemma RotateBitsWhole(s: Word)
    ensures RotateBits(s, 0) == s && RotateBits(s, 32) == s
  {
  }

  /** Rotating the wires by k and then by 32 - k restores them. */
  lemma RotateBitsInverse(s: Word, k: nat)
    requires k <= 32
    ensures RotateBits(RotateBits(s, k), 32 - k) == s
  {
    var t := RotateBits(RotateBits(s, k), 32 - k);
    forall i | 0 <= i < 32
      ensures t[i] == s[i]
    {
      assert t[i] == s[((i + k) % 32 + 32 - k) % 32];
    }
  }

  /** A rotation by k is the rotation by k - 1 followed by a rotation by one. */
  lemma RotateBitsStep(s: Word, k: nat)
    requires 0 < k <= 32
    ensures RotateBits(s, k) == RotateBits(RotateBits(s, k - 1), 1)
  {
    var t := RotateBits(RotateBits(s, k - 1), 1);
    forall i | 0 <= i < 32
      ensures t[i] == RotateBits(s, k)[i]
    {
      assert t[i] == s[((i + 31) % 32 + 33 - k) % 32];
    }
  }

  /** The rotation by one moves the top bit to the bottom. */
  lemma RotateBitsOne(s: Word)
    ensures RotateBits(s, 1) == [s[31]] + s[..31]
  {
    var t := [s[31]] + s[..31];
    forall i | 0 <= i < 32
      ensures RotateBits(s, 1)[i] == t[i]
    {
      if i > 0 {
        assert t[i] == s[i - 1];
      }
    }
  }

  /** A rotation by k moves the top k wires to the bottom. */
  lemma RotateBitsSplit(s: Word, k: nat)
    requires k <= 32
    ensures RotateBits(s, k) == s[32 - k..] + s[..32 - k]
  {
    var r, t := RotateBits(s, k), s[32 - k..] + s[..32 - k];
    forall i | 0 <= i < 32
      ensures r[i] == t[i]
    {
      if i < k {
        assert t[i] == s[32 - k + i];
      } else {
        assert t[i] == s[i - k];
      }
    }
  }

  /** Rotating the wires permutes them: the number of set bits is kept. */
  lemma RotateBitsPermutes(s: Word, k: nat)
    requires k <= 32
    ensures multiset(RotateBits(s, k)) == multiset(s)
  {
    RotateBitsSplit(s, k);
    assert s == s[..32 - k] + s[32 - k..];
  }
}
