/** The prime field the circuit works over. A field element is a natural
    below the modulus p; p is a parameter because the gadgets are generic over
    the field. */
module Field {
  import opened Words

  /** The scalar field modulus of BN254, the curve the folding scheme is
      instantiated with. */
  const BN254: nat := 0x30644e72e131a029b85045b68181585d2833e84879b9709143e1f593f0000001

  /** Field addition. */
  function Add(x: nat, y: nat, p: nat): (r: nat)
    requires p > 0
    ensures r < p
  {
    (x + y) % p
  }

  /** The sum of two `u32` values does not wrap around in the field. */
  predicate NoWrap(p: nat) {
    2 * (W - 1) < p
  }

  /** `MODULUS_BIT_SIZE` for modulus n: the number of bits of n. */
  function BitLength(n: nat): (r: nat) {
    if n == 0 then 0 else 1 + BitLength(n / 2)
  }

  /** Every value below n fits in BitLength(n) bits. */
  lemma {:induction false} BitLengthBound(n: nat)
    ensures n < Pow2(BitLength(n))
  {
    if n > 0 {
      BitLengthBound(n / 2);
    }
  }

  /** Reduction never increases a value, and leaves values below p alone. */
  lemma ModBelow(x: nat, p: nat)
    requires p > 0
    ensures x % p <= x
    ensures x < p ==> x % p == x
  {
    if x < p {
      DivModUnique(x, p, 0, x);
    } else {
      DivMod(x, p);
      MulLeft(x / p, p);
    }
  }

  /** Reducing the summands first does not change a field sum. */
  lemma AddMod(a: nat, b: nat, p: nat)
    requires p > 0
    ensures (a % p + b % p) % p == (a + b) % p
  {
    DivMod(a, p);
    DivMod(b, p);
    var s := a % p + b % p;
    DivMod(s, p);
    var q := a / p + b / p + s / p;
    assert a + b == q * p + s % p by {
      Distribute(a / p, b / p, p);
      Distribute(a / p + b / p, s / p, p);
    }
    DivModUnique(a + b, p, q, s % p);
  }

  /** The BN254 field is wide enough for the final addition of the block. */
  lemma BN254NoWrap()
    ensures NoWrap(BN254) && BN254 >= W
  {
  }
}
