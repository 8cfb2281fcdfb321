/** The functions of section 4.1.2 of FIPS 180-4, one bit of the result at a time. */
module Sha256Bits {
  import opened Sha256

  /** Bit i, counted from the lowest. */
  predicate Bit(x: Word, i: Word)
    requires i < 32
  {
    (x >> i) & 1 == 1
  }

  lemma RotatedBit(x: Word, n: Word, i: Word)
    requires n in {2, 6, 7, 11, 13, 17, 18, 19, 22, 25} && i < 32
    ensures Bit(Rotated(x, n), i) == Bit(x, (i + n) % 32)
  {
    if n == 2 {
    } else if n == 6 {
    } else if n == 7 {
    } else if n == 11 {
    } else if n == 13 {
    } else if n == 17 {
    } else if n == 18 {
    } else if n == 19 {
    } else if n == 22 {
    } else {
    }
  }

  lemma ShiftedBy3(x: Word, i: Word)
    requires i < 32
    ensures Bit(Shifted(x, 3), i) == (i < 29 && Bit(x, i + 3))
  {
  }

  lemma ShiftedBy10(x: Word, i: Word)
    requires i < 32
    ensures Bit(Shifted(x, 10), i) == (i < 22 && Bit(x, i + 10))
  {
  }

  lemma XorBit(x: Word, y: Word, i: Word)
    requires i < 32
    ensures Bit(Xor(x, y), i) == (Bit(x, i) != Bit(y, i))
  {
    hide Bit;
    XorWordBit(x, y, i);
  }

  lemma XorWordBit(x: Word, y: Word, i: Word)
    requires i < 32
    ensures Bit(x ^ y, i) == (Bit(x, i) != Bit(y, i))
  {
  }

  lemma AndBit(x: Word, y: Word, i: Word)
    requires i < 32
    ensures Bit(And(x, y), i) == (Bit(x, i) && Bit(y, i))
  {
    hide Bit;
    AndWordBit(x, y, i);
  }

  lemma AndWordBit(x: Word, y: Word, i: Word)
    requires i < 32
    ensures Bit(x & y, i) == (Bit(x, i) && Bit(y, i))
  {
  }

  lemma NotBit(x: Word, i: Word)
    requires i < 32
    ensures Bit(Not(x), i) == !Bit(x, i)
  {
  }

  /** An exclusive or of three words, bit by bit. */
  lemma XorBits(x: Word, y: Word, z: Word, i: Word)
    requires i < 32
    ensures Bit(Xor(Xor(x, y), z), i) == ((Bit(x, i) != Bit(y, i)) != Bit(z, i))
  {
    hide Bit, Xor;
    XorBit(x, y, i);
    XorBit(Xor(x, y), z, i);
  }

  /** Equation 4.4. */
  lemma BigSigma0Bit(x: Word, i: Word)
    requires i < 32
    ensures Bit(BigSigma0(x), i) == ((Bit(x, (i + 2) % 32) != Bit(x, (i + 13) % 32)) != Bit(x, (i + 22) % 32))
  {
    hide Bit, Xor, Rotated;
    RotatedBit(x, 2, i);
    RotatedBit(x, 13, i);
    RotatedBit(x, 22, i);
    XorBits(Rotated(x, 2), Rotated(x, 13), Rotated(x, 22), i);
  }

  /** Equation 4.5. */
  lemma BigSigma1Bit(x: Word, i: Word)
    requires i < 32
    ensures Bit(BigSigma1(x), i) == ((Bit(x, (i + 6) % 32) != Bit(x, (i + 11) % 32)) != Bit(x, (i + 25) % 32))
  {
    hide Bit, Xor, Rotated;
    RotatedBit(x, 6, i);
    RotatedBit(x, 11, i);
    RotatedBit(x, 25, i);
    XorBits(Rotated(x, 6), Rotated(x, 11), Rotated(x, 25), i);
  }

  /** Equation 4.6. */
  lemma SmallSigma0Bit(x: Word, i: Word)
    requires i < 32
    ensures Bit(SmallSigma0(x), i)
            == ((Bit(x, (i + 7) % 32) != Bit(x, (i + 18) % 32)) != (i < 29 && Bit(x, i + 3)))
  {
    hide Bit, Xor, Rotated, Shifted;
    RotatedBit(x, 7, i);
    RotatedBit(x, 18, i);
    ShiftedBy3(x, i);
    XorBits(Rotated(x, 7), Rotated(x, 18), Shifted(x, 3), i);
  }

  /** Equation 4.7. */
  lemma SmallSigma1Bit(x: Word, i: Word)
    requires i < 32
    ensures Bit(SmallSigma1(x), i)
            == ((Bit(x, (i + 17) % 32) != Bit(x, (i + 19) % 32)) != (i < 22 && Bit(x, i + 10)))
  {
    hide Bit, Xor, Rotated, Shifted;
    RotatedBit(x, 17, i);
    RotatedBit(x, 19, i);
    ShiftedBy10(x, i);
    XorBits(Rotated(x, 17), Rotated(x, 19), Shifted(x, 10), i);
  }

  /** Equations 4.2 and 4.3: bits of x choose between y and z; the majority of three bits. */
  lemma ChoiceBits(x: Word, y: Word, z: Word, i: Word)
    requires i < 32
    ensures Bit(Ch(x, y, z), i) == if Bit(x, i) then Bit(y, i) else Bit(z, i)
    ensures Bit(Maj(x, y, z), i)
            == ((Bit(x, i) && Bit(y, i)) || (Bit(x, i) && Bit(z, i)) || (Bit(y, i) && Bit(z, i)))
  {
    hide Bit, Xor, And, Not;
    NotBit(x, i);
    AndBit(x, y, i);
    AndBit(Not(x), z, i);
    AndBit(x, z, i);
    AndBit(y, z, i);
    XorBit(And(x, y), And(Not(x), z), i);
    XorBits(And(x, y), And(x, z), And(y, z), i);
  }
}
