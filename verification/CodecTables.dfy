/**
 The text codecs against the tables and bit strings of RFC 4648, written out: which character
 stands for which five or six bits of the data, and which bits make up a decoded byte.
 */
module CodecTables {
  import opened Words
  import opened Bits
  import Base32
  import Base64

  // ----- bits by position, from the highest bit of the first digit on -----

  /** Bit p of a sequence of bytes; there are zeros beyond. */
  function ByteBit(data: seq<nat>, p: nat): nat {
    if p / 8 < |data| then (data[p / 8] / [128, 64, 32, 16, 8, 4, 2, 1][p % 8]) % 2 else 0
  }

  function FiveBit(ds: seq<nat>, p: nat): nat
    requires p / 5 < |ds|
  {
    (ds[p / 5] / [16, 8, 4, 2, 1][p % 5]) % 2
  }

  function SixBit(ds: seq<nat>, p: nat): nat
    requires p / 6 < |ds|
  {
    (ds[p / 6] / [32, 16, 8, 4, 2, 1][p % 6]) % 2
  }

  lemma SmallPowers()
    ensures Pow(2, 0) == 1 && Pow(2, 1) == 2 && Pow(2, 2) == 4 && Pow(2, 3) == 8 && Pow(2, 4) == 16
    ensures Pow(2, 5) == 32 && Pow(2, 6) == 64 && Pow(2, 7) == 128
  {
    hide Pow;
    ValEmpty(2);
    PowStep(2, 0);
    PowStep(2, 1);
    PowStep(2, 2);
    PowStep(2, 3);
    PowStep(2, 4);
    PowStep(2, 5);
    PowStep(2, 6);
  }

  lemma {:induction false} LowBitAt(x: nat, k: nat, r: nat)
    requires r < k
    ensures Pow(2, k - 1 - r) > 0 && LowBits(x, k)[r] == ((x / Pow(2, k - 1 - r)) % 2 == 1)
  {
    PowPositive(2, k - 1 - r);
    if r < k - 1 {
      LowBitAt(x / 2, k - 1, r);
      HalfThenShift(x, k - 1 - r);
    }
  }

  lemma {:induction false} DigitBitAt(k: nat, ds: seq<nat>, j: nat, r: nat)
    requires j < |ds| && r < k
    ensures 0 <= k * j && k * j + r < k * |ds| && Pow(2, k - 1 - r) > 0
    ensures DigitBits(k, ds)[k * j + r] == ((ds[j] / Pow(2, k - 1 - r)) % 2 == 1)
  {
    hide LowBits, Pow;
    var n := |ds| - 1;
    Distribute(k, n, 1);
    if j < n {
      DigitBitAt(k, ds[..n], j, r);
    } else {
      LowBitAt(ds[n], k, r);
    }
  }

  lemma ByteBitIs(data: seq<nat>, bits: nat, p: nat)
    requires 8 * |data| <= bits && p < bits
    ensures Padded(data, bits)[p] == (ByteBit(data, p) == 1)
  {
    hide DigitBits, Pow;
    SmallPowers();
    if p < 8 * |data| { DigitBitAt(8, data, p / 8, p % 8); }
  }

  lemma FiveBitIs(ds: seq<nat>, p: nat)
    requires p < 5 * |ds|
    ensures DigitBits(5, ds)[p] == (FiveBit(ds, p) == 1)
  {
    hide DigitBits, Pow;
    SmallPowers();
    DigitBitAt(5, ds, p / 5, p % 5);
  }

  lemma SixBitIs(ds: seq<nat>, p: nat)
    requires p < 6 * |ds|
    ensures DigitBits(6, ds)[p] == (SixBit(ds, p) == 1)
  {
    hide DigitBits, Pow;
    SmallPowers();
    DigitBitAt(6, ds, p / 6, p % 6);
  }

  function Num(b: bool): nat { if b then 1 else 0 }

  /** The number made of n bits from position p on. */
  function Part(bs: seq<bool>, p: nat, n: nat): nat
    requires p + n <= |bs|
  {
    BitsValue(bs[p..p + n])
  }

  lemma PartGrows(bs: seq<bool>, p: nat, n: nat)
    requires p + n < |bs|
    ensures Part(bs, p, 0) == 0
    ensures Part(bs, p, n + 1) == 2 * Part(bs, p, n) + Num(bs[p + n])
  {
    assert bs[p..p + n + 1][..n] == bs[p..p + n];
  }

  lemma FiveValue(bs: seq<bool>, p: nat)
    requires p + 5 <= |bs|
    ensures Part(bs, p, 5)
            == 16 * Num(bs[p]) + 8 * Num(bs[p + 1]) + 4 * Num(bs[p + 2]) + 2 * Num(bs[p + 3]) + Num(bs[p + 4])
  {
    hide Part, Num;
    PartGrows(bs, p, 0);
    PartGrows(bs, p, 1);
    PartGrows(bs, p, 2);
    PartGrows(bs, p, 3);
    PartGrows(bs, p, 4);
  }

  lemma EightValue(bs: seq<bool>, p: nat)
    requires p + 8 <= |bs|
    ensures Part(bs, p, 8) == 128 * Num(bs[p]) + 64 * Num(bs[p + 1]) + 32 * Num(bs[p + 2])
            + 16 * Num(bs[p + 3]) + 8 * Num(bs[p + 4]) + 4 * Num(bs[p + 5]) + 2 * Num(bs[p + 6]) + Num(bs[p + 7])
  {
    hide Part, Num;
    FiveValue(bs, p);
    PartGrows(bs, p, 5);
    PartGrows(bs, p, 6);
    PartGrows(bs, p, 7);
  }

  /** The numbers of five, six and eight bits from position p on. */
  function FiveOf(data: seq<nat>, p: nat): (v: nat)
    ensures v < 32
  {
    16 * ByteBit(data, p) + 8 * ByteBit(data, p + 1) + 4 * ByteBit(data, p + 2) + 2 * ByteBit(data, p + 3)
    + ByteBit(data, p + 4)
  }

  function SixOf(data: seq<nat>, p: nat): (v: nat)
    ensures v < 64
  {
    32 * ByteBit(data, p) + 16 * ByteBit(data, p + 1) + 8 * ByteBit(data, p + 2) + 4 * ByteBit(data, p + 3)
    + 2 * ByteBit(data, p + 4) + ByteBit(data, p + 5)
  }

  function EightOfFives(ds: seq<nat>, p: nat): nat
    requires (p + 7) / 5 < |ds|
  {
    128 * FiveBit(ds, p) + 64 * FiveBit(ds, p + 1) + 32 * FiveBit(ds, p + 2) + 16 * FiveBit(ds, p + 3)
    + 8 * FiveBit(ds, p + 4) + 4 * FiveBit(ds, p + 5) + 2 * FiveBit(ds, p + 6) + FiveBit(ds, p + 7)
  }

  function EightOfSixes(ds: seq<nat>, p: nat): nat
    requires (p + 7) / 6 < |ds|
  {
    128 * SixBit(ds, p) + 64 * SixBit(ds, p + 1) + 32 * SixBit(ds, p + 2) + 16 * SixBit(ds, p + 3)
    + 8 * SixBit(ds, p + 4) + 4 * SixBit(ds, p + 5) + 2 * SixBit(ds, p + 6) + SixBit(ds, p + 7)
  }

  lemma FiveOfBits(data: seq<nat>, bits: nat, p: nat)
    requires 8 * |data| <= bits && p + 5 <= bits
    ensures Part(Padded(data, bits), p, 5) == FiveOf(data, p)
  {
    hide Padded, Part, ByteBit, Num;
    var bs := Padded(data, bits);
    ByteBitOf(data, bits, p);
    ByteBitOf(data, bits, p + 1);
    ByteBitOf(data, bits, p + 2);
    ByteBitOf(data, bits, p + 3);
    ByteBitOf(data, bits, p + 4);
    FiveValue(bs, p);
  }

  lemma SixOfBits(data: seq<nat>, bits: nat, p: nat)
    requires 8 * |data| <= bits && p + 6 <= bits
    ensures Part(Padded(data, bits), p, 6) == SixOf(data, p)
  {
    hide Padded, Part, ByteBit, Num;
    var bs := Padded(data, bits);
    ByteBitOf(data, bits, p);
    ByteBitOf(data, bits, p + 1);
    ByteBitOf(data, bits, p + 2);
    ByteBitOf(data, bits, p + 3);
    ByteBitOf(data, bits, p + 4);
    ByteBitOf(data, bits, p + 5);
    FiveValue(bs, p);
    PartGrows(bs, p, 5);
  }

  // ----- base32 -----

  /** Character j of an encoding is the one for bits 5j to 5j + 4 of the data. */
  lemma Base32Characters(data: seq<nat>, j: nat)
    requires j < |Base32.Encode32(data)|
    ensures Base32.Encode32(data)[j] == "abcdefghijklmnopqrstuvwxyz234567"[FiveOf(data, 5 * j)] as nat
  {
    hide Padded, Regroup, BitsValue, FiveOf, Pow, Base32.EncodedLength, Base32.ToChar;
    var bs := Base32.DataBits(data);
    Base32.LengthsAgree(|data|);
    RegroupAt(5, bs, j);
    FiveOfBits(data, |bs|, 5 * j);
    Base32Character(FiveOf(data, 5 * j));
  }

  lemma ByteBitOf(data: seq<nat>, bits: nat, p: nat)
    requires 8 * |data| <= bits && p < bits
    ensures ByteBit(data, p) == Num(Padded(data, bits)[p])
  {
    hide Padded;
    ByteBitIs(data, bits, p);
  }

  lemma Base32Character(v: nat)
    requires v < 32
    ensures Base32.ToChar(v) == "abcdefghijklmnopqrstuvwxyz234567"[v] as nat
  {
  }

  /**
   What each character does to a reading, and so what a whole text reads as: letters of both
   cases and 2 to 7 are digits, 0, 1 and 8 stand for O, L and B, blanks and hyphens are nothing.
   */
  lemma Base32Reading(text: seq<nat>, c: nat)
    ensures Base32.Read([]) == Base32.Reading([], true)
    ensures var r := Base32.Read(text);
            Base32.Read(text + [c]) == if !r.clean then r
                                       else if c in {9, 10, 13, 32, 45} then r
                                       else if 65 <= c <= 90 then Base32.Reading(r.ds + [c - 65], true)
                                       else if 97 <= c <= 122 then Base32.Reading(r.ds + [c - 97], true)
                                       else if 50 <= c <= 55 then Base32.Reading(r.ds + [c - 24], true)
                                       else if c == 48 then Base32.Reading(r.ds + [14], true)
                                       else if c == 49 then Base32.Reading(r.ds + [11], true)
                                       else if c == 56 then Base32.Reading(r.ds + [1], true)
                                       else Base32.Reading(r.ds, false)
  {
    hide Base32.Classify;
    assert (text + [c])[..|text|] == text;
    Base32Symbols(c);
  }

  lemma Base32Symbols(c: nat)
    ensures Base32.Classify(c) == if c in {9, 10, 13, 32, 45} then Base32.Skip
                                  else if 65 <= c <= 90 then Base32.Digit(c - 65)
                                  else if 97 <= c <= 122 then Base32.Digit(c - 97)
                                  else if 50 <= c <= 55 then Base32.Digit(c - 24)
                                  else if c == 48 then Base32.Digit(14)
                                  else if c == 49 then Base32.Digit(11)
                                  else if c == 56 then Base32.Digit(1)
                                  else Base32.Invalid
  {
  }

  /** Byte k of a decoding is made of bits 8k to 8k + 7 of the digits. */
  lemma Base32Bytes(text: seq<nat>, bufSize: nat, k: nat)
    requires k < |Base32.Stored32(text, bufSize)|
    ensures var ds := Base32.Read(text).ds;
            (8 * k + 7) / 5 < |ds| && Base32.Stored32(text, bufSize)[k] == EightOfFives(ds, 8 * k)
  {
    hide DigitBits, Regroup, BitsValue, FiveBit, Base32.Read;
    var ds := Base32.Read(text).ds;
    var bs := DigitBits(5, ds);
    RegroupAt(8, bs, k);
    forall i | 8 * k <= i < 8 * k + 8 ensures i / 5 < |ds| && FiveBit(ds, i) == Num(bs[i]) { FiveBitOf(ds, i); }
    EightValue(bs, 8 * k);
  }

  lemma FiveBitOf(ds: seq<nat>, p: nat)
    requires p < 5 * |ds|
    ensures FiveBit(ds, p) == Num(DigitBits(5, ds)[p])
  {
    hide DigitBits;
    FiveBitIs(ds, p);
  }

  // ----- base64 -----

  function Alphabet64(): (s: string)
    ensures |s| == 64
  {
    "ABCDEFGHIJKLMNOPQRSTUVWXYZ" + "abcdefghijklmnopqrstuvwxyz" + "0123456789-_"
  }

  /** Character j of an encoding is the one for bits 6j to 6j + 5 of the data. */
  lemma Base64Characters(data: seq<nat>, j: nat)
    requires j < |Base64.Encode64(data)|
    ensures Base64.Encode64(data)[j] == Alphabet64()[SixOf(data, 6 * j)] as nat
  {
    hide Padded, Regroup, BitsValue, SixOf, Pow, Base64.EncodedLength, Base64.ToChar, Alphabet64;
    var bs := Base64.DataBits(data);
    Base64.LengthsAgree(|data|);
    RegroupAt(6, bs, j);
    SixOfBits(data, |bs|, 6 * j);
    Base64Character(SixOf(data, 6 * j));
  }

  lemma Base64Character(v: nat)
    requires v < 64
    ensures Base64.ToChar(v) == Alphabet64()[v] as nat
  {
    hide Base64.ToChar;
    if v < 26 {
      Base64Upper(v);
    } else if v < 52 {
      Base64Lower(v - 26);
    } else {
      Base64Other(v - 52);
    }
  }

  lemma Base64Upper(v: nat)
    requires v < 26
    ensures Base64.ToChar(v) == "ABCDEFGHIJKLMNOPQRSTUVWXYZ"[v] as nat
  {
  }

  lemma Base64Lower(v: nat)
    requires v < 26
    ensures Base64.ToChar(v + 26) == "abcdefghijklmnopqrstuvwxyz"[v] as nat
  {
  }

  lemma Base64Other(v: nat)
    requires v < 12
    ensures Base64.ToChar(v + 52) == "0123456789-_"[v] as nat
  {
  }

  /** The digit of a character: its place in the alphabet, with + and / beside - and _, and nothing else. */
  lemma Base64Digit(c: nat)
    ensures Base64.FromChar(c) >= 0 <==> c == 43 || c == 47 || exists v :: 0 <= v < 64 && Alphabet64()[v] as nat == c
    ensures forall v :: 0 <= v < 64 && Alphabet64()[v] as nat == c ==> Base64.FromChar(c) == v
    ensures Base64.FromChar(43) == 62 && Base64.FromChar(47) == 63
  {
    hide Alphabet64;
    forall v | 0 <= v < 64 && Alphabet64()[v] as nat == c ensures Base64.FromChar(c) == v {
      Base64Character(v);
      Base64.CharRoundTrip(v);
    }
    var d := Base64.FromChar(c);
    if d >= 0 && c != 43 && c != 47 {
      Base64Character(d);
      assert Base64.ToChar(d) == c == Alphabet64()[d] as nat;
    }
  }

  /** Byte k of a decoding is made of bits 8k to 8k + 7 of the digits. */
  lemma Base64Bytes(mem: seq<nat>, len: nat, k: nat)
    requires k < |Base64.Decode64(mem, len)|
    ensures var text := Base64.Text(mem, len);
            && Base64.AllDigits(text)
            && var ds := Base64.TextDigits(text);
               (8 * k + 7) / 6 < |ds| && Base64.Decode64(mem, len)[k] == EightOfSixes(ds, 8 * k)
  {
    hide DigitBits, Regroup, BitsValue, SixBit, Base64.FromChar;
    var ds := Base64.TextDigits(Base64.Text(mem, len));
    var bs := DigitBits(6, ds);
    RegroupAt(8, bs, k);
    forall i | 8 * k <= i < 8 * k + 8 ensures i / 6 < |ds| && SixBit(ds, i) == Num(bs[i]) { SixBitOf(ds, i); }
    EightValue(bs, 8 * k);
  }

  lemma SixBitOf(ds: seq<nat>, p: nat)
    requires p < 6 * |ds|
    ensures SixBit(ds, p) == Num(DigitBits(6, ds)[p])
  {
    hide DigitBits;
    SixBitIs(ds, p);
  }
}
