/**
 Base32 (src/lib/base32.c, section 6 of RFC 4648 without padding characters): both loops
 shift bits through a 32-bit buffer; the specification regroups the bit string.
 */
module Base32 {
  import opened Common
  import opened Words
  import opened Bits

  // ----- the alphabet -----

  function ToChar(d: nat): nat {
    if d < 26 then 97 + d else 24 + d
  }

  datatype Symbol = Digit(d: nat) | Skip | Invalid

  /** What the decoder makes of a character: blanks and hyphens are skipped, mistyped 0, 1 and 8 forgiven. */
  function Classify(c: nat): (s: Symbol)
    ensures s.Digit? ==> s.d < 32
  {
    if c == 32 || c == 9 || c == 13 || c == 10 || c == 45 then Skip
    else
      var ch := if c == 48 then 79 else if c == 49 then 76 else if c == 56 then 66 else c;
      if 65 <= ch <= 90 || 97 <= ch <= 122 then Digit(ch % 32 - 1)
      else if 50 <= ch <= 55 then Digit(ch - 24)
      else Invalid
  }

  lemma CharRoundTrip(d: nat)
    requires d < 32
    ensures Classify(ToChar(d)) == Digit(d)
  {
    if d < 26 { assert (97 + d) % 32 == d + 1; }
  }

  // ----- specification -----

  /** base32_encode_length, less the terminator. */
  function EncodedLength(n: nat): nat {
    (n * 8) / 5 + if n % 5 != 0 then 1 else 0
  }

  /** base32_decode_floor */
  function Floor(n: nat): nat {
    (n * 5) / 8
  }

  function PadLength(n: nat): nat {
    LengthsAgree(n);
    5 * EncodedLength(n) - 8 * n
  }

  lemma LengthsAgree(n: nat)
    ensures 8 * n <= 5 * EncodedLength(n) < 8 * n + 5
    ensures Floor(EncodedLength(n)) == n
  {
    var q, r := n / 5, n % 5;
    assert n == 5 * q + r;
    assert n * 8 == 5 * (8 * q) + 8 * r;
    assert (n * 8) / 5 == 8 * q + (8 * r) / 5;
  }

  /** The bits of the data, filled up with zeros to whole digits. */
  function DataBits(data: seq<nat>): (bs: seq<bool>)
    ensures |bs| == 5 * EncodedLength(|data|)
  {
    LengthsAgree(|data|);
    Padded(data, 5 * EncodedLength(|data|))
  }

  function Digits(data: seq<nat>): (ds: seq<nat>)
    ensures |ds| == EncodedLength(|data|)
  {
    Regroup(5, DataBits(data))
  }

  function Encode32(data: seq<nat>): (text: seq<nat>)
    ensures |text| == EncodedLength(|data|)
  {
    Spelled(Digits(data), ToChar)
  }

  /** The digits up to the first character that is not one, and whether the text had none such. */
  datatype Reading = Reading(ds: seq<nat>, clean: bool)

  function Read(text: seq<nat>): (r: Reading)
    ensures forall i :: 0 <= i < |r.ds| ==> r.ds[i] < 32
  {
    if text == [] then Reading([], true)
    else
      var r := Read(text[..|text| - 1]);
      if !r.clean then r
      else match Classify(text[|text| - 1])
           case Skip => r
           case Invalid => r.(clean := false)
           case Digit(d) => r.(ds := r.ds + [d])
  }

  function Min(x: nat, y: nat): nat {
    if x <= y then x else y
  }

  /** Whole bytes out of the digits before the first bad character, as many as fit. */
  function Stored32(text: seq<nat>, bufSize: nat): (bytes: seq<nat>)
    ensures |bytes| <= bufSize
  {
    var ds := Read(text).ds;
    Regroup(8, DigitBits(5, ds))[..Min(bufSize, Floor(|ds|))]
  }

  /** What counts of it: nothing if a bad character comes before the buffer is full. */
  function Decode32(text: seq<nat>, bufSize: nat): (bytes: seq<nat>) {
    if !Read(text).clean && |Stored32(text, bufSize)| < bufSize then [] else Stored32(text, bufSize)
  }

  // ----- regrouping -----

  lemma EncodedBits(data: seq<nat>)
    ensures DigitBits(5, Digits(data)) == DataBits(data)
    ensures forall j :: 0 <= j < |Digits(data)| ==> Digits(data)[j] < 32
  {
    hide DataBits, DigitBits, Regroup, Pow, EncodedLength;
    PowersOfTwo();
    RegroupKeepsBits(5, DataBits(data));
  }

  // ----- the encoder -----

  /** Bits go in at the bottom; what the 32-bit buffer loses is above the bits still wanted. */
  lemma PushBits(buffer: nat, bits: nat, x: nat, j: nat)
    requires x < Pow(2, j) && bits + j <= 32
    ensures LowBits((buffer * Pow(2, j) + x) % 0x1_0000_0000, bits + j) == LowBits(buffer, bits) + LowBits(x, j)
  {
    hide LowBits, Pow;
    PowersOfTwo();
    LowBitsAppend(buffer, x, bits, j);
    LowBitsOfMod(buffer * Pow(2, j) + x, 32, bits + j);
  }

  /** A digit comes off the top of the buffer. */
  lemma TakeDigit(buffer: nat, bits: nat)
    requires bits >= 5
    ensures Pow(2, bits - 5) > 0
    ensures var d := (buffer / Pow(2, bits - 5)) % 32;
            d < 32 && LowBits(buffer, bits) == LowBits(d, 5) + LowBits(buffer, bits - 5)
  {
    LowBitsSplit(buffer, 5, bits - 5);
    PowersOfTwo();
    LowBitsOfMod(buffer / Pow(2, bits - 5), 5, 5);
  }

  ghost predicate Encoding(data: seq<nat>, ds: seq<nat>, buffer: nat, bits: nat, upto: nat) {
    && upto <= |DataBits(data)|
    && DigitBits(5, ds) + LowBits(buffer, bits) == DataBits(data)[..upto]
    && forall i :: 0 <= i < |ds| ==> ds[i] < 32
  }

  lemma EncodingByte(data: seq<nat>, ds: seq<nat>, buffer: nat, bits: nat, next: nat)
    requires AreBytes(data) && next < |data| && bits <= 8 && Encoding(data, ds, buffer, bits, 8 * next)
    ensures Encoding(data, ds, (buffer * 256 + data[next]) % 0x1_0000_0000, bits + 8, 8 * next + 8)
  {
    hide DataBits, DigitBits, LowBits, Pow;
    PowersOfTwo();
    PushBits(buffer, bits, data[next], 8);
    PaddedByte(data, next);
    var p := DataBits(data);
    assert p[..8 * next + 8] == p[..8 * next] + p[8 * next..8 * next + 8];
    AppendAssociates(DigitBits(5, ds), LowBits(buffer, bits), LowBits(data[next], 8));
  }

  lemma PaddedByte(data: seq<nat>, i: nat)
    requires i < |data|
    ensures 8 * i + 8 <= |DataBits(data)| && DataBits(data)[8 * i..8 * i + 8] == LowBits(data[i], 8)
  {
    LengthsAgree(|data|);
    ByteBitsAt(data, i);
  }

  lemma PaddedTail(data: seq<nat>)
    ensures 8 * |data| <= |DataBits(data)| && DataBits(data)[..8 * |data|] == ByteBits(data)
    ensures DataBits(data)[..|DataBits(data)|] == DataBits(data)[..8 * |data|] + Zeros(PadLength(|data|))
  {
    LengthsAgree(|data|);
  }

  lemma EncodingPad(data: seq<nat>, ds: seq<nat>, buffer: nat, bits: nat)
    requires Encoding(data, ds, buffer, bits, 8 * |data|) && 0 < bits < 5
    ensures 5 - bits == PadLength(|data|)
    ensures Pow(2, 5 - bits) > 0
    ensures Encoding(data, ds, (buffer * Pow(2, 5 - bits)) % 0x1_0000_0000, 5, |DataBits(data)|)
  {
    hide DataBits, DigitBits, LowBits, Pow, EncodedLength, Zeros;
    LengthsAgree(|data|);
    var pad := 5 - bits;
    PowPositive(2, pad);
    assert |DigitBits(5, ds) + LowBits(buffer, bits)| == 5 * |ds| + bits == 8 * |data|;
    assert 5 * EncodedLength(|data|) - 8 * |data| == pad;
    PushBits(buffer, bits, 0, pad);
    LowBitsOfZero(pad);
    PaddedTail(data);
    AppendAssociates(DigitBits(5, ds), LowBits(buffer, bits), Zeros(pad));
  }

  lemma EncodingDigit(data: seq<nat>, ds: seq<nat>, buffer: nat, bits: nat, upto: nat)
    requires bits >= 5 && Encoding(data, ds, buffer, bits, upto)
    ensures Pow(2, bits - 5) > 0
    ensures var d := (buffer / Pow(2, bits - 5)) % 32; Encoding(data, ds + [d], buffer, bits - 5, upto)
  {
    hide DataBits, DigitBits, LowBits, Pow;
    TakeDigit(buffer, bits);
    var d := (buffer / Pow(2, bits - 5)) % 32;
    DigitBitsSnoc(5, ds, d);
    AppendAssociates(DigitBits(5, ds), LowBits(d, 5), LowBits(buffer, bits - 5));
  }

  /** The digits produced are the first digits of the encoding. */
  lemma EncodingIsPrefix(data: seq<nat>, ds: seq<nat>, buffer: nat, bits: nat, upto: nat)
    requires Encoding(data, ds, buffer, bits, upto)
    ensures 5 * |ds| + bits == upto && |ds| <= EncodedLength(|data|) && ds == Digits(data)[..|ds|]
  {
    hide DigitBits, LowBits, Pow, Regroup, EncodedLength, DataBits;
    var p := DataBits(data);
    PowersOfTwo();
    assert |DigitBits(5, ds) + LowBits(buffer, bits)| == 5 * |ds| + bits;
    assert DigitBits(5, ds) <= p[..upto] <= p;
    RegroupIsUnique(5, ds, p);
  }

  method Encode(data: seq<nat>, bufSize: nat) returns (text: seq<nat>)
    requires AreBytes(data)
    ensures text == Encode32(data)[..Min(bufSize, EncodedLength(|data|))]
  {
    hide Encoding, Pow, Digits, EncodedLength;
    EmptyPrefix(data);
    if bufSize == 0 || data == [] { return []; }
    text := [];
    ghost var ds: seq<nat> := [];
    var buffer: nat, next: nat, bitsLeft: nat := data[0], 1, 8;
    ghost var padded := false;
    EncodingStarts(data);
    while |text| < bufSize && (bitsLeft > 0 || next < |data|)
      invariant 1 <= next <= |data| && bitsLeft <= 8 && |text| <= bufSize
      invariant padded ==> next == |data| && bitsLeft == 0
      invariant |text| == |ds| && forall i :: 0 <= i < |ds| ==> text[i] == ToChar(ds[i])
      invariant Encoding(data, ds, buffer, bitsLeft, if padded then |DataBits(data)| else 8 * next)
      decreases |data| - next, bitsLeft
    {
      if bitsLeft < 5 {
        if next < |data| {
          EncodingByte(data, ds, buffer, bitsLeft, next);
          buffer := (buffer * 256 + data[next]) % 0x1_0000_0000;
          next := next + 1;
          bitsLeft := bitsLeft + 8;
        } else {
          EncodingPad(data, ds, buffer, bitsLeft);
          buffer := (buffer * Pow(2, 5 - bitsLeft)) % 0x1_0000_0000;
          bitsLeft := 5;
          padded := true;
        }
      }
      EncodingDigit(data, ds, buffer, bitsLeft, if padded then |DataBits(data)| else 8 * next);
      var d := (buffer / Pow(2, bitsLeft - 5)) % 32;
      bitsLeft := bitsLeft - 5;
      text := text + [ToChar(d)];
      ds := ds + [d];
    }
    EncodingIsPrefix(data, ds, buffer, bitsLeft, if padded then |DataBits(data)| else 8 * next);
    if |text| < bufSize { WholeEncoding(data, ds, padded); }
    assert text == Encode32(data)[..|ds|];
  }

  lemma EmptyPrefix(data: seq<nat>)
    ensures Encode32(data)[..0] == [] && EncodedLength(0) == 0
  {
  }

  lemma EncodingStarts(data: seq<nat>)
    requires AreBytes(data) && data != []
    ensures Encoding(data, [], data[0], 8, 8)
  {
    PaddedByte(data, 0);
    assert DataBits(data)[0..8] == DataBits(data)[..8];
  }

  lemma WholeEncoding(data: seq<nat>, ds: seq<nat>, padded: bool)
    requires 5 * |ds| == if padded then |DataBits(data)| else 8 * |data|
    ensures |ds| == EncodedLength(|data|)
  {
    LengthsAgree(|data|);
  }

  // ----- the decoder -----

  ghost predicate Decoding(ds: seq<nat>, bytes: seq<nat>, buffer: nat, bits: nat) {
    && DigitBits(8, bytes) + LowBits(buffer, bits) == DigitBits(5, ds)
    && AreBytes(bytes)
  }

  lemma DecodingDigit(ds: seq<nat>, bytes: seq<nat>, buffer: nat, bits: nat, d: nat)
    requires Decoding(ds, bytes, buffer, bits) && d < 32 && bits <= 8
    ensures Decoding(ds + [d], bytes, (buffer * 32 + d) % 0x1_0000_0000, bits + 5)
  {
    hide DigitBits, LowBits, Pow;
    PowersOfTwo();
    PushBits(buffer, bits, d, 5);
    DigitBitsSnoc(5, ds, d);
    AppendAssociates(DigitBits(8, bytes), LowBits(buffer, bits), LowBits(d, 5));
  }

  /** A byte comes off the top of the buffer. */
  lemma TakeByte(buffer: nat, bits: nat)
    requires bits >= 8
    ensures Pow(2, bits - 8) > 0
    ensures var b := (buffer / Pow(2, bits - 8)) % 256;
            b < 256 && LowBits(buffer, bits) == LowBits(b, 8) + LowBits(buffer, bits - 8)
  {
    hide LowBits, Pow;
    LowBitsSplit(buffer, 8, bits - 8);
    PowersOfTwo();
    LowBitsOfMod(buffer / Pow(2, bits - 8), 8, 8);
  }

  lemma DecodingByte(ds: seq<nat>, bytes: seq<nat>, buffer: nat, bits: nat)
    requires Decoding(ds, bytes, buffer, bits) && bits >= 8
    ensures Pow(2, bits - 8) > 0
    ensures var b := (buffer / Pow(2, bits - 8)) % 256; Decoding(ds, bytes + [b], buffer, bits - 8)
  {
    hide DigitBits, LowBits, Pow;
    TakeByte(buffer, bits);
    var b := (buffer / Pow(2, bits - 8)) % 256;
    DigitBitsSnoc(8, bytes, b);
    AppendAssociates(DigitBits(8, bytes), LowBits(b, 8), LowBits(buffer, bits - 8));
  }

  lemma {:induction false} ReadGrows(text: seq<nat>, i: nat)
    requires i <= |text|
    ensures Read(text[..i]).ds <= Read(text).ds && (Read(text).clean ==> Read(text[..i]).clean)
    ensures !Read(text[..i]).clean ==> Read(text) == Read(text[..i])
    decreases |text|
  {
    if i < |text| {
      ReadGrows(text[..|text| - 1], i);
      assert text[..|text| - 1][..i] == text[..i];
    } else {
      assert text[..i] == text;
    }
  }

  /** What the loop has produced when it stops is the specified decoding. */
  lemma DecodingDone(text: seq<nat>, i: nat, bufSize: nat, bytes: seq<nat>, buffer: nat, bits: nat)
    requires i <= |text| && Read(text[..i]).clean && Decoding(Read(text[..i]).ds, bytes, buffer, bits) && bits < 8
    requires |bytes| <= bufSize && (i < |text| ==> |bytes| == bufSize)
    ensures bytes == Stored32(text, bufSize) == Decode32(text, bufSize)
  {
    hide Pow, Read, DigitBits, LowBits, Regroup;
    var ds, all := Read(text[..i]).ds, Read(text).ds;
    ReadGrows(text, i);
    DigitBitsPrefix(5, ds, all);
    var out, rest := DigitBits(8, bytes), LowBits(buffer, bits);
    assert |out + rest| == 8 * |bytes| + bits == 5 * |ds|;
    assert |bytes| == Floor(|ds|) <= Floor(|all|);
    assert i == |text| ==> text[..i] == text;
    assert out <= out + rest <= DigitBits(5, all);
    PowersOfTwo();
    RegroupIsUnique(8, bytes, DigitBits(5, all));
  }

  /** A length of 0 stands for everything before the terminator. */
  function Given(mem: seq<nat>, length: nat): seq<nat>
    requires length <= |mem|
  {
    if length == 0 then CString(mem) else mem[..length]
  }

  /** `stored` is what the buffer holds; after a bad character none of it counts. */
  method Decode(mem: seq<nat>, length: nat, bufSize: nat) returns (bytes: seq<nat>, stored: seq<nat>)
    requires length <= |mem|
    ensures bytes == Decode32(Given(mem, length), bufSize) && stored == Stored32(Given(mem, length), bufSize)
  {
    hide Decoding, Pow, Read, Decode32, Stored32, Classify, CString;
    var text := Given(mem, length);
    bytes := [];
    var buffer: nat, bitsLeft: nat := 0, 0;
    var i := 0;
    NothingRead(text);
    while i < |text| && |bytes| < bufSize
      invariant 0 <= i <= |text| && |bytes| <= bufSize && bitsLeft < 8
      invariant Read(text[..i]).clean && Decoding(Read(text[..i]).ds, bytes, buffer, bitsLeft)
    {
      ReadNext(text, i);
      match Classify(text[i]) {
        case Skip =>
        case Invalid =>
          StopsAtInvalid(text, i, bufSize, bytes, buffer, bitsLeft);
          return [], bytes;
        case Digit(d) =>
          DecodingDigit(Read(text[..i]).ds, bytes, buffer, bitsLeft, d);
          buffer := (buffer * 32 + d) % 0x1_0000_0000;
          bitsLeft := bitsLeft + 5;
          if bitsLeft >= 8 {
            DecodingByte(Read(text[..i + 1]).ds, bytes, buffer, bitsLeft);
            bytes := bytes + [(buffer / Pow(2, bitsLeft - 8)) % 256];
            bitsLeft := bitsLeft - 8;
          }
      }
      i := i + 1;
    }
    DecodingDone(text, i, bufSize, bytes, buffer, bitsLeft);
    stored := bytes;
  }

  lemma NothingRead(text: seq<nat>)
    ensures Read(text[..0]) == Reading([], true) && Decoding([], [], 0, 0)
  {
    assert text[..0] == [];
  }

  lemma ReadNext(text: seq<nat>, i: nat)
    requires i < |text| && Read(text[..i]).clean
    ensures Read(text[..i + 1]) == match Classify(text[i])
                                   case Skip => Read(text[..i])
                                   case Invalid => Read(text[..i]).(clean := false)
                                   case Digit(d) => Reading(Read(text[..i]).ds + [d], true)
    ensures Classify(text[i]).Digit? ==> Classify(text[i]).d < 32
  {
    assert text[..i + 1][..i] == text[..i];
  }

  lemma StopsAtInvalid(text: seq<nat>, i: nat, bufSize: nat, bytes: seq<nat>, buffer: nat, bits: nat)
    requires i < |text| && Read(text[..i]).clean && Decoding(Read(text[..i]).ds, bytes, buffer, bits) && bits < 8
    requires |bytes| < bufSize && !Read(text[..i + 1]).clean && Read(text[..i + 1]).ds == Read(text[..i]).ds
    ensures bytes == Stored32(text, bufSize) && Decode32(text, bufSize) == []
  {
    hide Pow, Read, DigitBits, LowBits, Regroup;
    var ds := Read(text[..i]).ds;
    ReadGrows(text, i + 1);
    var out, rest := DigitBits(8, bytes), LowBits(buffer, bits);
    assert |out + rest| == 8 * |bytes| + bits == 5 * |ds|;
    assert out <= DigitBits(5, ds);
    PowersOfTwo();
    RegroupIsUnique(8, bytes, DigitBits(5, ds));
  }

  // ----- round trip -----

  lemma {:induction false} ReadsDigits(ds: seq<nat>, text: seq<nat>)
    requires |text| == |ds| && forall i :: 0 <= i < |ds| ==> ds[i] < 32 && text[i] == ToChar(ds[i])
    ensures Read(text) == Reading(ds, true)
  {
    if ds != [] {
      var n := |ds| - 1;
      ReadsDigits(ds[..n], text[..n]);
      CharRoundTrip(ds[n]);
      assert ds == ds[..n] + [ds[n]];
    }
  }

  /** Decoding an encoding with room for the original bytes gives them back. */
  lemma RoundTrip(data: seq<nat>)
    requires AreBytes(data)
    ensures Decode32(Encode32(data), |data|) == data
    ensures Floor(|Encode32(data)|) == |data|
  {
    hide Read, Pow, Digits, DigitBits, Regroup, EncodedLength, ToChar;
    var ds, text := Digits(data), Encode32(data);
    EncodedBits(data);
    ReadsDigits(ds, text);
    LengthsAgree(|data|);
    BytesOfPadded(data, 5 * EncodedLength(|data|));
  }
}
