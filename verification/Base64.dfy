/**
 Base64url (src/lib/base64.c, section 5 of RFC 4648): the encoder works in groups of three
 bytes, the decoder in four phases; the specification regroups the bit string.
 */
module Base64 {
  import opened Common
  import opened Words
  import opened Bits

  // ----- the alphabet -----

  function ToChar(d: nat): nat {
    if d < 26 then 65 + d else if d < 52 then 71 + d else if d < 62 then d - 4 else if d == 62 then 45 else 95
  }

  /** The decoder's table: it takes `+` and `/` as well, and has nothing for bytes above 0x7F. */
  function FromChar(c: nat): (d: int)
    ensures -1 <= d < 64
  {
    if c == 43 || c == 45 then 62
    else if c == 47 || c == 95 then 63
    else if 48 <= c <= 57 then c + 4
    else if 65 <= c <= 90 then c - 65
    else if 97 <= c <= 122 then c - 71
    else -1
  }

  lemma CharRoundTrip(d: nat)
    requires d < 64
    ensures FromChar(ToChar(d)) == d && ToChar(d) != 0 && ToChar(d) != 46
  {
  }

  // ----- specification -----

  function EncodedLength(n: nat): nat {
    (4 * n + 2) / 3
  }

  lemma LengthsAgree(n: nat)
    ensures 8 * n <= 6 * EncodedLength(n) < 8 * n + 6
    ensures EncodedLength(n) % 4 != 1 && (6 * EncodedLength(n)) / 8 == n
  {
    var q, r := n / 3, n % 3;
    assert n == 3 * q + r;
    assert 4 * n + 2 == 3 * (4 * q) + (4 * r + 2);
    assert EncodedLength(n) == 4 * q + (4 * r + 2) / 3;
  }

  /** The bits of the data, filled up with zeros to whole digits. */
  function DataBits(data: seq<nat>): (bs: seq<bool>)
    ensures |bs| == 6 * EncodedLength(|data|)
  {
    LengthsAgree(|data|);
    Padded(data, 6 * EncodedLength(|data|))
  }

  function Digits(data: seq<nat>): (ds: seq<nat>)
    ensures |ds| == EncodedLength(|data|)
  {
    Regroup(6, DataBits(data))
  }

  function Encode64(data: seq<nat>): (text: seq<nat>)
    ensures |text| == EncodedLength(|data|)
  {
    Spelled(Digits(data), ToChar)
  }

  function Text(mem: seq<nat>, len: nat): (s: seq<nat>)
    ensures s <= CString(mem)
  {
    var s := CString(mem);
    if len == 0 || len >= |s| then s else s[..len]
  }

  predicate AllDigits(text: seq<nat>) {
    forall i :: 0 <= i < |text| ==> FromChar(text[i]) >= 0
  }

  function TextDigits(text: seq<nat>): (ds: seq<nat>)
    requires AllDigits(text)
    ensures |ds| == |text| && forall i :: 0 <= i < |ds| ==> ds[i] == FromChar(text[i])
  {
    seq(|text|, i requires 0 <= i < |text| => FromChar(text[i]))
  }

  /** The whole bytes in the digits; nothing for an impossible length or a bad character. */
  function Decode64(mem: seq<nat>, len: nat): (bytes: seq<nat>) {
    var n := if len == 0 then |CString(mem)| else len;
    var text := Text(mem, len);
    if n % 4 == 1 || !AllDigits(text) then [] else Regroup(8, DigitBits(6, TextDigits(text)))
  }

  // ----- the encoder -----

  lemma PowersUsed()
    ensures Pow(2, 2) == 4 && Pow(2, 4) == 16 && Pow(2, 6) == 64 && Pow(2, 8) == 256
  {
    PowersOfTwo();
    PowStep(2, 4);
    PowStep(2, 5);
    assert Pow(2, 2) == 4;
    PowAdd(2, 2, 2);
  }

  /** Three bytes are four digits. */
  lemma GroupBits(a: nat, b: nat, c: nat)
    requires a < 256 && b < 256 && c < 256
    ensures LowBits(a, 8) + LowBits(b, 8) + LowBits(c, 8)
         == LowBits(a / 4, 6) + LowBits((a % 4) * 16 + b / 16, 6) + LowBits((b % 16) * 4 + c / 64, 6)
             + LowBits(c % 64, 6)
  {
    hide LowBits, Pow;
    PowersUsed();
    LowBitsSplit(a, 6, 2);
    LowBitsSplit(b, 4, 4);
    LowBitsSplit(c, 2, 6);
    LowBitsAppend(a % 4, b / 16, 2, 4);
    LowBitsAppend(b % 16, c / 64, 4, 2);
    LowBitsOfMod(a, 2, 2);
    LowBitsOfMod(b, 4, 4);
    LowBitsOfMod(c, 6, 6);
    SixParts(LowBits(a / 4, 6), LowBits(a, 2), LowBits(b / 16, 4), LowBits(b, 4), LowBits(c / 64, 2), LowBits(c, 6));
  }

  lemma SixParts(p: seq<bool>, q: seq<bool>, r: seq<bool>, s: seq<bool>, t: seq<bool>, u: seq<bool>)
    ensures (p + q) + (r + s) + (t + u) == p + (q + r) + (s + t) + u
  {
  }

  lemma ThreeBytes(bytes: seq<nat>, i: nat)
    requires i + 3 <= |bytes|
    ensures ByteBits(bytes[..i + 3]) == ByteBits(bytes[..i]) + LowBits(bytes[i], 8) + LowBits(bytes[i + 1], 8)
            + LowBits(bytes[i + 2], 8)
  {
    hide DigitBits, LowBits;
    forall j | i <= j < i + 3 ensures ByteBits(bytes[..j + 1]) == ByteBits(bytes[..j]) + LowBits(bytes[j], 8) {
      assert bytes[..j + 1] == bytes[..j] + [bytes[j]];
      DigitBitsSnoc(8, bytes[..j], bytes[j]);
    }
  }

  lemma FourDigits(ds: seq<nat>, d0: nat, d1: nat, d2: nat, d3: nat)
    ensures DigitBits(6, ds + [d0, d1, d2, d3])
         == DigitBits(6, ds) + LowBits(d0, 6) + LowBits(d1, 6) + LowBits(d2, 6) + LowBits(d3, 6)
  {
    hide DigitBits, LowBits;
    DigitBitsSnoc(6, ds, d0);
    DigitBitsSnoc(6, ds + [d0], d1);
    DigitBitsSnoc(6, ds + [d0] + [d1], d2);
    DigitBitsSnoc(6, ds + [d0] + [d1] + [d2], d3);
    assert ds + [d0, d1, d2, d3] == ds + [d0] + [d1] + [d2] + [d3];
  }

  predicate AreDigits(ds: seq<nat>) {
    forall i :: 0 <= i < |ds| ==> ds[i] < 64
  }

  lemma NoDigits()
    ensures AreDigits([]) && Spelled([], ToChar) == []
  {
  }

  lemma SpelledFour(ds: seq<nat>, d: seq<nat>)
    requires |d| == 4
    ensures Spelled(ds + d, ToChar) == Spelled(ds, ToChar) + [ToChar(d[0]), ToChar(d[1]), ToChar(d[2]), ToChar(d[3])]
  {
    hide ToChar;
  }

  lemma SpelledPrefix(ds: seq<nat>, n: nat)
    requires n <= |ds|
    ensures Spelled(ds, ToChar)[..n] == Spelled(ds[..n], ToChar)
  {
    hide ToChar;
  }

  /** The four digits of three bytes. */
  function Sextets(a: nat, b: nat, c: nat): (ds: seq<nat>)
    ensures |ds| == 4
  {
    [a / 4, (a % 4) * 16 + b / 16, (b % 16) * 4 + c / 64, c % 64]
  }

  /** One round of the encoding loop, on the data with zeros appended. */
  lemma GroupStep(ext: seq<nat>, i: nat, ds: seq<nat>)
    requires i + 3 <= |ext| && AreBytes(ext) && DigitBits(6, ds) == ByteBits(ext[..i]) && AreDigits(ds)
    ensures var a, b, c := ext[i], ext[i + 1], ext[i + 2];
            var more := ds + Sextets(a, b, c);
            DigitBits(6, more) == ByteBits(ext[..i + 3]) && AreDigits(more)
  {
    hide DigitBits, LowBits, ByteBits;
    var a, b, c := ext[i], ext[i + 1], ext[i + 2];
    GroupBits(a, b, c);
    ThreeBytes(ext, i);
    FourDigits(ds, a / 4, (a % 4) * 16 + b / 16, (b % 16) * 4 + c / 64, c % 64);
    Prefixed(ByteBits(ext[..i]), LowBits(a, 8), LowBits(b, 8), LowBits(c, 8),
             LowBits(a / 4, 6), LowBits((a % 4) * 16 + b / 16, 6), LowBits((b % 16) * 4 + c / 64, 6),
             LowBits(c % 64, 6));
  }

  lemma Prefixed(p: seq<bool>, x: seq<bool>, y: seq<bool>, z: seq<bool>,
                 d0: seq<bool>, d1: seq<bool>, d2: seq<bool>, d3: seq<bool>)
    requires x + y + z == d0 + d1 + d2 + d3
    ensures p + x + y + z == p + d0 + d1 + d2 + d3
  {
    assert p + x + y + z == p + (x + y + z);
    assert p + d0 + d1 + d2 + d3 == p + (d0 + d1 + d2 + d3);
  }

  lemma {:induction false} ZeroBytes(data: seq<nat>, n: nat)
    ensures ByteBits(data + seq(n, _ => 0)) == ByteBits(data) + Zeros(8 * n)
  {
    hide DigitBits, LowBits;
    if n == 0 {
      assert data + seq(n, _ => 0) == data;
      assert ByteBits(data) + Zeros(0) == ByteBits(data);
    } else {
      var shorter := data + seq(n - 1, _ => 0);
      ZeroBytes(data, n - 1);
      DigitBitsSnoc(8, shorter, 0);
      LowBitsOfZero(8);
      assert data + seq(n, _ => 0) == shorter + [0];
      assert Zeros(8 * (n - 1)) + Zeros(8) == Zeros(8 * n);
      AppendAssociates(ByteBits(data), Zeros(8 * (n - 1)), Zeros(8));
    }
  }

  /** Of the digits produced, those that count are the digits of the encoding. */
  lemma KeptDigits(data: seq<nat>, i: nat, ds: seq<nat>)
    requires |data| <= i <= |data| + 2 && i % 3 == 0 && 3 * |ds| == 4 * i && AreDigits(ds)
    requires DigitBits(6, ds) == ByteBits(data + seq(i - |data|, _ => 0))
    ensures |ds| - (i - |data|) == EncodedLength(|data|) && ds[..EncodedLength(|data|)] == Digits(data)
  {
    hide DigitBits, LowBits, ByteBits, BitsValue, Pow, DataBits, Digits, EncodedLength, Zeros;
    var n, l := i - |data|, EncodedLength(|data|);
    LastGroup(|data|, i, |ds|);
    ZeroBytes(data, n);
    var kept := ds[..l];
    DigitBitsPrefix(6, kept, ds);
    PaddedIsCut(data, n);
    assert DigitBits(6, kept) == DigitBits(6, ds)[..6 * l];
    UniqueDigits(data, kept);
  }

  lemma UniqueDigits(data: seq<nat>, ds: seq<nat>)
    requires |ds| == EncodedLength(|data|) && DigitBits(6, ds) == DataBits(data)
             && (forall j :: 0 <= j < |ds| ==> ds[j] < 64)
    ensures ds == Digits(data)
  {
    hide DigitBits, Regroup, Pow, DataBits, EncodedLength;
    PowersUsed();
    RegroupIsUnique(6, ds, DataBits(data));
  }

  lemma LastGroup(n: nat, i: nat, digits: nat)
    requires n <= i <= n + 2 && i % 3 == 0 && 3 * digits == 4 * i
    ensures digits - (i - n) == EncodedLength(n)
  {
    var q := i / 3;
    assert i == 3 * q && digits == 4 * q;
  }

  lemma PaddedIsCut(data: seq<nat>, n: nat)
    requires n <= 2 && (|data| + n) % 3 == 0
    ensures 6 * EncodedLength(|data|) <= 8 * |data| + 8 * n
    ensures |ByteBits(data)| == 8 * |data|
            && DataBits(data) == (ByteBits(data) + Zeros(8 * n))[..6 * EncodedLength(|data|)]
  {
    hide DigitBits, EncodedLength;
    LengthsAgree(|data|);
    RoomForPadding(|data|, n);
    var bits, all := ByteBits(data), ByteBits(data) + Zeros(8 * n);
    assert DataBits(data) == all[..6 * EncodedLength(|data|)];
  }

  lemma RoomForPadding(length: nat, n: nat)
    requires n <= 2 && (length + n) % 3 == 0
    ensures 6 * EncodedLength(length) <= 8 * length + 8 * n
  {
    var q := (length + n) / 3;
    assert length + n == 3 * q;
  }

  /** Returns the buffer, padded to whole groups with `=`, and the length without that padding. */
  method Encode(data: seq<nat>) returns (buffer: seq<nat>, length: nat)
    requires AreBytes(data)
    ensures length == EncodedLength(|data|) && length <= |buffer| && |buffer| % 4 == 0 && |buffer| < length + 3
    ensures buffer[..length] == Encode64(data) && forall j :: length <= j < |buffer| ==> buffer[j] == 61
  {
    hide Digits, LowBits, DigitBits, ByteBits, EncodedLength, ToChar, Spelled, AreDigits, Sextets;
    NothingToEncode();
    NoDigits();
    if |data| == 0 {
      assert data == [];
      return [], 0;
    }
    buffer := [];
    ghost var ds: seq<nat> := [];
    ghost var ext := data + [0, 0];
    var i := 0;
    while i < |data|
      invariant 0 <= i <= |data| + 2 && i % 3 == 0 && 3 * |buffer| == 4 * i
      invariant |buffer| == |ds| && AreDigits(ds) && buffer == Spelled(ds, ToChar)
      invariant DigitBits(6, ds) == ByteBits(ext[..i])
    {
      var s0 := data[i];
      var s1 := if i + 1 < |data| then data[i + 1] else 0;
      var s2 := if i + 2 < |data| then data[i + 2] else 0;
      GroupStep(ext, i, ds);
      var d := Sextets(s0, s1, s2);
      SpelledFour(ds, d);
      ds := ds + d;
      buffer := buffer + [ToChar(d[0]), ToChar(d[1]), ToChar(d[2]), ToChar(d[3])];
      i := i + 3;
    }
    assert ext[..i] == data + seq(i - |data|, _ => 0);
    KeptDigits(data, i, ds);
    SpelledPrefix(ds, EncodedLength(|data|));
    buffer, length := PadGroup(buffer, i - |data|);
  }

  /** Overwrites the characters that stand for no data. */
  method PadGroup(groups: seq<nat>, extra: nat) returns (buffer: seq<nat>, length: nat)
    requires extra <= 2 && extra <= |groups|
    ensures length == |groups| - extra && |buffer| == |groups| && buffer[..length] == groups[..length]
    ensures forall j :: length <= j < |buffer| ==> buffer[j] == 61
  {
    buffer := groups;
    if extra == 1 {
      buffer := buffer[|buffer| - 1 := 61];
    } else if extra == 2 {
      buffer := buffer[|buffer| - 1 := 61][|buffer| - 2 := 61];
    }
    length := |buffer| - extra;
  }

  lemma NothingToEncode()
    ensures DigitBits(6, []) == ByteBits([]) && EncodedLength(0) == 0 && Encode64([]) == []
  {
  }

  // ----- the decoder -----

  /** How many bits of the last digit the phase has not yet used. */
  function Unused(phase: nat): nat {
    if phase == 1 then 6 else if phase == 2 then 4 else if phase == 3 then 2 else 0
  }

  ghost predicate Decoding(ds: seq<nat>, bytes: seq<nat>, dlast: nat, phase: nat) {
    && phase < 4 && dlast < 64
    && AreBytes(bytes)
    && DigitBits(8, bytes) + LowBits(dlast, Unused(phase)) == DigitBits(6, ds)
  }

  lemma DecodingFirst(ds: seq<nat>, bytes: seq<nat>, dlast: nat, d: nat)
    requires Decoding(ds, bytes, dlast, 0) && d < 64
    ensures Decoding(ds + [d], bytes, d, 1)
  {
    hide DigitBits, LowBits;
    DigitBitsSnoc(6, ds, d);
    assert DigitBits(8, bytes) + LowBits(dlast, 0) == DigitBits(8, bytes);
  }

  /** A byte made of the unused bits of one digit and the high bits of the next. */
  lemma JoinDigits(x: nat, d: nat, k: nat, up: nat, down: nat)
    requires 2 <= k <= 6 && x < Pow(2, k) && d < 64 && up == Pow(2, 8 - k) && down == Pow(2, k - 2) && down > 0
    ensures x * up + d / down < 256
    ensures LowBits(x, k) + LowBits(d, 6) == LowBits(x * up + d / down, 8) + LowBits(d, k - 2)
  {
    hide LowBits, Pow;
    PowersUsed();
    LowBitsSplit(d, 8 - k, k - 2);
    var high := d / down;
    PowAdd(2, 8 - k, k - 2);
    QuotientBound(d, up, down);
    LowBitsAppend(x, high, k, 8 - k);
    AppendAssociates(LowBits(x, k), LowBits(high, 8 - k), LowBits(d, k - 2));
    PowAdd(2, k, 8 - k);
    MulMonotone(x + 1, Pow(2, k), up);
    Distribute(up, x, 1);
  }

  lemma QuotientBound(d: nat, m: nat, p: nat)
    requires p > 0 && d < m * p
    ensures d / p < m
  {
    if d / p >= m { MulMonotone(m, d / p, p); }
  }

  /** One byte leaves in each of the phases 1, 2 and 3. */
  lemma DecodingByte(ds: seq<nat>, bytes: seq<nat>, dlast: nat, phase: nat, d: nat)
    requires Decoding(ds, bytes, dlast, phase) && 1 <= phase <= 3 && d < 64
    ensures Decoding(ds + [d], bytes + [ByteAt(phase, dlast, d)], d, (phase + 1) % 4)
  {
    hide DigitBits, LowBits, Pow, ByteAt;
    var k, b := Unused(phase), ByteAt(phase, dlast, d);
    ByteJoins(dlast, phase, d);
    DigitBitsSnoc(6, ds, d);
    DigitBitsSnoc(8, bytes, b);
    AppendAssociates(DigitBits(8, bytes), LowBits(dlast, k), LowBits(d, 6));
    AppendAssociates(DigitBits(8, bytes), LowBits(b, 8), LowBits(d, k - 2));
  }

  /** The byte of each phase joins what is left of one digit with the beginning of the next. */
  lemma ByteJoins(dlast: nat, phase: nat, d: nat)
    requires dlast < 64 && 1 <= phase <= 3 && d < 64
    ensures Unused((phase + 1) % 4) == Unused(phase) - 2 >= 0
    ensures var b := ByteAt(phase, dlast, d);
            b < 256 && LowBits(dlast, Unused(phase)) + LowBits(d, 6) == LowBits(b, 8) + LowBits(d, Unused(phase) - 2)
  {
    hide LowBits;
    if phase == 1 {
      SixAndTwo(dlast, d);
    } else if phase == 2 {
      FourAndFour(dlast, d);
    } else {
      TwoAndSix(dlast, d);
    }
  }

  lemma SixAndTwo(dlast: nat, d: nat)
    requires dlast < 64 && d < 64
    ensures var b := (dlast * 4 + d / 16) % 256; LowBits(dlast, 6) + LowBits(d, 6) == LowBits(b, 8) + LowBits(d, 4)
  {
    hide LowBits, Pow;
    PowersUsed();
    JoinDigits(dlast, d, 6, 4, 16);
  }

  lemma FourAndFour(dlast: nat, d: nat)
    requires dlast < 64 && d < 64
    ensures var b := (dlast % 16) * 16 + d / 4;
            b < 256 && LowBits(dlast, 4) + LowBits(d, 6) == LowBits(b, 8) + LowBits(d, 2)
  {
    hide LowBits, Pow;
    PowersUsed();
    LowBitsOfMod(dlast, 4, 4);
    JoinDigits(dlast % 16, d, 4, 16, 4);
  }

  lemma TwoAndSix(dlast: nat, d: nat)
    requires dlast < 64 && d < 64
    ensures var b := (dlast % 4) * 64 + d; b < 256 && LowBits(dlast, 2) + LowBits(d, 6) == LowBits(b, 8) + LowBits(d, 0)
  {
    hide LowBits, Pow;
    PowersUsed();
    ValEmpty(2);
    LowBitsOfMod(dlast, 2, 2);
    JoinDigits(dlast % 4, d, 2, 64, 1);
  }

  function ByteAt(phase: nat, dlast: nat, d: nat): nat {
    if phase == 1 then (dlast * 4 + d / 16) % 256
    else if phase == 2 then (dlast % 16) * 16 + d / 4
    else (dlast % 4) * 64 + d
  }

  lemma DecodingDone(ds: seq<nat>, bytes: seq<nat>, dlast: nat, phase: nat)
    requires Decoding(ds, bytes, dlast, phase)
    ensures bytes == Regroup(8, DigitBits(6, ds))
  {
    hide DigitBits, LowBits, Regroup;
    var out, rest := DigitBits(8, bytes), LowBits(dlast, Unused(phase));
    assert |out + rest| == 8 * |bytes| + Unused(phase);
    assert out <= DigitBits(6, ds);
    PowersUsed();
    RegroupIsUnique(8, bytes, DigitBits(6, ds));
  }

  /** Without a place to save to, only the count comes back. */
  method Decode(mem: seq<nat>, len: nat, save: bool) returns (out: seq<nat>, count: nat)
    ensures count == |Decode64(mem, len)|
    ensures out == if save then Decode64(mem, len) else []
  {
    hide DigitBits, LowBits, Decoding, FromChar, ByteAt, Regroup;
    var left := if len == 0 then |CString(mem)| else len;
    if left % 4 == 1 { return [], 0; }
    ghost var text := Text(mem, len);
    ghost var ds: seq<nat>, bytes: seq<nat> := [], [];
    var dlast: nat, phase: nat, cur := 0, 0, 0;
    ghost var all := left;
    out, count := [], 0;
    DecodingStarts();
    while cur < |mem| && mem[cur] != 0 && left > 0
      invariant 0 <= cur <= |text| && phase < 4 && left + cur == all
      invariant |ds| == cur && forall j :: 0 <= j < cur ==> FromChar(text[j]) == ds[j]
      invariant Decoding(ds, bytes, dlast, phase)
      invariant count == |bytes| && out == if save then bytes else []
    {
      TextAt(mem, len, cur);
      var d := FromChar(mem[cur]);
      if d < 0 {
        assert !AllDigits(text);
        return [], 0;
      }
      DigitRange(mem[cur]);
      if phase == 0 {
        DecodingFirst(ds, bytes, dlast, d);
        phase := 1;
      } else {
        DecodingByte(ds, bytes, dlast, phase, d);
        var c := ByteAt(phase, dlast, d);
        if save { out := out + [c]; }
        count := count + 1;
        bytes := bytes + [c];
        phase := (phase + 1) % 4;
      }
      dlast := d;
      assert FromChar(text[cur]) == d;
      ds := ds + [d];
      cur, left := cur + 1, left - 1;
    }
    TextEnds(mem, len, cur);
    DecodingDone(ds, bytes, dlast, phase);
    assert ds == TextDigits(text);
  }

  lemma DecodingStarts()
    ensures Decoding([], [], 0, 0)
  {
  }

  lemma DigitRange(c: nat)
    ensures FromChar(c) < 64
  {
  }

  lemma TextAt(mem: seq<nat>, len: nat, cur: nat)
    requires cur < |mem| && mem[cur] != 0 && cur <= |Text(mem, len)| && (len == 0 || cur < len)
    ensures cur < |Text(mem, len)| && Text(mem, len)[cur] == mem[cur]
  {
  }

  lemma TextEnds(mem: seq<nat>, len: nat, cur: nat)
    requires cur <= |Text(mem, len)|
    requires cur >= |mem| || mem[cur] == 0 || cur == if len == 0 then |CString(mem)| else len
    ensures cur == |Text(mem, len)|
  {
    var s := CString(mem);
    assert cur < |s| ==> s[cur] == mem[cur] && s[cur] in s;
  }

  // ----- round trip -----

  lemma EncodedBits(data: seq<nat>)
    ensures DigitBits(6, Digits(data)) == DataBits(data)
    ensures forall j :: 0 <= j < |Digits(data)| ==> Digits(data)[j] < 64
  {
    hide DataBits, DigitBits, Regroup, Pow, EncodedLength;
    PowersUsed();
    RegroupKeepsBits(6, DataBits(data));
  }

  lemma EncodedText(data: seq<nat>)
    ensures var text := Encode64(data);
            AllDigits(text) && TextDigits(text) == Digits(data) && 0 !in text && 46 !in text
  {
    hide DataBits, DigitBits, Digits, ToChar, FromChar, EncodedLength;
    EncodedBits(data);
    var text, ds := Encode64(data), Digits(data);
    forall j | 0 <= j < |text| ensures FromChar(text[j]) == ds[j] && text[j] != 0 && text[j] != 46 {
      CharRoundTrip(ds[j]);
    }
  }

  /** Decoding the returned length of an encoding gives the data back, whatever follows it in memory. */
  lemma RoundTrip(data: seq<nat>, rest: seq<nat>)
    requires AreBytes(data) && data != []
    ensures Decode64(Encode64(data) + rest, |Encode64(data)|) == data
  {
    hide DataBits, DigitBits, Digits, ToChar, FromChar, EncodedLength, BitsValue, CString, ByteBits;
    var text := Encode64(data);
    LengthsAgree(|data|);
    EncodedText(data);
    EncodedBits(data);
    CStringOf(text, rest);
    assert Text(text + rest, |text|) == text;
    DataBytes(data);
  }

  lemma DataBytes(data: seq<nat>)
    requires AreBytes(data)
    ensures Regroup(8, DataBits(data)) == data
  {
    hide Regroup, Padded;
    LengthsAgree(|data|);
    BytesOfPadded(data, 6 * EncodedLength(|data|));
  }
}
