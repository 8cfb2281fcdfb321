/**
 Progressive MurmurHash3A (src/lib/murmur.c): bytes left over from one call travel to the
 next in the high end of a carry word whose low two bits count them.
 */
module Murmur {

  type Word = bv32

  // ----- specification: the hash of a whole message -----

  function LittleEndian(b0: bv8, b1: bv8, b2: bv8, b3: bv8): Word {
    (b0 as bv32) | ((b1 as bv32) << 8) | ((b2 as bv32) << 16) | ((b3 as bv32) << 24)
  }

  function Scramble(k: Word): Word {
    var m := k * 0xcc9e2d51;
    ((m << 15) | (m >> 17)) * 0x1b873593
  }

  function Block(h: Word, k: Word): Word {
    var x := h ^ Scramble(k);
    ((x << 13) | (x >> 19)) * 5 + 0xe6546b64
  }

  function Finalize(h: Word): Word {
    var h1 := (h ^ (h >> 16)) * 0x85ebca6b;
    var h2 := (h1 ^ (h1 >> 13)) * 0xc2b2ae35;
    h2 ^ (h2 >> 16)
  }

  function Read(b: seq<bv8>): Word
    requires |b| == 4
  {
    LittleEndian(b[0], b[1], b[2], b[3])
  }

  /** The running hash after whole words. */
  function Body(seed: Word, w: seq<bv8>): Word
    requires |w| % 4 == 0
  {
    if w == [] then seed
    else
      var n := |w| - 4;
      Block(Body(seed, w[..n]), Read(w[n..]))
  }

  /** Up to three bytes behind the words, the first of them lowest. */
  function TailWord(t: seq<bv8>): Word
    requires |t| < 4
  {
    LittleEndian(if |t| > 0 then t[0] else 0, if |t| > 1 then t[1] else 0, if |t| > 2 then t[2] else 0, 0)
  }

  function Finish(h: Word, n: nat, tail: Word, total: Word): Word {
    Finalize((if n == 0 then h else h ^ Scramble(tail)) ^ total)
  }

  function Hashed(seed: Word, msg: seq<bv8>, total: Word): Word {
    var n := |msg| % 4;
    WholePart(msg);
    var h := Body(seed, msg[..|msg| - n]);
    var t := msg[|msg| - n..];
    Finish(h, n, TailWord(t), total)
  }

  lemma WholePart(msg: seq<bv8>)
    ensures 0 <= |msg| - |msg| % 4 && (|msg| - |msg| % 4) % 4 == 0
  {
    var q := |msg| / 4;
    assert |msg| - |msg| % 4 == 4 * q;
  }

  // ----- the carry word -----

  /** The carry, shifted down to the bytes it holds. */
  function Held(c: Word, n: nat): Word
    requires n < 4
  {
    if n == 1 then c >> 24 else if n == 2 then c >> 16 else if n == 3 then c >> 8 else 0
  }

  /** A byte shifted in at the top. */
  function Shift(c: Word, b: bv8): Word {
    (c >> 8) | ((b as bv32) << 24)
  }

  /** The low two bits as a count, and a count put into a cleared low byte. */
  function Count(c: Word): (n: nat)
    ensures n < 4
  {
    if c & 3 == 0 then 0 else if c & 3 == 1 then 1 else if c & 3 == 2 then 2 else 3
  }

  function Packed(c: Word, n: nat): Word
    requires n < 4
  {
    (c & 0xffffff00) | (if n == 0 then 0 else if n == 1 then 1 else if n == 2 then 2 else 3)
  }

  lemma PackedKeeps(c: Word, n: nat)
    requires n < 4
    ensures Count(Packed(c, n)) == n && Held(Packed(c, n), n) == Held(c, n)
  {
  }

  ghost predicate Holds(c: Word, t: seq<bv8>) {
    |t| < 4 && Held(c, |t|) == TailWord(t)
  }

  /** The word made of the carried bytes and the low end of the next word. */
  function Merge(c: Word, w: Word, n: nat): Word
    requires n < 4
  {
    if n == 1 then (c >> 24) | (w << 8)
    else if n == 2 then (c >> 16) | (w << 16)
    else if n == 3 then (c >> 8) | (w << 24)
    else w
  }

  // Bit facts, one carry length at a time.

  lemma Shift0(c: Word, b: bv8)
    ensures Held(Shift(c, b), 1) == LittleEndian(b, 0, 0, 0)
  {
  }

  lemma Shift1(c: Word, b0: bv8, b: bv8)
    requires Held(c, 1) == LittleEndian(b0, 0, 0, 0)
    ensures Held(Shift(c, b), 2) == LittleEndian(b0, b, 0, 0)
  {
  }

  lemma Shift2(c: Word, b0: bv8, b1: bv8, b: bv8)
    requires Held(c, 2) == LittleEndian(b0, b1, 0, 0)
    ensures Held(Shift(c, b), 3) == LittleEndian(b0, b1, b, 0)
  {
  }

  lemma Shift3(c: Word, b0: bv8, b1: bv8, b2: bv8, b: bv8)
    requires Held(c, 3) == LittleEndian(b0, b1, b2, 0)
    ensures Shift(c, b) == LittleEndian(b0, b1, b2, b)
  {
  }

  lemma Merge1(c: Word, t0: bv8, x0: bv8, x1: bv8, x2: bv8, x3: bv8)
    requires Held(c, 1) == LittleEndian(t0, 0, 0, 0)
    ensures Merge(c, LittleEndian(x0, x1, x2, x3), 1) == LittleEndian(t0, x0, x1, x2)
    ensures Held(LittleEndian(x0, x1, x2, x3), 1) == LittleEndian(x3, 0, 0, 0)
  {
  }

  lemma Merge2(c: Word, t0: bv8, t1: bv8, x0: bv8, x1: bv8, x2: bv8, x3: bv8)
    requires Held(c, 2) == LittleEndian(t0, t1, 0, 0)
    ensures Merge(c, LittleEndian(x0, x1, x2, x3), 2) == LittleEndian(t0, t1, x0, x1)
    ensures Held(LittleEndian(x0, x1, x2, x3), 2) == LittleEndian(x2, x3, 0, 0)
  {
  }

  lemma Merge3(c: Word, t0: bv8, t1: bv8, t2: bv8, x0: bv8, x1: bv8, x2: bv8, x3: bv8)
    requires Held(c, 3) == LittleEndian(t0, t1, t2, 0)
    ensures Merge(c, LittleEndian(x0, x1, x2, x3), 3) == LittleEndian(t0, t1, t2, x0)
    ensures Held(LittleEndian(x0, x1, x2, x3), 3) == LittleEndian(x1, x2, x3, 0)
  {
  }

  lemma ShiftHolds(c: Word, t: seq<bv8>, b: bv8)
    requires Holds(c, t)
    ensures if |t| < 3 then Holds(Shift(c, b), t + [b]) else Shift(c, b) == Read(t + [b])
  {
    hide Held, Shift, LittleEndian;
    if |t| == 0 {
      Shift0(c, b);
    } else if |t| == 1 {
      Shift1(c, t[0], b);
    } else if |t| == 2 {
      Shift2(c, t[0], t[1], b);
    } else {
      Shift3(c, t[0], t[1], t[2], b);
    }
  }

  lemma MergeHolds(c: Word, t: seq<bv8>, x: seq<bv8>)
    requires Holds(c, t) && |x| == 4
    ensures Merge(c, Read(x), |t|) == Read((t + x)[..4])
    ensures Holds(if |t| == 0 then c else Read(x), (t + x)[4..])
  {
    hide Held, LittleEndian, Merge;
    if |t| == 0 {
      assert (t + x)[..4] == x && (t + x)[4..] == [];
      MergeNone(c, Read(x));
    } else if |t| == 1 {
      Merge1(c, t[0], x[0], x[1], x[2], x[3]);
    } else if |t| == 2 {
      Merge2(c, t[0], t[1], x[0], x[1], x[2], x[3]);
    } else {
      Merge3(c, t[0], t[1], t[2], x[0], x[1], x[2], x[3]);
    }
  }

  lemma MergeNone(c: Word, w: Word)
    ensures Merge(c, w, 0) == w && Holds(c, [])
  {
  }

  // ----- the running state -----

  /** The hash covers the whole words of the message and the carry holds exactly the rest. */
  ghost predicate Running(seed: Word, msg: seq<bv8>, h: Word, c: Word, n: nat) {
    exists w, t :: msg == w + t && Split(seed, w, t, h, c, n)
  }

  ghost predicate Split(seed: Word, w: seq<bv8>, t: seq<bv8>, h: Word, c: Word, n: nat) {
    |w| % 4 == 0 && |t| == n < 4 && h == Body(seed, w) && Holds(c, t)
  }

  lemma BodyStep(seed: Word, w: seq<bv8>, x: seq<bv8>)
    requires |w| % 4 == 0 && |x| == 4
    ensures |w + x| % 4 == 0 && Body(seed, w + x) == Block(Body(seed, w), Read(x))
  {
    hide Block, Read;
    assert (w + x)[..|w|] == w && (w + x)[|w|..] == x;
  }

  lemma RunningStarts(seed: Word, c: Word)
    ensures Running(seed, [], seed, c, 0)
  {
    hide Held, LittleEndian;
    MergeNone(c, 0);
    var none: seq<bv8> := [];
    assert none == none + none;
    assert Split(seed, none, none, seed, c, 0);
  }

  lemma RunningByte(seed: Word, msg: seq<bv8>, h: Word, c: Word, n: nat, b: bv8)
    requires Running(seed, msg, h, c, n)
    ensures n < 4
    ensures n < 3 ==> Running(seed, msg + [b], h, Shift(c, b), n + 1)
    ensures n == 3 ==> forall junk :: Running(seed, msg + [b], Block(h, Shift(c, b)), junk, 0)
  {
    hide Holds, Block, Shift, Body, Read;
    var w, t :| msg == w + t && Split(seed, w, t, h, c, n);
    ShiftHolds(c, t, b);
    if n < 3 {
      assert msg + [b] == w + (t + [b]);
      assert Split(seed, w, t + [b], h, Shift(c, b), n + 1);
    } else {
      BodyStep(seed, w, t + [b]);
      forall junk ensures Running(seed, msg + [b], Block(h, Shift(c, b)), junk, 0) {
        MergeNone(junk, 0);
        assert msg + [b] == (w + (t + [b])) + [];
        assert Split(seed, w + (t + [b]), [], Block(h, Shift(c, b)), junk, 0);
      }
    }
  }

  lemma RunningWord(seed: Word, msg: seq<bv8>, h: Word, c: Word, n: nat, x: seq<bv8>)
    requires Running(seed, msg, h, c, n) && |x| == 4
    ensures n < 4 && Running(seed, msg + x, Block(h, Merge(c, Read(x), n)), if n == 0 then c else Read(x), n)
  {
    hide Holds, Block, Merge, Body, Read;
    var w, t :| msg == w + t && Split(seed, w, t, h, c, n);
    MergeHolds(c, t, x);
    var full, rest := (t + x)[..4], (t + x)[4..];
    BodyStep(seed, w, full);
    assert msg + x == (w + full) + rest;
    assert Split(seed, w + full, rest, Block(h, Merge(c, Read(x), n)), if n == 0 then c else Read(x), n);
  }

  lemma RunningPacked(seed: Word, msg: seq<bv8>, h: Word, c: Word, n: nat)
    requires Running(seed, msg, h, c, n)
    ensures n < 4 && Count(Packed(c, n)) == n && Running(seed, msg, h, Packed(c, n), n)
  {
    hide Body, Held, Packed, Count, LittleEndian;
    var w, t :| msg == w + t && Split(seed, w, t, h, c, n);
    PackedKeeps(c, n);
    assert Split(seed, w, t, h, Packed(c, n), n);
  }

  // ----- the code -----

  /** DOBYTES */
  method Bytes(h1: Word, carry: Word, count: nat, data: seq<bv8>, ghost seed: Word, ghost msg: seq<bv8>)
    returns (h: Word, c: Word, n: nat)
    requires Running(seed, msg, h1, carry, count)
    ensures Running(seed, msg + data, h, c, n)
    ensures count + |data| == 4 && count > 0 ==> n == 0
  {
    hide Running, Block, Shift, Scramble;
    h, c, n := h1, carry, count;
    var p := 0;
    assert msg + data[..0] == msg;
    RunningByte(seed, msg, h, c, n, 0);
    while p < |data|
      invariant p <= |data| && Running(seed, msg + data[..p], h, c, n) && n < 4
      invariant n == (count + p) % 4
    {
      RunningByte(seed, msg + data[..p], h, c, n, data[p]);
      assert (msg + data[..p]) + [data[p]] == msg + data[..p + 1];
      c := Shift(c, data[p]);
      n := n + 1;
      p := p + 1;
      if n == 4 {
        h := Block(h, c);
        c := Scramble(c);
        n := 0;
      }
    }
    assert data[..p] == data;
  }

  /** The word loop for a given carry count; with none it leaves the carry alone. */
  method WordLoop(h1: Word, carry: Word, n: nat, data: seq<bv8>, ghost seed: Word, ghost msg: seq<bv8>)
    returns (h: Word, c: Word)
    requires Running(seed, msg, h1, carry, n) && n < 4 && |data| % 4 == 0
    ensures Running(seed, msg + data, h, c, n)
    ensures n == 0 ==> c == carry
  {
    hide Running, Block, Merge, Read;
    h, c := h1, carry;
    var p := 0;
    assert msg + data[..0] == msg;
    while p < |data|
      invariant p <= |data| && p % 4 == 0 && Running(seed, msg + data[..p], h, c, n)
      invariant n == 0 ==> c == carry
    {
      var w := Read(data[p..p + 4]);
      RunningWord(seed, msg + data[..p], h, c, n, data[p..p + 4]);
      assert (msg + data[..p]) + data[p..p + 4] == msg + data[..p + 4];
      var k1 := Merge(c, w, n);
      if n > 0 { c := w; }
      h := Block(h, k1);
      p := p + 4;
    }
    assert data[..p] == data;
  }

  /** What both builds do once the start has been consumed. */
  method WordsAndRest(h1: Word, carry: Word, count: nat, data: seq<bv8>, ghost seed: Word, ghost msg: seq<bv8>)
    returns (h: Word, c: Word)
    requires Running(seed, msg, h1, carry, count) && count < 4
    ensures Running(seed, msg + data, h, c, Count(c))
  {
    hide Running, Packed, Count;
    var whole := |data| / 4 * 4;
    h, c := WordLoop(h1, carry, count, data[..whole], seed, msg);
    var n;
    h, c, n := Bytes(h, c, count, data[whole..], seed, msg + data[..whole]);
    assert (msg + data[..whole]) + data[whole..] == msg + data;
    RunningPacked(seed, msg + data, h, c, n);
    c := Packed(c, n);
  }

  /**
   PMurHash32_Process.  With word reads at any address the carry is filled up first; otherwise
   bytes are taken up to a word boundary and the word loop merges across the carry.
   */
  method Process(unalignedSafe: bool, address: nat, h1: Word, carry: Word, key: seq<bv8>, ghost seed: Word,
      ghost msg: seq<bv8>)
    returns (h: Word, c: Word)
    requires Running(seed, msg, h1, carry, Count(carry))
    ensures Running(seed, msg + key, h, c, Count(c))
  {
    hide Running, Count;
    var n := Count(carry);
    var i := if unalignedSafe then (4 - n) % 4 else (4 - address % 4) % 4;
    h, c := h1, carry;
    var rest := key;
    ghost var done := msg;
    assert msg + key == done + rest;
    if i > 0 && i <= |key| {
      h, c, n := Bytes(h, c, n, key[..i], seed, msg);
      rest := key[i..];
      done := msg + key[..i];
      assert msg + key == done + rest;
    }
    CountBound(seed, done, h, c, n);
    // the plain word loop of the first build never meets carried bytes
    assert unalignedSafe && |rest| >= 4 ==> n == 0;
    h, c := WordsAndRest(h, c, n, rest, seed, done);
  }

  lemma CountBound(seed: Word, msg: seq<bv8>, h: Word, c: Word, n: nat)
    requires Running(seed, msg, h, c, n)
    ensures n < 4
  {
    var w, t :| msg == w + t && Split(seed, w, t, h, c, n);
  }

  /** The carry, shifted down by the bytes it does not hold. */
  method Result(h1: Word, carry: Word, total: Word, ghost seed: Word, ghost msg: seq<bv8>) returns (h: Word)
    requires Running(seed, msg, h1, carry, Count(carry))
    ensures h == Hashed(seed, msg, total)
  {
    hide Count, Running, Scramble, Finalize, Held, Hashed;
    var n := Count(carry);
    h := h1;
    if n > 0 { h := h ^ Scramble(Held(carry, n)); }
    h := h ^ total;
    h := Finalize(h);
    ResultIsHash(seed, msg, h1, carry, n, total);
  }

  lemma ResultIsHash(seed: Word, msg: seq<bv8>, h: Word, c: Word, n: nat, total: Word)
    requires Running(seed, msg, h, c, n) && n < 4
    ensures Hashed(seed, msg, total) == Finish(h, n, Held(c, n), total)
  {
    hide Finish, Held, TailWord, Body;
    var w, t :| msg == w + t && Split(seed, w, t, h, c, n);
    assert |msg| % 4 == (|w| + n) % 4 == n;
    assert msg[..|msg| - n] == w && msg[|msg| - n..] == t;
  }

  // ----- whole runs -----

  datatype Part = Part(bytes: seq<bv8>, unalignedSafe: bool, address: nat)

  function Concat(parts: seq<Part>): seq<bv8> {
    if parts == [] then [] else Concat(parts[..|parts| - 1]) + parts[|parts| - 1].bytes
  }

  lemma ConcatStep(parts: seq<Part>, i: nat)
    requires i < |parts|
    ensures Concat(parts[..i + 1]) == Concat(parts[..i]) + parts[i].bytes
  {
    assert parts[..i + 1][..i] == parts[..i];
  }

  /** However the message is cut, wherever the pieces lie and whichever build takes each. */
  method HashParts(seed: Word, parts: seq<Part>, total: Word) returns (h: Word)
    ensures h == Hashed(seed, Concat(parts), total)
  {
    hide Running, Count, Concat, Hashed;
    h := seed;
    var c: Word := 0;
    CountOfZero(seed);
    NoParts(parts);
    var i := 0;
    while i < |parts|
      invariant 0 <= i <= |parts| && Running(seed, Concat(parts[..i]), h, c, Count(c))
    {
      ConcatStep(parts, i);
      h, c := Process(parts[i].unalignedSafe, parts[i].address, h, c, parts[i].bytes, seed, Concat(parts[..i]));
      i := i + 1;
    }
    assert parts[..i] == parts;
    h := Result(h, c, total, seed, Concat(parts));
  }

  lemma NoParts(parts: seq<Part>)
    ensures Concat(parts[..0]) == []
  {
  }

  lemma CountOfZero(seed: Word)
    ensures Running(seed, [], seed, 0, Count(0))
  {
    RunningStarts(seed, 0);
  }

  /** PMurHash32 */
  method Hash(unalignedSafe: bool, address: nat, seed: Word, key: seq<bv8>) returns (h: Word)
    requires |key| < 0x8000_0000
    ensures h == Hashed(seed, key, |key| as bv32)
  {
    hide Running, Count, Concat, Hashed;
    CountOfZero(seed);
    var carry: Word := 0;
    assert [] + key == key;
    h, carry := Process(unalignedSafe, address, seed, carry, key, seed, []);
    h := Result(h, carry, |key| as bv32, seed, key);
  }
}
