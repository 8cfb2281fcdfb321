/**
 Hashing whole messages (src/lib/sha256.c): all at once, and in pieces through a context
 that keeps one unfinished block.
 */
module Sha256Stream {
  import opened Sha256

  // ----- a message as whole blocks and a tail -----

  function Whole(msg: seq<bv8>): (w: seq<bv8>)
    ensures |w| % 64 == 0 && |w| <= |msg| < |w| + 64
  {
    msg[..|msg| - |msg| % 64]
  }

  function Tail(msg: seq<bv8>): (t: seq<bv8>)
    ensures |t| == |msg| % 64
  {
    msg[|msg| - |msg| % 64..]
  }

  /** The hash value after the whole blocks. */
  ghost function After(msg: seq<bv8>): (h: seq<Word>)
    ensures |h| == 8
  {
    Absorb(WholeWords(msg))
  }

  function WholeWords(msg: seq<bv8>): (words: seq<Word>)
    ensures |words| % 16 == 0
  {
    BlockCount(Whole(msg));
    WordsOf(Whole(msg))
  }

  lemma BlockCount(w: seq<bv8>)
    requires |w| % 64 == 0
    ensures |w| % 4 == 0 && (|w| / 4) % 16 == 0
  {
    var q := |w| / 64;
    assert |w| == 4 * (16 * q);
  }

  lemma WordsOfAppend(x: seq<bv8>, y: seq<bv8>)
    requires |x| % 4 == 0 && |y| % 4 == 0
    ensures |x + y| % 4 == 0 && WordsOf(x + y) == WordsOf(x) + WordsOf(y)
  {
    hide JoinBytes;
    var n, m := |x| / 4, |y| / 4;
    assert |x| == 4 * n && |y| == 4 * m && |x + y| == 4 * (n + m);
    forall j | 0 <= j < n + m ensures WordsOf(x + y)[j] == (WordsOf(x) + WordsOf(y))[j] { WordOfAppend(x, y, n, m, j); }
  }

  lemma WordOfAppend(x: seq<bv8>, y: seq<bv8>, n: nat, m: nat, j: nat)
    requires |x| == 4 * n && |y| == 4 * m && j < n + m
    ensures |x + y| % 4 == 0 && WordsOf(x + y)[j] == (WordsOf(x) + WordsOf(y))[j]
  {
    hide JoinBytes;
    var all := x + y;
    assert |all| == 4 * (n + m);
    if j >= n {
      var at, from := 4 * j, 4 * (j - n);
      assert all[at] == y[from] && all[at + 1] == y[from + 1] && all[at + 2] == y[from + 2]
          && all[at + 3] == y[from + 3];
    }
  }

  lemma AbsorbBlock(words: seq<Word>, block: seq<Word>)
    requires |words| % 16 == 0 && |block| == 16
    ensures Absorb(words + block) == Compressed(Absorb(words), block)
  {
    hide Compressed;
    assert (words + block)[..|words|] == words && (words + block)[|words|..] == block;
  }

  /** A filled block goes into the hash value. */
  lemma BlockDone(whole: seq<bv8>, block: seq<bv8>)
    requires |whole| % 64 == 0 && |block| == 64
    ensures After(whole + block) == Compressed(After(whole), Begun(block)) && Tail(whole + block) == []
  {
    hide Compressed, Absorb, WordsOf;
    var msg := whole + block;
    assert Whole(msg) == msg && Whole(whole) == whole;
    assert block + Zeros(0) == block;
    WordsOfAppend(whole, block);
    BlockCount(whole);
    AbsorbBlock(WordsOf(whole), WordsOf(block));
  }

  lemma BlockArithmetic(n: nat)
    ensures var w := n - n % 64; w >= 0 && w % 64 == 0 && w % 4 == 0
  {
    var q, r := n / 64, n % 64;
    assert n - r == 64 * q;
  }

  lemma Split(msg: seq<bv8>)
    ensures msg == Whole(msg) + Tail(msg) && |Whole(msg)| % 64 == 0 && |Whole(msg)| % 4 == 0
            && |Tail(msg)| == |msg| % 64
  {
    BlockArithmetic(|msg|);
    var n := |msg| - |msg| % 64;
    assert Whole(msg) == msg[..n] && Tail(msg) == msg[n..];
  }

  // ----- padding -----

  /** The block with the mark, cut where the length goes, or followed by an empty one. */
  lemma MarkedBlocks(msg: seq<bv8>)
    ensures var w, t := WholeWords(msg), Begun(Tail(msg) + [0x80]);
            Marked(msg) == if |msg| % 64 <= 55 then w + t[..14] else w + t + Begun([])[..14]
  {
    hide JoinBytes, WordsOf, Gap, Whole, Tail, Begun, Marked;
    Split(msg);
    if |msg| % 64 <= 55 { MarkedOne(Whole(msg), Tail(msg)); } else { MarkedTwo(Whole(msg), Tail(msg)); }
  }

  lemma GapBehind(n: nat, r: nat)
    requires n % 64 == 0 && r < 64
    ensures Gap(n + r) == if r <= 55 then 55 - r else 119 - r
  {
    assert (n + r) % 64 == r;
  }

  lemma MarkedOne(whole: seq<bv8>, tail: seq<bv8>)
    requires |whole| % 64 == 0 && |whole| % 4 == 0 && |tail| <= 55
    ensures Marked(whole + tail) == WordsOf(whole) + Begun(tail + [0x80])[..14]
  {
    hide JoinBytes, WordsOf, Gap;
    GapBehind(|whole|, |tail|);
    var cut := tail + [0x80] + Zeros(55 - |tail|);
    assert |cut| == 56;
    assert (whole + tail) + [0x80] + Zeros(55 - |tail|) == whole + cut;
    WordsOfAppend(whole, cut);
    assert (tail + [0x80]) + Zeros(63 - |tail|) == cut + Zeros(8);
    WordsOfAppend(cut, Zeros(8));
  }

  lemma MarkedTwo(whole: seq<bv8>, tail: seq<bv8>)
    requires |whole| % 64 == 0 && |whole| % 4 == 0 && 55 < |tail| < 64
    ensures Marked(whole + tail) == WordsOf(whole) + Begun(tail + [0x80]) + Begun([])[..14]
  {
    hide JoinBytes, WordsOf, Gap;
    GapBehind(|whole|, |tail|);
    var block := (tail + [0x80]) + Zeros(63 - |tail|);
    assert |block| == 64;
    assert (whole + tail) + [0x80] + Zeros(119 - |tail|) == whole + block + Zeros(56);
    WordsOfAppend(whole, block);
    WordsOfAppend(whole + block, Zeros(56));
    assert [] + Zeros(64) == Zeros(56) + Zeros(8);
    WordsOfAppend(Zeros(56), Zeros(8));
  }

  /** What the last one or two compressions make of the padded message. */
  lemma LastBlocks(msg: seq<bv8>, length: nat)
    requires length < 0x1_0000_0000
    ensures var t := Begun(Tail(msg) + [0x80]);
            Absorb(Pad(msg, length)) == if |msg| % 64 <= 55 then Compressed(After(msg), t[..14] + LengthWords(length))
                                        else
                                          var h := Compressed(After(msg), t);
                                          Compressed(h, Begun([])[..14] + LengthWords(length))
  {
    hide JoinBytes, WholeWords, Compressed, Absorb, Begun, LengthWords, Marked, Whole, Tail;
    Split(msg);
    var w, t := WholeWords(msg), Begun(Tail(msg) + [0x80]);
    MarkedBlocks(msg);
    var last := LengthWords(length);
    if |msg| % 64 <= 55 {
      assert Pad(msg, length) == w + (t[..14] + last);
      AbsorbBlock(w, t[..14] + last);
    } else {
      assert Pad(msg, length) == (w + t) + (Begun([])[..14] + last);
      AbsorbBlock(w, t);
      AbsorbBlock(w + t, Begun([])[..14] + last);
    }
  }

  // ----- pieces both hashes share -----

  lemma EmptyBlock()
    ensures Begun([]) == seq(16, _ => 0)
  {
    hide Begun;
    forall j | 0 <= j < 16 ensures Begun([])[j] == 0 {
      BegunAt([], j);
    }
  }

  method Clear(chunk: array<Word>)
    requires chunk.Length == 16
    modifies chunk
    ensures chunk[..] == Begun([])
  {
    hide Begun;
    forall k | 0 <= k < 16 { chunk[k] := 0; }
    EmptyBlock();
  }

  method Copy(digest: array<Word>, h: seq<Word>)
    requires digest.Length == |h|
    modifies digest
    ensures digest[..] == h
  {
    forall i | 0 <= i < |h| { digest[i] := h[i]; }
  }

  method Start(digest: array<Word>)
    requires digest.Length == 8
    modifies digest
    ensures digest[..] == After([])
  {
    hide After, Initial;
    NothingYet();
    Copy(digest, Initial());
  }

  /** The marked block is in the buffer: write the length, with a block of its own if need be. */
  method Close(digest: array<Word>, chunk: array<Word>, length: nat, ghost msg: seq<bv8>)
    requires digest.Length == 8 && chunk.Length == 16 && digest != chunk
    requires length < 0x1_0000_0000 && length % 64 == |msg| % 64
    requires digest[..] == After(msg) && chunk[..] == Begun(Tail(msg) + [0x80])
    modifies digest, chunk
    ensures digest[..] == Absorb(Pad(msg, length))
  {
    hide Begun, Compressed, After, Absorb, Pad, ToWord;
    LastBlocks(msg, length);
    if length % 64 > 55 {
      Compress(digest, chunk);
      Clear(chunk);
    }
    ghost var first := chunk[..14];
    chunk[14] := ToWord(length / 0x2000_0000);
    chunk[15] := ToWord((length * 8) % 0x1_0000_0000);
    LengthSplit(length);
    assert chunk[..] == first + LengthWords(length);
    Compress(digest, chunk);
  }

  lemma LengthSplit(length: nat)
    requires length < 0x1_0000_0000
    ensures length / 0x2000_0000 == (8 * length) / 0x1_0000_0000
  {
  }

  method Output(digest: array<Word>) returns (hash: seq<bv8>)
    requires digest.Length == 8
    ensures hash == BytesOf(digest[..])
  {
    hide WordBytes;
    hash := [];
    var i := 0;
    while i < 8
      invariant 0 <= i <= 8 && hash == BytesOf(digest[..i])
    {
      assert digest[..i + 1][..i] == digest[..i];
      hash := hash + WordBytes(digest[i]);
      i := i + 1;
    }
    assert digest[..8] == digest[..];
  }

  // ----- all at once -----

  lemma FourPlaced(b0: bv8, b1: bv8, b2: bv8, b3: bv8)
    ensures Or(Or(Or(Place(b0, 0), Place(b1, 1)), Place(b2, 2)), Place(b3, 3)) == JoinBytes(b0, b1, b2, b3)
  {
  }

  method LoadBlock(chunk: array<Word>, block: seq<bv8>)
    requires chunk.Length == 16 && |block| == 64
    modifies chunk
    ensures chunk[..] == Begun(block)
  {
    hide Begun, JoinBytes, Place, Or;
    var p, j := 0, 0;
    while j < 16
      invariant 0 <= j <= 16 && p == 4 * j
      invariant forall k :: 0 <= k < j ==> chunk[k] == Begun(block)[k]
    {
      chunk[j] := Place(block[p], 0);
      chunk[j] := Or(chunk[j], Place(block[p + 1], 1));
      chunk[j] := Or(chunk[j], Place(block[p + 2], 2));
      chunk[j] := Or(chunk[j], Place(block[p + 3], 3));
      FourPlaced(block[p], block[p + 1], block[p + 2], block[p + 3]);
      BegunAt(block, j);
      p, j := p + 4, j + 1;
    }
  }

  lemma WholeStep(msg: seq<bv8>, i: nat)
    requires 64 * i + 64 <= |msg|
    ensures After(msg[..64 * i + 64]) == Compressed(After(msg[..64 * i]), Begun(msg[64 * i..64 * i + 64]))
  {
    hide Compressed, After, Begun;
    assert msg[..64 * i + 64] == msg[..64 * i] + msg[64 * i..64 * i + 64];
    BlockDone(msg[..64 * i], msg[64 * i..64 * i + 64]);
  }

  lemma NothingYet()
    ensures After([]) == Initial() && Tail([]) == [] && Whole([]) == []
  {
  }

  lemma WholeIsEnough(msg: seq<bv8>)
    ensures After(Whole(msg)) == After(msg)
  {
    assert Whole(Whole(msg)) == Whole(msg);
  }

  method Hash(msg: seq<bv8>) returns (hash: seq<bv8>)
    requires |msg| < 0x1_0000_0000
    ensures hash == Digest(msg)
  {
    hide Begun, Compressed, After, Absorb, Pad, BytesOf, Tail;
    var digest := new Word[8](_ => 0);
    var chunk := new Word[16](_ => 0);
    Start(digest);
    var i := 0;
    assert msg[..0] == [];
    while i < |msg| / 64
      invariant 0 <= i <= |msg| / 64 && digest[..] == After(msg[..64 * i])
    {
      WholeStep(msg, i);
      LoadBlock(chunk, msg[64 * i..64 * i + 64]);
      Compress(digest, chunk);
      i := i + 1;
    }
    assert msg[..64 * i] == Whole(msg);
    WholeIsEnough(msg);
    LoadTail(chunk, msg, 64 * i);
    Close(digest, chunk, |msg|, msg);
    hash := Output(digest);
  }

  method LoadTail(chunk: array<Word>, msg: seq<bv8>, start: nat)
    requires chunk.Length == 16 && start == |msg| - |msg| % 64
    modifies chunk
    ensures chunk[..] == Begun(Tail(msg) + [0x80])
  {
    hide Begun, Place, Or, Xor, Mark;
    Clear(chunk);
    ghost var tail := Tail(msg);
    var i := 0;
    assert tail[..0] == [];
    while i < |msg| % 64
      invariant 0 <= i <= |msg| % 64 && chunk[..] == Begun(tail[..i])
    {
      assert tail[..i + 1] == tail[..i] + [msg[start + i]];
      BegunStep(tail[..i], msg[start + i]);
      chunk[i / 4] := Or(chunk[i / 4], Place(msg[start + i], i % 4));
      i := i + 1;
    }
    assert tail[..i] == tail;
    MarkSlot(|msg|);
    BegunStep(tail, 0x80);
    chunk[(|msg| / 4) % 16] := Xor(chunk[(|msg| / 4) % 16], Mark(|msg| % 4));
  }

  lemma MarkSlot(n: nat)
    ensures (n / 4) % 16 == (n % 64) / 4 && n % 4 == (n % 64) % 4
  {
    var q, r := n / 64, n % 64;
    assert n == 64 * q + r;
    assert n / 4 == 16 * q + r / 4;
  }

  // ----- in pieces -----

  class Context {
    const state: array<Word>
    const chunk: array<Word>
    var chunkLen: nat
    var totalLen: nat

    ghost predicate Valid()
      reads this
    {
      state.Length == 8 && chunk.Length == 16 && state != chunk
    }

    /** Whole blocks are hashed, further bytes are in the buffer, and the byte counter has wrapped with both. */
    ghost predicate Filling(whole: seq<bv8>, tail: seq<bv8>)
      reads this, state, chunk
    {
      && Valid()
      && |whole| % 64 == 0 && |tail| <= 64
      && state[..] == After(whole)
      && chunkLen == |tail| && chunk[..] == Begun(tail)
      && totalLen == (|whole| + |tail|) % 0x1_0000_0000
    }

    /** Exactly this message has gone in so far. */
    ghost predicate Absorbed(msg: seq<bv8>)
      reads this, state, chunk
    {
      Filling(Whole(msg), Tail(msg))
    }

    constructor ()
      ensures Valid() && fresh(state) && fresh(chunk)
    {
      state := new Word[8](_ => 0);
      chunk := new Word[16](_ => 0);
      chunkLen, totalLen := 0, 0;
    }

    method Reset()
      requires Valid()
      modifies this, state, chunk
      ensures Absorbed([])
    {
      hide Begun, After, Tail;
      chunkLen := 0;
      totalLen := 0;
      Start(state);
      Clear(chunk);
      NothingYet();
    }

    /** The inner loop: bytes go in until the block is full or the source is used up. */
    method Fill(src: seq<bv8>, start: nat, ghost whole: seq<bv8>, ghost tail: seq<bv8>) returns (p: nat)
      requires start <= |src| && Filling(whole, tail)
      modifies this, chunk
      ensures start <= p <= |src| && Filling(whole, tail + src[start..p])
      ensures p == |src| || chunkLen == 64
      ensures start < |src| && |tail| < 64 ==> start < p
    {
      hide Begun, After, Place, Or;
      p := start;
      assert tail + src[start..p] == tail;
      while chunkLen < 64 && p < |src|
        invariant start <= p <= |src| && Filling(whole, tail + src[start..p])
      {
        ghost var sofar := tail + src[start..p];
        assert tail + src[start..p + 1] == sofar + [src[p]];
        BegunStep(sofar, src[p]);
        CounterStep(|whole| + |sofar|);
        chunk[chunkLen / 4] := Or(chunk[chunkLen / 4], Place(src[p], chunkLen % 4));
        chunkLen := chunkLen + 1;
        p := p + 1;
        totalLen := (totalLen + 1) % 0x1_0000_0000;
      }
    }

    method Flush(ghost whole: seq<bv8>, ghost tail: seq<bv8>)
      requires Filling(whole, tail) && |tail| == 64
      modifies this, state, chunk
      ensures Filling(whole + tail, [])
    {
      hide Begun, After, Compressed;
      BlockDone(whole, tail);
      Compress(state, chunk);
      chunkLen := 0;
      Clear(chunk);
    }

    method Last(ghost msg: seq<bv8>) returns (hash: seq<bv8>)
      requires Absorbed(msg)
      modifies this, state, chunk
      ensures Valid() && hash == DigestWithLength(msg, |msg| % 0x1_0000_0000)
    {
      hide Begun, After, Place, Or, Mark, Absorb, Pad, BytesOf, Tail;
      Split(msg);
      WholeIsEnough(msg);
      BegunStep(Tail(msg), 0x80);
      CounterWraps(|msg|);
      MarkIsPlaced(chunkLen % 4);
      chunk[chunkLen / 4] := Or(chunk[chunkLen / 4], Mark(chunkLen % 4));
      Close(state, chunk, totalLen, msg);
      hash := Output(state);
    }

    /** The length is a 32-bit number. */
    method Partial(src: seq<bv8>, first: bool, last: bool, ghost msg: seq<bv8>) returns (hash: seq<bv8>)
      requires |src| < 0x1_0000_0000
      requires Valid() && (if first then msg == [] else Absorbed(msg))
      modifies this, state, chunk
      ensures Valid()
      ensures !last ==> Absorbed(msg + src)
      ensures last ==> hash == DigestWithLength(msg + src, |msg + src| % 0x1_0000_0000)
    {
      hide Context.Filling, DigestWithLength;
      hash := [];
      if first { Reset(); }
      Consume(src, msg);
      if last { hash := Last(msg + src); }
    }

    method Consume(src: seq<bv8>, ghost msg: seq<bv8>)
      requires Absorbed(msg)
      modifies this, state, chunk
      ensures Absorbed(msg + src)
    {
      hide Context.Filling, Whole, Tail;
      Split(msg);
      ghost var whole, tail := Whole(msg), Tail(msg);
      var p := 0;
      while p < |src|
        invariant p <= |src| && Filling(whole, tail) && |tail| < 64 && whole + tail == msg + src[..p]
      {
        var next := Fill(src, p, whole, tail);
        Consumed(msg, src, whole, tail, p, next);
        tail := tail + src[p..next];
        p := next;
        FillingSizes(whole, tail);
        if chunkLen == 64 {
          Flush(whole, tail);
          whole, tail := whole + tail, [];
        }
      }
      FillingSizes(whole, tail);
      assert msg + src[..p] == msg + src;
      SplitUnique(whole, tail);
    }

    lemma FillingSizes(whole: seq<bv8>, tail: seq<bv8>)
      requires Filling(whole, tail)
      ensures Valid() && chunkLen == |tail| && |whole| % 64 == 0 && |tail| <= 64
    {
    }

    /** SHA256_Init, SHA256_Update, SHA256_Final */
    method Init()
      requires Valid()
      modifies this, state, chunk
      ensures Absorbed([])
    {
      var _ := Partial([], true, false, []);
    }

    method Update(src: seq<bv8>, ghost msg: seq<bv8>)
      requires Absorbed(msg)
      modifies this, state, chunk
      ensures Absorbed(msg + Cut(src))
    {
      var _ := Partial(Cut(src), false, false, msg);
    }

    method Final(ghost msg: seq<bv8>) returns (hash: seq<bv8>)
      requires Absorbed(msg)
      modifies this, state, chunk
      ensures Valid()
      ensures hash == DigestWithLength(msg, |msg| % 0x1_0000_0000)
    {
      assert msg + [] == msg;
      hash := Partial([], false, true, msg);
    }
  }

  lemma CounterWraps(n: nat)
    ensures (n % 0x1_0000_0000) % 64 == n % 64 && n % 0x1_0000_0000 < 0x1_0000_0000
  {
    var q, r := n / 0x1_0000_0000, n % 0x1_0000_0000;
    assert n == 64 * (q * 0x400_0000) + r;
  }

  lemma Consumed(msg: seq<bv8>, src: seq<bv8>, whole: seq<bv8>, tail: seq<bv8>, p: nat, next: nat)
    requires p <= next <= |src| && whole + tail == msg + src[..p]
    ensures whole + (tail + src[p..next]) == msg + src[..next]
  {
    assert src[..next] == src[..p] + src[p..next];
    assert whole + (tail + src[p..next]) == (whole + tail) + src[p..next];
  }

  lemma CounterStep(n: nat)
    ensures (n % 0x1_0000_0000 + 1) % 0x1_0000_0000 == (n + 1) % 0x1_0000_0000
  {
  }

  lemma SplitUnique(whole: seq<bv8>, tail: seq<bv8>)
    requires |whole| % 64 == 0 && |tail| < 64
    ensures Whole(whole + tail) == whole && Tail(whole + tail) == tail
  {
    var n := |whole|;
    assert (n + |tail|) % 64 == |tail|;
  }

  /** SHA256_Update passes its length on as a 32-bit number. */
  function Cut(src: seq<bv8>): (s: seq<bv8>)
    ensures |s| == |src| % 0x1_0000_0000 && (|src| < 0x1_0000_0000 ==> s == src)
  {
    src[..|src| % 0x1_0000_0000]
  }

  // ----- any split -----

  function Concat(parts: seq<seq<bv8>>): seq<bv8> {
    if parts == [] then [] else Concat(parts[..|parts| - 1]) + parts[|parts| - 1]
  }

  /** What the updates take of their parts. */
  function TakenOf(parts: seq<seq<bv8>>): seq<bv8> {
    if parts == [] then [] else TakenOf(parts[..|parts| - 1]) + Cut(parts[|parts| - 1])
  }

  lemma TakenStep(parts: seq<seq<bv8>>, i: nat)
    requires i < |parts|
    ensures TakenOf(parts[..i + 1]) == TakenOf(parts[..i]) + Cut(parts[i])
  {
    assert parts[..i + 1][..i] == parts[..i];
  }

  lemma NoParts(parts: seq<seq<bv8>>)
    ensures TakenOf(parts[..0]) == []
  {
  }

  lemma {:induction false} TakenWhole(parts: seq<seq<bv8>>)
    requires |Concat(parts)| < 0x1_0000_0000
    ensures TakenOf(parts) == Concat(parts)
  {
    if parts != [] { TakenWhole(parts[..|parts| - 1]); }
  }

  /** However a message under 2^32 bytes is cut into updates, the digest is that of the whole message. */
  method HashParts(parts: seq<seq<bv8>>) returns (hash: seq<bv8>)
    ensures hash == DigestWithLength(TakenOf(parts), |TakenOf(parts)| % 0x1_0000_0000)
    ensures |Concat(parts)| < 0x1_0000_0000 ==> hash == Digest(Concat(parts))
  {
    hide DigestWithLength, Context.Absorbed, Concat, TakenOf;
    var context := new Context();
    context.Init();
    var i := 0;
    NoParts(parts);
    while i < |parts|
      invariant 0 <= i <= |parts|
      invariant fresh(context) && fresh(context.state) && fresh(context.chunk) && context.Absorbed(TakenOf(parts[..i]))
    {
      TakenStep(parts, i);
      context.Update(parts[i], TakenOf(parts[..i]));
      i := i + 1;
    }
    assert parts[..i] == parts;
    hash := context.Final(TakenOf(parts));
    if |Concat(parts)| < 0x1_0000_0000 { TakenWhole(parts); }
  }
}
