/** The digest of "foo" (test/lib_sha.c), word by word and round by round. */
module Sha256Foo {
  import opened Sha256

  function Foo(): seq<bv8> { [0x66, 0x6f, 0x6f] }

  /** The three bytes, the mark, and the length of 24 bits. */
  function Block(): (m: seq<Word>)
    ensures |m| == 16
  {
    [0x666f6f80, 0, 0, 0, 0, 0, 0, 0, 0, 0, 0, 0, 0, 0, 0, 24]
  }

  lemma Padding()
    ensures Pad(Foo(), 3) == Block()
  {
    hide JoinBytes, WordsOf, LengthWords;
    FooMarked();
    FooLength();
    assert Marked(Foo()) + LengthWords(3) == Block();
  }

  lemma FooMarked()
    ensures Marked(Foo()) == [0x666f6f80, 0, 0, 0, 0, 0, 0, 0, 0, 0, 0, 0, 0, 0]
  {
    hide JoinBytes;
    JoinedBytes();
    var bytes := Foo() + [0x80] + Zeros(52);
    assert Gap(3) == 52 && |bytes| == 56;
    forall j | 0 <= j < 14 ensures WordsOf(bytes)[j] == if j == 0 then 0x666f6f80 else 0 {
      if j > 0 { assert bytes[4 * j] == bytes[4 * j + 1] == bytes[4 * j + 2] == bytes[4 * j + 3] == 0; }
    }
  }

  lemma FooLength()
    ensures LengthWords(3) == [0, 24]
  {
  }

  lemma JoinedBytes()
    ensures JoinBytes(0x66, 0x6f, 0x6f, 0x80) == 0x666f6f80 && JoinBytes(0, 0, 0, 0) == 0
  {
  }

  // ----- the schedule -----

  /** The three bytes and the mark, and the length of 24 bits. */
  predicate IsBlock(m: seq<Word>)
    requires |m| == 16
  {
    && m[0] == 0x666f6f80 && m[15] == 24
    && forall t :: 1 <= t < 15 ==> m[t] == 0
  }

  lemma FirstWord(m: seq<Word>, t: nat)
    requires |m| == 16 && IsBlock(m) && t < 16
    ensures Schedule(m, t) == if t == 0 then 0x666f6f80 else if t == 15 then 24 else 0
  {
  }

  lemma Words16(m: seq<Word>)
    requires |m| == 16 && IsBlock(m)
    ensures Schedule(m, 16) == 0x666f6f80
    ensures Schedule(m, 17) == 0x000f0000
    ensures Schedule(m, 18) == 0x5a29a421
    ensures Schedule(m, 19) == 0x600003c6
    ensures Schedule(m, 20) == 0xe6820c38
    ensures Schedule(m, 21) == 0x0183fc00
    ensures Schedule(m, 22) == 0x47a2cf2a
    ensures Schedule(m, 23) == 0xe7efcf8e
  {
    hide Schedule, IsBlock;
    forall i | 0 <= i < 16 ensures Schedule(m, i) == if i == 0 then 0x666f6f80 else if i == 15 then 24 else 0 {
      FirstWord(m, i);
    }
    NextWord(m, 0);
    NextWord(m, 1);
    NextWord(m, 2);
    NextWord(m, 3);
    NextWord(m, 4);
    NextWord(m, 5);
    NextWord(m, 6);
    NextWord(m, 7);
  }

  lemma Words24(m: seq<Word>)
    requires |m| == 16 && IsBlock(m)
    ensures Schedule(m, 24) == 0x3e708396
    ensures Schedule(m, 25) == 0x7838f91a
    ensures Schedule(m, 26) == 0xb1b6489c
    ensures Schedule(m, 27) == 0x4a32895d
    ensures Schedule(m, 28) == 0xeef59f7f
    ensures Schedule(m, 29) == 0x5d3a5027
    ensures Schedule(m, 30) == 0x94618754
    ensures Schedule(m, 31) == 0x7851ba10
  {
    hide Schedule, IsBlock;
    forall i | 8 <= i < 16 ensures Schedule(m, i) == if i == 15 then 24 else 0 {
      FirstWord(m, i);
    }
    Words16(m);
    NextWord(m, 8);
    NextWord(m, 9);
    NextWord(m, 10);
    NextWord(m, 11);
    NextWord(m, 12);
    NextWord(m, 13);
    NextWord(m, 14);
    NextWord(m, 15);
  }

  lemma Words32(m: seq<Word>)
    requires |m| == 16 && IsBlock(m)
    ensures Schedule(m, 32) == 0x9210277a
    ensures Schedule(m, 33) == 0xbd12a12e
    ensures Schedule(m, 34) == 0x3c046540
    ensures Schedule(m, 35) == 0x41a6ed07
    ensures Schedule(m, 36) == 0x00f6ed12
    ensures Schedule(m, 37) == 0x30ca3243
    ensures Schedule(m, 38) == 0x5df1a6ad
    ensures Schedule(m, 39) == 0xe4bd42e1
  {
    hide Schedule, IsBlock;
    Words16(m);
    Words24(m);
    NextWord(m, 16);
    NextWord(m, 17);
    NextWord(m, 18);
    NextWord(m, 19);
    NextWord(m, 20);
    NextWord(m, 21);
    NextWord(m, 22);
    NextWord(m, 23);
  }

  lemma Words40(m: seq<Word>)
    requires |m| == 16 && IsBlock(m)
    ensures Schedule(m, 40) == 0xe8c98ed2
    ensures Schedule(m, 41) == 0x7ac5c9e2
    ensures Schedule(m, 42) == 0xfb6bb776
    ensures Schedule(m, 43) == 0x2ed9dd23
    ensures Schedule(m, 44) == 0x9e4033e1
    ensures Schedule(m, 45) == 0x6adc1290
    ensures Schedule(m, 46) == 0xda48c13b
    ensures Schedule(m, 47) == 0xdad45838
  {
    hide Schedule, IsBlock;
    Words24(m);
    Words32(m);
    NextWord(m, 24);
    NextWord(m, 25);
    NextWord(m, 26);
    NextWord(m, 27);
    NextWord(m, 28);
    NextWord(m, 29);
    NextWord(m, 30);
    NextWord(m, 31);
  }

  lemma Words48(m: seq<Word>)
    requires |m| == 16 && IsBlock(m)
    ensures Schedule(m, 48) == 0x67f5d3dc
    ensures Schedule(m, 49) == 0xfe54a72d
    ensures Schedule(m, 50) == 0x7c60c4e6
    ensures Schedule(m, 51) == 0x468fa6f6
    ensures Schedule(m, 52) == 0xf3ac074d
    ensures Schedule(m, 53) == 0x6b75bce1
    ensures Schedule(m, 54) == 0x4c20577d
    ensures Schedule(m, 55) == 0x9225756d
  {
    hide Schedule, IsBlock;
    Words32(m);
    Words40(m);
    NextWord(m, 32);
    NextWord(m, 33);
    NextWord(m, 34);
    NextWord(m, 35);
    NextWord(m, 36);
    NextWord(m, 37);
    NextWord(m, 38);
    NextWord(m, 39);
  }

  lemma Words56(m: seq<Word>)
    requires |m| == 16 && IsBlock(m)
    ensures Schedule(m, 56) == 0xc235e99e
    ensures Schedule(m, 57) == 0x2aaca02d
    ensures Schedule(m, 58) == 0xc095d63a
    ensures Schedule(m, 59) == 0xc2ac6126
    ensures Schedule(m, 60) == 0x84ca2eaf
    ensures Schedule(m, 61) == 0xd036fb5f
    ensures Schedule(m, 62) == 0x3bf24c21
    ensures Schedule(m, 63) == 0x00c0a99a
  {
    hide Schedule, IsBlock;
    Words40(m);
    Words48(m);
    NextWord(m, 40);
    NextWord(m, 41);
    NextWord(m, 42);
    NextWord(m, 43);
    NextWord(m, 44);
    NextWord(m, 45);
    NextWord(m, 46);
    NextWord(m, 47);
  }

  // ----- the rounds -----

  lemma Round0(m: seq<Word>)
    requires |m| == 16 && IsBlock(m)
    ensures Rounds(Initial(), m, 0)
            == Vars(0x6a09e667, 0xbb67ae85, 0x3c6ef372, 0xa54ff53a, 0x510e527f, 0x9b05688c, 0x1f83d9ab, 0x5be0cd19)
  {
  }

  lemma Round4(m: seq<Word>)
    requires |m| == 16 && IsBlock(m)
    ensures Rounds(Initial(), m, 4)
            == Vars(0x37488bab, 0x80d8ba56, 0xd95d8651, 0x6277f7cd, 0xd089496a, 0x9f219679, 0x723ab739, 0xff375222)
  {
    hide Rounds, Schedule, IsBlock, Initial;
    Round0(m);
    FirstWord(m, 0);
    RoundStep(Initial(), m, 0);
    FirstWord(m, 1);
    RoundStep(Initial(), m, 1);
    FirstWord(m, 2);
    RoundStep(Initial(), m, 2);
    FirstWord(m, 3);
    RoundStep(Initial(), m, 3);
  }

  lemma Round8(m: seq<Word>)
    requires |m| == 16 && IsBlock(m)
    ensures Rounds(Initial(), m, 8)
            == Vars(0xb9c596aa, 0x957dd155, 0x87766612, 0xf17c0b20, 0x42db5557, 0x1608985f, 0x1a075654, 0x0ff64427)
  {
    hide Rounds, Schedule, IsBlock, Initial;
    Round4(m);
    FirstWord(m, 4);
    RoundStep(Initial(), m, 4);
    FirstWord(m, 5);
    RoundStep(Initial(), m, 5);
    FirstWord(m, 6);
    RoundStep(Initial(), m, 6);
    FirstWord(m, 7);
    RoundStep(Initial(), m, 7);
  }

  lemma Round12(m: seq<Word>)
    requires |m| == 16 && IsBlock(m)
    ensures Rounds(Initial(), m, 12)
            == Vars(0x9533f73a, 0x14e6b8d3, 0xef3ec13e, 0x3f477627, 0x7650585b, 0xa1e081f5, 0x563e95da, 0x8dcfa9d4)
  {
    hide Rounds, Schedule, IsBlock, Initial;
    Round8(m);
    FirstWord(m, 8);
    RoundStep(Initial(), m, 8);
    FirstWord(m, 9);
    RoundStep(Initial(), m, 9);
    FirstWord(m, 10);
    RoundStep(Initial(), m, 10);
    FirstWord(m, 11);
    RoundStep(Initial(), m, 11);
  }

  lemma Round16(m: seq<Word>)
    requires |m| == 16 && IsBlock(m)
    ensures Rounds(Initial(), m, 16)
            == Vars(0x317c3831, 0xa43f148e, 0x1ee391c7, 0xd813e329, 0x3953bf91, 0x552acb20, 0x5927c095, 0xaedfaa11)
  {
    hide Rounds, Schedule, IsBlock, Initial;
    Round12(m);
    FirstWord(m, 12);
    RoundStep(Initial(), m, 12);
    FirstWord(m, 13);
    RoundStep(Initial(), m, 13);
    FirstWord(m, 14);
    RoundStep(Initial(), m, 14);
    FirstWord(m, 15);
    RoundStep(Initial(), m, 15);
  }

  lemma Round20(m: seq<Word>)
    requires |m| == 16 && IsBlock(m)
    ensures Rounds(Initial(), m, 20)
            == Vars(0x37079975, 0xae438595, 0xc9e4f13c, 0x1be44c1a, 0x937346ca, 0x1042a19c, 0x4032c29e, 0x4242dd94)
  {
    hide Rounds, Schedule, IsBlock, Initial;
    Round16(m);
    Words16(m);
    RoundStep(Initial(), m, 16);
    RoundStep(Initial(), m, 17);
    RoundStep(Initial(), m, 18);
    RoundStep(Initial(), m, 19);
  }

  lemma Round24(m: seq<Word>)
    requires |m| == 16 && IsBlock(m)
    ensures Rounds(Initial(), m, 24)
            == Vars(0xb36d67e4, 0xe762fbbd, 0x2dc298c9, 0x39027903, 0x8d58956b, 0xd148fb80, 0xa8e69639, 0x0d91a92b)
  {
    hide Rounds, Schedule, IsBlock, Initial;
    Round20(m);
    Words16(m);
    RoundStep(Initial(), m, 20);
    RoundStep(Initial(), m, 21);
    RoundStep(Initial(), m, 22);
    RoundStep(Initial(), m, 23);
  }

  lemma Round28(m: seq<Word>)
    requires |m| == 16 && IsBlock(m)
    ensures Rounds(Initial(), m, 28)
            == Vars(0xa396d24f, 0x79ce596b, 0x5b779702, 0x8301d9f0, 0xcf6e6b02, 0xdd384637, 0xfdb48759, 0x6e4006a7)
  {
    hide Rounds, Schedule, IsBlock, Initial;
    Round24(m);
    Words24(m);
    RoundStep(Initial(), m, 24);
    RoundStep(Initial(), m, 25);
    RoundStep(Initial(), m, 26);
    RoundStep(Initial(), m, 27);
  }

  lemma Round32(m: seq<Word>)
    requires |m| == 16 && IsBlock(m)
    ensures Rounds(Initial(), m, 32)
            == Vars(0x8e54bb65, 0x884d2266, 0x5f91ead8, 0x9bc8b770, 0x10735a73, 0x5ffca232, 0x3f8f7c79, 0x8122276a)
  {
    hide Rounds, Schedule, IsBlock, Initial;
    Round28(m);
    Words24(m);
    RoundStep(Initial(), m, 28);
    RoundStep(Initial(), m, 29);
    RoundStep(Initial(), m, 30);
    RoundStep(Initial(), m, 31);
  }

  lemma Round36(m: seq<Word>)
    requires |m| == 16 && IsBlock(m)
    ensures Rounds(Initial(), m, 36)
            == Vars(0x686ac4b6, 0xe176bd9c, 0xd83f92ff, 0xaf1eeed6, 0xff33e9e6, 0x3bea4ae8, 0x02ab3973, 0xd23d319d)
  {
    hide Rounds, Schedule, IsBlock, Initial;
    Round32(m);
    Words32(m);
    RoundStep(Initial(), m, 32);
    RoundStep(Initial(), m, 33);
    RoundStep(Initial(), m, 34);
    RoundStep(Initial(), m, 35);
  }

  lemma Round40(m: seq<Word>)
    requires |m| == 16 && IsBlock(m)
    ensures Rounds(Initial(), m, 40)
            == Vars(0x0e4cca20, 0x58de4427, 0x9eaa7189, 0xaffa8631, 0x499f801d, 0x4949edc7, 0xdd0466ed, 0x61dfb46f)
  {
    hide Rounds, Schedule, IsBlock, Initial;
    Round36(m);
    Words32(m);
    RoundStep(Initial(), m, 36);
    RoundStep(Initial(), m, 37);
    RoundStep(Initial(), m, 38);
    RoundStep(Initial(), m, 39);
  }

  lemma Round44(m: seq<Word>)
    requires |m| == 16 && IsBlock(m)
    ensures Rounds(Initial(), m, 44)
            == Vars(0x2de7022e, 0x6162d916, 0x060c9d76, 0x044c5713, 0x5c570a62, 0x5bad6eea, 0x4f934d25, 0x33bcdc4c)
  {
    hide Rounds, Schedule, IsBlock, Initial;
    Round40(m);
    Words40(m);
    RoundStep(Initial(), m, 40);
    RoundStep(Initial(), m, 41);
    RoundStep(Initial(), m, 42);
    RoundStep(Initial(), m, 43);
  }

  lemma Round48(m: seq<Word>)
    requires |m| == 16 && IsBlock(m)
    ensures Rounds(Initial(), m, 48)
            == Vars(0xb5106a06, 0x5f4589fd, 0xcb2846ed, 0x193bdfcd, 0x79b12f19, 0xd2bd1c51, 0x5077ff0c, 0xf22186a6)
  {
    hide Rounds, Schedule, IsBlock, Initial;
    Round44(m);
    Words40(m);
    RoundStep(Initial(), m, 44);
    RoundStep(Initial(), m, 45);
    RoundStep(Initial(), m, 46);
    RoundStep(Initial(), m, 47);
  }

  lemma Round52(m: seq<Word>)
    requires |m| == 16 && IsBlock(m)
    ensures Rounds(Initial(), m, 52)
            == Vars(0x730c5f92, 0xd0ccd503, 0xa1e6c42e, 0xbeec6995, 0x07b6482c, 0x6811f240, 0x1b19e589, 0x3c4e559f)
  {
    hide Rounds, Schedule, IsBlock, Initial;
    Round48(m);
    Words48(m);
    RoundStep(Initial(), m, 48);
    RoundStep(Initial(), m, 49);
    RoundStep(Initial(), m, 50);
    RoundStep(Initial(), m, 51);
  }

  lemma Round56(m: seq<Word>)
    requires |m| == 16 && IsBlock(m)
    ensures Rounds(Initial(), m, 56)
            == Vars(0xd33401f1, 0x4f6952f5, 0x0b9cf7c4, 0x32e62456, 0xd917efe5, 0x1d913eea, 0x041e1ff1, 0xaed6f29f)
  {
    hide Rounds, Schedule, IsBlock, Initial;
    Round52(m);
    Words48(m);
    RoundStep(Initial(), m, 52);
    RoundStep(Initial(), m, 53);
    RoundStep(Initial(), m, 54);
    RoundStep(Initial(), m, 55);
  }

  lemma Round60(m: seq<Word>)
    requires |m| == 16 && IsBlock(m)
    ensures Rounds(Initial(), m, 60)
            == Vars(0xc912a72b, 0xa9605ad8, 0x493ec330, 0xd95ee04e, 0x54d1a7b3, 0x2ec9b43f, 0xa9bf307e, 0x15c4521f)
  {
    hide Rounds, Schedule, IsBlock, Initial;
    Round56(m);
    Words56(m);
    RoundStep(Initial(), m, 56);
    RoundStep(Initial(), m, 57);
    RoundStep(Initial(), m, 58);
    RoundStep(Initial(), m, 59);
  }

  lemma Round64(m: seq<Word>)
    requires |m| == 16 && IsBlock(m)
    ensures Rounds(Initial(), m, 64)
            == Vars(0xc21cce04, 0xad98180a, 0xbd2c51ca, 0x77e04bfa, 0xc233daf1, 0xc97e5714, 0xda0684dd, 0x06861a95)
  {
    hide Rounds, Schedule, IsBlock, Initial;
    Round60(m);
    Words56(m);
    RoundStep(Initial(), m, 60);
    RoundStep(Initial(), m, 61);
    RoundStep(Initial(), m, 62);
    RoundStep(Initial(), m, 63);
  }

  // ----- the digest -----

  lemma LastSum(m: seq<Word>)
    requires |m| == 16 && IsBlock(m)
    ensures Sum(Initial(), Rounds(Initial(), m, 64))
            == [0x2c26b46b, 0x68ffc68f, 0xf99b453c, 0x1d304134,
                0x13422d70, 0x6483bfa0, 0xf98a5e88, 0x6266e7ae]
  {
    hide Rounds, Schedule, IsBlock;
    Round64(m);
  }

  lemma OneBlock(m: seq<Word>)
    requires |m| == 16
    ensures Absorb(m) == Sum(Initial(), Rounds(Initial(), m, 64))
  {
    hide Rounds, Initial, Sum;
    assert m[..0] == [] && m[0..] == m;
  }

  lemma BytesSnoc(words: seq<Word>, w: Word)
    ensures BytesOf(words + [w]) == BytesOf(words) + WordBytes(w)
  {
    assert (words + [w])[..|words|] == words;
  }

  lemma FourWords(words: seq<Word>, x: Word, y: Word, z: Word, w: Word)
    ensures BytesOf(words + [x, y, z, w])
            == BytesOf(words) + (WordBytes(x) + WordBytes(y) + WordBytes(z) + WordBytes(w))
  {
    hide BytesOf, WordBytes;
    BytesSnoc(words, x);
    BytesSnoc(words + [x], y);
    BytesSnoc(words + [x] + [y], z);
    BytesSnoc(words + [x] + [y] + [z], w);
    assert words + [x, y, z, w] == words + [x] + [y] + [z] + [w];
  }

  lemma NoBytes()
    ensures BytesOf([]) == []
  {
  }

  function FirstHalf(): seq<bv8> {
    [0x2c, 0x26, 0xb4, 0x6b, 0x68, 0xff, 0xc6, 0x8f, 0xf9, 0x9b, 0x45, 0x3c, 0x1d, 0x30, 0x41, 0x34]
  }

  lemma FirstBytes()
    ensures WordBytes(0x2c26b46b) + WordBytes(0x68ffc68f) + WordBytes(0xf99b453c) + WordBytes(0x1d304134)
            == FirstHalf()
  {
    assert WordBytes(0x2c26b46b) == [0x2c, 0x26, 0xb4, 0x6b];
    assert WordBytes(0x68ffc68f) == [0x68, 0xff, 0xc6, 0x8f];
    assert WordBytes(0xf99b453c) == [0xf9, 0x9b, 0x45, 0x3c];
    assert WordBytes(0x1d304134) == [0x1d, 0x30, 0x41, 0x34];
  }

  function LastHalf(): seq<bv8> {
    [0x13, 0x42, 0x2d, 0x70, 0x64, 0x83, 0xbf, 0xa0, 0xf9, 0x8a, 0x5e, 0x88, 0x62, 0x66, 0xe7, 0xae]
  }

  lemma LastBytes()
    ensures WordBytes(0x13422d70) + WordBytes(0x6483bfa0) + WordBytes(0xf98a5e88) + WordBytes(0x6266e7ae)
            == LastHalf()
  {
    assert WordBytes(0x13422d70) == [0x13, 0x42, 0x2d, 0x70];
    assert WordBytes(0x6483bfa0) == [0x64, 0x83, 0xbf, 0xa0];
    assert WordBytes(0xf98a5e88) == [0xf9, 0x8a, 0x5e, 0x88];
    assert WordBytes(0x6266e7ae) == [0x62, 0x66, 0xe7, 0xae];
  }

  lemma FooWords(m: seq<Word>)
    requires |m| == 16 && IsBlock(m)
    ensures Absorb(m)
            == [0x2c26b46b, 0x68ffc68f, 0xf99b453c, 0x1d304134,
                0x13422d70, 0x6483bfa0, 0xf98a5e88, 0x6266e7ae]
  {
    hide Absorb, Rounds, Schedule, IsBlock, Sum, Initial;
    OneBlock(m);
    LastSum(m);
  }

  lemma FooBytes()
    ensures BytesOf([0x2c26b46b, 0x68ffc68f, 0xf99b453c, 0x1d304134,
                     0x13422d70, 0x6483bfa0, 0xf98a5e88, 0x6266e7ae])
            == [0x2c, 0x26, 0xb4, 0x6b, 0x68, 0xff, 0xc6, 0x8f,
                0xf9, 0x9b, 0x45, 0x3c, 0x1d, 0x30, 0x41, 0x34,
                0x13, 0x42, 0x2d, 0x70, 0x64, 0x83, 0xbf, 0xa0,
                0xf9, 0x8a, 0x5e, 0x88, 0x62, 0x66, 0xe7, 0xae]
  {
    hide BytesOf, WordBytes;
    NoBytes();
    FirstBytes();
    LastBytes();
    var x: seq<Word> := [0x2c26b46b, 0x68ffc68f, 0xf99b453c, 0x1d304134];
    var y: seq<Word> := [0x13422d70, 0x6483bfa0, 0xf98a5e88, 0x6266e7ae];
    FourWords([], x[0], x[1], x[2], x[3]);
    FourWords(x, y[0], y[1], y[2], y[3]);
    assert [] + [x[0], x[1], x[2], x[3]] == x && [y[0], y[1], y[2], y[3]] == y;
    assert BytesOf(x + y) == FirstHalf() + LastHalf();
    assert x + y == [0x2c26b46b, 0x68ffc68f, 0xf99b453c, 0x1d304134,
                0x13422d70, 0x6483bfa0, 0xf98a5e88, 0x6266e7ae];
  }

  lemma BlockIsBlock()
    ensures IsBlock(Block())
  {
  }

  /** The digest of "foo". */
  lemma FooDigest()
    ensures Digest(Foo()) == [0x2c, 0x26, 0xb4, 0x6b, 0x68, 0xff, 0xc6, 0x8f,
                              0xf9, 0x9b, 0x45, 0x3c, 0x1d, 0x30, 0x41, 0x34,
                              0x13, 0x42, 0x2d, 0x70, 0x64, 0x83, 0xbf, 0xa0,
                              0xf9, 0x8a, 0x5e, 0x88, 0x62, 0x66, 0xe7, 0xae]
  {
    hide Absorb, Pad, Block, BytesOf, IsBlock;
    Padding();
    var m := Block();
    BlockIsBlock();
    FooWords(Block());
    FooBytes();
  }
}
