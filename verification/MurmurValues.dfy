/** Known values of MurmurHash3A for 32 bits, for every number of bytes behind the words. */
module MurmurValues {
  import opened Murmur

  lemma HashedParts(seed: Word, w: seq<bv8>, t: seq<bv8>, total: Word)
    requires |w| % 4 == 0 && |t| < 4
    ensures Hashed(seed, w + t, total) == Finish(Body(seed, w), |t|, TailWord(t), total)
  {
    hide Body, TailWord, Finish;
    var msg := w + t;
    assert |msg| % 4 == |t|;
    assert msg[..|w|] == w && msg[|w|..] == t;
  }

  lemma OneWord(seed: Word, w: seq<bv8>, b0: bv8, b1: bv8, b2: bv8, b3: bv8)
    requires |w| % 4 == 0
    ensures Body(seed, w + [b0, b1, b2, b3]) == Block(Body(seed, w), LittleEndian(b0, b1, b2, b3))
  {
    hide Block, LittleEndian;
    var m := w + [b0, b1, b2, b3];
    assert m[..|m| - 4] == w && m[|m| - 4..] == [b0, b1, b2, b3];
  }

  lemma NoWords(seed: Word)
    ensures Body(seed, []) == seed
  {
  }

  /** "foo bar" (test/lib_murmur.c): one word and three bytes. */
  lemma FooBar()
    ensures Hashed(0, [102, 111, 111, 32, 98, 97, 114], 7) == 0x0a329c57
  {
    hide Body, Hashed, Block, TailWord, Finish, LittleEndian;
    FooBarSteps();
    NoWords(0);
    OneWord(0, [], 102, 111, 111, 32);
    var word: seq<bv8>, tail: seq<bv8> := [102, 111, 111, 32], [98, 97, 114];
    assert [] + word == word;
    HashedParts(0, word, tail, 7);
    assert word + tail == [102, 111, 111, 32, 98, 97, 114];
  }

  lemma FooBarSteps()
    ensures Block(0, LittleEndian(102, 111, 111, 32)) == 0x4a14495e
    ensures Finish(0x4a14495e, 3, TailWord([98, 97, 114]), 7) == 0x0a329c57
  {
  }

  /** The published values for "aa" with seed 0x9747b28c, "a" with the same seed, and nothing at all. */
  lemma ShortValues()
    ensures Hashed(0x9747b28c, [97, 97], 2) == 0x5d211726
    ensures Hashed(0x9747b28c, [97], 1) == 0x7fa09ea6
    ensures Hashed(0, [], 0) == 0
  {
    hide Body, Hashed, Block, TailWord, Finish, LittleEndian;
    ShortSteps();
    NoWords(0x9747b28c);
    NoWords(0);
    var none: seq<bv8>, one: seq<bv8>, two: seq<bv8> := [], [97], [97, 97];
    HashedParts(0x9747b28c, none, two, 2);
    HashedParts(0x9747b28c, none, one, 1);
    HashedParts(0, none, none, 0);
    assert none + two == two && none + one == one && none + none == none;
  }

  lemma ShortSteps()
    ensures Finish(0x9747b28c, 2, TailWord([97, 97]), 2) == 0x5d211726
    ensures Finish(0x9747b28c, 1, TailWord([97]), 1) == 0x7fa09ea6
    ensures Finish(0, 0, TailWord([]), 0) == 0
  {
  }
}
