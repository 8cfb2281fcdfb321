/**
 The format of chunked packets written out: a size byte of at most the cap and that many bytes, as
 often as needed, and a zero.  The writer puts exactly this on the wire, and the reader takes it apart.
 */
module ChunkFormat {
  import opened Chunks

  function Chunked(p: Packet, cap: nat): seq<nat>
    requires cap > 0
    decreases |p|
  {
    if p == [] then [0]
    else
      var n := if |p| < cap then |p| else cap;
      [n] + p[..n] + Chunked(p[n..], cap)
  }

  /** Everything k writes put on the wire, each writing all that is offered. */
  function WholeWrites(w: Writer, k: nat): seq<nat>
    requires ValidWriter(w)
    decreases k
  {
    if k == 0 then [] else Offered(w) + WholeWrites(Written(w, Len(w)), k - 1)
  }

  function AfterWrites(w: Writer, k: nat): (r: Writer)
    requires ValidWriter(w)
    ensures ValidWriter(r)
    decreases k
  {
    if k == 0 then w else AfterWrites(Written(w, Len(w)), k - 1)
  }

  /** Where a chunk begins, with a packet at hand. */
  predicate AtChunk(w: Writer) {
    ValidWriter(w) && !w.blocked && w.writing != [] && w.waitat == 0 && w.waiting == 0
  }

  /** The zero ends the packet and blocks. */
  lemma WritesZero(w: Writer)
    requires AtChunk(w) && w.writeat == |w.writing[0]|
    ensures Offered(w) == [0]
    ensures Written(w, Len(w)) == w.(writing := w.writing[1..], writeat := 0, blocked := w.blocking, ack := false)
  {
    hide IsMultiple;
  }

  /** A size byte and the data behind it. */
  lemma WritesChunk(w: Writer)
    requires AtChunk(w) && w.writeat < |w.writing[0]| && !IsMultiple(|w.writing[0]| - 1, w.cap)
    ensures var p := w.writing[0][w.writeat..];
            var n := if |p| < w.cap then |p| else w.cap;
            var w1 := Written(w, Len(w));
            && Offered(w) == [n] && Offered(w1) == p[..n]
            && Written(w1, Len(w1)) == w.(writeat := w.writeat + n, ack := false)
  {
    hide IsMultiple;
    assert IsMultiple(w.writeat, w.cap);
    var p := w.writing[0][w.writeat..];
    var n := if |p| < w.cap then |p| else w.cap;
    var w1 := Written(w, Len(w));
    assert w1 == w.(waiting := n, waitat := 1, ack := false);
    assert Offered(w1) == w.writing[0][w.writeat..w.writeat + n] == p[..n];
  }

  lemma OneWrite(w: Writer, k: nat)
    requires ValidWriter(w) && k > 0
    ensures var w1 := Written(w, Len(w));
            WholeWrites(w, k) == Offered(w) + WholeWrites(w1, k - 1) && AfterWrites(w, k) == AfterWrites(w1, k - 1)
  {
  }

  /** Whole writes put a packet on the wire in its format, unless a last byte alone is taken for the zero. */
  lemma {:induction false} WritesFormat(w: Writer) returns (k: nat)
    requires AtChunk(w) && !IsMultiple(|w.writing[0]| - 1, w.cap)
    ensures WholeWrites(w, k) == Chunked(w.writing[0][w.writeat..], w.cap)
    ensures AfterWrites(w, k) == w.(writing := w.writing[1..], writeat := 0, blocked := w.blocking, ack := false)
    decreases |w.writing[0]| - w.writeat
  {
    hide ValidWriter, IsMultiple, Offered, Written, Len, WholeWrites, AfterWrites;
    ChunkBounds(w);
    var p := w.writing[0][w.writeat..];
    if p == [] {
      k := 1;
      WritesZero(w);
      OneWrite(w, 1);
      NoWrites(Written(w, Len(w)));
    } else {
      WritesChunk(w);
      var n := if |p| < w.cap then |p| else w.cap;
      var w1 := Written(w, Len(w));
      var w2 := Written(w1, Len(w1));
      assert w2.writing[0][w2.writeat..] == p[n..];
      var k' := WritesFormat(w2);
      k := k' + 2;
      TwoWrites(w, k');
    }
  }

  lemma TwoWrites(w: Writer, k: nat)
    requires ValidWriter(w)
    ensures var w1 := Written(w, Len(w));
            var w2 := Written(w1, Len(w1));
            && WholeWrites(w, k + 2) == Offered(w) + Offered(w1) + WholeWrites(w2, k)
            && AfterWrites(w, k + 2) == AfterWrites(w2, k)
  {
    hide Offered, Written, Len, WholeWrites, AfterWrites, ValidWriter;
    var w1 := Written(w, Len(w));
    OneWrite(w, k + 2);
    OneWrite(w1, k + 1);
    var w2 := Written(w1, Len(w1));
    assert Offered(w) + (Offered(w1) + WholeWrites(w2, k)) == Offered(w) + Offered(w1) + WholeWrites(w2, k);
  }

  lemma ChunkBounds(w: Writer)
    requires AtChunk(w)
    ensures w.writeat <= |w.writing[0]| && w.cap > 0
  {
  }

  lemma NoWrites(w: Writer)
    requires ValidWriter(w)
    ensures WholeWrites(w, 0) == [] && AfterWrites(w, 0) == w
  {
  }

  /** Decoding the format gives the packet, behind what was there before. */
  lemma {:induction false} FormatDecodes(d: Decoded, p: Packet, cap: nat)
    requires 0 < cap <= 255 && d.quota == 0 && d.tail + p != []
    ensures Decode(d, Chunked(p, cap)) == Decoded(d.out + [d.tail + p], [], 0)
    decreases |p|
  {
    hide Decode, DecodeByte;
    if p == [] {
      assert d.tail + p == d.tail;
      DecodeOne(d, 0, []);
      DecodeNone(DecodeByte(d, 0));
      ZeroEnds(d);
    } else {
      var n := if |p| < cap then |p| else cap;
      var rest := Chunked(p[n..], cap);
      assert Chunked(p, cap) == [n] + (p[..n] + rest);
      DecodeOne(d, n, p[..n] + rest);
      SizeByte(d, n);
      DecodeAppend(d.(quota := n), p[..n], rest);
      DecodeData(d.(quota := n), p[..n]);
      assert (d.tail + p[..n]) + p[n..] == d.tail + p by { assert p[..n] + p[n..] == p; }
      FormatDecodes(Decoded(d.out, d.tail + p[..n], 0), p[n..], cap);
    }
  }

  lemma DecodeOne(d: Decoded, b: nat, bs: seq<nat>)
    ensures Decode(d, [b] + bs) == Decode(DecodeByte(d, b), bs)
    ensures Decode(d, [b]) == Decode(DecodeByte(d, b), [])
  {
    assert ([b] + bs)[1..] == bs && [b][1..] == [];
  }

  lemma DecodeNone(d: Decoded)
    ensures Decode(d, []) == d
  {
  }

  lemma ZeroEnds(d: Decoded)
    requires d.quota == 0 && d.tail != []
    ensures DecodeByte(d, 0) == Decoded(d.out + [d.tail], [], 0)
  {
  }

  lemma SizeByte(d: Decoded, n: nat)
    requires d.quota == 0 && n > 0
    ensures DecodeByte(d, n) == d.(quota := n)
  {
  }
}
