/**
 Chunked stream transport (src/util/chunks.c).  A packet is cut into chunks, each a size
 byte and that many data bytes, and ended by a chunk of size 0; between packets a lone 0
 is an acknowledgement.  A sender that ends a packet blocks until a chunk comes back.
 */
module Chunks {
  import opened Common
  import opened Words

  type Packet = seq<nat>

  // ----- the receiving side -----

  /** A chunk and the part of its data that has arrived; only the newest can be incomplete. */
  datatype Chunk = Chunk(size: nat, data: seq<nat>)

  predicate ValidReading(r: seq<Chunk>) {
    && (forall i :: 0 <= i < |r| ==> |r[i].data| <= r[i].size)
    && (forall i :: 0 <= i < |r| - 1 ==> |r[i].data| == r[i].size)
  }

  /** Data bytes still owed to the newest chunk. */
  function Quota(r: seq<Chunk>): nat
    requires ValidReading(r)
  {
    if r == [] then 0 else r[|r| - 1].size - |r[|r| - 1].data|
  }

  /** One byte from the stream, oldest chunk first. */
  function FeedByte(r: seq<Chunk>, b: nat): (r': seq<Chunk>)
    requires ValidReading(r)
    ensures ValidReading(r')
  {
    if Quota(r) == 0 then r + [Chunk(b, [])]
    else
      var top := r[|r| - 1];
      r[..|r| - 1] + [top.(data := top.data + [b])]
  }

  function Feed(r: seq<Chunk>, bs: seq<nat>): (r': seq<Chunk>)
    requires ValidReading(r)
    ensures ValidReading(r')
    decreases |bs|
  {
    if bs == [] then r else Feed(FeedByte(r, bs[0]), bs[1..])
  }

  function Data(r: seq<Chunk>): seq<nat> {
    if r == [] then [] else Data(r[..|r| - 1]) + r[|r| - 1].data
  }

  /** The oldest flush, or the number of chunks when there is none. */
  function FirstFlush(r: seq<Chunk>): (f: nat)
    ensures f <= |r| && (f < |r| ==> r[f].size == 0) && forall i :: 0 <= i < f ==> r[i].size != 0
  {
    if r == [] || r[0].size == 0 then 0 else 1 + FirstFlush(r[1..])
  }

  /** util_chunks_receive: the oldest complete packet, skipping flushes with nothing before them. */
  function Take(r: seq<Chunk>): (seq<Chunk>, Option<Packet>) {
    var f := FirstFlush(r);
    if f == |r| then (r, None)
    else if f == 0 then Take(r[1..])
    else (r[f + 1..], Some(Data(r[..f])))
  }

  lemma TakeCases(r: seq<Chunk>)
    ensures var f := FirstFlush(r);
            Take(r) == if f == |r| then (r, None) else if f == 0 then Take(r[1..]) else (r[f + 1..], Some(Data(r[..f])))
  {
  }

  // ----- what the received bytes mean -----

  /** Packets complete so far, bytes of the next packet, and data bytes owed to the current chunk. */
  datatype Decoded = Decoded(out: seq<Packet>, tail: seq<nat>, quota: nat)

  function DecodeByte(d: Decoded, b: nat): Decoded {
    if d.quota > 0 then Decoded(d.out, d.tail + [b], d.quota - 1)
    else if b > 0 then d.(quota := b)
    else if d.tail == [] then d
    else Decoded(d.out + [d.tail], [], 0)
  }

  function Decode(d: Decoded, bs: seq<nat>): Decoded
    decreases |bs|
  {
    if bs == [] then d else Decode(DecodeByte(d, bs[0]), bs[1..])
  }

  function Outputs(r: seq<Chunk>): seq<Packet> {
    if r == [] then []
    else
      var r', c := r[..|r| - 1], r[|r| - 1];
      Outputs(r') + if c.size == 0 && Rest(r') != [] then [Rest(r')] else []
  }

  /** The data after the newest flush. */
  function Rest(r: seq<Chunk>): seq<nat> {
    if r == [] || r[|r| - 1].size == 0 then [] else Rest(r[..|r| - 1]) + r[|r| - 1].data
  }

  function Meaning(r: seq<Chunk>): Decoded
    requires ValidReading(r)
  {
    Decoded(Outputs(r), Rest(r), Quota(r))
  }

  lemma FeedByteDecodes(r: seq<Chunk>, b: nat)
    requires ValidReading(r)
    ensures Meaning(FeedByte(r, b)) == DecodeByte(Meaning(r), b)
  {
    var r' := FeedByte(r, b);
    if Quota(r) == 0 {
      assert r'[..|r'| - 1] == r;
    } else {
      assert r'[..|r'| - 1] == r[..|r| - 1];
    }
  }

  lemma {:induction false} FeedDecodes(r: seq<Chunk>, bs: seq<nat>)
    requires ValidReading(r)
    ensures Meaning(Feed(r, bs)) == Decode(Meaning(r), bs)
    decreases |bs|
  {
    if bs != [] {
      FeedByteDecodes(r, bs[0]);
      FeedDecodes(FeedByte(r, bs[0]), bs[1..]);
    }
  }

  lemma {:induction false} DecodeAppend(d: Decoded, x: seq<nat>, y: seq<nat>)
    ensures Decode(d, x + y) == Decode(Decode(d, x), y)
    decreases |x|
  {
    if x == [] {
      assert x + y == y;
    } else {
      DecodeAppend(DecodeByte(d, x[0]), x[1..], y);
      assert (x + y)[1..] == x[1..] + y;
    }
  }

  lemma {:induction false} FeedAppend(r: seq<Chunk>, x: seq<nat>, y: seq<nat>)
    requires ValidReading(r)
    ensures Feed(r, x + y) == Feed(Feed(r, x), y)
    decreases |x|
  {
    hide FeedByte, ValidReading;
    if x == [] {
      assert x + y == y;
    } else {
      FeedAppend(FeedByte(r, x[0]), x[1..], y);
      assert (x + y)[1..] == x[1..] + y;
    }
  }

  /** Packets decoded earlier do not influence what follows. */
  lemma {:induction false} DecodeKeepsOut(p: seq<Packet>, d: Decoded, bs: seq<nat>)
    ensures Decode(Decoded(p + d.out, d.tail, d.quota), bs) ==
            var e := Decode(d, bs); Decoded(p + e.out, e.tail, e.quota)
    decreases |bs|
  {
    if bs != [] {
      var d' := DecodeByte(d, bs[0]);
      DecodeKeepsOut(p, d', bs[1..]);
      if d'.out != d.out { assert p + (d.out + [d.tail]) == (p + d.out) + [d.tail]; }
    }
  }

  /** While data is owed, only data is consumed; the bytes beyond start a chunk. */
  lemma {:induction false} DecodeQuota(d: Decoded, bs: seq<nat>)
    ensures |bs| <= d.quota ==> Decode(d, bs).quota == d.quota - |bs|
    decreases |bs|
  {
    if bs != [] { DecodeQuota(DecodeByte(d, bs[0]), bs[1..]); }
  }

  // ----- taking packets out -----

  predicate Complete(r: seq<Chunk>) {
    forall i :: 0 <= i < |r| ==> |r[i].data| == r[i].size
  }

  lemma {:induction false} NoFlushMeaning(r: seq<Chunk>)
    requires forall i :: 0 <= i < |r| ==> r[i].size != 0
    ensures Outputs(r) == [] && Rest(r) == Data(r)
    ensures r != [] && Complete(r) ==> Data(r) != []
  {
    if r != [] { NoFlushMeaning(r[..|r| - 1]); }
  }

  lemma MeaningOfOneMore(r: seq<Chunk>, c: Chunk)
    ensures Outputs(r + [c]) == Outputs(r) + if c.size == 0 && Rest(r) != [] then [Rest(r)] else []
    ensures Rest(r + [c]) == if c.size == 0 then [] else Rest(r) + c.data
  {
    assert (r + [c])[..|r|] == r;
  }

  lemma MeaningOfNothing()
    ensures Outputs([]) == [] && Rest([]) == []
  {
  }

  /** Chunks up to a flush and chunks after it are decoded independently. */
  lemma {:induction false} MeaningSplits(r: seq<Chunk>, f: nat)
    requires f < |r| && r[f].size == 0
    ensures Outputs(r) == Outputs(r[..f + 1]) + Outputs(r[f + 1..])
    ensures Rest(r) == Rest(r[f + 1..])
    decreases |r|
  {
    hide Outputs, Rest;
    var r', c := r[..|r| - 1], r[|r| - 1];
    assert r == r' + [c];
    MeaningOfOneMore(r', c);
    MeaningOfNothing();
    if f == |r| - 1 {
      assert r[..f + 1] == r && r[f + 1..] == [];
    } else {
      MeaningSplits(r', f);
      assert r'[..f + 1] == r[..f + 1];
      assert r[f + 1..] == r'[f + 1..] + [c];
      MeaningOfOneMore(r'[f + 1..], c);
    }
  }

  /** The chunks before a flush are one packet, or nothing. */
  lemma BeforeFlush(r: seq<Chunk>, f: nat)
    requires f < |r| && r[f].size == 0 && Complete(r[..f]) && forall i :: 0 <= i < f ==> r[i].size != 0
    ensures Outputs(r[..f + 1]) == if f == 0 then [] else [Data(r[..f])]
  {
    NoFlushMeaning(r[..f]);
    var s := r[..f + 1];
    assert s[..f] == r[..f] && s[f] == r[f];
  }

  lemma AfterFlush(r: seq<Chunk>, f: nat)
    requires ValidReading(r) && f < |r| && r[f].size == 0
    ensures ValidReading(r[f + 1..]) && Quota(r[f + 1..]) == Quota(r) && Complete(r[..f])
  {
  }

  /** Receiving removes exactly the first complete packet and disturbs nothing else. */
  lemma {:induction false} TakeMeaning(r: seq<Chunk>)
    requires ValidReading(r)
    ensures ValidReading(Take(r).0)
    ensures Take(r).1.None? ==> Meaning(r) == Meaning(Take(r).0) && Outputs(r) == []
    ensures Take(r).1.Some? ==> Meaning(r) == Meaning(Take(r).0).(out := [Take(r).1.value] + Outputs(Take(r).0))
    decreases |r|
  {
    hide Outputs, Rest, Data, Quota, FirstFlush, ValidReading, Complete;
    var f := FirstFlush(r);
    if f == |r| {
      NoFlushMeaning(r);
    } else {
      AfterFlush(r, f);
      MeaningSplits(r, f);
      BeforeFlush(r, f);
      if f == 0 {
        assert [] + Outputs(r[1..]) == Outputs(r[1..]);
        TakeMeaning(r[1..]);
      }
    }
  }

  // ----- the sending side -----

  datatype Writer = Writer(writing: seq<Packet>, writeat: nat, waitat: nat, waiting: nat, cap: nat,
                           blocked: bool, blocking: bool, ack: bool)

  predicate ValidWriter(w: Writer) {
    && 1 <= w.cap <= 255
    && (forall i :: 0 <= i < |w.writing| ==> w.writing[i] != [])
    && (w.writing == [] ==> w.writeat == w.waitat == w.waiting == 0)
    && (w.writing != [] ==> w.writeat + w.waiting <= |w.writing[0]| && w.waiting <= w.cap)
    && (w.waitat > 0 ==> w.waitat <= w.waiting)
    && (w.waiting > 0 ==> w.waiting == Avail(w))
    && (w.writing != [] ==> w.writeat == |w.writing[0]| || IsMultiple(w.writeat, w.cap))
  }

  /** All chunks but the last of a packet are full. */
  predicate IsMultiple(x: nat, cap: nat)
    requires cap > 0
  {
    x % cap == 0
  }

  lemma NextMultiple(x: nat, cap: nat)
    requires cap > 0
    ensures IsMultiple(0, cap)
    ensures IsMultiple(x, cap) ==> IsMultiple(x + cap, cap)
  {
    DivModUnique(0, cap, 0, 0);
    if IsMultiple(x, cap) {
      Distribute(cap, x / cap, 1);
      DivModUnique(x + cap, cap, x / cap + 1, 0);
    }
  }

  /** The size of the next chunk. */
  function Avail(w: Writer): int {
    if w.writing == [] then 0
    else if |w.writing[0]| - w.writeat > w.cap then w.cap else |w.writing[0]| - w.writeat
  }

  /** util_chunks_len fixes the size of the chunk being written as a side effect. */
  function Ready(w: Writer): (r: Writer)
    requires ValidWriter(w)
    ensures ValidWriter(r)
  {
    if w.blocked || w.writing == [] || w.waiting != 0 then w else w.(waiting := Avail(w))
  }

  function Len(w: Writer): nat
    requires ValidWriter(w)
  {
    if w.blocked then 0
    else if w.writing == [] then (if w.ack then 1 else 0)
    else if w.waitat == 0 then 1
    else w.waiting - (w.waitat - 1)
  }

  /** The bytes util_chunks_write points at: the size byte, or what is left of the chunk. */
  function Offered(w: Writer): (bs: seq<nat>)
    requires ValidWriter(w)
    ensures |bs| == Len(w)
  {
    if Len(w) == 0 then []
    else if w.waitat == 0 then [Ready(w).waiting]
    else w.writing[0][w.writeat + w.waitat - 1..w.writeat + w.waiting]
  }

  /** util_chunks_written */
  function Written(w: Writer, n: nat): (r: Writer)
    requires ValidWriter(w)
    ensures ValidWriter(r)
  {
    if n == 0 then w
    else if n > Len(w) then Ready(w)
    else
      WriteIsValid(w, n);
      var w1 := Ready(w).(waitat := w.waitat + n, ack := false);
      if w1.waitat > w1.waiting then ChunkDone(w1, n) else w1
  }

  /** Advance past a chunk that has been written; a one-byte write at the end of a packet ends the packet. */
  function ChunkDone(w: Writer, n: nat): Writer {
    var w2 := w.(writeat := w.writeat + w.waiting, waiting := 0, waitat := 0);
    if n == 1 && w2.writing != [] && w2.writeat == |w2.writing[0]| then
      w2.(writing := w2.writing[1..], writeat := 0, blocked := w2.blocking)
    else w2
  }

  lemma ChunkDoneIsValid(w: Writer, n: nat)
    requires ValidWriter(w.(waitat := 0)) && (w.writing != [] ==> w.waiting == Avail(w))
    ensures ValidWriter(ChunkDone(w, n))
  {
    hide IsMultiple;
    NextMultiple(w.writeat, w.cap);
  }

  lemma WriteIsValid(w: Writer, n: nat)
    requires ValidWriter(w) && 1 <= n <= Len(w)
    ensures var w1 := Ready(w).(waitat := w.waitat + n, ack := false);
            && (w1.waitat > w1.waiting ==> ValidWriter(ChunkDone(w1, n)))
            && (w1.waitat <= w1.waiting ==> ValidWriter(w1))
  {
    hide IsMultiple, ChunkDone;
    var w1 := Ready(w).(waitat := w.waitat + n, ack := false);
    if w1.waitat > w1.waiting { ChunkDoneIsValid(w1, n); }
  }

  lemma WrittenCases(w: Writer, n: nat)
    requires ValidWriter(w)
    ensures w.cap >= 1 && Ready(w) == w.(waiting := Ready(w).waiting)
    ensures n == 0 ==> Written(w, n) == w
    ensures n > Len(w) ==> Written(w, n) == Ready(w)
    ensures 0 < n <= Len(w) ==>
              var w1 := w.(waiting := Ready(w).waiting, waitat := w.waitat + n, ack := false);
              Written(w, n) == if w1.waitat > w1.waiting then ChunkDone(w1, n) else w1
  {
  }

  /** The last data byte of a packet leaving in a write of its own is taken for the flush. */
  predicate LoneLastByte(w: Writer, n: nat)
    requires ValidWriter(w)
  {
    && n == 1 && w.waitat > 0 && w.waitat == w.waiting
    && w.writing != [] && w.writeat + w.waiting == |w.writing[0]|
  }

  lemma WrittenIsValid(w: Writer, n: nat)
    requires ValidWriter(w)
    ensures Len(Ready(w)) == Len(w) && Offered(Ready(w)) == Offered(w)
  {
  }

  /** How much of the current packet is on the wire, and how much of the current chunk is not. */
  function OnWire(w: Writer): seq<nat>
    requires ValidWriter(w)
  {
    if w.writing == [] then [] else w.writing[0][..w.writeat + if w.waitat == 0 then 0 else w.waitat - 1]
  }

  function Owed(w: Writer): nat
    requires ValidWriter(w)
  {
    if w.waitat == 0 then 0 else w.waiting - (w.waitat - 1)
  }

  /** Did this write finish the packet? */
  function Finished(w: Writer, n: nat): seq<Packet>
    requires ValidWriter(w)
  {
    if |Written(w, n).writing| < |w.writing| then [w.writing[0]] else []
  }

  lemma {:induction false} DecodeData(d: Decoded, bs: seq<nat>)
    requires |bs| <= d.quota
    ensures Decode(d, bs) == Decoded(d.out, d.tail + bs, d.quota - |bs|)
    decreases |bs|
  {
    if bs == [] {
      assert d.tail + bs == d.tail;
    } else {
      DecodeData(DecodeByte(d, bs[0]), bs[1..]);
      assert (d.tail + [bs[0]]) + bs[1..] == d.tail + bs;
    }
  }

  /** Writing the size byte, the flush or an acknowledgement. */
  lemma WriteStartsChunk(w: Writer, n: nat, out: seq<Packet>)
    requires ValidWriter(w) && 1 <= n <= Len(w) && w.waitat == 0
    ensures Decode(Decoded(out, OnWire(w), Owed(w)), Offered(w)[..n])
            == Decoded(out + Finished(w, n), OnWire(Written(w, n)), Owed(Written(w, n)))
  {
    var b := Ready(w).waiting;
    assert Offered(w)[..n] == [b];
    assert Decode(Decoded(out, OnWire(w), Owed(w)), [b]) == DecodeByte(Decoded(out, OnWire(w), Owed(w)), b) by {
      assert [b][1..] == [];
    }
    if b == 0 && w.writing != [] {
      assert w.writing[0][..w.writeat] == w.writing[0];
      var w' := Written(w, n);
      if w'.writing != [] { assert w'.writing[0][..0] == []; }
    }
  }

  /** Writing chunk data, never the last byte of a packet alone. */
  lemma WriteContinuesChunk(w: Writer, n: nat, out: seq<Packet>)
    requires ValidWriter(w) && 1 <= n <= Len(w) && w.waitat > 0 && !LoneLastByte(w, n)
    ensures Decode(Decoded(out, OnWire(w), Owed(w)), Offered(w)[..n])
            == Decoded(out + Finished(w, n), OnWire(Written(w, n)), Owed(Written(w, n)))
    ensures Finished(w, n) == [] && Written(w, n).blocked == w.blocked
  {
    hide ValidWriter, Offered, Len, IsMultiple, Decode;
    InsideChunk(w, n);
    var at := w.writeat + w.waitat - 1;
    var pkt := w.writing[0];
    DecodeData(Decoded(out, pkt[..at], Owed(w)), pkt[at..at + n]);
    assert pkt[..at] + pkt[at..at + n] == pkt[..at + n];
    assert out + [] == out;
  }

  /** Where a write stands that continues a chunk. */
  lemma InsideChunk(w: Writer, n: nat)
    requires ValidWriter(w) && 1 <= n <= Len(w) && w.waitat > 0
    ensures !w.blocked && w.writing != [] && n <= Owed(w) == w.waiting - (w.waitat - 1)
    ensures var at, pkt := w.writeat + w.waitat - 1, w.writing[0];
            && at + n <= w.writeat + w.waiting <= |pkt|
            && Offered(w)[..n] == pkt[at..at + n] && OnWire(w) == pkt[..at]
    ensures var w1 := w.(waitat := w.waitat + n, ack := false);
            Written(w, n) == if w1.waitat > w1.waiting then ChunkDone(w1, n) else w1
  {
    hide IsMultiple, ChunkDone;
    var at, pkt := w.writeat + w.waitat - 1, w.writing[0];
    assert Offered(w) == pkt[at..w.writeat + w.waiting];
    assert pkt[at..w.writeat + w.waiting][..n] == pkt[at..at + n];
  }

  /** What every write does to the receiver's view, unless it is the last byte of a packet on its own. */
  lemma WriteMirrored(w: Writer, n: nat, out: seq<Packet>)
    requires ValidWriter(w) && 1 <= n <= Len(w) && !LoneLastByte(w, n)
    ensures Decode(Decoded(out, OnWire(w), Owed(w)), Offered(w)[..n])
            == Decoded(out + Finished(w, n), OnWire(Written(w, n)), Owed(Written(w, n)))
  {
    if w.waitat == 0 { WriteStartsChunk(w, n, out); } else { WriteContinuesChunk(w, n, out); }
  }

  /** And what a lone last byte does: the sender drops the packet, the receiver keeps waiting for its end. */
  lemma LoneByteLosesFlush(w: Writer, n: nat, out: seq<Packet>)
    requires ValidWriter(w) && 1 <= n <= Len(w) && LoneLastByte(w, n)
    ensures Decode(Decoded(out, OnWire(w), Owed(w)), Offered(w)[..n]) == Decoded(out, w.writing[0], 0)
    ensures Finished(w, n) == [w.writing[0]] && Written(w, n).blocked == w.blocking
  {
    var at := w.writeat + w.waitat - 1;
    var bs := Offered(w)[..n];
    assert bs == w.writing[0][at..at + 1];
    DecodeData(Decoded(out, OnWire(w), Owed(w)), bs);
    assert OnWire(w) + bs == w.writing[0];
  }

  /** Does one of the size bytes in the stream end a packet? */
  predicate HasFlush(quota: nat, bs: seq<nat>)
    decreases |bs|
  {
    bs != [] && if quota > 0 then HasFlush(quota - 1, bs[1..]) else bs[0] == 0 || HasFlush(bs[0], bs[1..])
  }

  lemma {:induction false} DecodeBehind(out: seq<Packet>, p: Packet, d: Decoded, bs: seq<nat>)
    requires !HasFlush(d.quota, bs)
    ensures var e := Decode(d, bs);
            e.out == d.out && Decode(Decoded(out, p + d.tail, d.quota), bs) == Decoded(out, p + e.tail, e.quota)
    decreases |bs|
  {
    if bs != [] {
      DecodeBehind(out, p, DecodeByte(d, bs[0]), bs[1..]);
      assert (p + d.tail) + [bs[0]] == p + (d.tail + [bs[0]]);
    }
  }

  /**
   What becomes of the bytes left by a lone last byte: whatever data follows is appended to them, and the
   next zero where a chunk begins ends the packet, late or run together with what followed.
   */
  lemma AfterLoneByte(out: seq<Packet>, p: Packet, data: seq<nat>, more: seq<nat>)
    requires p != [] && !HasFlush(0, data)
    ensures var d := Decode(Decoded([], [], 0), data);
            && Decode(Decoded(out, p, 0), data) == Decoded(out, p + d.tail, d.quota)
            && (d.quota == 0 ==>
                  Decode(Decoded(out, p, 0), data + [0] + more) == Decode(Decoded(out + [p + d.tail], [], 0), more))
  {
    hide HasFlush;
    var start, d := Decoded(out, p, 0), Decode(Decoded([], [], 0), data);
    assert p + [] == p;
    DecodeBehind(out, p, Decoded([], [], 0), data);
    assert data + [0] + more == data + ([0] + more);
    DecodeAppend(start, data, [0] + more);
    assert ([0] + more)[1..] == more;
  }

  /** A packet queued between offering an acknowledgement and its being written takes the zero for its size. */
  lemma QueuedBetween(w: Writer, p: Packet)
    requires ValidWriter(w) && w.writing == [] && w.ack && !w.blocked && p != []
    ensures Offered(w) == [0]
    ensures var v := w.(writing := [p]);
            && ValidWriter(v) && Avail(v) > 0
            && Written(v, 1) == v.(waiting := Avail(v), waitat := 1, ack := false)
  {
    NextMultiple(0, w.cap);
  }

  /** With every block written whole, the flush is lost exactly for packets a byte over a multiple of the cap. */
  lemma LoneByteIsForced(w: Writer)
    requires ValidWriter(w) && !w.blocked && w.writing != [] && w.waitat == 1 && w.writeat + w.waiting == |w.writing[0]|
    ensures LoneLastByte(w, Len(w)) <==> IsMultiple(|w.writing[0]| - 1, w.cap)
  {
    hide IsMultiple;
    LastChunk(w.writeat, w.waiting, w.cap);
  }

  /** The last chunk, of 1 to cap bytes behind full ones, is one byte long exactly when that byte is over a multiple. */
  lemma LastChunk(at: nat, waiting: nat, cap: nat)
    requires 1 <= waiting <= cap && IsMultiple(at, cap)
    ensures IsMultiple(at + waiting - 1, cap) <==> waiting == 1
  {
    var q := at / cap;
    assert at == q * cap;
    DivModUnique(at + waiting - 1, cap, q, waiting - 1);
  }
}
