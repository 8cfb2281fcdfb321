/** The util_chunks object (src/util/chunks.c), each method proved against the functions of Chunks. */
module ChunkStreams {
  import opened Common
  import opened Chunks

  /** Is one of the size bytes in the stream nonzero?  `quota` data bytes come first. */
  predicate AsksForAck(quota: nat, bs: seq<nat>)
    decreases |bs|
  {
    if bs == [] then false
    else if quota > 0 then AsksForAck(quota - 1, bs[1..])
    else bs[0] > 0 || AsksForAck(bs[0], bs[1..])
  }

  lemma FeedDataByte(r: seq<Chunk>, b: nat)
    requires ValidReading(r) && Quota(r) > 0
    ensures var top := r[|r| - 1];
            FeedByte(r, b) == r[..|r| - 1] + [Chunk(top.size, top.data + [b])] && Quota(FeedByte(r, b)) == Quota(r) - 1
  {
  }

  lemma {:induction false} FeedDataBlock(r: seq<Chunk>, bs: seq<nat>)
    requires ValidReading(r) && |bs| <= Quota(r) && r != []
    ensures var top := r[|r| - 1];
            Feed(r, bs) == r[..|r| - 1] + [Chunk(top.size, top.data + bs)]
    decreases |bs|
  {
    hide FeedByte, ValidReading, Quota;
    var top := r[|r| - 1];
    if bs == [] {
      assert top.data + bs == top.data && r == r[..|r| - 1] + [top];
    } else {
      FeedDataByte(r, bs[0]);
      var r' := FeedByte(r, bs[0]);
      FeedDataBlock(r', bs[1..]);
      assert r'[..|r'| - 1] == r[..|r| - 1];
      assert (top.data + [bs[0]]) + bs[1..] == top.data + bs;
    }
  }

  lemma {:induction false} AsksAfterData(quota: nat, bs: seq<nat>, n: nat)
    requires n <= quota && n <= |bs|
    ensures AsksForAck(quota, bs) == AsksForAck(quota - n, bs[n..])
    decreases n
  {
    if n == 0 {
      assert bs[0..] == bs;
    } else {
      AsksAfterData(quota - 1, bs[1..], n - 1);
      assert bs[1..][n - 1..] == bs[n..];
    }
  }

  lemma {:induction false} DataCons(c: Chunk, r: seq<Chunk>)
    ensures Data([c] + r) == c.data + Data(r)
  {
    var s := [c] + r;
    if r == [] {
      assert s[..0] == [] && s == [c];
      assert Data(s) == Data(s[..0]) + c.data;
    } else {
      DataCons(c, r[..|r| - 1]);
      assert s[..|s| - 1] == [c] + r[..|r| - 1];
      assert Data(s) == c.data + Data(r[..|r| - 1]) + r[|r| - 1].data;
    }
  }

  lemma FlagsAreFree(w: Writer, blocked: bool, ack: bool)
    requires ValidWriter(w)
    ensures ValidWriter(w.(blocked := blocked, ack := ack))
  {
  }

  lemma NothingFed(r: seq<Chunk>)
    requires ValidReading(r)
    ensures Feed(r, []) == r && !AsksForAck(Quota(r), [])
  {
  }

  /** A size byte opens a chunk. */
  lemma FeedStart(r: seq<Chunk>, bs: seq<nat>)
    requires ValidReading(r) && Quota(r) == 0 && bs != []
    ensures var r' := r + [Chunk(bs[0], [])];
            && ValidReading(r') && Quota(r') == bs[0]
            && Feed(r, bs) == Feed(r', bs[1..])
            && AsksForAck(0, bs) == (bs[0] > 0 || AsksForAck(bs[0], bs[1..]))
  {
  }

  lemma TopFilled(r: seq<Chunk>, more: seq<nat>)
    requires ValidReading(r) && r != [] && |more| <= Quota(r)
    ensures var top := r[|r| - 1]; var r' := r[..|r| - 1] + [top.(data := top.data + more)];
            ValidReading(r') && Quota(r') == Quota(r) - |more|
  {
  }

  /** A block of data fills up the newest chunk. */
  lemma FeedMore(r: seq<Chunk>, bs: seq<nat>, n: nat)
    requires ValidReading(r) && r != [] && n <= Quota(r) && n <= |bs|
    ensures var top := r[|r| - 1]; var r' := r[..|r| - 1] + [top.(data := top.data + bs[..n])];
            && ValidReading(r') && Quota(r') == Quota(r) - n
            && Feed(r, bs) == Feed(r', bs[n..])
            && AsksForAck(Quota(r), bs) == AsksForAck(Quota(r'), bs[n..])
  {
    hide ValidReading, Quota, Feed, AsksForAck;
    TopFilled(r, bs[..n]);
    FeedDataBlock(r, bs[..n]);
    AsksAfterData(Quota(r), bs, n);
    FeedAppend(r, bs[..n], bs[n..]);
    assert bs[..n] + bs[n..] == bs;
  }

  class ChunkStream {
    var reading: seq<Chunk>    // oldest first
    var readat: nat
    var writing: seq<Packet>
    var writeat: nat
    var waitat: nat
    var waiting: nat
    const cap: nat
    var blocked: bool
    const blocking: bool
    var ack: bool

    ghost function View(): Writer
      reads this
    {
      Writer(writing, writeat, waitat, waiting, cap, blocked, blocking, ack)
    }

    ghost predicate Valid()
      reads this
    {
      && ValidReading(reading) && ValidWriter(View())
      && (reading != [] ==> readat == |reading[|reading| - 1].data|)
    }

    constructor (size: nat)
      requires size <= 255
      ensures Valid() && reading == []
      ensures var cap := if size == 0 then 255 else if size == 1 then 1 else size - 1;
              View() == Writer([], 0, 0, 0, cap, false, true, false)
    {
      reading, readat, writing, writeat, waitat, waiting := [], 0, [], 0, 0, 0;
      cap := if size == 0 then 255 else if size == 1 then 1 else size - 1;
      blocked, blocking, ack := false, true, false;
    }

    method Send(out: Packet)
      requires Valid() && out != []
      modifies `writing
      ensures Valid() && View() == old(View()).(writing := old(writing) + [out])
    {
      writing := writing + [out];
    }

    /** _util_chunks_append: whole blocks of data are copied at once. */
    method Append(block: seq<nat>)
      requires Valid()
      modifies `reading, `readat, `blocked, `ack
      ensures Valid() && reading == Feed(old(reading), block)
      ensures View() == old(View()).(blocked := old(blocked) && |block| <= Quota(old(reading)),
                                     ack := old(ack) || AsksForAck(Quota(old(reading)), block))
      decreases |block|
    {
      hide ValidWriter, ValidReading, Feed, AsksForAck, Quota;
      if block == [] {
        NothingFed(reading);
        return;
      }
      var quota := Space();
      if quota == 0 {
        FeedStart(reading, block);
        NewChunk(block[0]);
        Append(block[1..]);
        return;
      }
      if |block| < quota { quota := |block|; }
      FeedMore(reading, block, quota);
      Fill(block[..quota]);
      Append(block[quota..]);
    }

    method Space() returns (quota: nat)
      requires Valid()
      ensures quota == Quota(reading) && (quota > 0 ==> reading != [])
    {
      hide ValidWriter;
      quota := if reading != [] then reading[|reading| - 1].size - readat else 0;
    }

    /** A size byte: open a chunk, unblock, and remember to acknowledge one that has data. */
    method NewChunk(size: nat)
      requires Valid() && Quota(reading) == 0
      modifies `reading, `readat, `blocked, `ack
      ensures Valid() && reading == old(reading) + [Chunk(size, [])]
      ensures View() == old(View()).(blocked := false, ack := old(ack) || size > 0)
    {
      hide ValidWriter;
      FlagsAreFree(View(), false, ack || size > 0);
      reading := reading + [Chunk(size, [])];
      readat := 0;
      blocked := false;
      if size != 0 { ack := true; }
    }

    method Fill(block: seq<nat>)
      requires Valid() && reading != [] && |block| <= Quota(reading)
      modifies `reading, `readat
      ensures Valid() && View() == old(View())
      ensures var r := old(reading); var top := r[|r| - 1];
              reading == r[..|r| - 1] + [top.(data := top.data + block)]
    {
      hide ValidWriter;
      var top := reading[|reading| - 1];
      reading := reading[..|reading| - 1] + [top.(data := top.data + block)];
      readat := readat + |block|;
    }

    /** util_chunks_receive: find the oldest flush, clip off what is before it, copy it together. */
    method Receive() returns (packet: Option<Packet>)
      requires Valid()
      modifies `reading, `ack
      ensures Valid() && (reading, packet) == Take(old(reading))
      ensures View() == old(View()).(ack := old(ack) || packet.Some?)
      decreases |reading|
    {
      hide ValidWriter, ValidReading, Data, Complete, Take, FirstFlush;
      FlagsAreFree(View(), blocked, true);
      TakeCases(reading);
      if reading == [] { return None; }
      var flush, len := FindFlush();
      if flush == |reading| { return None; }
      var before := reading[..flush];
      ClipOff(flush);
      if before == [] {
        packet := Receive();
        return;
      }
      var buf := Backfill(before, len);
      ack := true;
      packet := Some(buf);
    }

    method ClipOff(flush: nat)
      requires Valid() && flush < |reading| && reading[flush].size == 0
      modifies `reading
      ensures Valid() && reading == old(reading[flush + 1..]) && View() == old(View())
    {
      hide ValidWriter;
      AfterFlush(reading, flush);
      reading := reading[flush + 1..];
    }

    method FindFlush() returns (flush: nat, len: nat)
      requires Valid()
      ensures flush == FirstFlush(reading) <= |reading|
      ensures flush < |reading| ==>
                reading[flush].size == 0 && Complete(reading[..flush]) && len == |Data(reading[..flush])|
    {
      hide ValidWriter, Data, FirstFlush;
      NoData();
      flush, len := |reading|, 0;
      var i := |reading|;
      while i > 0
        invariant 0 <= i <= |reading| && i <= flush <= |reading|
        invariant flush < |reading| ==> reading[flush].size == 0 && len == |Data(reading[i..flush])|
        invariant forall k :: i <= k < flush ==> reading[k].size != 0
      {
        i := i - 1;
        if reading[i].size == 0 {
          flush, len := i, 0;
          assert reading[i..flush] == [];
        } else if flush < |reading| {
          assert reading[i..flush] == [reading[i]] + reading[i + 1..flush];
          DataCons(reading[i], reading[i + 1..flush]);
          len := len + reading[i].size;
        }
      }
      assert reading[0..flush] == reading[..flush];
      if flush < |reading| { AfterFlush(reading, flush); }
      FlushIsFirst(reading, flush);
    }

    /** Copy chunks into a buffer from the newest, since the list is inverted. */
    method Backfill(before: seq<Chunk>, len: nat) returns (buf: seq<nat>)
      requires Complete(before) && len == |Data(before)|
      ensures buf == Data(before)
    {
      buf := [];
      ghost var at := len;
      var j := |before|;
      assert before[j..] == [];
      while j > 0
        invariant 0 <= j <= |before|
        invariant buf == Data(before[j..]) && at + |buf| == len
      {
        j := j - 1;
        assert before[j..] == [before[j]] + before[j + 1..];
        DataCons(before[j], before[j + 1..]);
        buf := before[j].data + buf;
        at := at - before[j].size;
      }
      assert before[0..] == before;
    }

    /** util_chunks_len */
    method Length() returns (n: nat)
      requires Valid()
      modifies `waiting
      ensures Valid() && View() == Ready(old(View())) && n == Len(old(View()))
    {
      if blocked { return 0; }
      if writing == [] { return if ack then 1 else 0; }
      var avail := |writing[0]| - writeat;
      if avail > cap { avail := cap; }
      if waiting == 0 { waiting := avail; }
      if waitat == 0 { return 1; }
      n := waiting - (waitat - 1);
    }

    /** util_chunks_write */
    method Write() returns (block: seq<nat>)
      requires Valid()
      modifies `waiting
      ensures Valid() && View() == Ready(old(View())) && block == Offered(old(View()))
    {
      var n := Length();
      if n == 0 { return []; }
      if waitat == 0 { return [waiting]; }
      block := writing[0][writeat + waitat - 1..writeat + waitat - 1 + n];
    }

    /** util_chunks_written */
    method WrittenBytes(len: nat)
      requires Valid()
      modifies `writing, `writeat, `waitat, `waiting, `blocked, `ack
      ensures Valid() && View() == Chunks.Written(old(View()), len)
    {
      hide ValidWriter, ValidReading, ChunkDone, Len, Ready, Chunks.Written;
      WrittenIsValid(View(), len);
      WrittenCases(View(), len);
      if len == 0 { return; }
      var n := Length();
      if len > n { return; }
      waitat := waitat + len;
      ack := false;
      if waitat > waiting { FinishChunk(len); }
    }

    method FinishChunk(len: nat)
      modifies `writing, `writeat, `waitat, `waiting, `blocked
      requires cap >= 1
      ensures View() == ChunkDone(old(View()), len)
      ensures reading == old(reading) && readat == old(readat)
    {
      writeat := writeat + waiting;
      waiting, waitat := 0, 0;
      blocked := if waiting == cap then blocking else blocked;   // waiting is already 0 here
      if len == 1 && writing != [] && writeat == |writing[0]| {
        writing := writing[1..];
        writeat := 0;
        blocked := blocking;
      }
    }
  }

  lemma NoData()
    ensures Data([]) == []
  {
  }

  lemma {:induction false} FlushIsFirst(r: seq<Chunk>, f: nat)
    requires f <= |r| && (f < |r| ==> r[f].size == 0) && forall i :: 0 <= i < f ==> r[i].size != 0
    ensures FirstFlush(r) == f
  {
  }
}
