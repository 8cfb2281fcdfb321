/**
 Delivery over chunk streams (src/util/chunks.c): without new packets two peers can only do so
 much, and when they can do no more, every packet has arrived, provided that no packet is one
 byte longer than a multiple of the cap and no write leaves just the last byte of a packet.
 */
module ChunkDelivery {
  import opened Chunks
  import opened ChunkStreams
  import opened ChunkPeers

  // ----- work -----

  /** No packet whose last byte must go alone, and none of which only that byte is left. */
  predicate TidyWriter(w: Writer)
    requires ValidWriter(w)
  {
    !Stranded(w) && forall i :: 0 <= i < |w.writing| ==> w.writing[i] != [] && !IsMultiple(|w.writing[i]| - 1, w.cap)
  }

  predicate Tidy(s: Peers)
    requires ValidSide(s.a) && ValidSide(s.b)
  {
    TidyWriter(s.a.w) && TidyWriter(s.b.w)
  }

  /** A write, a read, or a receive that finds a packet. */
  predicate IsWork(s: Peers, act: Action)
    requires ValidSide(s.a)
  {
    match act
    case Queue(_) => false
    case Receive => Take(s.a.reading).1.Some?
    case Write(_) => true
    case Read(_) => true
  }

  /** A possible move that does something and leaves both writers tidy. */
  predicate Works(s: Peers, m: Move)
    requires Inv(s)
  {
    && Possible(s, m) && IsWork(if m.byB then Flip(s) else s, m.act)
    && (NextKeepsInv(s, m); Tidy(Next(s, m)))
  }

  predicate IsWorkRun(s: Peers, moves: seq<Move>)
    requires Inv(s)
    decreases |moves|
  {
    moves == [] || (Works(s, moves[0]) && (NextKeepsInv(s, moves[0]); IsWorkRun(Next(s, moves[0]), moves[1..])))
  }

  lemma {:induction false} WorkRunIsRun(s: Peers, moves: seq<Move>)
    requires Inv(s) && IsWorkRun(s, moves)
    ensures IsRun(s, moves) && (Tidy(s) ==> Inv(Final(s, moves)) && Tidy(Final(s, moves)))
    decreases |moves|
  {
    hide Inv, Next, Tidy, Possible, IsWork;
    InvIsValid(s);
    if moves != [] {
      NextKeepsInv(s, moves[0]);
      WorkRunIsRun(Next(s, moves[0]), moves[1..]);
    }
  }

  // ----- how much work there is -----

  function TotalCost(ps: seq<Packet>): nat {
    if ps == [] then 0 else 2 * |ps[0]| + 1 + TotalCost(ps[1..])
  }

  /** An upper bound for the bytes a writer has yet to write. */
  function Left(w: Writer): int {
    TotalCost(w.writing) - 2 * w.writeat - w.waitat
  }

  lemma LeftIsNat(w: Writer)
    requires ValidWriter(w)
    ensures Left(w) >= 0
  {
    hide IsMultiple;
  }

  /** Chunks on the wire that ask for an acknowledgement. */
  function Asks(quota: nat, bs: seq<nat>): nat
    decreases |bs|
  {
    if bs == [] then 0
    else if quota > 0 then Asks(quota - 1, bs[1..])
    else (if bs[0] > 0 then 1 else 0) + Asks(bs[0], bs[1..])
  }

  lemma {:induction false} AsksMatch(quota: nat, bs: seq<nat>)
    ensures AsksForAck(quota, bs) <==> Asks(quota, bs) > 0
    decreases |bs|
  {
    if bs != [] {
      if quota > 0 { AsksMatch(quota - 1, bs[1..]); } else { AsksMatch(bs[0], bs[1..]); }
    }
  }

  lemma {:induction false} AsksAppend(d: Decoded, x: seq<nat>, y: seq<nat>)
    ensures Asks(d.quota, x + y) == Asks(d.quota, x) + Asks(Decode(d, x).quota, y)
    decreases |x|
  {
    if x == [] {
      assert x + y == y;
    } else {
      AsksAppend(DecodeByte(d, x[0]), x[1..], y);
      assert (x + y)[1..] == x[1..] + y;
    }
  }

  lemma {:induction false} DataAsksNothing(quota: nat, bs: seq<nat>)
    requires |bs| <= quota
    ensures Asks(quota, bs) == 0
    decreases |bs|
  {
    if bs != [] { DataAsksNothing(quota - 1, bs[1..]); }
  }

  /** The work on the way from A to B: bytes to write, bytes to read, acknowledgements and packets to receive. */
  function HalfMeasure(s: Peers): int
    requires ValidSide(s.a) && ValidSide(s.b)
  {
    7 * Left(s.a.w) + |s.ab| + 2 * Asks(Quota(s.b.reading), s.ab) + 3 * |SeenByB(s).out| + if s.a.w.ack then 2 else 0
  }

  function Measure(s: Peers): int
    requires ValidSide(s.a) && ValidSide(s.b)
  {
    HalfMeasure(s) + HalfMeasure(Flip(s))
  }

  lemma MeasureIsNat(s: Peers)
    requires ValidSide(s.a) && ValidSide(s.b)
    ensures Measure(s) >= 0
  {
    hide ValidWriter, ValidReading, Left, Asks, Decode, Meaning, Quota;
    LeftIsNat(s.a.w);
    LeftIsNat(s.b.w);
  }

  // ----- every piece of work uses some up -----

  /** A write of n bytes leaves n fewer, or it is an acknowledgement. */
  lemma LeftDrops(w: Writer, n: nat)
    requires ValidWriter(w) && 1 <= n <= Len(w) && !LoneLastByte(w, n)
    ensures w.writing == [] ==> n == 1 && w.ack && Left(Written(w, n)) == Left(w) && Finished(w, n) == []
    ensures w.writing != [] ==> Left(Written(w, n)) + n <= Left(w)
    ensures !Written(w, n).ack && |Finished(w, n)| <= 1
  {
    hide IsMultiple, ValidWriter, Written, TotalCost;
    WrittenCases(w, n);
    FirstCost(w.writing);
    WriteCase(w, n);
  }

  lemma FirstCost(ps: seq<Packet>)
    ensures ps != [] ==> TotalCost(ps) == 2 * |ps[0]| + 1 + TotalCost(ps[1..])
  {
  }

  lemma WriteCase(w: Writer, n: nat)
    requires ValidWriter(w) && 1 <= n <= Len(w)
    ensures w.writing == [] ==> n == 1 && w.ack && w.waitat == w.writeat == w.waiting == 0 && Ready(w).waiting == 0
    ensures w.writing != [] ==>
              Ready(w).waiting == Avail(w) && w.waitat + n <= Avail(w) + 1 && w.writeat <= |w.writing[0]|
    ensures w.waitat > 0 ==> w.waiting == Avail(w)
    ensures w.waitat == 0 ==> n == 1
  {
    hide IsMultiple;
  }

  lemma OfferedAsks(w: Writer, n: nat)
    requires ValidWriter(w) && 1 <= n <= Len(w)
    ensures Asks(Owed(w), Offered(w)[..n]) <= if w.writing == [] then 0 else 1
  {
    hide IsMultiple;
    var bs := Offered(w)[..n];
    if w.waitat == 0 {
      assert |bs| == 1 && bs[1..] == [];
      assert Asks(bs[0], bs[1..]) == 0;
    } else {
      DataAsksNothing(Owed(w), bs);
    }
  }

  lemma WriteUsesWork(s: Peers, n: nat)
    requires Inv(s) && Enabled(s, Write(n))
    ensures var t := Act(s, Write(n)); ValidSide(t.a) && ValidSide(t.b) && Measure(t) < Measure(s)
  {
    hide ValidWriter, ValidReading, Left, Asks, Decode, Meaning, Quota, Written, Offered, Finished, Len, Owed, OnWire,
         LoneLastByte, WillBeAnswered, NotBothStuck;
    var t := Act(s, Write(n));
    WriteMirrors(s, n);
    LeftDrops(s.a.w, n);
    OfferedAsks(s.a.w, n);
    var bs := Offered(s.a.w)[..n];
    AsksAppend(Meaning(s.b.reading), s.ab, bs);
    QuotaOfMeaning(s.b.reading);
    OfferedLength(s.a.w, n);
    OtherHalf(s, t);
  }

  lemma OfferedLength(w: Writer, n: nat)
    requires ValidWriter(w) && n <= Len(w)
    ensures |Offered(w)[..n]| == n
  {
  }

  /** Writing does not touch the other direction, beyond clearing the acknowledgement. */
  lemma OtherHalf(s: Peers, t: Peers)
    requires ValidSide(s.a) && ValidSide(s.b) && ValidSide(t.a) && t.b == s.b && t.ba == s.ba
             && t.a.reading == s.a.reading
    ensures HalfMeasure(Flip(t)) == HalfMeasure(Flip(s))
  {
    hide ValidWriter, ValidReading, Left, Asks, Decode, Meaning, Quota;
  }

  lemma ReadUsesWork(s: Peers, k: nat)
    requires Inv(s) && Enabled(s, Read(k))
    ensures var t := Act(s, Read(k)); ValidSide(t.a) && ValidSide(t.b) && Measure(t) < Measure(s)
  {
    hide ValidWriter, ValidReading, Asks, Decode, Feed, Meaning, Quota, OnWire, Owed, AsksForAck, Mirrors,
         WillBeAnswered, NotBothStuck;
    var t := Act(s, Read(k));
    ReadKeepsView(s, k);
    var r, x, y := s.a.reading, s.ba[..k], s.ba[k..];
    assert s.ba == x + y;
    AsksAppend(Meaning(r), x, y);
    AsksMatch(Quota(r), x);
    QuotaOfMeaning(r);
    FeedDecodes(r, x);
    QuotaOfMeaning(Feed(r, x));
    SameLeft(s.a.w, t.a.w);
  }

  lemma SameLeft(w: Writer, v: Writer)
    requires w.writing == v.writing && w.writeat == v.writeat && w.waitat == v.waitat
    ensures Left(w) == Left(v)
  {
  }

  lemma ReceiveUsesWork(s: Peers)
    requires Inv(s) && Take(s.a.reading).1.Some?
    ensures var t := Act(s, Receive); ValidSide(t.a) && ValidSide(t.b) && Measure(t) < Measure(s)
  {
    hide ValidWriter, ValidReading, Asks, Decode, Take, Meaning, Quota, OnWire, Owed, Mirrors, WillBeAnswered,
         NotBothStuck;
    var t := Act(s, Receive);
    ReceiveKeepsView(s);
    SameLeft(s.a.w, t.a.w);
  }

  lemma ActUsesWork(s: Peers, act: Action)
    requires Inv(s) && Enabled(s, act) && IsWork(s, act)
    ensures var t := Act(s, act); ValidSide(t.a) && ValidSide(t.b) && Measure(t) < Measure(s)
  {
    hide Act, Measure, Mirrors, WillBeAnswered, NotBothStuck, ValidSide;
    match act
    case Queue(_) =>
    case Write(n) => WriteUsesWork(s, n);
    case Read(k) => ReadUsesWork(s, k);
    case Receive => ReceiveUsesWork(s);
  }

  lemma NextUsesWork(s: Peers, m: Move)
    requires Inv(s) && Works(s, m)
    ensures Inv(Next(s, m)) && Measure(Next(s, m)) < Measure(s)
  {
    hide Inv, Act, Enabled, IsWork, HalfMeasure, ValidSide, Tidy;
    InvIsValid(s);
    NextKeepsInv(s, m);
    InvIsValid(Next(s, m));
    FlipKeepsInv(s);
    if m.byB {
      ActUsesWork(Flip(s), m.act);
      assert Measure(Flip(s)) == Measure(s);
      var t := Act(Flip(s), m.act);
      assert Flip(Flip(t)) == t && Measure(Flip(t)) == Measure(t);
    } else {
      ActUsesWork(s, m.act);
    }
  }

  lemma WorksIsPossible(s: Peers, m: Move)
    requires Inv(s) && Works(s, m)
    ensures ValidSide(s.a) && ValidSide(s.b) && Possible(s, m)
  {
    hide Tidy;
  }

  /** Without new packets, only so many moves are possible. */
  lemma {:induction false} WorkIsBounded(s: Peers, moves: seq<Move>)
    requires Inv(s) && IsWorkRun(s, moves)
    ensures ValidSide(s.a) && ValidSide(s.b) && |moves| <= Measure(s)
    decreases |moves|
  {
    hide Inv, Next, Works, Measure, ValidSide;
    InvIsValid(s);
    if moves == [] {
      MeasureIsNat(s);
    } else {
      WorksIsPossible(s, moves[0]);
      NextUsesWork(s, moves[0]);
      NextKeepsInv(s, moves[0]);
      WorkIsBounded(Next(s, moves[0]), moves[1..]);
    }
  }

  // ----- where no work is left -----

  /** Writing a whole block leaves a tidy writer tidy. */
  lemma WholeWriteIsTidy(w: Writer)
    requires ValidWriter(w) && TidyWriter(w) && Len(w) > 0
    ensures !LoneLastByte(w, Len(w)) && TidyWriter(Written(w, Len(w)))
  {
    hide IsMultiple;
    var n := Len(w);
    var v := Written(w, n);
    if w.writing != [] && w.waitat == 0 && Avail(w) > 0 {
      assert v == w.(waiting := Avail(w), waitat := 1, ack := false);
      if w.writeat + v.waiting == |w.writing[0]| { LastChunk(w.writeat, v.waiting, w.cap); }
    } else {
      assert v.waitat == 0;
      assert forall i :: 0 <= i < |v.writing| ==> v.writing[i] in w.writing;
    }
  }

  lemma WorkForWriter(s: Peers)
    requires Inv(s) && Tidy(s) && Len(s.a.w) > 0
    ensures Works(s, Move(false, Write(Len(s.a.w))))
  {
    hide ValidWriter, ValidReading, Mirrors, WillBeAnswered, NotBothStuck, TidyWriter, Written, Offered, Finished, Len,
         LoneLastByte, Decode;
    var n := Len(s.a.w);
    LenIsPositive(s.a.w);
    WholeWriteIsTidy(s.a.w);
    NextKeepsInv(s, Move(false, Write(n)));
  }

  lemma LenIsPositive(w: Writer)
    requires ValidWriter(w)
    ensures Len(w) >= 0
  {
  }

  lemma NoReadLeft(s: Peers)
    requires Inv(s) && Tidy(s) && s.ba != []
    ensures Works(s, Move(false, Read(1)))
  {
    hide ValidReading, Mirrors, WillBeAnswered, NotBothStuck, Feed, Decode, AsksForAck, Quota, IsMultiple;
    NextKeepsInv(s, Move(false, Read(1)));
  }

  lemma NoPacketLeft(s: Peers)
    requires Inv(s) && Tidy(s) && Outputs(s.a.reading) != []
    ensures Works(s, Move(false, Receive))
  {
    hide ValidReading, Mirrors, WillBeAnswered, NotBothStuck, Take, Outputs, Decode, Quota, IsMultiple;
    TakeMeaning(s.a.reading);
    NextKeepsInv(s, Move(false, Receive));
  }

  lemma FlippedWork(s: Peers, act: Action)
    requires Inv(s) && Inv(Flip(s)) && Works(Flip(s), Move(false, act))
    ensures Works(s, Move(true, act))
  {
    hide Inv, Act, Enabled, IsWork, TidyWriter, ValidSide;
    InvIsValid(s);
    NextKeepsInv(s, Move(true, act));
    NextKeepsInv(Flip(s), Move(false, act));
    InvIsValid(Next(s, Move(true, act)));
  }

  /** A tidy state in which no work is possible is idle, with nothing left to write. */
  lemma NoWorkMeansDone(s: Peers)
    requires Inv(s) && Tidy(s) && forall m :: !Works(s, m)
    ensures ValidSide(s.a) && ValidSide(s.b) && Idle(s) && Len(s.a.w) == 0 && Len(s.b.w) == 0
  {
    hide Inv, Works, Tidy, ValidSide, Len, Outputs;
    InvIsValid(s);
    FlipKeepsInv(s);
    TidyFlips(s);
    if s.ba != [] { NoReadLeft(s); }
    if Outputs(s.a.reading) != [] { NoPacketLeft(s); }
    if Len(s.a.w) > 0 { WorkForWriter(s); }
    if s.ab != [] {
      NoReadLeft(Flip(s));
      FlippedWork(s, Read(1));
    }
    if Outputs(s.b.reading) != [] {
      NoPacketLeft(Flip(s));
      FlippedWork(s, Receive);
    }
    if Len(s.b.w) > 0 {
      WorkForWriter(Flip(s));
      FlippedWork(s, Write(Len(s.b.w)));
    }
  }

  lemma TidyFlips(s: Peers)
    requires ValidSide(s.a) && ValidSide(s.b)
    ensures Tidy(Flip(s)) <==> Tidy(s)
  {
  }

  /**
   Delivery: from any tidy state a run has reached, work comes to an end, and when it has,
   each peer has received exactly the packets given to the other.
   */
  lemma WorkDelivers(s: Peers, moves: seq<Move>, more: seq<Move>)
    requires Initial(s) && IsRun(s, moves)
    requires (ReachedInv(s, moves); var t := Final(s, moves); Tidy(t) && IsWorkRun(t, more))
    ensures (ReachedInv(s, moves); |more| <= Measure(Final(s, moves)))
    ensures var t := Final(s, moves);
            && IsRun(t, more) && Inv(Final(t, more))
            && ((forall m :: !Works(Final(t, more), m)) ==>
                  var u := Final(t, more); u.b.got == u.a.sent && u.a.got == u.b.sent)
  {
    hide Inv, Final, IsRun, Works, Tidy, IsWorkRun, Measure, ValidSide;
    ReachedInv(s, moves);
    var t := Final(s, moves);
    WorkIsBounded(t, more);
    WorkRunIsRun(t, more);
    var u := Final(t, more);
    if forall m :: !Works(u, m) {
      NoWorkMeansDone(u);
      NothingToWrite(u);
    }
  }

  lemma ReachedInv(s: Peers, moves: seq<Move>)
    requires Initial(s) && IsRun(s, moves)
    ensures var t := Final(s, moves); Inv(t) && ValidSide(t.a) && ValidSide(t.b)
  {
    hide Inv, IsRun, Final;
    InitialInv(s);
    RunKeepsInv(s, moves);
    InvIsValid(Final(s, moves));
  }

  lemma NothingToWrite(u: Peers)
    requires Inv(u) && ValidSide(u.a) && ValidSide(u.b) && Idle(u) && Len(u.a.w) == 0 && Len(u.b.w) == 0
    ensures u.b.got == u.a.sent && u.a.got == u.b.sent
  {
    hide Inv, ValidSide, Len, Idle;
    FlipKeepsInv(u);
    IdleFlips(u);
    InvAnswers(u);
    InvAnswers(Flip(u));
    UnblockedWrites(u);
    UnblockedWrites(Flip(u));
    InvDelivers(u);
    InvDelivers(Flip(u));
  }

  lemma IdleFlips(u: Peers)
    ensures Idle(Flip(u)) <==> Idle(u)
  {
  }

  // ----- tidy runs -----

  /** Blocks are written whole, and no packet is one byte longer than a multiple of the cap. */
  predicate IsWhole(s: Peers, act: Action)
    requires ValidSide(s.a)
  {
    match act
    case Queue(p) => p != [] && !IsMultiple(|p| - 1, s.a.w.cap)
    case Write(n) => n == Len(s.a.w)
    case Read(_) => true
    case Receive => true
  }

  predicate IsWholeRun(s: Peers, moves: seq<Move>)
    requires Inv(s)
    decreases |moves|
  {
    moves == [] ||
    (InvIsValid(s);
     var m := moves[0];
     && Possible(s, m) && IsWhole(if m.byB then Flip(s) else s, m.act)
     && (NextKeepsInv(s, m); IsWholeRun(Next(s, m), moves[1..])))
  }

  lemma WholeActIsTidy(s: Peers, act: Action)
    requires Inv(s) && Tidy(s) && Enabled(s, act) && IsWhole(s, act)
    ensures Inv(Act(s, act)) && Tidy(Act(s, act))
  {
    hide ValidReading, Mirrors, WillBeAnswered, NotBothStuck, Written, Offered, Finished, Len, Decode, Feed,
         AsksForAck, Quota, Take, IsMultiple;
    ActKeepsInv(s, act);
    match act
    case Queue(p) =>
    case Write(n) => WholeWriteIsTidy(s.a.w);
    case Read(k) =>
    case Receive =>
  }

  /** Runs that write whole blocks stay tidy. */
  lemma {:induction false} WholeRunIsTidy(s: Peers, moves: seq<Move>)
    requires Inv(s) && Tidy(s) && IsWholeRun(s, moves)
    ensures IsRun(s, moves) && Inv(Final(s, moves)) && Tidy(Final(s, moves))
    decreases |moves|
  {
    hide Inv, Act, Enabled, IsWhole, TidyWriter;
    InvIsValid(s);
    if moves != [] {
      var m := moves[0];
      FlipKeepsInv(s);
      TidyFlips(s);
      WholeActIsTidy(if m.byB then Flip(s) else s, m.act);
      NextKeepsInv(s, m);
      InvIsValid(Next(s, m));
      WholeRunIsTidy(Next(s, m), moves[1..]);
    }
  }
}
