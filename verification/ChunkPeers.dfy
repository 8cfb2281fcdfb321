/**
 Two chunk streams joined by two lossless byte pipes (src/util/chunks.c): every packet
 arrives once and in order whatever the block sizes, and stop-and-wait never deadlocks,
 as long as no packet's last data byte is written on its own.
 */
module ChunkPeers {
  import opened Chunks
  import opened ChunkStreams

  /** One end: its stream, the packets given to it, finished by it, and received from the other. */
  datatype Side = Side(reading: seq<Chunk>, w: Writer, sent: seq<Packet>, gone: seq<Packet>, got: seq<Packet>)

  datatype Peers = Peers(a: Side, b: Side, ab: seq<nat>, ba: seq<nat>)

  function Flip(s: Peers): Peers {
    Peers(s.b, s.a, s.ba, s.ab)
  }

  datatype Action = Queue(p: Packet) | Write(n: nat) | Read(k: nat) | Receive

  predicate ValidSide(x: Side) {
    ValidReading(x.reading) && ValidWriter(x.w)
  }

  /** What side A may do; a write must not be the last data byte of a packet alone. */
  predicate Enabled(s: Peers, act: Action)
    requires ValidSide(s.a)
  {
    match act
    case Queue(p) => p != []
    case Write(n) => 1 <= n <= Len(s.a.w) && !LoneLastByte(s.a.w, n)
    case Read(k) => 1 <= k <= |s.ba|
    case Receive => true
  }

  function Act(s: Peers, act: Action): Peers
    requires ValidSide(s.a) && Enabled(s, act)
  {
    match act
    case Queue(p) => s.(a := s.a.(w := s.a.w.(writing := s.a.w.writing + [p]), sent := s.a.sent + [p]))
    case Write(n) => AfterWrite(s, n)
    case Read(k) =>
      var q := Quota(s.a.reading);
      s.(ba := s.ba[k..],
         a := s.a.(reading := Feed(s.a.reading, s.ba[..k]),
                   w := s.a.w.(blocked := s.a.w.blocked && k <= q, ack := s.a.w.ack || AsksForAck(q, s.ba[..k]))))
    case Receive =>
      var t := Take(s.a.reading);
      var p := if t.1.Some? then [t.1.value] else [];
      s.(a := s.a.(reading := t.0, got := s.a.got + p, w := s.a.w.(ack := s.a.w.ack || t.1.Some?)))
  }

  function AfterWrite(s: Peers, n: nat): Peers
    requires ValidSide(s.a) && 1 <= n <= Len(s.a.w)
  {
    s.(ab := s.ab + Offered(s.a.w)[..n], a := s.a.(w := Written(s.a.w, n), gone := s.a.gone + Finished(s.a.w, n)))
  }

  // ----- the invariant -----

  /** B's view of everything A has put on the wire, delivered or not. */
  function SeenByB(s: Peers): Decoded
    requires ValidSide(s.b)
  {
    Decode(Meaning(s.b.reading), s.ab)
  }

  /** From A to B: nothing lost, nothing twice, and B's view mirrors A's place in its packet. */
  predicate Mirrors(s: Peers)
    requires ValidSide(s.a) && ValidSide(s.b)
  {
    var d := SeenByB(s);
    && s.a.gone + s.a.w.writing == s.a.sent
    && s.b.got + d.out == s.a.gone
    && d.tail == OnWire(s.a.w)
    && d.quota == Owed(s.a.w)
  }

  /** A blocked: B has its packet or is about to, or owes or is sending something that will unblock A. */
  predicate WillBeAnswered(s: Peers)
    requires ValidSide(s.a) && ValidSide(s.b)
  {
    s.a.w.blocked ==>
      || SeenByB(s).out != []
      || s.b.w.ack
      || (s.b.w.writing != [] && !s.b.w.blocked)
      || |s.ba| > Quota(s.a.reading)
  }

  /** Both blocked: one of the two flushes is still on its way. */
  predicate NotBothStuck(s: Peers)
    requires ValidSide(s.a) && ValidSide(s.b)
  {
    s.a.w.blocked && s.b.w.blocked ==> |s.ab| > Quota(s.b.reading) || |s.ba| > Quota(s.a.reading)
  }

  predicate Inv(s: Peers) {
    && ValidSide(s.a) && ValidSide(s.b)
    && Mirrors(s) && Mirrors(Flip(s))
    && WillBeAnswered(s) && WillBeAnswered(Flip(s))
    && NotBothStuck(s)
  }

  // ----- every step keeps it -----

  lemma QueueKeepsInv(s: Peers, p: Packet)
    requires Inv(s) && p != []
    ensures Inv(Act(s, Queue(p)))
  {
    hide Decode, Meaning, ValidReading, Quota;
    var t := Act(s, Queue(p));
    QueueIsValid(s.a.w, p);
    assert s.a.gone + (s.a.w.writing + [p]) == (s.a.gone + s.a.w.writing) + [p];
    assert SeenByB(t) == SeenByB(s) && SeenByB(Flip(t)) == SeenByB(Flip(s));
  }

  lemma QueueIsValid(w: Writer, p: Packet)
    requires ValidWriter(w) && p != []
    ensures var w' := w.(writing := w.writing + [p]); ValidWriter(w') && OnWire(w') == OnWire(w) && Owed(w') == Owed(w)
  {
    var w' := w.(writing := w.writing + [p]);
    if w.writing == [] { assert w'.writing[0][..0] == []; }
  }

  lemma WriteMirrors(s: Peers, n: nat)
    requires ValidSide(s.a) && ValidSide(s.b) && Mirrors(s) && Enabled(s, Write(n))
    ensures ValidSide(Act(s, Write(n)).a) && Mirrors(Act(s, Write(n)))
    ensures SeenByB(Act(s, Write(n))).out == SeenByB(s).out + Finished(s.a.w, n)
  {
    hide ValidWriter, ValidReading, Decode, Meaning, OnWire, Owed, Written, Offered, Len, LoneLastByte;
    var bs := Offered(s.a.w)[..n];
    WrittenIsValid(s.a.w, n);
    WriteMirrored(s.a.w, n, SeenByB(s).out);
    DecodeAppend(Meaning(s.b.reading), s.ab, bs);
    FinishedLeavesRest(s.a.w, n);
    var w' := Written(s.a.w, n);
    assert (s.a.gone + Finished(s.a.w, n)) + w'.writing == s.a.gone + (Finished(s.a.w, n) + w'.writing);
    assert s.b.got + (SeenByB(s).out + Finished(s.a.w, n)) == (s.b.got + SeenByB(s).out) + Finished(s.a.w, n);
  }

  lemma FinishedLeavesRest(w: Writer, n: nat)
    requires ValidWriter(w)
    ensures Finished(w, n) + Written(w, n).writing == w.writing
  {
  }

  /** A blocks only by writing the flush that ends a packet, and then a chunk start is on the wire. */
  lemma WriteFacts(w: Writer, n: nat)
    requires ValidWriter(w) && 1 <= n <= Len(w) && !LoneLastByte(w, n)
    ensures !w.blocked
    ensures Written(w, n).blocked ==> Finished(w, n) != [] && w.waitat == 0
    ensures w.waitat > 0 ==> Written(w, n).writing != [] && !Written(w, n).blocked
    ensures w.waitat == 0 ==> Owed(w) == 0
    ensures |Offered(w)[..n]| == n
  {
  }

  lemma WriteKeepsInv(s: Peers, n: nat)
    requires Inv(s) && Enabled(s, Write(n))
    ensures Inv(Act(s, Write(n)))
  {
    hide ValidWriter, ValidReading, Decode, Meaning, OnWire, Owed, Written, Offered, Finished, Len, LoneLastByte, Quota;
    var t := Act(s, Write(n));
    WriteMirrors(s, n);
    WriteFacts(s.a.w, n);
    DecodeQuota(Meaning(s.b.reading), s.ab);
    QuotaOfMeaning(s.b.reading);
    assert SeenByB(Flip(t)) == SeenByB(Flip(s));
    assert s.a.w.waitat == 0 ==> |t.ab| > Quota(s.b.reading);
  }

  lemma QuotaOfMeaning(r: seq<Chunk>)
    requires ValidReading(r)
    ensures Meaning(r).quota == Quota(r)
  {
  }

  lemma ReadKeepsView(s: Peers, k: nat)
    requires ValidSide(s.a) && ValidSide(s.b) && 1 <= k <= |s.ba|
    ensures var t := Act(s, Read(k));
            && ValidSide(t.a) && SeenByB(Flip(t)) == SeenByB(Flip(s))
            && (k <= Quota(s.a.reading) ==> Quota(t.a.reading) == Quota(s.a.reading) - k)
            && OnWire(t.a.w) == OnWire(s.a.w) && Owed(t.a.w) == Owed(s.a.w)
  {
    hide ValidReading, Decode, Feed, Meaning, Quota, AsksForAck;
    FeedDecodes(s.a.reading, s.ba[..k]);
    DecodeAppend(Meaning(s.a.reading), s.ba[..k], s.ba[k..]);
    assert s.ba[..k] + s.ba[k..] == s.ba;
    DecodeQuota(Meaning(s.a.reading), s.ba[..k]);
    QuotaOfMeaning(s.a.reading);
    QuotaOfMeaning(Feed(s.a.reading, s.ba[..k]));
    FlagsAreFree(s.a.w, s.a.w.blocked && k <= Quota(s.a.reading),
        s.a.w.ack || AsksForAck(Quota(s.a.reading), s.ba[..k]));
  }

  lemma ReadKeepsInv(s: Peers, k: nat)
    requires Inv(s) && Enabled(s, Read(k))
    ensures Inv(Act(s, Read(k)))
  {
    hide ValidWriter, ValidReading, Decode, Feed, Meaning, OnWire, Owed, Quota, AsksForAck;
    var t := Act(s, Read(k));
    ReadKeepsView(s, k);
    assert SeenByB(t) == SeenByB(s);
  }

  lemma ReceiveKeepsView(s: Peers)
    requires ValidSide(s.a) && ValidSide(s.b)
    ensures var t := Act(s, Receive); var p := if Take(s.a.reading).1.Some? then [Take(s.a.reading).1.value] else [];
            && ValidSide(t.a) && Quota(t.a.reading) == Quota(s.a.reading)
            && SeenByB(Flip(s)) == SeenByB(Flip(t)).(out := p + SeenByB(Flip(t)).out)
            && OnWire(t.a.w) == OnWire(s.a.w) && Owed(t.a.w) == Owed(s.a.w)
  {
    hide ValidReading, Decode, Take, Outputs, Rest, Quota;
    TakeMeaning(s.a.reading);
    var r := Take(s.a.reading);
    var p := if r.1.Some? then [r.1.value] else [];
    assert [] + Outputs(r.0) == Outputs(r.0);
    DecodeKeepsOut(p, Meaning(r.0), s.ba);
    FlagsAreFree(s.a.w, s.a.w.blocked, s.a.w.ack || r.1.Some?);
  }

  lemma ReceiveKeepsInv(s: Peers)
    requires Inv(s)
    ensures Inv(Act(s, Receive))
  {
    hide ValidWriter, ValidReading, Decode, Take, Meaning, OnWire, Owed, Quota;
    var t := Act(s, Receive);
    ReceiveKeepsView(s);
    var p := if Take(s.a.reading).1.Some? then [Take(s.a.reading).1.value] else [];
    assert SeenByB(t) == SeenByB(s);
    assert (s.a.got + p) + SeenByB(Flip(t)).out == s.a.got + (p + SeenByB(Flip(t)).out);
  }

  lemma ActKeepsInv(s: Peers, act: Action)
    requires Inv(s) && Enabled(s, act)
    ensures Inv(Act(s, act))
  {
    hide Act, Mirrors, WillBeAnswered, NotBothStuck, ValidSide;
    match act
    case Queue(p) => QueueKeepsInv(s, p);
    case Write(n) => WriteKeepsInv(s, n);
    case Read(k) => ReadKeepsInv(s, k);
    case Receive => ReceiveKeepsInv(s);
  }

  // ----- runs -----

  datatype Move = Move(byB: bool, act: Action)

  predicate Possible(s: Peers, m: Move)
    requires ValidSide(s.a) && ValidSide(s.b)
  {
    Enabled(if m.byB then Flip(s) else s, m.act)
  }

  function Next(s: Peers, m: Move): Peers
    requires ValidSide(s.a) && ValidSide(s.b) && Possible(s, m)
  {
    if m.byB then Flip(Act(Flip(s), m.act)) else Act(s, m.act)
  }

  predicate IsRun(s: Peers, moves: seq<Move>)
    decreases |moves|
  {
    && ValidSide(s.a) && ValidSide(s.b)
    && (moves == [] || (Possible(s, moves[0]) && IsRun(Next(s, moves[0]), moves[1..])))
  }

  function Final(s: Peers, moves: seq<Move>): Peers
    requires IsRun(s, moves)
    decreases |moves|
  {
    if moves == [] then s else Final(Next(s, moves[0]), moves[1..])
  }

  function Fresh(cap: nat, blocking: bool): Side {
    Side([], Writer([], 0, 0, 0, cap, false, blocking, false), [], [], [])
  }

  predicate Initial(s: Peers) {
    && 1 <= s.a.w.cap <= 255 && 1 <= s.b.w.cap <= 255
    && s == Peers(Fresh(s.a.w.cap, s.a.w.blocking), Fresh(s.b.w.cap, s.b.w.blocking), [], [])
  }

  lemma InitialInv(s: Peers)
    requires Initial(s)
    ensures Inv(s)
  {
  }

  lemma FlipKeepsInv(s: Peers)
    requires Inv(s)
    ensures Inv(Flip(s)) && Flip(Flip(s)) == s
  {
    hide ValidSide, Mirrors, WillBeAnswered;
    assert Flip(Flip(s)) == s;
  }

  lemma NextKeepsInv(s: Peers, m: Move)
    requires Inv(s) && Possible(s, m)
    ensures Inv(Next(s, m))
  {
    hide Act, Enabled, Mirrors, WillBeAnswered, NotBothStuck, ValidSide;
    FlipKeepsInv(s);
    if m.byB {
      ActKeepsInv(Flip(s), m.act);
      FlipKeepsInv(Act(Flip(s), m.act));
    } else {
      ActKeepsInv(s, m.act);
    }
  }

  lemma {:induction false} RunKeepsInv(s: Peers, moves: seq<Move>)
    requires Inv(s) && IsRun(s, moves)
    ensures Inv(Final(s, moves))
    decreases |moves|
  {
    hide Inv, Next, Possible;
    if moves != [] {
      NextKeepsInv(s, moves[0]);
      RunKeepsInv(Next(s, moves[0]), moves[1..]);
    }
  }

  /** Nothing on the wires, and no packet waiting to be received. */
  predicate Idle(s: Peers) {
    s.ab == [] && s.ba == [] && Outputs(s.a.reading) == [] && Outputs(s.b.reading) == []
  }

  /**
   Round trip: at any moment each peer has received a prefix of what the other was given, in order
   and unchanged, and when everything has been delivered exactly the packets the other finished.
   */
  lemma PacketsArriveInOrder(s: Peers, moves: seq<Move>)
    requires Initial(s) && IsRun(s, moves)
    ensures var t := Final(s, moves);
            && t.b.got <= t.a.gone <= t.a.sent && t.a.got <= t.b.gone <= t.b.sent
            && (Idle(t) ==> t.b.got == t.a.gone && t.a.got == t.b.gone)
  {
    hide Inv, Final, IsRun;
    InitialInv(s);
    RunKeepsInv(s, moves);
    InvDelivers(Final(s, moves));
    InvDelivers(Flip(Final(s, moves)));
    FlipKeepsInv(Final(s, moves));
  }

  lemma InvDelivers(t: Peers)
    requires Inv(t) || Inv(Flip(t))
    ensures t.b.got <= t.a.gone <= t.a.sent && (Idle(t) ==> t.b.got == t.a.gone)
    ensures ValidSide(t.a) && ValidSide(t.b) && (Idle(t) && t.a.w.writing == [] ==> t.b.got == t.a.sent)
  {
    hide ValidReading, ValidWriter, WillBeAnswered, NotBothStuck, OnWire, Owed, Quota;
    assert Flip(Flip(t)) == t && Mirrors(t);
    NothingOnWire(t);
  }

  lemma NothingOnWire(t: Peers)
    requires ValidSide(t.b)
    ensures Idle(t) ==> SeenByB(t).out == []
  {
  }

  /** Stop-and-wait does not deadlock: when all is quiet, a blocked peer faces one that has something to write. */
  lemma BlockedIsAnswered(s: Peers, moves: seq<Move>)
    requires Initial(s) && IsRun(s, moves) && Idle(Final(s, moves))
    ensures var t := Final(s, moves);
            && ValidSide(t.a) && ValidSide(t.b)
            && (t.a.w.blocked ==> Len(t.b.w) > 0) && (t.b.w.blocked ==> Len(t.a.w) > 0)
  {
    hide Inv, Final, IsRun, Len;
    InitialInv(s);
    RunKeepsInv(s, moves);
    var t := Final(s, moves);
    FlipKeepsInv(t);
    InvAnswers(t);
    InvAnswers(Flip(t));
  }

  lemma InvAnswers(t: Peers)
    requires Inv(t) && Idle(t)
    ensures ValidSide(t.a) && ValidSide(t.b) && (t.a.w.blocked ==> Len(t.b.w) > 0)
  {
    hide ValidReading, Mirrors;
    InvIsValid(t);
    NothingOnWire(t);
  }

  lemma InvIsValid(t: Peers)
    requires Inv(t)
    ensures ValidSide(t.a) && ValidSide(t.b)
  {
  }

  /** Only the last byte of a packet is left to write, and a run may not write it alone. */
  predicate Stranded(w: Writer)
    requires ValidWriter(w)
  {
    LoneLastByte(w, 1)
  }

  /** Some write is enabled exactly when there is something to write that is not such a byte. */
  lemma WritableExactlyWhen(s: Peers)
    requires ValidSide(s.a)
    ensures (exists n :: Enabled(s, Write(n))) <==> Len(s.a.w) > 0 && !Stranded(s.a.w)
    ensures Len(s.a.w) > 0 && !Stranded(s.a.w) ==> Enabled(s, Write(Len(s.a.w)))
  {
    hide ValidReading;
  }

  /** So as long as a packet is queued anywhere, some peer can write, unless all there is to write are such bytes. */
  lemma QueuedMeansProgress(s: Peers, moves: seq<Move>)
    requires Initial(s) && IsRun(s, moves) && Idle(Final(s, moves))
    requires Final(s, moves).a.w.writing != [] || Final(s, moves).b.w.writing != []
    ensures var t := Final(s, moves);
            && ValidSide(t.a) && ValidSide(t.b) && (Len(t.a.w) > 0 || Len(t.b.w) > 0)
            && ((exists n :: Enabled(t, Write(n))) || (exists n :: Enabled(Flip(t), Write(n))) ||
                ((Len(t.a.w) > 0 ==> Stranded(t.a.w)) && (Len(t.b.w) > 0 ==> Stranded(t.b.w))))
  {
    hide Inv, Final, IsRun, Enabled, Stranded, ValidSide;
    BlockedIsAnswered(s, moves);
    var t := Final(s, moves);
    UnblockedWrites(t);
    UnblockedWrites(Flip(t));
    WritableExactlyWhen(t);
    WritableExactlyWhen(Flip(t));
  }

  lemma UnblockedWrites(t: Peers)
    requires ValidSide(t.a)
    ensures t.a.w.writing != [] && !t.a.w.blocked ==> Len(t.a.w) > 0
  {
    hide ValidReading;
  }

  /** A write keeps the round trip exactly when it is not the last data byte of a packet on its own. */
  lemma OnlyLoneBytesBreakIt(s: Peers, moves: seq<Move>, n: nat)
    requires Initial(s) && IsRun(s, moves)
    requires var t := Final(s, moves); ValidSide(t.a) && ValidSide(t.b) && 1 <= n <= Len(t.a.w)
    ensures var t := Final(s, moves); var u := AfterWrite(t, n);
            u.b.got + SeenByB(u).out == u.a.gone <==> !LoneLastByte(t.a.w, n)
  {
    InitialInv(s);
    RunKeepsInv(s, moves);
    var t := Final(s, moves);
    AfterWriteExactly(t, n);
  }

  lemma AfterWriteExactly(t: Peers, n: nat)
    requires Inv(t) && 1 <= n <= Len(t.a.w)
    ensures var u := AfterWrite(t, n);
            u.b.got + SeenByB(u).out == u.a.gone <==> !LoneLastByte(t.a.w, n)
  {
    hide ValidWriter, ValidReading, Decode, Meaning, OnWire, Owed, Written, Offered, Len, Finished;
    if LoneLastByte(t.a.w, n) {
      DecodeAppend(Meaning(t.b.reading), t.ab, Offered(t.a.w)[..n]);
      LoneByteLosesFlush(t.a.w, n, SeenByB(t).out);
    } else {
      WriteMirrors(t, n);
    }
  }

  // ----- why the condition is needed -----

  /**
   Let A's last byte go out alone when all is quiet and B, having acknowledged the chunk's size byte,
   has nothing left to say: A is blocked, B reads the byte and still has nothing to say.
   */
  lemma LoneByteDeadlocks(t: Peers)
    requires Inv(t) && Idle(t) && Len(t.a.w) >= 1 && LoneLastByte(t.a.w, 1) && t.a.w.blocking
    requires t.b.w.writing == [] && !t.b.w.ack
    ensures var u := AfterWrite(t, 1);
            && ValidSide(u.b) && |u.ab| == 1
            && var v := Flip(Act(Flip(u), Read(1)));
               Idle(v) && v.a.w.blocked && ValidSide(v.b) && Len(v.b.w) == 0
  {
    hide Outputs, Written, Offered, ValidWriter, ValidReading, Decode, Feed, Quota, AsksForAck, OnWire, Owed, Finished,
         Meaning, LoneLastByte, WillBeAnswered, NotBothStuck;
    var u := AfterWrite(t, 1);
    assert u.ab == Offered(t.a.w)[..1];
    LoneByteStops(t.a.w);
    DecodeNothing(Meaning(t.b.reading));
    QuotaOfMeaning(t.b.reading);
    OneDataByte(t.b.reading, u.ab);
    FlagsAreFree(t.b.w, t.b.w.blocked, false);
    assert u.ab[..1] == u.ab;
  }

  lemma DecodeNothing(d: Decoded)
    ensures Decode(d, []) == d
  {
  }

  lemma LoneByteStops(w: Writer)
    requires ValidWriter(w) && Len(w) >= 1 && LoneLastByte(w, 1)
    ensures Written(w, 1).blocked == w.blocking && ValidWriter(Written(w, 1)) && Owed(w) == 1
  {
  }

  lemma OneDataByte(r: seq<Chunk>, bs: seq<nat>)
    requires ValidReading(r) && Quota(r) == 1 && |bs| == 1
    ensures Outputs(Feed(r, bs)) == Outputs(r) && !AsksForAck(1, bs)
  {
    FeedDecodes(r, bs);
    DecodeData(Meaning(r), bs);
    assert bs[1..] == [];
  }

  /**
   Such a state is reached: A queues a packet of one byte and writes its size, B reads that and
   acknowledges it, A reads the acknowledgement.
   */
  lemma LoneByteDeadlockIsReached(s: Peers, x: nat)
    requires Initial(s) && s.a.w.blocking
    ensures var moves := [Move(false, Queue([x])), Move(false, Write(1)), Move(true, Read(1)),
                          Move(true, Write(1)), Move(false, Read(1))];
            IsRun(s, moves) && var t := Final(s, moves);
            && Inv(t) && Idle(t) && Len(t.a.w) == 1 && LoneLastByte(t.a.w, 1) && t.a.w.blocking
            && t.b.w.writing == [] && !t.b.w.ack
  {
    hide Inv, Next, Possible, ValidReading, ValidWriter, Outputs, Idle, Len, LoneLastByte;
    var m1, m2, m3, m4 := Move(false, Queue([x])), Move(false, Write(1)), Move(true, Read(1)), Move(true, Write(1));
    var m5 := Move(false, Read(1));
    var a := Writer([[x]], 0, 0, 0, s.a.w.cap, false, true, false);
    var a1 := a.(waiting := 1, waitat := 1);
    var chunk, zero := [Chunk(1, [])], [Chunk(0, [])];
    var s1 := s.(a := s.a.(w := a, sent := [[x]]));
    var s2 := s1.(a := s1.a.(w := a1), ab := [1]);
    var s3 := s2.(ab := [], b := s2.b.(reading := chunk, w := s.b.w.(ack := true)));
    var s4 := s3.(ba := [0], b := s3.b.(w := s.b.w));
    var s5 := s4.(ba := [], a := s4.a.(reading := zero));
    FirstSteps(s, x, a, a1, s1, s2);
    NextSteps(s, a1, chunk, s2, s3, s4);
    LastStep(s, a1, zero, s4, s5);
    StuckState(x, s5);
    assert IsRun(s5, []) && Final(s5, []) == s5;
    RunPrepends(s4, m5, []);
    RunPrepends(s3, m4, [m5]);
    RunPrepends(s2, m3, [m4, m5]);
    RunPrepends(s1, m2, [m3, m4, m5]);
    RunPrepends(s, m1, [m2, m3, m4, m5]);
    InitialInv(s);
    RunKeepsInv(s, [m1, m2, m3, m4, m5]);
  }

  lemma StuckState(x: nat, t: Peers)
    requires ValidSide(t.a) && ValidSide(t.b) && t.ab == [] && t.ba == []
    requires t.a.reading == [Chunk(0, [])] && t.b.reading == [Chunk(1, [])]
    requires t.a.w.writing == [[x]] && t.a.w.writeat == 0 && t.a.w.waitat == t.a.w.waiting == 1 && !t.a.w.blocked
    ensures Idle(t) && Len(t.a.w) == 1 && LoneLastByte(t.a.w, 1)
  {
    hide IsMultiple;
    MeaningOfNothing();
    MeaningOfOneMore([], Chunk(0, []));
    MeaningOfOneMore([], Chunk(1, []));
    assert [] + [Chunk(0, [])] == [Chunk(0, [])] && [] + [Chunk(1, [])] == [Chunk(1, [])];
  }

  lemma RunPrepends(s: Peers, m: Move, rest: seq<Move>)
    requires ValidSide(s.a) && ValidSide(s.b) && Possible(s, m) && IsRun(Next(s, m), rest)
    ensures IsRun(s, [m] + rest) && Final(s, [m] + rest) == Final(Next(s, m), rest)
  {
    hide ValidSide, Possible, Next;
    assert ([m] + rest)[1..] == rest;
  }

  lemma FirstSteps(s: Peers, x: nat, a: Writer, a1: Writer, s1: Peers, s2: Peers)
    requires Initial(s) && s.a.w.blocking
    requires a == Writer([[x]], 0, 0, 0, s.a.w.cap, false, true, false) && a1 == a.(waiting := 1, waitat := 1)
    requires s1 == s.(a := s.a.(w := a, sent := [[x]])) && s2 == s1.(a := s1.a.(w := a1), ab := [1])
    ensures ValidSide(s.a) && ValidSide(s.b) && Possible(s, Move(false, Queue([x])))
            && Next(s, Move(false, Queue([x]))) == s1
    ensures ValidSide(s1.a) && ValidSide(s1.b) && Possible(s1, Move(false, Write(1)))
            && Next(s1, Move(false, Write(1))) == s2
    ensures ValidWriter(a1) && ValidSide(s2.a)
  {
    assert [] + [[x]] == [[x]];
    NextMultiple(0, s.a.w.cap);
  }

  lemma NextSteps(s: Peers, a1: Writer, chunk: seq<Chunk>, s2: Peers, s3: Peers, s4: Peers)
    requires Initial(s) && ValidWriter(a1) && chunk == [Chunk(1, [])]
    requires s2 == Peers(s2.a, s.b, [1], []) && s2.a.w == a1 && ValidSide(s2.a)
    requires s3 == s2.(ab := [], b := s2.b.(reading := chunk, w := s.b.w.(ack := true)))
    requires s4 == s3.(ba := [0], b := s3.b.(w := s.b.w))
    ensures ValidSide(s2.b) && Possible(s2, Move(true, Read(1))) && Next(s2, Move(true, Read(1))) == s3
    ensures ValidSide(s3.a) && ValidSide(s3.b) && Possible(s3, Move(true, Write(1)))
            && Next(s3, Move(true, Write(1))) == s4
  {
    hide IsMultiple;
    assert [1][..1] == [1] && [1][1..] == [];
    assert Feed([], [1]) == [] + [Chunk(1, [])];
  }

  lemma LastStep(s: Peers, a1: Writer, zero: seq<Chunk>, s4: Peers, s5: Peers)
    requires Initial(s) && ValidWriter(a1) && zero == [Chunk(0, [])] && !a1.blocked && !a1.ack
    requires s4 == Peers(s4.a, s4.b, [], [0]) && s4.a.w == a1 && s4.a.reading == [] && ValidSide(s4.b)
    requires s5 == s4.(ba := [], a := s4.a.(reading := zero))
    ensures ValidSide(s4.a) && Possible(s4, Move(false, Read(1))) && Next(s4, Move(false, Read(1))) == s5
    ensures ValidSide(s5.a) && ValidSide(s5.b)
  {
    hide IsMultiple;
    assert [0][..1] == [0] && [0][1..] == [];
    assert Feed([], [0]) == [] + [Chunk(0, [])];
  }
}
