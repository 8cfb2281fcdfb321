/**
 The handshake protocol between two links (src/link.c over src/e3x/exchange.c).
 Two peers and the handshakes in flight between them form a Net; a run is any
 interleaving of load, sync, resync and delivery, over a network that may lose,
 duplicate and reorder.  Sequences hold the messages in flight, and a delivery
 may pick any of them.
 */
module HandshakeProtocol {
  import opened Common
  import opened Exchanges

  /** `said` records whether this peer has ever sent a handshake. */
  datatype Peer = Peer(e: Endpoint, loaded: bool, said: bool)

  datatype Net = Net(a: Peer, b: Peer, toA: seq<nat>, toB: seq<nat>)

  function Flip(s: Net): Net {
    Net(s.b, s.a, s.toB, s.toA)
  }

  function Without(q: seq<nat>, i: nat): seq<nat>
    requires i < |q|
  {
    q[..i] + q[i + 1..]
  }

  // ----- steps of side A; side B acts through Flip -----

  datatype Action = Load(now: nat) | Sync | Resync | Deliver(i: nat) | Lose(i: nat) | Duplicate(i: nat)

  predicate Enabled(s: Net, act: Action) {
    match act
    case Load(now) => !s.a.loaded && now + 1 < U32
    case Sync => s.a.loaded
    case Resync => s.a.loaded && s.a.e.outAt + 2 < U32
    case Deliver(i) => s.a.loaded && i < |s.toA|
    case Lose(i) => i < |s.toA|
    case Duplicate(i) => i < |s.toA|
  }

  /** Peer A takes state e and puts a handshake in flight when there is one. */
  function Send(s: Net, e: Endpoint, msg: Option<nat>): Net {
    match msg
    case None => s.(a := s.a.(e := e))
    case Some(m) => s.(a := s.a.(e := e, said := true), toB := s.toB + [m])
  }

  function Act(s: Net, act: Action): Net
    requires Enabled(s, act)
  {
    match act
    case Load(now) => s.(a := Peer(LoadEndpoint(s.a.e.order, now), true, s.a.said))
    case Sync => Send(s, s.a.e, Handshake(s.a.e))
    case Resync =>
      var e := RaiseOut(s.a.e, (s.a.e.outAt + 1) % U32);
      Send(s, e, Handshake(e))
    case Deliver(i) =>
      var r := Receive(s.a.e, s.toA[i]);
      Send(s.(toA := Without(s.toA, i)), r.0, r.1)
    case Lose(i) => s.(toA := Without(s.toA, i))
    case Duplicate(i) => s.(toA := s.toA + [s.toA[i]])
  }

  datatype Move = Move(byB: bool, act: Action)

  predicate Possible(s: Net, m: Move) {
    Enabled(if m.byB then Flip(s) else s, m.act)
  }

  function Next(s: Net, m: Move): Net
    requires Possible(s, m)
  {
    if m.byB then Flip(Act(Flip(s), m.act)) else Act(s, m.act)
  }

  predicate IsRun(s: Net, moves: seq<Move>)
    decreases |moves|
  {
    moves == [] || (Possible(s, moves[0]) && IsRun(Next(s, moves[0]), moves[1..]))
  }

  function Final(s: Net, moves: seq<Move>): Net
    requires IsRun(s, moves)
    decreases |moves|
  {
    if moves == [] then s else Final(Next(s, moves[0]), moves[1..])
  }

  /** Two links that know each other's key but have not loaded it yet. */
  predicate Initial(s: Net) {
    && {s.a.e.order, s.b.e.order} == {1, 2}
    && s.a == Peer(Endpoint(s.a.e.order, 0, 0), false, false) && s.b == Peer(Endpoint(s.b.e.order, 0, 0), false, false)
    && s.toA == s.toB == []
  }

  // ----- either side -----

  function OtherSide(moves: seq<Move>): seq<Move> {
    if moves == [] then [] else [Move(!moves[0].byB, moves[0].act)] + OtherSide(moves[1..])
  }

  /** Exchanging the two peers turns runs into runs: what is proved of peer A holds of peer B. */
  lemma {:induction false} SidesAreInterchangeable(s: Net, moves: seq<Move>)
    requires IsRun(s, moves)
    ensures IsRun(Flip(s), OtherSide(moves)) && Final(Flip(s), OtherSide(moves)) == Flip(Final(s, moves))
    ensures Initial(s) ==> Initial(Flip(s))
    decreases |moves|
  {
    hide Enabled, Act;
    if moves != [] {
      SidesAreInterchangeable(Next(s, moves[0]), moves[1..]);
      var m := Move(!moves[0].byB, moves[0].act);
      assert Flip(Flip(s)) == s && Next(Flip(s), m) == Flip(Next(s, moves[0]));
      assert OtherSide(moves)[0] == m && OtherSide(moves)[1..] == OtherSide(moves[1..]);
    }
  }

  // ----- safety -----

  /** What every step keeps, seen from side A. */
  predicate HalfInv(s: Net) {
    && s.a.e.inAt <= s.a.e.outAt < U32
    && s.a.e.inAt <= s.b.e.outAt
    && (HasParity(s.a.e.order, s.a.e.outAt) || s.a.e.outAt == s.a.e.inAt)
    && (!s.a.loaded ==> s.a.e.outAt == 0)
    && forall i :: 0 <= i < |s.toA| ==> MsgOk(s, s.toA[i])
  }

  /** A message on its way to A: never ahead of its sender, and of its parity or not ahead of A. */
  predicate MsgOk(s: Net, m: nat) {
    && 0 < m <= s.b.e.outAt
    && (HasParity(s.b.e.order, m) || m <= s.a.e.outAt)
  }

  predicate Inv(s: Net) {
    {s.a.e.order, s.b.e.order} == {1, 2} && HalfInv(s) && HalfInv(Flip(s))
  }

  predicate Opposite(s: Net) {
    {s.a.e.order, s.b.e.order} == {1, 2}
  }

  lemma OppositeOrders(s: Net)
    requires Opposite(s)
    ensures (s.a.e.order == 1 && s.b.e.order == 2) || (s.a.e.order == 2 && s.b.e.order == 1)
  {
    assert s.a.e.order in {1, 2} && s.b.e.order in {1, 2};
    assert 1 in {s.a.e.order, s.b.e.order} && 2 in {s.a.e.order, s.b.e.order};
  }

  lemma SendKeepsInv(s: Net, e: Endpoint, msg: Option<nat>)
    requires Inv(s)
    requires e.order == s.a.e.order && s.a.e.outAt <= e.outAt < U32
    requires e.inAt <= e.outAt && e.inAt <= s.b.e.outAt
    requires HasParity(e.order, e.outAt) || e.outAt == e.inAt
    requires !s.a.loaded ==> e.outAt == 0
    requires msg.Some? ==> 0 < msg.value == e.outAt
    ensures Inv(Send(s, e, msg))
  {
    var t := Send(s, e, msg);
    assert forall i :: 0 <= i < |t.toA| ==> MsgOk(s, s.toA[i]);
    forall i | 0 <= i < |t.toB| ensures MsgOk(Flip(t), t.toB[i]) {
      if i < |s.toB| { assert MsgOk(Flip(s), s.toB[i]); }
    }
  }

  /** The answer to a handshake: whatever is ahead of us has the peer's parity, so it is taken. */
  lemma ReceiveFacts(e: Endpoint, at: nat, peerOrder: nat)
    requires {e.order, peerOrder} == {1, 2} && e.inAt <= e.outAt && at > 0
    requires HasParity(peerOrder, at) || at <= e.outAt
    ensures var r := Receive(e, at);
            && r.0.order == e.order
            && r.0.outAt == (if at > e.outAt then at else e.outAt)
            && r.0.inAt == (if at >= e.outAt then at else e.inAt)
            && r.1 == (if at > e.outAt || (at < e.outAt && e.inAt < e.outAt) then Some(r.0.outAt) else None)
  {
    assert e.order in {1, 2} && peerOrder in {1, 2};
    assert 1 in {e.order, peerOrder} && 2 in {e.order, peerOrder};
  }

  lemma DeliverFacts(s: Net, i: nat)
    requires Inv(s) && Enabled(s, Deliver(i))
    ensures var m := s.toA[i]; var t := Act(s, Deliver(i));
            && t.a.e == Endpoint(s.a.e.order,
                                 if m >= s.a.e.outAt then m else s.a.e.inAt,
                                 if m > s.a.e.outAt then m else s.a.e.outAt)
            && t.toB == s.toB + (if m > s.a.e.outAt || (m < s.a.e.outAt && s.a.e.inAt < s.a.e.outAt)
               then [t.a.e.outAt] else [])
            && t.toA == Without(s.toA, i) && t.b == s.b && t.a.loaded
  {
    assert MsgOk(s, s.toA[i]);
    ReceiveFacts(s.a.e, s.toA[i], s.b.e.order);
  }

  lemma WithoutKeepsInv(s: Net, i: nat)
    requires Inv(s) && i < |s.toA|
    ensures Inv(s.(toA := Without(s.toA, i)))
  {
    var t := s.(toA := Without(s.toA, i));
    forall j | 0 <= j < |t.toA| ensures MsgOk(t, t.toA[j]) {
      assert MsgOk(s, s.toA[if j < i then j else j + 1]);
    }
    forall j | 0 <= j < |t.toB| ensures MsgOk(Flip(t), t.toB[j]) {
      assert MsgOk(Flip(s), s.toB[j]);
    }
  }

  lemma UnloadedIsSilent(s: Net)
    requires Inv(s)
    ensures s.toB != [] ==> s.a.loaded
  {
    if s.toB != [] {
      assert MsgOk(Flip(s), s.toB[0]);
    }
  }

  lemma LoadKeepsInv(s: Net, now: nat)
    requires Inv(s) && Enabled(s, Load(now))
    ensures Inv(Act(s, Load(now)))
  {
    OppositeOrders(s);
    var t := Act(s, Load(now));
    forall j | 0 <= j < |t.toA| ensures MsgOk(t, t.toA[j]) { assert MsgOk(s, s.toA[j]); }
    UnloadedIsSilent(s);
  }

  lemma ActKeepsInv(s: Net, act: Action)
    requires Inv(s) && Enabled(s, act)
    ensures Inv(Act(s, act))
  {
    hide Inv, Send, Receive, LoadEndpoint;
    match act
    case Load(now) => LoadKeepsInv(s, now);
    case Sync => SyncKeepsInv(s);
    case Resync => ResyncKeepsInv(s);
    case Deliver(i) => DeliverKeepsInv(s, i);
    case Lose(i) => WithoutKeepsInv(s, i);
    case Duplicate(i) => DuplicateKeepsInv(s, i);
  }

  lemma SyncKeepsInv(s: Net)
    requires Inv(s) && Enabled(s, Sync)
    ensures Inv(Act(s, Sync))
  {
    OppositeOrders(s);
    SendKeepsInv(s, s.a.e, Handshake(s.a.e));
  }

  lemma ResyncKeepsInv(s: Net)
    requires Inv(s) && Enabled(s, Resync)
    ensures Inv(Act(s, Resync))
  {
    OppositeOrders(s);
    var e := RaiseOut(s.a.e, (s.a.e.outAt + 1) % U32);
    SendKeepsInv(s, e, Handshake(e));
  }

  lemma DeliverKeepsInv(s: Net, i: nat)
    requires Inv(s) && Enabled(s, Deliver(i))
    ensures Inv(Act(s, Deliver(i)))
  {
    OppositeOrders(s);
    assert MsgOk(s, s.toA[i]);
    ReceiveFacts(s.a.e, s.toA[i], s.b.e.order);
    WithoutKeepsInv(s, i);
    var r := Receive(s.a.e, s.toA[i]);
    SendKeepsInv(s.(toA := Without(s.toA, i)), r.0, r.1);
  }

  lemma DuplicateKeepsInv(s: Net, i: nat)
    requires Inv(s) && Enabled(s, Duplicate(i))
    ensures Inv(Act(s, Duplicate(i)))
  {
    hide MsgOk;
    var t := Act(s, Duplicate(i));
    forall j | 0 <= j < |t.toA| ensures MsgOk(t, t.toA[j]) { SameMsg(s, t, s.toA[if j < |s.toA| then j else i]); }
    forall j | 0 <= j < |t.toB| ensures MsgOk(Flip(t), t.toB[j]) { SameMsg(Flip(s), Flip(t), s.toB[j]); }
  }

  lemma SameMsg(s: Net, t: Net, m: nat)
    requires MsgOk(s, m) && t.a == s.a && t.b == s.b
    ensures MsgOk(t, m)
  {
  }

  lemma FlipKeepsInv(s: Net)
    requires Inv(s)
    ensures Inv(Flip(s))
  {
    assert Flip(Flip(s)) == s;
    assert {s.b.e.order, s.a.e.order} == {s.a.e.order, s.b.e.order};
  }

  lemma NextKeepsInv(s: Net, m: Move)
    requires Inv(s) && Possible(s, m)
    ensures Inv(Next(s, m))
  {
    if m.byB {
      FlipKeepsInv(s);
      ActKeepsInv(Flip(s), m.act);
      FlipKeepsInv(Act(Flip(s), m.act));
    } else {
      ActKeepsInv(s, m.act);
    }
  }

  lemma {:induction false} RunKeepsInv(s: Net, moves: seq<Move>)
    requires Inv(s) && IsRun(s, moves)
    ensures Inv(Final(s, moves))
    decreases |moves|
  {
    if moves != [] {
      NextKeepsInv(s, moves[0]);
      RunKeepsInv(Next(s, moves[0]), moves[1..]);
    }
  }

  predicate Settled(p: Peer) {
    p.e.inAt == p.e.outAt
  }

  /** Agreement: in every reachable state, two settled peers hold the same timestamp. */
  lemma Agreement(s: Net, moves: seq<Move>)
    requires Initial(s) && IsRun(s, moves)
    ensures var t := Final(s, moves);
            Settled(t.a) && Settled(t.b) ==> t.a.e.outAt == t.b.e.outAt
  {
    RunKeepsInv(s, moves);
  }

  /** In every reachable state a handshake ahead of its receiver passes the parity test and is adopted. */
  lemma NewerIsNeverRefused(s: Net, moves: seq<Move>, i: nat)
    requires Initial(s) && IsRun(s, moves)
    requires var t := Final(s, moves); t.a.loaded && i < |t.toA| && t.toA[i] > t.a.e.outAt
    ensures var t := Final(s, moves); var u := Act(t, Deliver(i));
            && Acceptable(t.a.e, t.toA[i])
            && u.a.e.inAt == u.a.e.outAt == t.toA[i]
            && u.toB == t.toB + [t.toA[i]]
  {
    RunKeepsInv(s, moves);
    var t := Final(s, moves);
    OppositeOrders(t);
    assert MsgOk(t, t.toA[i]);
    DeliverFacts(t, i);
  }

  lemma InNeverFalls(s: Net, m: Move)
    requires Inv(s) && Possible(s, m)
    ensures Next(s, m).a.e.inAt >= s.a.e.inAt && Next(s, m).b.e.inAt >= s.b.e.inAt
  {
    hide MsgOk;
  }

  /**
   A link is up exactly when it has taken a handshake; then the peer is loaded and holds a timestamp
   at least as high, and nothing that happens afterwards takes the link down.
   */
  lemma {:induction false} UpIsKept(s: Net, moves: seq<Move>, more: seq<Move>)
    requires Initial(s) && IsRun(s, moves) && IsRun(Final(s, moves), more)
    ensures var t := Final(s, moves);
            && (IsUp(t.a.e) <==> t.a.e.inAt > 0)
            && (IsUp(t.a.e) ==> t.b.loaded && t.b.e.outAt >= t.a.e.inAt && IsUp(Final(t, more).a.e))
  {
    hide IsRun, Final;
    RunKeepsInv(s, moves);
    var t := Final(s, moves);
    InvBounds(t);
    InGrows(t, more);
    InvBounds(Final(t, more));
  }

  lemma InvBounds(t: Net)
    requires Inv(t)
    ensures t.a.e.inAt <= t.a.e.outAt && t.a.e.inAt <= t.b.e.outAt && (t.b.e.outAt > 0 ==> t.b.loaded)
  {
  }

  lemma {:induction false} InGrows(s: Net, moves: seq<Move>)
    requires Inv(s) && IsRun(s, moves)
    ensures Inv(Final(s, moves)) && Final(s, moves).a.e.inAt >= s.a.e.inAt
    decreases |moves|
  {
    hide Inv, Possible, Next;
    if moves != [] {
      NextKeepsInv(s, moves[0]);
      InNeverFalls(s, moves[0]);
      InGrows(Next(s, moves[0]), moves[1..]);
    }
  }

  // ----- termination of deliveries -----

  function Max(x: nat, y: nat): nat {
    if x >= y then x else y
  }

  function Weight(top: nat, q: seq<nat>): int {
    if q == [] then 0 else top - q[0] + 1 + Weight(top, q[1..])
  }

  lemma {:induction false} WeightOfConcat(top: nat, p: seq<nat>, q: seq<nat>)
    ensures Weight(top, p + q) == Weight(top, p) + Weight(top, q)
  {
    if p == [] {
      assert p + q == q;
    } else {
      WeightOfConcat(top, p[1..], q);
      assert (p + q)[1..] == p[1..] + q;
    }
  }

  lemma WeightWithout(top: nat, q: seq<nat>, i: nat)
    requires i < |q|
    ensures Weight(top, Without(q, i)) == Weight(top, q) - (top - q[i] + 1)
  {
    WeightOfConcat(top, q[..i], q[i + 1..]);
    WeightOfConcat(top, q[..i], q[i..]);
    assert q[..i] + q[i..] == q;
  }

  lemma {:induction false} WeightIsNonNegative(top: nat, q: seq<nat>)
    requires forall i :: 0 <= i < |q| ==> q[i] <= top
    ensures Weight(top, q) >= |q|
  {
    if q != [] { WeightIsNonNegative(top, q[1..]); }
  }

  function Top(s: Net): nat {
    Max(s.a.e.outAt, s.b.e.outAt)
  }

  /** Bounds the number of deliveries still possible: stale messages weigh more than current ones. */
  function Measure(s: Net): nat
    requires Inv(s)
  {
    MeasureIsNat(s);
    Weight(Top(s), s.toA) + Weight(Top(s), s.toB) + (Top(s) - s.a.e.outAt) + (Top(s) - s.b.e.outAt)
  }

  lemma MeasureIsNat(s: Net)
    requires Inv(s)
    ensures Weight(Top(s), s.toA) >= |s.toA| && Weight(Top(s), s.toB) >= |s.toB|
  {
    assert forall i :: 0 <= i < |s.toA| ==> MsgOk(s, s.toA[i]);
    assert forall i :: 0 <= i < |s.toB| ==> MsgOk(Flip(s), s.toB[i]);
    WeightIsNonNegative(Top(s), s.toA);
    WeightIsNonNegative(Top(s), s.toB);
  }

  lemma DeliveryDescends(s: Net, i: nat)
    requires Inv(s) && Enabled(s, Deliver(i))
    ensures Inv(Act(s, Deliver(i)))
    ensures Measure(Act(s, Deliver(i))) < Measure(s)
    ensures Top(Act(s, Deliver(i))) == Top(s)
  {
    ActKeepsInv(s, Deliver(i));
    DeliverFacts(s, i);
    var t := Act(s, Deliver(i));
    assert MsgOk(s, s.toA[i]);
    WeightWithout(Top(s), s.toA, i);
    if t.toB != s.toB {
      WeightOfConcat(Top(s), s.toB, [t.a.e.outAt]);
      assert Weight(Top(s), [t.a.e.outAt]) == Top(s) - t.a.e.outAt + 1;
    }
  }

  lemma FlipKeepsMeasure(s: Net)
    requires Inv(s)
    ensures Inv(Flip(s)) && Measure(Flip(s)) == Measure(s) && Flip(Flip(s)) == s
  {
    FlipKeepsInv(s);
  }

  lemma DeliveryDescendsB(s: Net, i: nat)
    requires Inv(s) && Enabled(Flip(s), Deliver(i))
    ensures var t := Next(s, Move(true, Deliver(i))); Inv(t) && Measure(t) < Measure(s)
  {
    FlipKeepsMeasure(s);
    DeliveryDescends(Flip(s), i);
    FlipKeepsMeasure(Act(Flip(s), Deliver(i)));
  }

  predicate OnlyDeliveries(moves: seq<Move>) {
    forall i :: 0 <= i < |moves| ==> moves[i].act.Deliver?
  }

  /** Every order of deliveries stops: from any reachable state at most Measure of them are possible. */
  lemma {:induction false} DeliveriesTerminate(s: Net, moves: seq<Move>)
    requires Inv(s) && IsRun(s, moves) && OnlyDeliveries(moves)
    ensures |moves| <= Measure(s)
    decreases |moves|
  {
    if moves != [] {
      var i := moves[0].act.i;
      if moves[0].byB { DeliveryDescendsB(s, i); } else { DeliveryDescends(s, i); }
      DeliveriesTerminate(Next(s, moves[0]), moves[1..]);
    }
  }

  // ----- convergence -----

  predicate Quiet(s: Net) {
    s.toA == [] && s.toB == []
  }

  predicate Synced(s: Net) {
    Settled(s.a) && Settled(s.b) && s.a.e.outAt == s.b.e.outAt
  }

  predicate BothLoaded(s: Net) {
    s.a.loaded && s.b.loaded
  }

  /** Whatever order the messages in flight (and their answers) are delivered in, the peers end synced. */
  ghost predicate AlwaysConverges(s: Net) {
    forall moves :: IsRun(s, moves) && OnlyDeliveries(moves) && Quiet(Final(s, moves)) ==> Synced(Final(s, moves))
  }

  /**
   A is ahead of B.  Its timestamp gets through when it is in flight, when something
   is in flight that A will answer, or when B will certainly send something to A first.
   */
  predicate AheadWillBeHeard(s: Net) {
    || s.toA != []
    || (exists i :: 0 <= i < |s.toB| && s.toB[i] > s.b.e.outAt)
    || (s.toB != [] && s.b.e.inAt < s.b.e.outAt && s.b.e.outAt !in s.toB)
  }

  /** The exact condition for convergence, read off the two peers and the messages in flight. */
  predicate WillConverge(s: Net) {
    if s.a.e.outAt > s.b.e.outAt then AheadWillBeHeard(s)
    else if s.b.e.outAt > s.a.e.outAt then AheadWillBeHeard(Flip(s))
    else
      && (!Settled(s.a) ==> s.a.e.outAt in s.toA)
      && (!Settled(s.b) ==> s.b.e.outAt in s.toB)
  }

  lemma WillConvergeIsSymmetric(s: Net)
    ensures WillConverge(Flip(s)) == WillConverge(s)
  {
    assert Flip(Flip(s)) == s;
  }

  lemma InWithout(q: seq<nat>, i: nat, x: nat)
    requires i < |q| && x in q && x != q[i]
    ensures x in Without(q, i)
  {
    var j :| 0 <= j < |q| && q[j] == x;
    assert Without(q, i)[if j < i then j else j - 1] == x;
  }

  lemma InConcat(p: seq<nat>, q: seq<nat>, x: nat)
    ensures x in p + q <==> x in p || x in q
  {
  }

  /** Deliveries preserve the condition. */
  lemma DeliveryKeepsWillConverge(s: Net, i: nat)
    requires Inv(s) && BothLoaded(s) && i < |s.toA| && WillConverge(s)
    ensures WillConverge(Act(s, Deliver(i)))
  {
    var t := Act(s, Deliver(i));
    DeliverFacts(s, i);
    var m := s.toA[i];
    assert MsgOk(s, m);
    OppositeOrders(s);
    if m > s.a.e.outAt {
      // A adopts m and answers with it
      assert t.toB[|t.toB| - 1] == m;
      assert m in t.toB;
      if m < s.b.e.outAt { assert AheadWillBeHeard(Flip(t)); }
    } else if m < s.a.e.outAt && s.a.e.inAt < s.a.e.outAt {
      // A repeats its current handshake
      assert t.toB[|t.toB| - 1] == s.a.e.outAt;
      InConcat(s.toB, [s.a.e.outAt], s.b.e.outAt);
      if s.a.e.outAt == s.b.e.outAt {
        InWithout(s.toA, i, s.a.e.outAt);
      } else if s.a.e.outAt > s.b.e.outAt {
        assert AheadWillBeHeard(t);
      } else {
        assert AheadWillBeHeard(Flip(t));
      }
    } else {
      NoAnswerKeepsWillConverge(s, i);
    }
  }

  lemma NoAnswerKeepsWillConverge(s: Net, i: nat)
    requires Inv(s) && BothLoaded(s) && i < |s.toA| && WillConverge(s)
    requires var m := s.toA[i]; m == s.a.e.outAt || (m < s.a.e.outAt && s.a.e.inAt == s.a.e.outAt)
    ensures WillConverge(Act(s, Deliver(i)))
  {
    var t := Act(s, Deliver(i));
    DeliverFacts(s, i);
    var m := s.toA[i];
    assert MsgOk(s, m);
    assert t.toB == s.toB;
    if s.a.e.outAt < s.b.e.outAt {
      if s.toB == [] {
        var k :| 0 <= k < |s.toA| && s.toA[k] > s.a.e.outAt;
        InWithout(s.toA, i, s.toA[k]);
        assert s.toA[k] in t.toA;
        assert AheadWillBeHeard(Flip(t));
      }
    }
  }

  /** When the condition fails, it still fails after a suitable delivery, so some order gets stuck. */
  lemma FailureSurvives(s: Net) returns (byB: bool, i: nat)
    requires Inv(s) && BothLoaded(s) && !Quiet(s) && !WillConverge(s)
    ensures i < |(if byB then s.toB else s.toA)|
    ensures !WillConverge(Next(s, Move(byB, Deliver(i))))
  {
    if s.a.e.outAt > s.b.e.outAt {
      i := PickForBehind(Flip(s));
      byB := true;
    } else if s.b.e.outAt > s.a.e.outAt {
      assert Flip(Flip(s)) == s;
      i := PickForBehind(s);
      byB := false;
    } else {
      EqualFailureSurvives(s);
      EqualFailureSurvives(Flip(s));
      assert Flip(Flip(s)) == s;
      byB := s.toA == [];
      i := 0;
    }
  }

  /** A is behind and unheard: only its own old timestamps are in flight to it. */
  lemma PickForBehind(s: Net) returns (i: nat)
    requires Inv(s) && BothLoaded(s) && !Quiet(s)
    requires s.a.e.outAt < s.b.e.outAt && !AheadWillBeHeard(Flip(s))
    ensures i < |s.toA| && !WillConverge(Act(s, Deliver(i)))
    ensures s.toA != [] && s.toB == []
  {
    if s.a.e.outAt in s.toA {
      i :| 0 <= i < |s.toA| && s.toA[i] == s.a.e.outAt;
    } else {
      i := 0;
    }
    DeliverFacts(s, i);
    var t := Act(s, Deliver(i));
    forall j | 0 <= j < |t.toA| ensures t.toA[j] <= t.a.e.outAt {
      assert t.toA[j] == s.toA[if j < i then j else j + 1];
    }
    assert !AheadWillBeHeard(Flip(t));
  }

  /** Equal timestamps, A waiting for an echo that is not coming. */
  lemma EqualFailureSurvives(s: Net)
    requires Inv(s) && BothLoaded(s) && s.a.e.outAt == s.b.e.outAt && !WillConverge(s)
    ensures s.toA != [] ==> !WillConverge(Act(s, Deliver(0)))
  {
    OppositeOrders(s);
    if s.toA != [] {
      DeliverFacts(s, 0);
      var t := Act(s, Deliver(0));
      assert MsgOk(s, s.toA[0]);
      assert forall x :: x in t.toA ==> x in s.toA;
      if Settled(s.a) {
        assert t.toB == s.toB;
      } else {
        assert s.toA[0] != s.a.e.outAt;
        assert !Settled(t.a);
      }
    }
  }

  lemma MoveKeepsWillConverge(s: Net, m: Move)
    requires Inv(s) && BothLoaded(s) && WillConverge(s) && Possible(s, m) && m.act.Deliver?
    ensures WillConverge(Next(s, m)) && BothLoaded(Next(s, m))
  {
    if m.byB {
      WillConvergeIsSymmetric(s);
      FlipKeepsInv(s);
      DeliverFacts(Flip(s), m.act.i);
      DeliveryKeepsWillConverge(Flip(s), m.act.i);
      WillConvergeIsSymmetric(Act(Flip(s), m.act));
    } else {
      DeliverFacts(s, m.act.i);
      DeliveryKeepsWillConverge(s, m.act.i);
    }
  }

  lemma {:induction false} ConvergesIf(s: Net, moves: seq<Move>)
    requires Inv(s) && BothLoaded(s) && WillConverge(s)
    requires IsRun(s, moves) && OnlyDeliveries(moves) && Quiet(Final(s, moves))
    ensures Synced(Final(s, moves))
    decreases |moves|
  {
    if moves != [] {
      NextKeepsInv(s, moves[0]);
      MoveKeepsWillConverge(s, moves[0]);
      ConvergesIf(Next(s, moves[0]), moves[1..]);
    }
  }

  lemma DeliveryKeepsLoaded(s: Net, m: Move)
    requires BothLoaded(s) && Possible(s, m) && m.act.Deliver?
    ensures BothLoaded(Next(s, m))
  {
  }

  lemma QuietConverges(s: Net)
    requires Inv(s) && Quiet(s)
    ensures WillConverge(s) <==> Synced(s)
  {
    OppositeOrders(s);
  }

  lemma {:induction false} StuckRun(s: Net) returns (moves: seq<Move>)
    requires Inv(s) && BothLoaded(s) && !WillConverge(s)
    ensures IsRun(s, moves) && OnlyDeliveries(moves) && Quiet(Final(s, moves)) && !Synced(Final(s, moves))
    decreases Measure(s)
  {
    hide WillConverge, Inv, Measure, Act, Synced;
    if Quiet(s) {
      QuietConverges(s);
      moves := [];
    } else {
      var byB, i := FailureSurvives(s);
      var m := Move(byB, Deliver(i));
      if byB { DeliveryDescendsB(s, i); } else { DeliveryDescends(s, i); }
      DeliveryKeepsLoaded(s, m);
      var rest := StuckRun(Next(s, m));
      moves := [m] + rest;
      assert moves[1..] == rest;
    }
  }

  /** Convergence, exactly: from any reachable state, all delivery orders end synced if and only if WillConverge. */
  lemma ConvergesExactlyWhen(s: Net, moves: seq<Move>)
    requires Initial(s) && IsRun(s, moves) && BothLoaded(Final(s, moves))
    ensures AlwaysConverges(Final(s, moves)) <==> WillConverge(Final(s, moves))
  {
    RunKeepsInv(s, moves);
    var t := Final(s, moves);
    if WillConverge(t) {
      forall more | IsRun(t, more) && OnlyDeliveries(more) && Quiet(Final(t, more))
        ensures Synced(Final(t, more))
      {
        ConvergesIf(t, more);
      }
    } else {
      var stuck := StuckRun(t);
    }
  }

  /**
   After a peer sends its current handshake, with every later delivery made, the peers end synced
   except in exactly one situation: the peer already holds the same timestamp, the sender still
   waits for the echo, and the echo is not in flight.
   */
  lemma SyncConvergesExactlyWhen(s: Net, moves: seq<Move>)
    requires Initial(s) && IsRun(s, moves)
    requires var t := Final(s, moves); BothLoaded(t) && t.a.e.outAt > 0
    ensures var t := Final(s, moves);
            AlwaysConverges(Act(t, Sync)) <==>
            !(t.a.e.outAt == t.b.e.outAt && t.a.e.inAt < t.a.e.outAt && t.a.e.outAt !in t.toA)
  {
    RunKeepsInv(s, moves);
    var t := Final(s, moves);
    var u := Act(t, Sync);
    AppendMove(s, moves, Move(false, Sync));
    ConvergesExactlyWhen(s, moves + [Move(false, Sync)]);
    assert u.toB[|t.toB|] == t.a.e.outAt;
    if t.a.e.outAt > t.b.e.outAt {
      assert AheadWillBeHeard(u);
    } else if t.a.e.outAt < t.b.e.outAt {
      assert AheadWillBeHeard(Flip(u));
    }
  }

  lemma {:induction false} AppendMove(s: Net, moves: seq<Move>, m: Move)
    requires IsRun(s, moves) && Possible(Final(s, moves), m)
    ensures IsRun(s, moves + [m]) && Final(s, moves + [m]) == Next(Final(s, moves), m)
    decreases |moves|
  {
    if moves == [] {
      assert [] + [m] == [m] && [m][1..] == [];
    } else {
      AppendMove(Next(s, moves[0]), moves[1..], m);
      assert (moves + [m])[1..] == moves[1..] + [m];
    }
  }

  // ----- runs that lose nothing -----

  predicate LosesNothing(moves: seq<Move>) {
    forall i :: 0 <= i < |moves| ==> !moves[i].act.Lose?
  }

  /** What a network that has lost nothing adds to the invariant, seen from side A. */
  predicate Heard(s: Net) {
    && (s.a.said ==> s.a.loaded && s.a.e.outAt > 0 && (s.a.e.outAt in s.toB || s.a.e.outAt <= s.b.e.outAt))
    && (!s.a.said ==> s.toB == [])
    && (!s.a.said && s.b.said ==> s.b.e.outAt in s.toA)
    && (s.b.said && s.a.e.outAt == s.b.e.outAt ==> s.b.e.outAt in s.toA || Settled(s.a))
    && (s.a.e.inAt > 0 ==> s.a.said && s.b.said)
    && (forall i :: 0 <= i < |s.toA| && HasParity(s.a.e.order, s.toA[i]) ==> s.a.said)
  }

  predicate AllHeard(s: Net) {
    Inv(s) && Heard(s) && Heard(Flip(s))
  }

  lemma LoadKeepsHeard(s: Net, now: nat)
    requires AllHeard(s) && Enabled(s, Load(now))
    ensures AllHeard(Act(s, Load(now)))
  {
    OppositeOrders(s);
    ActKeepsInv(s, Load(now));
  }

  /** Sending the current timestamp, whether it was raised just before or not. */
  lemma SendKeepsHeard(s: Net, e: Endpoint)
    requires AllHeard(s) && s.a.loaded && Inv(Send(s, e, Handshake(e)))
    requires e.order == s.a.e.order && e.inAt == s.a.e.inAt && e.outAt >= s.a.e.outAt
    requires e.outAt > s.a.e.outAt ==> HasParity(e.order, e.outAt)
    ensures AllHeard(Send(s, e, Handshake(e)))
  {
    OppositeOrders(s);
    var t := Send(s, e, Handshake(e));
    InConcat(s.toB, [e.outAt], e.outAt);
    InConcat(s.toB, [e.outAt], t.b.e.outAt);
  }

  lemma ActKeepsHeard(s: Net, act: Action)
    requires AllHeard(s) && Enabled(s, act) && !act.Lose?
    ensures AllHeard(Act(s, act))
  {
    hide AllHeard, Send, Receive, LoadEndpoint;
    match act
    case Load(now) => LoadKeepsHeard(s, now);
    case Sync => SyncKeepsHeard(s);
    case Resync => ResyncKeepsHeard(s);
    case Deliver(i) => DeliveryKeepsHeard(s, i);
    case Duplicate(i) => DuplicateKeepsHeard(s, i);
  }

  lemma SyncKeepsHeard(s: Net)
    requires AllHeard(s) && Enabled(s, Sync)
    ensures AllHeard(Act(s, Sync))
  {
    hide Heard, MsgOk;
    ActKeepsInv(s, Sync);
    SendKeepsHeard(s, s.a.e);
  }

  lemma ResyncKeepsHeard(s: Net)
    requires AllHeard(s) && Enabled(s, Resync)
    ensures AllHeard(Act(s, Resync))
  {
    hide Heard, MsgOk;
    OppositeOrders(s);
    ActKeepsInv(s, Resync);
    SendKeepsHeard(s, RaiseOut(s.a.e, (s.a.e.outAt + 1) % U32));
  }

  lemma DuplicateKeepsHeard(s: Net, i: nat)
    requires AllHeard(s) && Enabled(s, Duplicate(i))
    ensures AllHeard(Act(s, Duplicate(i)))
  {
    ActKeepsInv(s, Duplicate(i));
  }

  lemma DeliveryKeepsHeard(s: Net, i: nat)
    requires AllHeard(s) && Enabled(s, Deliver(i))
    ensures AllHeard(Act(s, Deliver(i)))
  {
    OppositeOrders(s);
    ActKeepsInv(s, Deliver(i));
    DeliverFacts(s, i);
    var m := s.toA[i];
    var t := Act(s, Deliver(i));
    assert MsgOk(s, m);
    forall x | x in s.toA && x != m ensures x in t.toA { InWithout(s.toA, i, x); }
    InConcat(s.toB, [t.a.e.outAt], t.a.e.outAt);
    InConcat(s.toB, [t.a.e.outAt], s.b.e.outAt);
    assert t.toB != s.toB ==> t.a.e.outAt in t.toB;
  }

  lemma NextKeepsHeard(s: Net, m: Move)
    requires AllHeard(s) && Possible(s, m) && !m.act.Lose?
    ensures AllHeard(Next(s, m))
  {
    if m.byB {
      FlipKeepsInv(s);
      assert Flip(Flip(s)) == s;
      ActKeepsHeard(Flip(s), m.act);
      FlipKeepsInv(Act(Flip(s), m.act));
      assert Flip(Flip(Act(Flip(s), m.act))) == Act(Flip(s), m.act);
    } else {
      ActKeepsHeard(s, m.act);
    }
  }

  lemma {:induction false} RunKeepsHeard(s: Net, moves: seq<Move>)
    requires AllHeard(s) && IsRun(s, moves) && LosesNothing(moves)
    ensures AllHeard(Final(s, moves))
    decreases |moves|
  {
    if moves != [] {
      NextKeepsHeard(s, moves[0]);
      RunKeepsHeard(Next(s, moves[0]), moves[1..]);
    }
  }

  /** Without loss, once anyone has sent a handshake, silence means both links are up and agree. */
  lemma LosslessRunsConverge(s: Net, moves: seq<Move>)
    requires Initial(s) && IsRun(s, moves) && LosesNothing(moves)
    requires var t := Final(s, moves); BothLoaded(t) && Quiet(t) && (t.a.said || t.b.said)
    ensures var t := Final(s, moves); Synced(t) && IsUp(t.a.e) && IsUp(t.b.e)
  {
    RunKeepsHeard(s, moves);
  }

  // ----- one lost answer is enough to get stuck -----

  /**
   A sends 11, B adopts it, B's answer is lost, A sends 11 again: B has nothing to say,
   and A waits for ever even though it has sent its current handshake.
   */
  lemma LostAnswerGetsStuck(s: Net)
    requires Initial(s) && s.a.e.order == 1 && s.b.e.order == 2
    ensures var moves := [Move(false, Load(11)), Move(true, Load(4)), Move(false, Sync), Move(true, Deliver(0)),
                          Move(false, Lose(0)), Move(false, Sync), Move(true, Deliver(0))];
            IsRun(s, moves) && var t := Final(s, moves);
            Quiet(t) && !Synced(t) && t.a.e == Endpoint(1, 0, 11) && t.b.e == Endpoint(2, 11, 11)
  {
    var m1, m2, m3, m4 := Move(false, Load(11)), Move(true, Load(4)), Move(false, Sync), Move(true, Deliver(0));
    var m5 := Move(false, Lose(0));
    var s1 := Next(s, m1);
    var s2 := Next(s1, m2);
    var s3 := Next(s2, m3);
    var s4 := Next(s3, m4);
    var s5 := Next(s4, m5);
    var s6 := Next(s5, m3);
    var s7 := Next(s6, m4);
    assert s7.a.e == Endpoint(1, 0, 11) && s7.b.e == Endpoint(2, 11, 11) && Quiet(s7);
    assert IsRun(s7, []) && Final(s7, []) == s7;
    PrependMove(s6, m4, []);
    PrependMove(s5, m3, [m4]);
    PrependMove(s4, m5, [m3, m4]);
    PrependMove(s3, m4, [m5, m3, m4]);
    PrependMove(s2, m3, [m4, m5, m3, m4]);
    PrependMove(s1, m2, [m3, m4, m5, m3, m4]);
    PrependMove(s, m1, [m2, m3, m4, m5, m3, m4]);
  }

  lemma PrependMove(s: Net, m: Move, rest: seq<Move>)
    requires Possible(s, m) && IsRun(Next(s, m), rest)
    ensures IsRun(s, [m] + rest) && Final(s, [m] + rest) == Final(Next(s, m), rest)
  {
    assert ([m] + rest)[1..] == rest;
  }
}
