/**
 The exchange of src/e3x/exchange.c: two handshake timestamps whose parity is
 tied to the order of the two public keys, and the channel-id allocator.
 Each method of class Exchange is proved against a function on Endpoint values;
 the protocol proofs (Handshake.dfy, Channels.dfy) are about those functions.
 */
module Exchanges {
  import opened Common

  // ----- key order -----

  /** 2 when our key sorts first, 1 when the peer's does, 0 for equal keys. */
  function KeyOrder(self: seq<nat>, peer: seq<nat>): nat
    requires |self| == |peer|
  {
    if peer == [] then 0
    else if peer[0] == self[0] then KeyOrder(self[1..], peer[1..])
    else if peer[0] > self[0] then 2
    else 1
  }

  lemma {:induction false} KeyOrdersAreOpposite(x: seq<nat>, y: seq<nat>)
    requires |x| == |y|
    ensures x == y ==> KeyOrder(x, y) == KeyOrder(y, x) == 0
    ensures x != y ==> {KeyOrder(x, y), KeyOrder(y, x)} == {1, 2}
  {
    if x == [] {
    } else if x[0] == y[0] {
      KeyOrdersAreOpposite(x[1..], y[1..]);
      assert x == [x[0]] + x[1..] && y == [y[0]] + y[1..];
    }
  }

  /** The first position at which the keys differ decides, and the lesser byte there sorts first. */
  lemma {:induction false} KeyOrderIsByFirstDifference(self: seq<nat>, peer: seq<nat>)
    requires |self| == |peer|
    ensures KeyOrder(self, peer) == 2
            <==> exists i :: 0 <= i < |self| && self[..i] == peer[..i] && self[i] < peer[i]
    ensures KeyOrder(self, peer) == 1
            <==> exists i :: 0 <= i < |self| && self[..i] == peer[..i] && self[i] > peer[i]
    ensures KeyOrder(self, peer) == 0 <==> self == peer
  {
    if self == [] {
    } else if self[0] != peer[0] {
      FirstBytesDiffer(self, peer);
      FirstBytesDiffer(peer, self);
    } else {
      KeyOrderIsByFirstDifference(self[1..], peer[1..]);
      DifferenceMoves(self, peer);
      DifferenceMoves(peer, self);
      assert self == [self[0]] + self[1..] && peer == [peer[0]] + peer[1..];
    }
  }

  lemma FirstBytesDiffer(x: seq<nat>, y: seq<nat>)
    requires |x| == |y| > 0 && x[0] != y[0]
    ensures (exists i :: 0 <= i < |x| && x[..i] == y[..i] && x[i] < y[i]) <==> x[0] < y[0]
  {
    assert x[..0] == y[..0];
    assert forall i :: 0 < i < |x| ==> x[..i][0] != y[..i][0];
  }

  /** Behind equal first bytes the first difference is the one of what follows. */
  lemma DifferenceMoves(x: seq<nat>, y: seq<nat>)
    requires |x| == |y| > 0 && x[0] == y[0]
    ensures (exists i :: 0 <= i < |x| && x[..i] == y[..i] && x[i] < y[i])
            <==> exists i :: 0 <= i < |x[1..]| && x[1..][..i] == y[1..][..i] && x[1..][i] < y[1..][i]
  {
    if i :| 0 <= i < |x| && x[..i] == y[..i] && x[i] < y[i] {
      assert x[1..][..i - 1] == x[..i][1..] && y[1..][..i - 1] == y[..i][1..];
      assert x[1..][i - 1] < y[1..][i - 1];
    }
    if i :| 0 <= i < |x[1..]| && x[1..][..i] == y[1..][..i] && x[1..][i] < y[1..][i] {
      assert x[..i + 1] == [x[0]] + x[1..][..i] && y[..i + 1] == [y[0]] + y[1..][..i];
      assert x[i + 1] < y[i + 1];
    }
  }

  lemma LesserKeyHasOrderTwo(self: seq<nat>, peer: seq<nat>, i: nat)
    requires |self| == |peer| && i < |self| && self[..i] == peer[..i] && self[i] < peer[i]
    ensures KeyOrder(self, peer) == 2 && KeyOrder(peer, self) == 1
  {
    hide KeyOrder;
    KeyOrderIsByFirstDifference(self, peer);
    KeyOrderIsByFirstDifference(peer, self);
    assert peer[..i] == self[..i] && peer[i] > self[i];
  }

  // ----- timestamps -----

  datatype Endpoint = Endpoint(order: nat, inAt: nat, outAt: nat)

  /** Does `at` carry the parity an endpoint of this order gives to its own values? */
  predicate HasParity(order: nat, at: nat) {
    if order == 2 then at % 2 == 0 else at % 2 == 1
  }

  /** The parity adjustment of e3x_exchange_out; the increment is a 32-bit one. */
  function OwnParity(order: nat, at: nat): nat {
    if HasParity(order, at) then at else (at + 1) % U32
  }

  function RaiseOut(e: Endpoint, at: nat): Endpoint {
    if at != 0 && at > e.outAt then e.(outAt := OwnParity(e.order, at)) else e
  }

  predicate Acceptable(e: Endpoint, at: nat) {
    at != 0 && at > e.inAt && at >= e.outAt && ((at % 2) + 1 == e.order || at == e.outAt)
  }

  function AcceptIn(e: Endpoint, at: nat): Endpoint {
    if Acceptable(e, at) then e.(inAt := at) else e
  }

  function SyncOut(e: Endpoint): Endpoint {
    if e.inAt > e.outAt then e.(outAt := e.inAt) else e
  }

  function LoadEndpoint(order: nat, now: nat): Endpoint {
    RaiseOut(Endpoint(order, 0, 0), now)
  }

  /** A handshake can only be generated once `out` is set. */
  function Handshake(e: Endpoint): Option<nat> {
    if e.outAt == 0 then None else Some(e.outAt)
  }

  /** link_up: both timestamps are set. */
  predicate IsUp(e: Endpoint) {
    e.outAt != 0 && e.inAt != 0
  }

  /** link_receive_handshake: the new endpoint and the handshake sent in answer, if any. */
  function Receive(e: Endpoint, at: nat): (Endpoint, Option<nat>) {
    var e1 := AcceptIn(e, at);
    if e1.inAt < e.outAt then (e1, Handshake(e1))
    else
      var e2 := SyncOut(e1);
      (e2, if e2.outAt != e.outAt then Handshake(e2) else None)
  }

  /** The side whose key sorts first sends the least even timestamp from `at` on, the other the least odd one. */
  lemma FirstKeyIsEven(self: seq<nat>, peer: seq<nat>, inAt: nat, outAt: nat, at: nat, i: nat)
    requires |self| == |peer| && i < |self| && self[..i] == peer[..i] && self[i] < peer[i]
    requires outAt < at <= U32 - 2
    ensures var first := RaiseOut(Endpoint(KeyOrder(self, peer), inAt, outAt), at);
            first.outAt % 2 == 0 && at <= first.outAt <= at + 1 && first.inAt == inAt
    ensures var second := RaiseOut(Endpoint(KeyOrder(peer, self), inAt, outAt), at);
            second.outAt % 2 == 1 && at <= second.outAt <= at + 1 && second.inAt == inAt
    ensures LoadEndpoint(KeyOrder(self, peer), at).outAt % 2 == 0
    ensures LoadEndpoint(KeyOrder(peer, self), at).outAt % 2 == 1
  {
    hide KeyOrder;
    LesserKeyHasOrderTwo(self, peer, i);
  }

  /**
   A handshake is taken exactly when it is newer than the last one taken, not older than the one sent, and is either
   of the other side's parity or the echo of the one sent: odd ones on the side whose key sorts first.
   */
  lemma TakesOtherParity(self: seq<nat>, peer: seq<nat>, inAt: nat, outAt: nat, at: nat, i: nat)
    requires |self| == |peer| && i < |self| && self[..i] == peer[..i] && self[i] < peer[i]
    ensures AcceptIn(Endpoint(KeyOrder(self, peer), inAt, outAt), at).inAt
            == if at > inAt && at >= outAt && (at % 2 == 1 || at == outAt) then at else inAt
    ensures AcceptIn(Endpoint(KeyOrder(peer, self), inAt, outAt), at).inAt
            == if at > inAt && at >= outAt && (at % 2 == 0 || at == outAt) then at else inAt
  {
    hide KeyOrder;
    LesserKeyHasOrderTwo(self, peer, i);
  }

  // ----- channel ids -----

  datatype Ids = Ids(cid: nat, last: nat)

  function NextId(ids: Ids): Ids {
    ids.(cid := (ids.cid + 2) % U32)
  }

  predicate IdAcceptable(ids: Ids, c: nat) {
    c != 0 && c > ids.last && c % 2 != ids.cid % 2
  }

  // ----- the object -----

  class Exchange {
    const order: nat
    var inAt: nat
    var outAt: nat
    var cid: nat
    var last: nat
    var eid: seq<nat>

    function View(): Endpoint
      reads this
    {
      Endpoint(order, inAt, outAt)
    }

    function IdView(): Ids
      reads this
    {
      Ids(cid, last)
    }

    /** The loop of e3x_exchange_new that finds the first differing key byte. */
    constructor (self: seq<nat>, peer: seq<nat>)
      requires |self| == |peer|
      ensures View() == Endpoint(KeyOrder(self, peer), 0, 0)
      ensures IdView() == Ids(KeyOrder(self, peer), 0)
      ensures eid == seq(16, _ => 0)
    {
      var found := 0;
      var i := 0;
      while i < |peer| && found == 0
        invariant 0 <= i <= |peer|
        invariant KeyOrder(self, peer) == if found == 0 then KeyOrder(self[i..], peer[i..]) else found
      {
        if peer[i] != self[i] {
          found := if peer[i] > self[i] then 2 else 1;
        }
        i := i + 1;
      }
      order := found;
      cid := found;
      inAt, outAt, last := 0, 0, 0;
      eid := seq(16, _ => 0);
    }

    method Out(at: nat) returns (r: nat)
      modifies `outAt
      ensures View() == RaiseOut(old(View()), at)
      ensures r == outAt
    {
      if at != 0 && at > outAt {
        outAt := at;
        if order == 2 {
          if outAt % 2 != 0 { outAt := (outAt + 1) % U32; }
        } else {
          if outAt % 2 == 0 { outAt := (outAt + 1) % U32; }
        }
      }
      r := outAt;
    }

    method In(at: nat) returns (r: nat)
      modifies `inAt
      ensures View() == AcceptIn(old(View()), at)
      ensures r == inAt
    {
      if at != 0 && at > inAt && at >= outAt && ((at % 2) + 1 == order || at == outAt) {
        inAt := at;
      }
      r := inAt;
    }

    /** A different ephemeral key resets the incoming channel-id check. */
    method Sync(peerEid: seq<nat>)
      modifies `outAt, `eid, `last
      ensures View() == SyncOut(old(View()))
      ensures eid == peerEid
      ensures last == if old(eid) == peerEid then old(last) else 0
    {
      if inAt > outAt { outAt := inAt; }
      if peerEid != eid {
        eid := peerEid;
        last := 0;
      }
    }

    method NewId() returns (c: nat)
      modifies `cid
      ensures c == old(cid)
      ensures IdView() == NextId(old(IdView()))
    {
      c := cid;
      cid := (cid + 2) % U32;
    }

    method CheckId(c: nat) returns (ok: bool)
      modifies `last
      ensures ok == IdAcceptable(old(IdView()), c)
      ensures IdView() == if ok then old(IdView()).(last := c) else old(IdView())
    {
      if c == 0 || c <= last || c % 2 == cid % 2 { return false; }
      last := c;
      ok := true;
    }
  }
}
