/**
 The link object of src/link.c around one exchange: handshakes in and out, and the
 list of open channels.  Delivery over the network is the out-parameter `sent`.
 */
module Links {
  import opened Common
  import opened Exchanges

  class Link {
    var x: Exchange?
    var pipe: bool         // is a send callback installed?
    var chans: seq<nat>    // ids of the channels on the list, newest first

    constructor ()
      ensures x == null && !pipe && chans == []
    {
      x := null;
      pipe := false;
      chans := [];
    }

    function Sends(e: Endpoint): Option<nat>
      reads this
    {
      if pipe then Handshake(e) else None
    }

    /** link_load: idempotent; a new exchange starts from the clock. */
    method Load(selfKey: seq<nat>, peerKey: seq<nat>, now: nat)
      requires |selfKey| == |peerKey|
      modifies `x
      ensures x != null
      ensures old(x) != null ==> x == old(x)
      ensures old(x) == null ==> fresh(x) && x.View() == LoadEndpoint(KeyOrder(selfKey, peerKey), now)
                                 && x.IdView() == Ids(KeyOrder(selfKey, peerKey), 0)
                                 && x.eid == seq(16, _ => 0)
    {
      if x == null {
        var fresh' := new Exchange(selfKey, peerKey);
        var out := fresh'.Out(now);
        x := fresh';
      }
    }

    /** link_sync: send the current handshake. */
    method Sync() returns (sent: Option<nat>)
      ensures sent == if x == null then None else Sends(x.View())
    {
      if x == null || !pipe || x.outAt == 0 { return None; }
      sent := Some(x.outAt);
    }

    /** link_resync: force a higher timestamp, then send it. */
    method Resync() returns (sent: Option<nat>)
      modifies x
      ensures x == null ==> sent == None
      ensures x != null ==> x.View() == RaiseOut(old(x.View()), (old(x.outAt) + 1) % U32)
                            && sent == Sends(x.View())
                            && x.IdView() == old(x.IdView()) && x.eid == old(x.eid)
    {
      if x == null { return None; }
      var out := x.Out(0);
      out := x.Out((out + 1) % U32);
      sent := Sync();
    }

    /** link_receive_handshake, for a handshake already verified as authentic. */
    method ReceiveHandshake(selfKey: seq<nat>, peerKey: seq<nat>, now: nat, at: nat, eid: seq<nat>)
      returns (sent: Option<nat>)
      requires |selfKey| == |peerKey|
      modifies `x, x
      ensures x != null && (x == old(x) || (old(x) == null && fresh(x)))
      ensures var e := if old(x) == null then LoadEndpoint(KeyOrder(selfKey, peerKey), now) else old(x.View());
              && x.View() == Receive(e, at).0
              && sent == (if pipe then Receive(e, at).1 else None)
      ensures old(x) != null ==>
                && x.cid == old(x.cid)
                && x.last == if AcceptIn(old(x.View()), at).inAt >= old(x.outAt) && eid != old(x.eid)
                             then 0 else old(x.last)
      ensures pipe == old(pipe) && chans == old(chans)
    {
      Load(selfKey, peerKey, now);
      var out := x.Out(0);
      var in' := x.In(at);
      if in' < out {
        sent := Sync();
        return;
      }
      x.Sync(eid);
      var out' := x.Out(0);
      sent := None;
      if out != out' {
        sent := Sync();
      }
    }

    /**
     link_chan: the id in the open packet, or a fresh one if there is none (given as 0), goes to the head
     of the list; a channel without id or type is not made.
     */
    method Open(given: nat, typed: bool) returns (made: bool)
      requires x != null
      modifies `chans, x`cid
      ensures x.IdView() == if given == 0 then NextId(old(x.IdView())) else old(x.IdView())
      ensures var id := if given == 0 then old(x.cid) else given;
              made == (id != 0 && typed) && chans == if made then [id] + old(chans) else old(chans)
    {
      var id := given;
      if id == 0 { id := x.NewId(); }
      if id == 0 || !typed { return false; }
      chans := [id] + chans;
      made := true;
    }

    /**
     link_receive for a decrypted packet with channel id c.  `finished` are the channels that
     chan_process ends, `typed` says whether the packet has a type, and `handled` whether
     a listener takes the open and tracks it with link_chan.
     */
    method ReceiveChannel(c: nat, typed: bool, handled: bool, finished: set<nat>) returns (accepted: bool)
      requires x != null
      modifies `chans, x`last
      ensures accepted <==> c !in old(chans) && typed && IdAcceptable(old(x.IdView()), c)
      ensures x.IdView() == if accepted then old(x.IdView()).(last := c) else old(x.IdView())
      ensures chans == if c != 0 && c in old(chans) then Remaining(old(chans), finished)
                       else if accepted && handled then [c] + old(chans)
                       else old(chans)
    {
      var found := HasChannel(c);
      if found {
        chans := Process(chans, finished);
        return false;
      }
      if !typed { return false; }
      accepted := x.CheckId(c);
      if accepted && handled { chans := [c] + chans; }
    }

    /** link_chan_get */
    method HasChannel(c: nat) returns (found: bool)
      ensures found <==> c != 0 && c in chans
    {
      if c == 0 { return false; }
      for i := 0 to |chans|
        invariant c !in chans[..i]
      {
        if chans[i] == c { return true; }
      }
      found := false;
    }
  }

  function Remaining(chans: seq<nat>, finished: set<nat>): seq<nat> {
    if chans == [] then []
    else (if chans[0] in finished then [] else [chans[0]]) + Remaining(chans[1..], finished)
  }

  /** link_process_chan: recursive, dropping the channels that ended. */
  method Process(chans: seq<nat>, finished: set<nat>) returns (r: seq<nat>)
    ensures r == Remaining(chans, finished)
  {
    if chans == [] { return []; }
    var next := Process(chans[1..], finished);
    r := if chans[0] in finished then next else [chans[0]] + next;
  }
}
