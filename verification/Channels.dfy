/**
 Channel ids over whole runs of one link (src/link.c, src/e3x/exchange.c): which ids
 the two sides hand out, which incoming ids are taken, and what is on the channel list.
 */
module ChannelIds {
  import opened Common
  import opened Exchanges
  import opened Links

  /** A side of the link with its history: ids handed out, and ids accepted since the last new ephemeral key. */
  datatype Side = Side(ids: Ids, chans: seq<nat>, given: seq<nat>, taken: seq<nat>)

  datatype Event =
    | Open                                                                        // link_chan
    | Direct                                                                      // link_direct
    | Incoming(c: nat, typed: bool, handled: bool, finished: set<nat>)            // link_receive
    | Tick(finished: set<nat>)                                                    // link_process
    | NewEphemeral                                                                // e3x_exchange_sync

  function Fresh(order: nat): Side {
    Side(Ids(order, 0), [], [], [])
  }

  /** Ids are handed out until the 32-bit counter would wrap. */
  predicate Enabled(s: Side, ev: Event) {
    ev.Open? || ev.Direct? ==> s.ids.cid + 2 < U32
  }

  function Step(s: Side, ev: Event): Side {
    match ev
    case Open =>
      s.(ids := NextId(s.ids), given := [s.ids.cid] + s.given,
         chans := if s.ids.cid == 0 then s.chans else [s.ids.cid] + s.chans)
    case Direct => s.(ids := NextId(s.ids), given := [s.ids.cid] + s.given)
    case Incoming(c, typed, handled, finished) =>
      if c != 0 && c in s.chans then s.(chans := Remaining(s.chans, finished))
      else if typed && IdAcceptable(s.ids, c) then
        s.(ids := s.ids.(last := c), taken := [c] + s.taken, chans := if handled then [c] + s.chans else s.chans)
      else s
    case Tick(finished) => s.(chans := Remaining(s.chans, finished))
    case NewEphemeral => s.(ids := s.ids.(last := 0), taken := [])
  }

  predicate IsRun(s: Side, evs: seq<Event>)
    decreases |evs|
  {
    evs == [] || (Enabled(s, evs[0]) && IsRun(Step(s, evs[0]), evs[1..]))
  }

  function Final(s: Side, evs: seq<Event>): Side
    decreases |evs|
  {
    if evs == [] then s else Final(Step(s, evs[0]), evs[1..])
  }

  predicate Distinct(q: seq<nat>) {
    forall i, j :: 0 <= i < j < |q| ==> q[i] != q[j]
  }

  /** Newest first, strictly below the one before. */
  predicate Descending(q: seq<nat>) {
    forall i, j :: 0 <= i < j < |q| ==> q[i] > q[j]
  }

  predicate Valid(s: Side, order: nat) {
    && order in {1, 2}
    && 0 < s.ids.cid && s.ids.cid % 2 == order % 2
    && Distinct(s.chans)
    && (forall c :: c in s.chans ==> c != 0 && (c % 2 == order % 2 ==> c < s.ids.cid))
    && Descending(s.given)
    && (forall c :: c in s.given ==> 0 < c < s.ids.cid && c % 2 == order % 2)
    && Descending(s.taken)
    && (forall c :: c in s.taken ==> 0 < c <= s.ids.last && c % 2 != order % 2)
  }

  lemma {:induction false} RemainingIsPart(chans: seq<nat>, finished: set<nat>)
    ensures forall c :: c in Remaining(chans, finished) <==> c in chans && c !in finished
    ensures Distinct(chans) ==> Distinct(Remaining(chans, finished))
  {
    if chans != [] {
      RemainingIsPart(chans[1..], finished);
      assert chans == [chans[0]] + chans[1..];
    }
  }

  lemma PrependDescending(c: nat, q: seq<nat>)
    requires Descending(q) && forall x :: x in q ==> x < c
    ensures Descending([c] + q)
  {
    assert forall i :: 0 <= i < |q| ==> q[i] in q;
  }

  lemma PrependDistinct(c: nat, q: seq<nat>)
    requires Distinct(q) && c !in q
    ensures Distinct([c] + q)
  {
  }

  lemma StepKeepsValid(s: Side, order: nat, ev: Event)
    requires Valid(s, order) && Enabled(s, ev)
    ensures Valid(Step(s, ev), order)
  {
    match ev
    case Open =>
      PrependDescending(s.ids.cid, s.given);
      PrependDistinct(s.ids.cid, s.chans);
    case Direct => PrependDescending(s.ids.cid, s.given);
    case Incoming(c, typed, handled, finished) =>
      RemainingIsPart(s.chans, finished);
      if typed && IdAcceptable(s.ids, c) {
        PrependDescending(c, s.taken);
        if c !in s.chans { PrependDistinct(c, s.chans); }
      }
    case Tick(finished) => RemainingIsPart(s.chans, finished);
    case NewEphemeral =>
  }

  lemma {:induction false} RunKeepsValid(s: Side, order: nat, evs: seq<Event>)
    requires Valid(s, order) && IsRun(s, evs)
    ensures Valid(Final(s, evs), order)
    decreases |evs|
  {
    if evs != [] {
      StepKeepsValid(s, order, evs[0]);
      RunKeepsValid(Step(s, evs[0]), order, evs[1..]);
    }
  }

  /** Ids handed out in a row, newest first. */
  ghost predicate Counts(given: seq<nat>, from: nat) {
    forall k :: 0 <= k < |given| ==> given[|given| - 1 - k] == from + 2 * k
  }

  lemma {:induction false} IdsCountUp(s: Side, from: nat, evs: seq<Event>)
    requires IsRun(s, evs) && Counts(s.given, from) && s.ids.cid == from + 2 * |s.given|
    ensures Counts(Final(s, evs).given, from)
    decreases |evs|
  {
    if evs != [] {
      var s1 := Step(s, evs[0]);
      if evs[0].Open? || evs[0].Direct? { OneMoreId(s.given, from); }
      assert Counts(s1.given, from) && s1.ids.cid == from + 2 * |s1.given|;
      IdsCountUp(s1, from, evs[1..]);
    }
  }

  lemma OneMoreId(given: seq<nat>, from: nat)
    requires Counts(given, from)
    ensures Counts([from + 2 * |given|] + given, from)
  {
    var more := [from + 2 * |given|] + given;
    forall k | 0 <= k < |more| ensures more[|more| - 1 - k] == from + 2 * k {
      if k < |given| { assert more[|more| - 1 - k] == given[|given| - 1 - k]; }
    }
  }

  /** Whose key sorts first hands out 2, 4, 6 and so on; the other side 1, 3, 5. */
  lemma FirstKeyCountsFromTwo(self: seq<nat>, peer: seq<nat>, i: nat, evs: seq<Event>, evs': seq<Event>)
    requires |self| == |peer| && i < |self| && self[..i] == peer[..i] && self[i] < peer[i]
    requires IsRun(Fresh(KeyOrder(self, peer)), evs) && IsRun(Fresh(KeyOrder(peer, self)), evs')
    ensures var g := Final(Fresh(KeyOrder(self, peer)), evs).given;
            forall k :: 0 <= k < |g| ==> g[|g| - 1 - k] == 2 + 2 * k
    ensures var g := Final(Fresh(KeyOrder(peer, self)), evs').given;
            forall k :: 0 <= k < |g| ==> g[|g| - 1 - k] == 1 + 2 * k
  {
    hide KeyOrder, Final, IsRun;
    LesserKeyHasOrderTwo(self, peer, i);
    IdsCountUp(Fresh(2), 2, evs);
    IdsCountUp(Fresh(1), 1, evs');
  }

  /** The two sides never hand out the same id, and neither ever accepts an id of its own. */
  lemma SidesNeverCollide(keyA: seq<nat>, keyB: seq<nat>, evsA: seq<Event>, evsB: seq<Event>)
    requires |keyA| == |keyB| && keyA != keyB
    requires IsRun(Fresh(KeyOrder(keyA, keyB)), evsA) && IsRun(Fresh(KeyOrder(keyB, keyA)), evsB)
    ensures var a := Final(Fresh(KeyOrder(keyA, keyB)), evsA);
            var b := Final(Fresh(KeyOrder(keyB, keyA)), evsB);
            && Distinct(a.given + b.given)
            && (forall c :: IdAcceptable(a.ids, c) ==> c !in a.given)
            && (forall c :: c in a.taken ==> c !in a.given)
            && (forall c :: c in b.given && c > a.ids.last ==> IdAcceptable(a.ids, c))
  {
    hide KeyOrder, Final, IsRun;
    KeyOrdersAreOpposite(keyA, keyB);
    var oa, ob := KeyOrder(keyA, keyB), KeyOrder(keyB, keyA);
    assert oa in {1, 2} && ob in {1, 2} && 1 in {oa, ob} && 2 in {oa, ob};
    assert Valid(Fresh(oa), oa) && Valid(Fresh(ob), ob);
    RunKeepsValid(Fresh(oa), oa, evsA);
    RunKeepsValid(Fresh(ob), ob, evsB);
    var a, b := Final(Fresh(oa), evsA), Final(Fresh(ob), evsB);
    forall i, j | 0 <= i < j < |a.given + b.given|
      ensures (a.given + b.given)[i] != (a.given + b.given)[j]
    {
      if i < |a.given| <= j {
        assert a.given[i] in a.given && b.given[j - |a.given|] in b.given;
      }
    }
  }

  /** At every point of every run the ids on the channel list are pairwise distinct, and none is 0. */
  lemma ListedIdsAreDistinct(keyA: seq<nat>, keyB: seq<nat>, evs: seq<Event>)
    requires |keyA| == |keyB| && keyA != keyB && IsRun(Fresh(KeyOrder(keyA, keyB)), evs)
    ensures var a := Final(Fresh(KeyOrder(keyA, keyB)), evs);
            Distinct(a.chans) && 0 !in a.chans
  {
    hide KeyOrder, Final, IsRun;
    KeyOrdersAreOpposite(keyA, keyB);
    var oa := KeyOrder(keyA, keyB);
    assert oa in {oa, KeyOrder(keyB, keyA)};
    RunKeepsValid(Fresh(oa), oa, evs);
  }

  /** Between two ephemeral keys an incoming id is accepted at most once: accepted ids only grow. */
  lemma AcceptedAtMostOnce(keyA: seq<nat>, keyB: seq<nat>, evs: seq<Event>, c: nat, handled: bool)
    requires |keyA| == |keyB| && keyA != keyB && IsRun(Fresh(KeyOrder(keyA, keyB)), evs)
    ensures var a := Final(Fresh(KeyOrder(keyA, keyB)), evs);
            Descending(a.taken) && (c in a.taken ==> Step(a, Incoming(c, true, handled, {})).taken == a.taken)
  {
    hide KeyOrder, Final, IsRun;
    KeyOrdersAreOpposite(keyA, keyB);
    var oa := KeyOrder(keyA, keyB);
    assert oa in {oa, KeyOrder(keyB, keyA)};
    RunKeepsValid(Fresh(oa), oa, evs);
  }
}
