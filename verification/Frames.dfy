/**
 Length-prefixed frames (src/util/frames.c): every packet travels as an eight byte header,
 magic and length, followed by its bytes.
 */
module Frames {
  import opened Common
  import opened Words

  type Packet = seq<nat>
  type Queue = seq<Option<Packet>>

  // ----- bytes on the wire -----

  function Bytes4(n: nat): (b: seq<nat>)
    ensures |b| == 4
  {
    [n % 256, (n / 256) % 256, (n / 65536) % 256, (n / 16777216) % 256]
  }

  function Value4(b: seq<nat>): nat
    requires |b| == 4
  {
    b[0] + 256 * b[1] + 65536 * b[2] + 16777216 * b[3]
  }

  lemma Bytes4RoundTrip(n: nat)
    requires n < 0x1_0000_0000
    ensures Value4(Bytes4(n)) == n
  {
    var a := n / 256;
    var b := a / 256;
    assert n / 65536 == b && n / 16777216 == b / 256;
    assert n == 256 * a + n % 256 && a == 256 * b + a % 256 && b == 256 * (b / 256) + b % 256;
  }

  function Header(magic: nat, length: nat): (h: seq<nat>)
    ensures |h| == 8
  {
    Bytes4(magic) + Bytes4(length)
  }

  /** Header fields are little-endian 32-bit numbers, magic first, as both sides copy them. */
  lemma HeaderIsLittleEndian(magic: nat, length: nat, b: seq<nat>)
    requires magic < 0x1_0000_0000 && length < 0x1_0000_0000 && |b| == 4
    ensures Val(256, Header(magic, length)[..4]) == magic && Val(256, Header(magic, length)[4..]) == length
    ensures AreWords(256, Header(magic, length))
    ensures Value4(b) == Val(256, b)
  {
    hide Val, Bytes4, Value4;
    var h := Header(magic, length);
    assert h[..4] == Bytes4(magic) && h[4..] == Bytes4(length);
    FourBytes(Bytes4(magic));
    FourBytes(Bytes4(length));
    FourBytes(b);
    Bytes4RoundTrip(magic);
    Bytes4RoundTrip(length);
    BytesAreWords(magic);
    BytesAreWords(length);
  }

  lemma BytesAreWords(n: nat)
    ensures AreWords(256, Bytes4(n))
  {
  }

  lemma FourBytes(b: seq<nat>)
    requires |b| == 4
    ensures Val(256, b) == Value4(b)
  {
    hide Val;
    ValEmpty(256);
    ValCons(256, b[3], []);
    ValCons(256, b[2], [b[3]]);
    ValCons(256, b[1], [b[2], b[3]]);
    ValCons(256, b[0], [b[1], b[2], b[3]]);
    assert [b[3]] + [] == [b[3]] && [b[2]] + [b[3]] == [b[2], b[3]];
    assert [b[1]] + [b[2], b[3]] == [b[1], b[2], b[3]] && [b[0]] + [b[1], b[2], b[3]] == b;
  }

  function Frame(magic: nat, p: Packet): (f: seq<nat>)
    ensures |f| == 8 + |p|
  {
    Header(magic, |p|) + p
  }

  function Stream(magic: nat, ps: seq<Packet>): seq<nat> {
    if ps == [] then [] else Frame(magic, ps[0]) + Stream(magic, ps[1..])
  }

  lemma {:induction false} StreamAppend(magic: nat, ps: seq<Packet>, p: Packet)
    ensures Stream(magic, ps + [p]) == Stream(magic, ps) + Frame(magic, p)
  {
    hide Frame;
    if ps == [] {
      assert ps + [p] == [p] && [p][1..] == [];
    } else {
      assert (ps + [p])[0] == ps[0] && (ps + [p])[1..] == ps[1..] + [p];
      StreamAppend(magic, ps[1..], p);
    }
  }

  // ----- queues: taken packets leave an empty node behind -----

  function Live(q: Queue): seq<Packet> {
    if q == [] then [] else (if q[0].Some? then [q[0].value] else []) + Live(q[1..])
  }

  function DropEmpty(q: Queue): (r: Queue)
    ensures r == [] || r[0].Some?
  {
    if q != [] && q[0].None? then DropEmpty(q[1..]) else q
  }

  /** Where the first packet is, or the length of the queue. */
  function FirstLive(q: Queue): (i: nat)
    ensures i <= |q| && (i < |q| ==> q[i].Some?)
  {
    if q == [] || q[0].Some? then 0 else 1 + FirstLive(q[1..])
  }

  lemma {:induction false} LiveAppend(q: Queue, x: Option<Packet>)
    ensures Live(q + [x]) == Live(q) + if x.Some? then [x.value] else []
  {
    if q == [] {
      assert q + [x] == [x] && [x][1..] == [];
    } else {
      assert (q + [x])[0] == q[0] && (q + [x])[1..] == q[1..] + [x];
      LiveAppend(q[1..], x);
    }
  }

  lemma {:induction false} LiveDropEmpty(q: Queue)
    ensures Live(DropEmpty(q)) == Live(q)
  {
    if q != [] && q[0].None? { LiveDropEmpty(q[1..]); }
  }

  /** Taking the first packet out of its node takes the first of the queue. */
  lemma {:induction false} LiveTake(q: Queue)
    ensures var i := FirstLive(q);
            if i < |q| then Live(q) == [q[i].value] + Live(q[i := None]) else Live(q) == []
  {
    if q != [] {
      var i := FirstLive(q);
      if q[0].Some? {
        assert q[0 := None][1..] == q[1..];
      } else {
        LiveTake(q[1..]);
        if i < |q| { assert q[i := None][1..] == q[1..][i - 1 := None]; }
      }
    }
  }

  // ----- the sender -----

  /** `out` is the piece being written: a header or a whole packet. */
  datatype Sender = Sender(box: Queue, out: seq<nat>)

  /** util_frames_send: packets under eight bytes are refused. */
  function Queued(s: Sender, p: Packet): Sender {
    if |p| < 8 then s else s.(box := s.box + [Some(p)])
  }

  /** util_frames_outbox: the header of the next packet if nothing is being written. */
  function Loaded(magic: nat, s: Sender): Sender {
    if s.out != [] then s
    else
      var box := DropEmpty(s.box);
      if box == [] then Sender([], []) else Sender(box, Header(magic, |box[0].value|))
  }

  /** util_frames_sent: eight bytes written are taken for the header. */
  function Advanced(s: Sender): Sender {
    if s.out == [] || s.box == [] || s.box[0].None? then s
    else if |s.out| == 8 then s.(out := s.box[0].value)
    else Sender(s.box[0 := None], [])
  }

  /** All queued packets are at least nine bytes, and `out` is a piece of the first. */
  ghost predicate SenderOk(magic: nat, s: Sender) {
    && (forall x :: x in s.box && x.Some? ==> |x.value| > 8)
    && (s.out != [] ==>
          && s.box != [] && s.box[0].Some?
          && (s.out == Header(magic, |s.box[0].value|) || s.out == s.box[0].value))
  }

  /** The bytes that are still to be written. */
  ghost function Remaining(magic: nat, s: Sender): seq<nat> {
    if s.out == [] || s.box == [] || s.box[0].None? then Stream(magic, Live(s.box))
    else (if |s.out| == 8 then s.out + s.box[0].value else s.out) + Stream(magic, Live(s.box[1..]))
  }

  lemma StreamOfQueue(magic: nat, q: Queue, p: Packet)
    ensures Stream(magic, Live(q + [Some(p)])) == Stream(magic, Live(q)) + Frame(magic, p)
  {
    LiveAppend(q, Some(p));
    StreamAppend(magic, Live(q), p);
  }

  lemma QueuedRemains(magic: nat, s: Sender, p: Packet)
    requires SenderOk(magic, s) && |p| != 8
    ensures SenderOk(magic, Queued(s, p))
    ensures Remaining(magic, Queued(s, p)) == Remaining(magic, s) + if |p| < 8 then [] else Frame(magic, p)
  {
    hide Frame, Header, Stream, Live;
    if |p| >= 8 {
      StreamOfQueue(magic, s.box, p);
      if s.out != [] {
        assert (s.box + [Some(p)])[1..] == s.box[1..] + [Some(p)];
        StreamOfQueue(magic, s.box[1..], p);
      }
    } else {
      assert Remaining(magic, s) + [] == Remaining(magic, s);
    }
  }

  lemma LoadedRemains(magic: nat, s: Sender)
    requires SenderOk(magic, s)
    ensures var t := Loaded(magic, s);
            && SenderOk(magic, t) && Remaining(magic, t) == Remaining(magic, s)
            && t.out <= Remaining(magic, s) && (t.out == [] <==> Remaining(magic, s) == [])
  {
    hide Header, Stream, Live, DropEmpty;
    if s.out == [] {
      NoPackets(magic);
      LiveDropEmpty(s.box);
      DropKeeps(s.box);
      var box := DropEmpty(s.box);
      if box != [] {
        LiveHead(magic, box);
      }
    }
  }

  lemma NoPackets(magic: nat)
    ensures Stream(magic, []) == [] && Live([]) == [] && DropEmpty([]) == []
  {
  }

  lemma LiveHead(magic: nat, box: Queue)
    requires box != [] && box[0].Some?
    ensures var p := box[0].value; Stream(magic, Live(box)) == Header(magic, |p|) + p + Stream(magic, Live(box[1..]))
  {
    hide Header;
    var p := box[0].value;
    assert Live(box) == [p] + Live(box[1..]);
    assert ([p] + Live(box[1..]))[1..] == Live(box[1..]);
  }

  lemma {:induction false} DropKeeps(q: Queue)
    ensures forall x :: x in DropEmpty(q) ==> x in q
  {
    if q != [] && q[0].None? { DropKeeps(q[1..]); }
  }

  /** What is marked as sent is exactly what was at the front. */
  lemma AdvancedRemains(magic: nat, s: Sender)
    requires SenderOk(magic, s)
    ensures SenderOk(magic, Advanced(s)) && Remaining(magic, s) == s.out + Remaining(magic, Advanced(s))
  {
    hide Header, Stream;
    if s.out == [] {
      assert Advanced(s) == s;
    } else {
      var box := s.box[0 := None];
      assert box[1..] == s.box[1..];
      assert Live(box) == Live(s.box[1..]);
    }
  }

  datatype SenderEvent = Send(p: Packet) | Write

  datatype SenderRun = SenderRun(s: Sender, written: seq<nat>, sent: seq<Packet>)

  /** Write: fetch the piece to write, write all of it, mark it sent. */
  function RunSender(magic: nat, es: seq<SenderEvent>): SenderRun {
    if es == [] then SenderRun(Sender([], []), [], [])
    else
      var r := RunSender(magic, es[..|es| - 1]);
      match es[|es| - 1]
      case Send(p) => SenderRun(Queued(r.s, p), r.written, if |p| < 8 then r.sent else r.sent + [p])
      case Write =>
        var s := Loaded(magic, r.s);
        SenderRun(Advanced(s), r.written + s.out, r.sent)
  }

  /** Over every run: what was written and what remains is the stream of the packets sent, in order. */
  lemma {:induction false} WritesTheStream(magic: nat, es: seq<SenderEvent>)
    requires forall i :: 0 <= i < |es| && es[i].Send? ==> |es[i].p| != 8
    ensures var r := RunSender(magic, es);
            SenderOk(magic, r.s) && r.written + Remaining(magic, r.s) == Stream(magic, r.sent)
  {
    hide SenderOk, Remaining, Loaded, Advanced, Queued, Frame;
    if es == [] {
      NothingQueued(magic);
    } else {
      var before := es[..|es| - 1];
      WritesTheStream(magic, before);
      var r := RunSender(magic, before);
      match es[|es| - 1]
      case Send(p) =>
        QueuedRemains(magic, r.s, p);
        StreamAppend(magic, r.sent, p);
        if |p| >= 8 {
          assert r.written + (Remaining(magic, r.s) + Frame(magic, p))
              == (r.written + Remaining(magic, r.s)) + Frame(magic, p);
        } else {
          assert Remaining(magic, r.s) + [] == Remaining(magic, r.s);
        }
      case Write =>
        LoadedRemains(magic, r.s);
        var s := Loaded(magic, r.s);
        AdvancedRemains(magic, s);
        assert (r.written + s.out) + Remaining(magic, Advanced(s))
            == r.written + (s.out + Remaining(magic, Advanced(s)));
    }
  }

  lemma NothingQueued(magic: nat)
    ensures SenderOk(magic, Sender([], [])) && Remaining(magic, Sender([], [])) == []
  {
  }

  /** A packet leaves the sender after its header and its bytes exactly when it is not eight bytes long. */
  lemma LeavesUnlessEight(magic: nat, p: Packet, rest: Queue)
    requires |p| >= 8
    ensures var s := Loaded(magic, Sender([Some(p)] + rest, []));
            Advanced(Advanced(s)) == if |p| != 8 then Sender([None] + rest, []) else Sender([Some(p)] + rest, p)
    ensures |p| == 8 ==> Advanced(Sender([Some(p)] + rest, p)) == Sender([Some(p)] + rest, p)
  {
    hide Header;
    var box := [Some(p)] + rest;
    assert DropEmpty(box) == box;
    assert box[0 := None] == [None] + rest;
  }

  // ----- the receiver -----

  /** `accepts` says which byte strings parse as packets; the others leave an empty node. */
  datatype Config = Config(magic: nat, max: nat, accepts: Packet -> bool)

  datatype Receiver = Receiver(inLen: nat, buf: seq<nat>, box: Queue, err: bool)

  predicate ReceiverOk(r: Receiver) {
    if r.inLen == 0 then r.buf == [] else |r.buf| < r.inLen
  }

  /** A header has been gathered, and is read from the bytes of this call. */
  function TakeHeader(c: Config, r: Receiver, head: seq<nat>): (t: Receiver)
    requires |head| == 8
    ensures ReceiverOk(t)
  {
    var magic, length := Value4(head[..4]), Value4(head[4..]);
    if magic != c.magic || length > c.max then Receiver(0, [], r.box, true)
    else Receiver(length, [], r.box, false)
  }

  function TakePacket(c: Config, r: Receiver, p: Packet): (t: Receiver)
    ensures ReceiverOk(t)
  {
    Receiver(0, [], DropEmpty(r.box) + [if c.accepts(p) then Some(p) else None], r.err)
  }

  /** util_frames_inbox; `beyond` is whatever lies in memory behind the data. */
  function Fed(c: Config, r: Receiver, data: seq<nat>, beyond: seq<nat>): (t: Receiver)
    requires ReceiverOk(r) && |beyond| >= 8
    ensures ReceiverOk(t)
    decreases |data|
  {
    if data == [] then r
    else
      var inLen := if r.inLen == 0 then 8 else r.inLen;
      var await := inLen - |r.buf|;
      if |data| < await then r.(inLen := inLen, buf := r.buf + data)
      else if inLen == 8 then
        var t := TakeHeader(c, r, (data + beyond)[..8]);
        if t.err then t else Fed(c, t, data[await..], beyond)
      else
        Fed(c, TakePacket(c, r, r.buf + data[..await]), data[await..], beyond)
  }

  lemma FedHead(c: Config, r: Receiver, data: seq<nat>, beyond: seq<nat>)
    requires ReceiverOk(r) && |beyond| >= 8 && (r.inLen == 0 || r.inLen == 8) && data != [] && |data| >= 8 - |r.buf|
    ensures var t := TakeHeader(c, r, (data + beyond)[..8]);
            Fed(c, r, data, beyond) == if t.err then t else Fed(c, t, data[8 - |r.buf|..], beyond)
  {
    hide TakeHeader, TakePacket;
  }

  lemma FedBody(c: Config, r: Receiver, data: seq<nat>, beyond: seq<nat>)
    requires ReceiverOk(r) && |beyond| >= 8 && r.inLen != 0 && r.inLen != 8 && |data| >= r.inLen - |r.buf|
    ensures var await := r.inLen - |r.buf|;
            Fed(c, r, data, beyond) == Fed(c, TakePacket(c, r, r.buf + data[..await]), data[await..], beyond)
  {
    hide TakeHeader, TakePacket;
  }

  lemma FedPart(c: Config, r: Receiver, data: seq<nat>, beyond: seq<nat>)
    requires ReceiverOk(r) && |beyond| >= 8 && r.inLen != 0 && |data| < r.inLen - |r.buf|
    ensures Fed(c, r, data, beyond) == r.(buf := r.buf + data)
  {
    hide TakeHeader, TakePacket;
    assert data == [] ==> r.buf + data == r.buf;
  }

  // ----- positions in a stream of frames -----

  ghost predicate Sendable(c: Config, ps: seq<Packet>) {
    c.magic < 0x1_0000_0000 && c.max < 0x1_0000_0000 && forall i :: 0 <= i < |ps| ==> 8 < |ps[i]| <= c.max
  }

  /** How many packets are complete after n bytes, and how far into the next frame that is. */
  function Done(ps: seq<Packet>, n: nat): (k: nat)
    ensures k <= |ps|
  {
    if ps == [] || n < 8 + |ps[0]| then 0 else 1 + Done(ps[1..], n - 8 - |ps[0]|)
  }

  function Offset(ps: seq<Packet>, n: nat): nat {
    if ps == [] || n < 8 + |ps[0]| then n else Offset(ps[1..], n - 8 - |ps[0]|)
  }

  /** A call may end here: not inside a header. */
  predicate Safe(ps: seq<Packet>, n: nat) {
    var k := Offset(ps, n);
    k == 0 || 8 <= k
  }

  /** The receiver stands n bytes into the first of the frames. */
  ghost predicate At(r: Receiver, ps: seq<Packet>, n: nat) {
    if n == 0 then r.buf == [] && (r.inLen == 0 || r.inLen == 8)
    else ps != [] && 8 <= n < 8 + |ps[0]| && r.inLen == |ps[0]| && r.buf == ps[0][..n - 8]
  }

  function Accepted(c: Config, ps: seq<Packet>): seq<Packet> {
    if ps == [] then [] else (if c.accepts(ps[0]) then [ps[0]] else []) + Accepted(c, ps[1..])
  }

  lemma HeaderIsRead(c: Config, r: Receiver, p: Packet)
    requires c.magic < 0x1_0000_0000 && |p| <= c.max < 0x1_0000_0000
    ensures TakeHeader(c, r, Header(c.magic, |p|)) == Receiver(|p|, [], r.box, false)
  {
    hide Bytes4, Value4;
    var h := Header(c.magic, |p|);
    assert h[..4] == Bytes4(c.magic) && h[4..] == Bytes4(|p|);
    Bytes4RoundTrip(c.magic);
    Bytes4RoundTrip(|p|);
  }

  lemma FirstFits(c: Config, ps: seq<Packet>)
    requires Sendable(c, ps) && ps != []
    ensures c.magic < 0x1_0000_0000 && 8 < |ps[0]| <= c.max < 0x1_0000_0000
  {
  }

  lemma AtEnds(r: Receiver, ps: seq<Packet>)
    requires ps != [] && ps[0] != []
    ensures At(r, ps, 0) ==> r.buf == [] && (r.inLen == 0 || r.inLen == 8)
    ensures At(Receiver(|ps[0]|, [], r.box, false), ps, 8)
  {
    assert ps[0][..0] == [];
  }

  /** At a frame boundary: a whole header is there. */
  lemma FedHeader(c: Config, r: Receiver, ps: seq<Packet>, data: seq<nat>, beyond: seq<nat>)
    requires |beyond| >= 8 && r.buf == [] && (r.inLen == 0 || r.inLen == 8)
    requires ps != [] && ps[0] != [] && c.magic < 0x1_0000_0000 && |ps[0]| <= c.max < 0x1_0000_0000
    requires |data| >= 8 && data <= Stream(c.magic, ps)
    ensures Fed(c, r, data, beyond) == Fed(c, Receiver(|ps[0]|, [], r.box, false), data[8..], beyond)
  {
    hide Stream, Header, TakeHeader, Fed, Bytes4, Value4;
    StreamBegins(c.magic, ps, data);
    PrefixOfAppend(data, beyond, 8);
    HeaderIsRead(c, r, ps[0]);
    FedHead(c, r, data, beyond);
    assert 8 - |r.buf| == 8 && (data + beyond)[..8] == Header(c.magic, |ps[0]|);
  }

  lemma PrefixOfAppend(x: seq<nat>, y: seq<nat>, n: nat)
    requires n <= |x|
    ensures (x + y)[..n] == x[..n]
  {
  }

  lemma StreamBegins(magic: nat, ps: seq<Packet>, data: seq<nat>)
    requires ps != [] && |data| >= 8 && data <= Stream(magic, ps)
    ensures data[..8] == Header(magic, |ps[0]|)
  {
    hide Header;
    assert Stream(magic, ps)[..8] == Header(magic, |ps[0]|);
  }

  /** Inside a packet: the rest of it, or a part. */
  lemma FedPacket(c: Config, r: Receiver, ps: seq<Packet>, n: nat, data: seq<nat>, beyond: seq<nat>)
    requires ReceiverOk(r) && |beyond| >= 8 && Sendable(c, ps) && ps != [] && At(r, ps, n) && n >= 8 && data != []
    requires n <= |Stream(c.magic, ps)| && data <= Stream(c.magic, ps)[n..]
    ensures var await := 8 + |ps[0]| - n;
            if |data| < await then At(Fed(c, r, data, beyond), ps, n + |data|) && Fed(c, r, data, beyond).box == r.box
            else Fed(c, r, data, beyond) == Fed(c, TakePacket(c, r, ps[0]), data[await..], beyond)
  {
    hide Stream, Fed, TakePacket;
    StreamInside(c.magic, ps, n, data);
    if |data| < 8 + |ps[0]| - n { FedPart(c, r, data, beyond); } else { FedBody(c, r, data, beyond); }
  }

  lemma StreamInside(magic: nat, ps: seq<Packet>, n: nat, data: seq<nat>)
    requires ps != [] && 8 <= n < 8 + |ps[0]| && n <= |Stream(magic, ps)| && data <= Stream(magic, ps)[n..]
    ensures var p := ps[0];
            var await := 8 + |p| - n;
            && (|data| < await ==> p[..n - 8] + data == p[..n - 8 + |data|])
            && (|data| >= await ==> p[..n - 8] + data[..await] == p)
  {
    hide Header;
    var p, s := ps[0], Stream(magic, ps);
    assert forall i :: 8 <= i < 8 + |p| ==> s[i] == p[i - 8];
    assert forall i :: 0 <= i < |data| ==> data[i] == s[n + i];
  }

  lemma {:induction false} StreamLength(magic: nat, ps: seq<Packet>, n: nat)
    requires n <= |Stream(magic, ps)|
    ensures var k, m := Done(ps, n), Offset(ps, n);
            m <= n && (k < |ps| ==> m < 8 + |ps[k]|) && (k == |ps| ==> m == 0)
    ensures Stream(magic, ps)[n - Offset(ps, n)..] == Stream(magic, ps[Done(ps, n)..])
  {
    hide Frame;
    if ps != [] && n >= 8 + |ps[0]| {
      var m := n - 8 - |ps[0]|;
      StreamLength(magic, ps[1..], m);
      assert ps[1..][Done(ps[1..], m)..] == ps[Done(ps, n)..];
      assert Stream(magic, ps)[8 + |ps[0]|..] == Stream(magic, ps[1..]);
    } else {
      assert ps[0..] == ps;
    }
  }

  /**
   Bytes of a stream of frames, from n bytes into the first up to a safe place: the packets
   completed on the way are queued in order, and the receiver stands where the bytes end.
   */
  lemma {:induction false} FedStream(c: Config, r: Receiver, ps: seq<Packet>, n: nat, data: seq<nat>, beyond: seq<nat>)
    requires ReceiverOk(r) && |beyond| >= 8 && Sendable(c, ps) && At(r, ps, n)
    requires n <= |Stream(c.magic, ps)| && data <= Stream(c.magic, ps)[n..] && Safe(ps, n + |data|)
    ensures var t, m := Fed(c, r, data, beyond), n + |data|;
            At(t, ps[Done(ps, m)..], Offset(ps, m)) && Live(t.box) == Live(r.box) + Accepted(c, ps[..Done(ps, m)])
    decreases |data|
  {
    hide Stream, TakePacket, Fed, Live, Done, Offset, Accepted;
    if data == [] {
      FedNothing(c, r, ps, n, beyond);
    } else if n == 0 {
      WholeHeader(c.magic, ps, data);
      FirstFits(c, ps);
      AtEnds(r, ps);
      FedHeader(c, r, ps, data, beyond);
      FedStream(c, Receiver(|ps[0]|, [], r.box, false), ps, 8, data[8..], beyond);
    } else {
      FedPacket(c, r, ps, n, data, beyond);
      var await := 8 + |ps[0]| - n;
      if |data| < await {
        NoneDone(c, ps, n + |data|);
      } else {
        var t := TakePacket(c, r, ps[0]);
        Passed(c, r, ps, n, data);
        FedStream(c, t, ps[1..], 0, data[await..], beyond);
        var k := Done(ps[1..], |data| - await);
        assert ps[1..][k..] == ps[k + 1..];
        assert ps[..k + 1] == [ps[0]] + ps[1..][..k];
        AcceptedCons(c, ps[0], ps[1..][..k]);
        Associates(Live(r.box), if c.accepts(ps[0]) then [ps[0]] else [], Accepted(c, ps[1..][..k]));
      }
    }
  }

  lemma Associates(x: seq<Packet>, y: seq<Packet>, z: seq<Packet>)
    ensures (x + y) + z == x + (y + z)
  {
  }

  lemma NoneDone(c: Config, ps: seq<Packet>, n: nat)
    requires if ps == [] then n == 0 else n < 8 + |ps[0]|
    ensures Done(ps, n) == 0 && Offset(ps, n) == n && ps[0..] == ps && Accepted(c, ps[..0]) == []
  {
  }

  lemma FedNothing(c: Config, r: Receiver, ps: seq<Packet>, n: nat, beyond: seq<nat>)
    requires ReceiverOk(r) && |beyond| >= 8 && At(r, ps, n)
    ensures Fed(c, r, [], beyond) == r && Done(ps, n) == 0 && Offset(ps, n) == n && ps[0..] == ps
            && Accepted(c, ps[..0]) == []
    ensures Live(r.box) + [] == Live(r.box)
  {
  }

  lemma AcceptedCons(c: Config, p: Packet, ps: seq<Packet>)
    ensures Accepted(c, [p] + ps) == (if c.accepts(p) then [p] else []) + Accepted(c, ps)
  {
    assert ([p] + ps)[1..] == ps;
  }

  lemma WholeHeader(magic: nat, ps: seq<Packet>, data: seq<nat>)
    requires data != [] && data <= Stream(magic, ps) && Safe(ps, |data|)
    ensures ps != [] && |data| >= 8
    ensures data[8..] <= Stream(magic, ps)[8..]
  {
  }

  lemma Passed(c: Config, r: Receiver, ps: seq<Packet>, n: nat, data: seq<nat>)
    requires ps != [] && 8 <= n < 8 + |ps[0]| && n <= |Stream(c.magic, ps)| && data <= Stream(c.magic, ps)[n..]
    requires |data| >= 8 + |ps[0]| - n
    ensures var t, await := TakePacket(c, r, ps[0]), 8 + |ps[0]| - n;
            && At(t, ps[1..], 0) && ReceiverOk(t)
            && Live(t.box) == Live(r.box) + (if c.accepts(ps[0]) then [ps[0]] else [])
            && data[await..] <= Stream(c.magic, ps[1..])
            && Done(ps, n + |data|) == 1 + Done(ps[1..], |data| - await)
               && Offset(ps, n + |data|) == Offset(ps[1..], |data| - await)
  {
    hide Stream, Frame;
    LiveDropEmpty(r.box);
    LiveAppend(DropEmpty(r.box), if c.accepts(ps[0]) then Some(ps[0]) else None);
    StreamAfter(c.magic, ps, n, data);
  }

  lemma StreamAfter(magic: nat, ps: seq<Packet>, n: nat, data: seq<nat>)
    requires ps != [] && n <= 8 + |ps[0]| && n <= |Stream(magic, ps)| && data <= Stream(magic, ps)[n..]
             && |data| >= 8 + |ps[0]| - n
    ensures data[8 + |ps[0]| - n..] <= Stream(magic, ps[1..])
  {
    hide Frame;
    var end := 8 + |ps[0]|;
    var f, rest := Frame(magic, ps[0]), Stream(magic, ps[1..]);
    assert Stream(magic, ps)[n..] == f[n..] + rest;
  }

  // ----- whole runs -----

  datatype ReceiverEvent = Feed(data: seq<nat>, beyond: seq<nat>) | Take

  datatype ReceiverRun = ReceiverRun(r: Receiver, fed: seq<nat>, taken: seq<Packet>)

  /** util_frames_receive: the first packet still in its node. */
  function Taken(r: Receiver): (result: (Receiver, Option<Packet>))
    ensures ReceiverOk(r) ==> ReceiverOk(result.0)
  {
    var i := FirstLive(r.box);
    if i < |r.box| then (r.(box := r.box[i := None]), r.box[i]) else (r, None)
  }

  predicate EventOk(e: ReceiverEvent) {
    e.Feed? ==> |e.beyond| >= 8
  }

  function RunReceiver(c: Config, es: seq<ReceiverEvent>): (run: ReceiverRun)
    requires forall e :: e in es ==> EventOk(e)
    ensures ReceiverOk(run.r)
  {
    if es == [] then ReceiverRun(Receiver(0, [], [], false), [], [])
    else
      var e, run := es[|es| - 1], RunReceiver(c, es[..|es| - 1]);
      assert EventOk(e);
      match e
      case Feed(data, beyond) => run.(r := Fed(c, run.r, data, beyond), fed := run.fed + data)
      case Take =>
        var (r, p) := Taken(run.r);
        run.(r := r, taken := run.taken + if p.Some? then [p.value] else [])
  }

  /** The bytes are those of the stream, and no call ends inside a header. */
  ghost predicate Carries(c: Config, es: seq<ReceiverEvent>, ps: seq<Packet>)
    requires forall e :: e in es ==> EventOk(e)
  {
    forall i :: 0 <= i <= |es| ==> var fed := RunReceiver(c, es[..i]).fed; fed <= Stream(c.magic, ps) && Safe(ps, |fed|)
  }

  /** What has arrived and what is still expected, at a position in the stream. */
  ghost predicate Received(c: Config, run: ReceiverRun, ps: seq<Packet>) {
    var n := |run.fed|;
    && At(run.r, ps[Done(ps, n)..], Offset(ps, n))
    && run.taken + Live(run.r.box) == Accepted(c, ps[..Done(ps, n)])
  }

  lemma {:induction false} PositionsAdd(ps: seq<Packet>, n: nat, m: nat)
    ensures var rest, k := ps[Done(ps, n)..], Offset(ps, n) + m;
            Done(ps, n + m) == Done(ps, n) + Done(rest, k) && Offset(ps, n + m) == Offset(rest, k)
  {
    if ps == [] || n < 8 + |ps[0]| {
      assert ps[0..] == ps;
    } else {
      var l := n - 8 - |ps[0]|;
      PositionsAdd(ps[1..], l, m);
      assert ps[1..][Done(ps[1..], l)..] == ps[Done(ps, n)..];
    }
  }

  lemma {:induction false} AcceptedAppend(c: Config, xs: seq<Packet>, ys: seq<Packet>)
    ensures Accepted(c, xs + ys) == Accepted(c, xs) + Accepted(c, ys)
  {
    if xs == [] {
      assert xs + ys == ys;
    } else {
      assert xs + ys == [xs[0]] + (xs[1..] + ys) && xs == [xs[0]] + xs[1..];
      AcceptedAppend(c, xs[1..], ys);
      AcceptedCons(c, xs[0], xs[1..] + ys);
      AcceptedCons(c, xs[0], xs[1..]);
    }
  }

  lemma FeedArrives(c: Config, run: ReceiverRun, ps: seq<Packet>, data: seq<nat>, beyond: seq<nat>)
    requires ReceiverOk(run.r) && |beyond| >= 8 && Sendable(c, ps) && Received(c, run, ps)
    requires run.fed + data <= Stream(c.magic, ps) && Safe(ps, |run.fed + data|)
    ensures Received(c, run.(r := Fed(c, run.r, data, beyond), fed := run.fed + data), ps)
  {
    hide Stream, Fed, Live, Accepted, At, Done, Offset;
    var n := |run.fed|;
    var rest, offset := ps[Done(ps, n)..], Offset(ps, n);
    PositionsAdd(ps, n, |data|);
    RestOfStream(c.magic, ps, run.fed, data);
    FedStream(c, run.r, rest, offset, data, beyond);
    var k := Done(rest, offset + |data|);
    TakenPackets(c, ps, Done(ps, n), k);
    Associates(run.taken, Live(run.r.box), Accepted(c, rest[..k]));
    assert |run.fed + data| == n + |data|;
  }

  /** The bytes to come are those of the frames to come. */
  lemma RestOfStream(magic: nat, ps: seq<Packet>, fed: seq<nat>, data: seq<nat>)
    requires fed + data <= Stream(magic, ps)
    ensures var rest, offset := ps[Done(ps, |fed|)..], Offset(ps, |fed|);
            offset <= |Stream(magic, rest)| && data <= Stream(magic, rest)[offset..]
  {
    hide Stream, Done, Offset;
    var n, s := |fed|, Stream(magic, ps);
    StreamLength(magic, ps, n);
    var from := n - Offset(ps, n);
    assert data == s[n..n + |data|];
    assert s[from..][Offset(ps, n)..] == s[n..];
  }

  lemma TakenPackets(c: Config, ps: seq<Packet>, done: nat, k: nat)
    requires done <= |ps| && k <= |ps[done..]|
    ensures ps[done..][k..] == ps[done + k..]
    ensures Accepted(c, ps[..done + k]) == Accepted(c, ps[..done]) + Accepted(c, ps[done..][..k])
  {
    hide Accepted;
    assert ps[..done + k] == ps[..done] + ps[done..][..k];
    AcceptedAppend(c, ps[..done], ps[done..][..k]);
  }

  /**
   Over every run: the packets taken, followed by those waiting, are the acceptable ones among
   the packets whose frames are complete, each once and in order.
   */
  lemma {:induction false} PacketsArriveInOrder(c: Config, es: seq<ReceiverEvent>, ps: seq<Packet>)
    requires Sendable(c, ps) && (forall e :: e in es ==> EventOk(e)) && Carries(c, es, ps)
    ensures Received(c, RunReceiver(c, es), ps)
  {
    hide Received, Fed, Taken, Stream, Safe, Done;
    if es == [] {
      NothingReceived(c, ps);
    } else {
      var before := es[..|es| - 1];
      CarriesBefore(c, es, ps);
      PacketsArriveInOrder(c, before, ps);
      var run := RunReceiver(c, before);
      match es[|es| - 1]
      case Feed(data, beyond) =>
        assert EventOk(es[|es| - 1]);
        FeedArrives(c, run, ps, data, beyond);
      case Take =>
        TakeKeeps(c, run, ps);
    }
  }

  lemma CarriesBefore(c: Config, es: seq<ReceiverEvent>, ps: seq<Packet>)
    requires es != [] && (forall e :: e in es ==> EventOk(e)) && Carries(c, es, ps)
    ensures Carries(c, es[..|es| - 1], ps)
    ensures var fed := RunReceiver(c, es).fed; fed <= Stream(c.magic, ps) && Safe(ps, |fed|)
  {
    hide Stream, Safe, RunReceiver;
    var before := es[..|es| - 1];
    assert forall i :: 0 <= i <= |before| ==> before[..i] == es[..i];
    assert es[..|es|] == es;
  }

  lemma NothingReceived(c: Config, ps: seq<Packet>)
    ensures Received(c, ReceiverRun(Receiver(0, [], [], false), [], []), ps)
  {
  }

  lemma TakeKeeps(c: Config, run: ReceiverRun, ps: seq<Packet>)
    requires Received(c, run, ps)
    ensures var (r, p) := Taken(run.r);
            Received(c, run.(r := r, taken := run.taken + if p.Some? then [p.value] else []), ps)
  {
    hide Live, Accepted, Done, Offset, FirstLive;
    LiveTake(run.r.box);
    var i := FirstLive(run.r.box);
    if i < |run.r.box| {
      Associates(run.taken, [run.r.box[i].value], Live(run.r.box[i := None]));
    } else {
      assert run.taken + [] == run.taken;
    }
  }

  lemma {:induction false} AllDone(magic: nat, ps: seq<Packet>)
    ensures Done(ps, |Stream(magic, ps)|) == |ps|
  {
    if ps != [] { AllDone(magic, ps[1..]); }
  }

  /** From end to end: when the writer has nothing left and every byte has come, so has every packet. */
  lemma EndToEnd(c: Config, sends: seq<SenderEvent>, es: seq<ReceiverEvent>)
    requires forall i :: 0 <= i < |sends| && sends[i].Send? ==> |sends[i].p| != 8
    requires forall e :: e in es ==> EventOk(e)
    requires var w := RunSender(c.magic, sends);
             && Sendable(c, w.sent) && Carries(c, es, w.sent)
             && Remaining(c.magic, w.s) == [] && RunReceiver(c, es).fed == w.written
    ensures var run := RunReceiver(c, es); run.taken + Live(run.r.box) == Accepted(c, RunSender(c.magic, sends).sent)
  {
    hide RunReceiver, RunSender, Stream, Live, Accepted, Remaining, At, Offset, Carries;
    var w := RunSender(c.magic, sends);
    WritesTheStream(c.magic, sends);
    assert w.written + [] == w.written;
    PacketsArriveInOrder(c, es, w.sent);
    AllDone(c.magic, w.sent);
    assert w.sent[..|w.sent|] == w.sent;
  }

  /** A header cut by a call boundary is read right exactly when the later bytes happen to spell it again. */
  lemma SplitHeader(c: Config, box: Queue, p: Packet, k: nat, beyond: seq<nat>, before: seq<nat>)
    requires c.magic < 0x1_0000_0000 && |p| <= c.max < 0x1_0000_0000 && 0 < k < 8 && |beyond| >= 8 && |before| >= 8
    ensures var h := Header(c.magic, |p|);
            var cut := Fed(c, Receiver(0, [], box, false), h[..k], before);
            var read := (h[k..] + beyond)[..8];
            Fed(c, cut, h[k..], beyond) == Receiver(|p|, [], box, false)
            <==> Value4(read[..4]) == c.magic && Value4(read[4..]) == |p|
  {
    hide Header, Value4, Fed;
    var h := Header(c.magic, |p|);
    FedIdle(c, Receiver(0, [], box, false), h[..k], before);
    FedSecondHalf(c, Receiver(8, h[..k], box, false), h[k..], beyond);
  }

  lemma FedSecondHalf(c: Config, r: Receiver, data: seq<nat>, beyond: seq<nat>)
    requires ReceiverOk(r) && r.inLen == 8 && |data| == 8 - |r.buf| && |beyond| >= 8
    ensures Fed(c, r, data, beyond) == TakeHeader(c, r, (data + beyond)[..8])
  {
    hide TakeHeader, Fed;
    FedHead(c, r, data, beyond);
    assert data[8 - |r.buf|..] == [];
    FedEmpty(c, TakeHeader(c, r, (data + beyond)[..8]), beyond);
  }

  lemma FedIdle(c: Config, r: Receiver, data: seq<nat>, beyond: seq<nat>)
    requires r.inLen == 0 && r.buf == [] && |beyond| >= 8 && 0 < |data| < 8
    ensures Fed(c, r, data, beyond) == r.(inLen := 8, buf := data)
  {
    assert [] + data == data;
  }

  lemma FedEmpty(c: Config, r: Receiver, beyond: seq<nat>)
    requires ReceiverOk(r) && |beyond| >= 8
    ensures Fed(c, r, [], beyond) == r
  {
  }

  /** A header of magic 1 for nine bytes, cut in the middle, is refused: the length is read as the magic. */
  lemma SplitHeaderRefused(accepts: Packet -> bool)
    ensures var c := Config(1, 100, accepts);
            var h, beyond := Header(1, 9), [0, 0, 0, 0, 0, 0, 0, 0];
            Fed(c, Fed(c, Receiver(0, [], [], false), h[..4], beyond), h[4..], beyond).err
  {
    hide Fed;
    var c := Config(1, 100, accepts);
    var h, beyond := Header(1, 9), [0, 0, 0, 0, 0, 0, 0, 0];
    FedIdle(c, Receiver(0, [], [], false), h[..4], beyond);
    var cut := Receiver(8, h[..4], [], false);
    FedHead(c, cut, h[4..], beyond);
    assert (h[4..] + beyond)[..8][..4] == Bytes4(9);
  }
}
