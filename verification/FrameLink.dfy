/** The frame object of src/util/frames.c, one thread at a time. */
module FrameLink {
  import opened Common
  import opened Frames

  class FrameState {
    const config: Config
    var inLen: nat
    var inBuf: seq<nat>
    var inbox: Queue
    var inboxErr: bool
    var out: seq<nat>
    var outbox: Queue

    constructor (config: Config)
      ensures this.config == config && In() == Receiver(0, [], [], false) && Out() == Sender([], [])
    {
      this.config := config;
      inLen, inBuf, inbox, inboxErr, out, outbox := 0, [], [], false, [], [];
    }

    ghost function In(): Receiver
      reads this
    {
      Receiver(inLen, inBuf, inbox, inboxErr)
    }

    ghost function Out(): Sender
      reads this
    {
      Sender(outbox, out)
    }

    method Send(p: Packet) returns (ok: bool)
      modifies this`outbox
      ensures ok == (|p| >= 8) && Out() == Queued(old(Out()), p)
    {
      if |p| < 8 { return false; }
      outbox := outbox + [Some(p)];
      return true;
    }

    /** The piece to write next, empty if there is none. */
    method Outbox() returns (data: seq<nat>)
      modifies this`outbox, this`out
      ensures Out() == Loaded(config.magic, old(Out())) && data == out
    {
      hide Header;
      if |out| == 0 {
        while outbox != [] && outbox[0].None?
          invariant DropEmpty(outbox) == DropEmpty(old(outbox)) && out == []
          decreases |outbox|
        {
          outbox := outbox[1..];
        }
        if outbox == [] { return []; }
        out := Header(config.magic, |outbox[0].value|);
      }
      data := out;
    }

    method Sent() returns (more: bool)
      requires out != [] ==> outbox != [] && outbox[0].Some?
      modifies this`outbox, this`out
      ensures Out() == Advanced(old(Out()))
      ensures old(out) != [] ==> more == (Bytes(Live(outbox)) > 0)
    {
      if |out| == 0 || outbox == [] { return false; }
      if |out| == 8 {
        out := outbox[0].value;
      } else {
        out := [];
        outbox := outbox[0 := None];
      }
      var total := OutLength();
      more := total > 0;
    }

    method OutLength() returns (total: nat)
      ensures total == Bytes(Live(outbox))
    {
      total := 0;
      var i := 0;
      while i < |outbox|
        invariant i <= |outbox| && total + Bytes(Live(outbox[i..])) == Bytes(Live(outbox))
      {
        assert outbox[i..][1..] == outbox[i + 1..];
        var x := outbox[i];
        assert Live(outbox[i..]) == if x.Some? then [x.value] + Live(outbox[i + 1..]) else Live(outbox[i + 1..]);
        if x.Some? {
          total := total + |x.value|;
          BytesCons(x.value, Live(outbox[i + 1..]));
        }
        i := i + 1;
      }
    }

    method Receive() returns (p: Option<Packet>)
      modifies this`inbox
      ensures (In(), p) == Taken(old(In()))
    {
      var i := 0;
      while i < |inbox| && inbox[i].None?
        invariant i <= |inbox| && FirstLive(inbox) == i + FirstLive(inbox[i..])
      {
        assert inbox[i..][1..] == inbox[i + 1..];
        i := i + 1;
      }
      if i < |inbox| {
        p := inbox[i];
        inbox := inbox[i := None];
      } else {
        p := None;
      }
    }

    /** What has been gathered is complete: a header, read from this call's bytes, or a packet. */
    method Complete(data: seq<nat>, await: nat, beyond: seq<nat>) returns (ok: bool)
      requires |beyond| >= 8 && await <= |data|
      modifies this`inLen, this`inBuf, this`inbox, this`inboxErr
      ensures In() == if old(inLen) == 8 then TakeHeader(config, old(In()), (data + beyond)[..8])
                      else TakePacket(config, old(In()), old(inBuf) + data[..await])
      ensures ok == (old(inLen) == 8 ==> !inboxErr)
    {
      hide Value4;
      if inLen == 8 {
        var head := (data + beyond)[..8];
        var magic, length := Value4(head[..4]), Value4(head[4..]);
        inLen, inBuf := 0, [];
        if magic != config.magic || length > config.max {
          inboxErr := true;
          return false;
        }
        inboxErr := false;
        inLen := length;
      } else {
        while inbox != [] && inbox[0].None?
          invariant DropEmpty(inbox) == DropEmpty(old(inbox))
          invariant inLen == old(inLen) && inBuf == old(inBuf) && inboxErr == old(inboxErr)
          decreases |inbox|
        {
          inbox := inbox[1..];
        }
        var p := inBuf + data[..await];
        inbox := inbox + [if config.accepts(p) then Some(p) else None];
        inLen, inBuf := 0, [];
      }
      return true;
    }

    /** `beyond` is the memory behind the data, which a header read may run into. */
    method Inbox(data: seq<nat>, beyond: seq<nat>) returns (ok: bool)
      requires ReceiverOk(In()) && |beyond| >= 8
      modifies this`inLen, this`inBuf, this`inbox, this`inboxErr
      ensures In() == Fed(config, old(In()), data, beyond)
      decreases |data|
    {
      hide Value4, TakePacket;
      if |data| == 0 { return false; }
      if inLen == 0 { inLen := 8; }
      var await := inLen - |inBuf|;
      if |data| < await {
        inBuf := inBuf + data;
        return true;
      }
      var header := inLen == 8;
      ok := Complete(data, await, beyond);
      if header && !ok { return false; }
      if |data| > await { ok := Inbox(data[await..], beyond); }
    }
  }

  ghost function Bytes(ps: seq<Packet>): nat {
    if ps == [] then 0 else |ps[0]| + Bytes(ps[1..])
  }

  lemma BytesCons(p: Packet, ps: seq<Packet>)
    ensures Bytes([p] + ps) == |p| + Bytes(ps)
  {
    assert ([p] + ps)[1..] == ps;
  }
}
