/** apple_hidspi_touch.c: the HBPP firmware loader, over any file and any device. */
module HbppLoader {
  import opened Bytes
  import opened Z2Writer

  const CHUNK := 0x3f0
  const DATA_OK := 0x4bc1
  const REG_OK := 0x4ad1
  const BUF_LEN := 1100
  const EIO := -5
  const EINVAL := -22
  const TRIES := 5

  /** The command word the driver reads, and the packet's bytes. */
  datatype Packet = Packet(cmd: nat, bytes: seq<byte>)

  /** What the SPI core and the device answer to one packet: a transfer error, or the acknowledgement. */
  datatype Answer = Answer(error: int, status: int)

  type Device = (nat, seq<byte>) -> Answer

  // ---- on the wire ------------------------------------------------------------------------------

  /** pkt[i ^ 1]: the bytes of each pair swapped. */
  function SwapPairs(s: seq<byte>): (r: seq<byte>)
    requires |s| % 2 == 0
    ensures |r| == |s|
    ensures forall i :: 0 <= i < |s| ==> r[i] == s[if i % 2 == 0 then i + 1 else i - 1]
  {
    if s == [] then [] else [s[1], s[0]] + SwapPairs(s[2..])
  }

  /** A device that takes 16-bit words high byte first reads the packet's own bytes. */
  lemma {:induction false} SwapTwice(s: seq<byte>)
    requires |s| % 2 == 0
    ensures SwapPairs(SwapPairs(s)) == s
  {
    if s != [] {
      var r := SwapPairs(s);
      assert r == [s[1], s[0]] + SwapPairs(s[2..]);
      assert r[2..] == SwapPairs(s[2..]);
      SwapTwice(s[2..]);
      assert s == [s[0], s[1]] + s[2..];
    }
  }

  function Lead(p: Packet): seq<byte> {
    if p.cmd == CMD_DATA then [0x18, 0xe1] else []
  }

  predicate Sendable(p: Packet) {
    |p.bytes| % 2 == 0 && |p.bytes| + |Lead(p)| <= BUF_LEN
  }

  function Wire(p: Packet): (w: seq<byte>)
    requires Sendable(p)
    ensures |w| <= BUF_LEN
  {
    Lead(p) + SwapPairs(p.bytes)
  }

  predicate Acknowledged(p: Packet, a: Answer) {
    p.cmd == CMD_CALIBRATE || a.status == if p.cmd == CMD_REGISTER then REG_OK else DATA_OK
  }

  // ---- sending, as a function of the device -----------------------------------------------------

  datatype Sent = Sent(wires: seq<seq<byte>>, ret: int)

  /** One packet from its k-th transfer on, with up to left tries. */
  function SendFrom(device: Device, k: nat, p: Packet, left: nat): Sent
    requires Sendable(p)
    decreases left
  {
    if left == 0 then Sent([], EIO)
    else
      var w := Wire(p);
      var a := device(k, w);
      if a.error != 0 then Sent([w], a.error)
      else if Acknowledged(p, a) then Sent([w], 0)
      else
        var more := SendFrom(device, k + 1, p, left - 1);
        Sent([w] + more.wires, more.ret)
  }

  function SendOne(device: Device, k: nat, p: Packet): Sent {
    if !Sendable(p) then Sent([], EINVAL) else SendFrom(device, k, p, TRIES)
  }

  /** Packets one after the other until one fails. */
  function SendAll(device: Device, k: nat, ps: seq<Packet>): Sent
    decreases |ps|
  {
    if ps == [] then Sent([], 0)
    else
      var first := SendOne(device, k, ps[0]);
      if first.ret != 0 then first
      else
        var rest := SendAll(device, k + |first.wires|, ps[1..]);
        Sent(first.wires + rest.wires, rest.ret)
  }

  /** These packets were all accepted, in these transfers. */
  ghost predicate Delivered(device: Device, k: nat, ps: seq<Packet>, wires: seq<seq<byte>>) {
    SendAll(device, k, ps) == Sent(wires, 0)
  }

  function After(wires: seq<seq<byte>>, s: Sent): Sent {
    Sent(wires + s.wires, s.ret)
  }

  lemma AfterTwice(a: seq<seq<byte>>, b: seq<seq<byte>>, s: Sent)
    ensures After(a, After(b, s)) == After(a + b, s)
  {
    assert a + (b + s.wires) == a + b + s.wires;
  }

  lemma {:induction false} SendMore(device: Device, k: nat, done: seq<Packet>, wires: seq<seq<byte>>, ps: seq<Packet>)
    requires Delivered(device, k, done, wires)
    ensures SendAll(device, k, done + ps) == After(wires, SendAll(device, k + |wires|, ps))
    decreases |done|
  {
    hide SendOne;
    if done == [] {
      assert done + ps == ps;
    } else {
      var first := SendOne(device, k, done[0]);
      var rest := SendAll(device, k + |first.wires|, done[1..]);
      assert (done + ps)[0] == done[0] && (done + ps)[1..] == done[1..] + ps;
      SendMore(device, k + |first.wires|, done[1..], rest.wires, ps);
      AfterTwice(first.wires, rest.wires, SendAll(device, k + |wires|, ps));
    }
  }

  lemma SendSingle(device: Device, k: nat, p: Packet, ps: seq<Packet>)
    ensures SendAll(device, k, [p]) == SendOne(device, k, p)
    ensures SendOne(device, k, p).ret != 0 ==> SendAll(device, k, [p] + ps) == SendOne(device, k, p)
  {
    hide SendOne;
    var first := SendOne(device, k, p);
    assert [p][1..] == [] && ([p] + ps)[0] == p;
    assert first.wires + [] == first.wires;
  }

  /** One more packet after those delivered. */
  lemma DeliverOne(device: Device, k: nat, done: seq<Packet>, wires: seq<seq<byte>>, p: Packet, ps: seq<Packet>)
    requires Delivered(device, k, done, wires)
    ensures var s := SendOne(device, k + |wires|, p);
            if s.ret == 0 then Delivered(device, k, done + [p], wires + s.wires)
            else SendAll(device, k, done + ([p] + ps)) == Sent(wires + s.wires, s.ret)
  {
    SendSingle(device, k + |wires|, p, ps);
    SendMore(device, k, done, wires, [p]);
    SendMore(device, k, done, wires, [p] + ps);
  }

  lemma {:induction false} SendFails(device: Device, k: nat, ps: seq<Packet>, more: seq<Packet>)
    requires SendAll(device, k, ps).ret != 0
    ensures SendAll(device, k, ps + more) == SendAll(device, k, ps)
    decreases |ps|
  {
    hide SendOne;
    var first := SendOne(device, k, ps[0]);
    assert (ps + more)[0] == ps[0] && (ps + more)[1..] == ps[1..] + more;
    if first.ret == 0 {
      SendFails(device, k + |first.wires|, ps[1..], more);
    }
  }

  /** A whole command after those delivered. */
  lemma DeliverCommand(device: Device, k: nat, done: seq<Packet>, wires: seq<seq<byte>>, ps: seq<Packet>,
        more: seq<Packet>)
    requires Delivered(device, k, done, wires)
    ensures var s := SendAll(device, k + |wires|, ps);
            if s.ret == 0 then Delivered(device, k, done + ps, wires + s.wires)
            else SendAll(device, k, done + (ps + more)) == Sent(wires + s.wires, s.ret)
  {
    hide SendAll;
    SendMore(device, k, done, wires, ps);
    SendMore(device, k, done, wires, ps + more);
    if SendAll(device, k + |wires|, ps).ret != 0 {
      SendFails(device, k + |wires|, ps, more);
    }
  }

  // ---- what a file asks for ---------------------------------------------------------------------

  /** The pieces of a data blob, from payload offset off on. */
  function Pieces(address: nat, payload: seq<byte>, off: nat): seq<Packet>
    requires off <= |payload|
    decreases |payload| - off
  {
    if off == |payload| then []
    else
      var n := Min(|payload| - off, CHUNK);
      [Packet(CMD_DATA, DataBlob((address + off) % 0x1_0000_0000, payload[off..off + n]))]
      + Pieces(address, payload, off + n)
  }

  /** The packets of a file and the result once they are all accepted. */
  datatype Plan = Plan(packets: seq<Packet>, ret: int)

  function Prepend(ps: seq<Packet>, plan: Plan): Plan {
    Plan(ps + plan.packets, plan.ret)
  }

  /** The 16-bit word at off; beyond the file it is whatever the memory there holds. */
  function WordAt(fw: seq<byte>, off: nat, beyond: nat): nat {
    if off + 2 <= |fw| then U16le(fw, off) else beyond
  }

  /** The payload of a blob of at least 14 bytes, between its 10-byte header and its sum. */
  function BlobPieces(b: seq<byte>): seq<Packet>
    requires |b| >= 14
  {
    Pieces(U32le(b, 4), b[10..|b| - 4], 0)
  }

  /** A load command asks for nothing it does not carry. */
  predicate KnownCommand(fw: seq<byte>, at: nat, cmd: nat, arg: nat) {
    at <= |fw| && (((cmd == 0 || cmd == SEND_BLOB) && arg <= |fw| - at) || cmd == SEND_CALIBRATION)
  }

  /** What one load command sends. cal is the calibration data, if there is any. */
  function CommandPackets(fw: seq<byte>, at: nat, cmd: nat, arg: nat, cal: Option<seq<byte>>, beyond: nat): seq<Packet>
    requires KnownCommand(fw, at, cmd, arg)
  {
    if cmd == SEND_CALIBRATION then
      if cal.Some? then Pieces(arg, cal.value, 0) else []
    else if cmd == 0 then []
    else if arg >= 14 && WordAt(fw, at, beyond) == CMD_DATA then BlobPieces(fw[at..at + arg])
    else [Packet(WordAt(fw, at, beyond), fw[at..at + arg])]
  }

  function CommandEnd(at: nat, cmd: nat, arg: nat): (r: nat)
    ensures r >= at
  {
    Align4(if cmd == SEND_CALIBRATION then at else at + arg)
  }

  /** The load commands from off on. */
  function PlanFrom(fw: seq<byte>, off: nat, cal: Option<seq<byte>>, beyond: nat): Plan
    decreases |fw| - off
  {
    if off + 8 > |fw| then Plan([], 0)
    else
      var cmd, arg, at := U32le(fw, off), U32le(fw, off + 4), off + 8;
      if !KnownCommand(fw, at, cmd, arg) then Plan([], EINVAL)
      else Prepend(CommandPackets(fw, at, cmd, arg, cal, beyond), PlanFrom(fw, CommandEnd(at, cmd, arg), cal, beyond))
  }

  function FilePlan(fw: seq<byte>, cal: Option<seq<byte>>, beyond: nat): Plan {
    if |fw| < 8 || fw[..4] != MAGIC || U32le(fw, 4) != 1 then Plan([], EINVAL)
    else PlanFrom(fw, 8, cal, beyond)
  }

  lemma AfterNothing(wires: seq<seq<byte>>, s: Sent)
    ensures After([], s) == s && After(wires, s) == Sent(wires + s.wires, s.ret)
  {
  }

  lemma TryUnfolds(device: Device, k: nat, p: Packet, left: nat)
    requires Sendable(p) && left > 0
    ensures var w := Wire(p);
            var a, more := device(k, w), SendFrom(device, k + 1, p, left - 1);
            SendFrom(device, k, p, left)
            == if a.error != 0 then Sent([w], a.error) else if Acknowledged(p, a) then Sent([w], 0)
               else Sent([w] + more.wires, more.ret)
  {
    hide Acknowledged, Wire;
  }

  lemma TriesOver(device: Device, k: nat, p: Packet, wires: seq<seq<byte>>)
    requires Sendable(p)
    ensures After(wires, SendFrom(device, k, p, 0)) == Sent(wires, EIO)
  {
    assert wires + [] == wires;
  }

  lemma Retry(sofar: seq<seq<byte>>, w: seq<byte>, more: Sent)
    ensures After(sofar, Sent([w] + more.wires, more.ret)) == After(sofar + [w], more)
  {
  }

  lemma PrependTwice(a: seq<Packet>, b: seq<Packet>, plan: Plan)
    ensures Prepend(a, Prepend(b, plan)) == Prepend(a + b, plan)
    ensures a + (b + plan.packets) == a + b + plan.packets
  {
  }

  lemma AllDelivered(device: Device, k: nat, ps: seq<Packet>, wires: seq<seq<byte>>)
    requires Delivered(device, k, ps, wires)
    ensures SendAll(device, k, ps) == Sent(wires, 0)
  {
  }

  lemma NothingSent(device: Device, k: nat)
    ensures SendAll(device, k, []) == Sent([], 0)
  {
  }

  lemma NothingDelivered(device: Device, k: nat)
    ensures Delivered(device, k, [], [])
  {
  }

  // ---- the driver -------------------------------------------------------------------------------

  class Driver {
    const device: Device
    const cal: Option<seq<byte>>
    const beyond: nat
    var log: seq<seq<byte>>

    constructor (device: Device, cal: Option<seq<byte>>, beyond: nat)
      ensures this.device == device && this.cal == cal && this.beyond == beyond && log == []
    {
      this.device, this.cal, this.beyond := device, cal, beyond;
      log := [];
    }

    /** hbpp_send: up to five tries, each answered by an acknowledgement. */
    method Send(p: Packet) returns (ret: int)
      modifies this`log
      ensures var s := SendOne(device, |old(log)|, p); log == old(log) + s.wires && ret == s.ret
    {
      hide Acknowledged, SwapPairs, Lead, Wire, SendFrom, After;
      if |p.bytes| % 2 == 1 || |p.bytes| + |Lead(p)| > BUF_LEN {
        return EINVAL;
      }
      hide SendOne;
      ret := SendRetrying(p);
    }

    method SendRetrying(p: Packet) returns (ret: int)
      requires Sendable(p)
      modifies this`log
      ensures var s := SendFrom(device, |old(log)|, p, TRIES); log == old(log) + s.wires && ret == s.ret
    {
      hide Acknowledged, Wire, SendFrom, After, Sendable;
      ret := EIO;
      ghost var all, sofar: seq<seq<byte>> := SendFrom(device, |log|, p, TRIES), [];
      AfterNothing([], all);
      for t := 0 to TRIES
        invariant ret == EIO && log == old(log) + sofar
        invariant all == After(sofar, SendFrom(device, |log|, p, TRIES - t))
      {
        var w := Wire(p);
        var a := device(|log|, w);
        TryUnfolds(device, |log|, p, TRIES - t);
        Retry(sofar, w, SendFrom(device, |log| + 1, p, TRIES - t - 1));
        AfterNothing(sofar, SendFrom(device, |log|, p, TRIES - t));
        log := log + [w];
        sofar := sofar + [w];
        if a.error != 0 {
          return a.error;
        }
        if Acknowledged(p, a) {
          return 0;
        }
      }
      TriesOver(device, |log|, p, sofar);
    }

    /** hbpp_blob: a data blob resent in pieces. */
    method SendBlob(address: nat, payload: seq<byte>) returns (ret: int)
      modifies this`log
      ensures var s := SendAll(device, |old(log)|, Pieces(address, payload, 0));
              log == old(log) + s.wires && ret == s.ret
    {
      hide SendOne, SendAll, DataBlob;
      ghost var k, done: seq<Packet>, sofar: seq<seq<byte>> := |log|, [], [];
      NothingDelivered(device, k);
      var off := 0;
      while off < |payload|
        invariant off <= |payload| && log == old(log) + sofar
        invariant done + Pieces(address, payload, off) == Pieces(address, payload, 0)
        invariant Delivered(device, k, done, sofar)
      {
        hide Delivered;
        var n := Min(|payload| - off, CHUNK);
        var p := Packet(CMD_DATA, DataBlob((address + off) % 0x1_0000_0000, payload[off..off + n]));
        ghost var rest := Pieces(address, payload, off + n);
        assert Pieces(address, payload, off) == [p] + rest;
        DeliverOne(device, k, done, sofar, p, rest);
        assert done + [p] + rest == done + ([p] + rest);
        sofar := sofar + SendOne(device, |log|, p).wires;
        ret := Send(p);
        if ret != 0 {
          return;
        }
        off, done := off + n, done + [p];
      }
      assert done + [] == done;
      ret := 0;
    }

    /** One load command of the file. */
    method Execute(fw: seq<byte>, at: nat, cmd: nat, arg: nat) returns (ret: int)
      requires KnownCommand(fw, at, cmd, arg)
      modifies this`log
      ensures var s := SendAll(device, |old(log)|, CommandPackets(fw, at, cmd, arg, cal, beyond));
              log == old(log) + s.wires && ret == s.ret
    {
      hide SendOne, Pieces;
      if cmd == SEND_CALIBRATION {
        if cal.None? {
          return 0;
        }
        ret := SendBlob(arg, cal.value);
      } else if cmd == 0 {
        ret := 0;
      } else if arg >= 14 && WordAt(fw, at, beyond) == CMD_DATA {
        var b := fw[at..at + arg];
        ret := SendBlob(U32le(b, 4), b[10..|b| - 4]);
      } else {
        var p := Packet(WordAt(fw, at, beyond), fw[at..at + arg]);
        SendSingle(device, |log|, p, []);
        ret := Send(p);
      }
    }

    /** hbpp_load: the packets of the file, until one fails or the file is at its end. */
    method Load(fw: seq<byte>) returns (ret: int)
      modifies this`log
      ensures var plan := FilePlan(fw, cal, beyond);
              var s := SendAll(device, |old(log)|, plan.packets);
              log == old(log) + s.wires && ret == if s.ret != 0 then s.ret else plan.ret
    {
      hide SendAll, CommandPackets, CommandEnd;
      NothingSent(device, |log|);
      if |fw| < 8 || fw[..4] != MAGIC || U32le(fw, 4) != 1 {
        return EINVAL;
      }
      ghost var k, done: seq<Packet>, sofar: seq<seq<byte>> := |log|, [], [];
      ghost var plan := FilePlan(fw, cal, beyond);
      NothingDelivered(device, k);
      var off := 8;
      assert [] + plan.packets == plan.packets;
      while off + 8 <= |fw|
        invariant log == old(log) + sofar
        invariant plan == Prepend(done, PlanFrom(fw, off, cal, beyond))
        invariant Delivered(device, k, done, sofar)
        decreases |fw| - off
      {
        hide Delivered;
        var cmd, arg, at := U32le(fw, off), U32le(fw, off + 4), off + 8;
        if !KnownCommand(fw, at, cmd, arg) {
          assert done + [] == done;
          AllDelivered(device, k, done, sofar);
          return EINVAL;
        }
        ghost var ps := CommandPackets(fw, at, cmd, arg, cal, beyond);
        ghost var rest := PlanFrom(fw, CommandEnd(at, cmd, arg), cal, beyond);
        PrependTwice(done, ps, rest);
        DeliverCommand(device, k, done, sofar, ps, rest.packets);
        sofar := sofar + SendAll(device, |log|, ps).wires;
        ret := Execute(fw, at, cmd, arg);
        if ret != 0 {
          return;
        }
        off, done := CommandEnd(at, cmd, arg), done + ps;
      }
      assert done + [] == done;
      AllDelivered(device, k, done, sofar);
      ret := 0;
    }

  }
}
