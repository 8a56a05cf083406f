/**
 One transfer as a two-party protocol, over every run: DATA packets may be
 lost, repeated and reordered at will, and the sender may look at any STATUS
 the receiver ever sent during the transfer, however old.
 */
module BleRuns {
  import opened Bytes
  import opened Plate
  import opened BleSpec
  import Crc

  /** What is being sent: an image or the plate's text. */
  datatype Goal = Picture(width: u16, height: u16) | PlainText

  predicate Sendable(goal: Goal, p: seq<byte>) {
    match goal
    case Picture(w, h) => GoodSize(w, h) && |p| == ImageBytes(w, h)
    case PlainText => 1 <= |p| <= MAX_CONTENT_BYTES
  }

  /** The START packet both senders build. */
  function StartPacket(goal: Goal, p: seq<byte>, ack: byte): seq<byte>
    requires |p| < 0x1_0000_0000
  {
    (if goal.Picture? then [0x10] + Le16(goal.width) + Le16(goal.height) else [0x11])
    + Le32(|p|) + Le32(Crc.Crc32(p)) + [ack]
  }

  /** A DATA packet: offset and payload. */
  function DataPacket(off: nat, part: seq<byte>): seq<byte>
    requires off < 0x1_0000
  {
    Le16(off) + part
  }

  /** The sender between bursts or within one, waiting for its acknowledgement, or past its loop. */
  datatype Phase = Filling | Waiting | Finished

  datatype Sys = Sys(
    dev: Rx, wire: set<seq<byte>>, seen: set<Status>, phase: Phase, off: nat, handed: seq<Handed>)

  datatype Action =
    | SendNext(n: nat)        // the next DATA packet, `n` bytes at most
    | EndBurst                // the burst is complete, or a write failed
    | AckSeen(st: Status)     // a notification covering the burst
    | Synced(st: Status)      // any status read or notified after a timeout
    | Deliver(pkt: seq<byte>) // some DATA packet sent before arrives (again)
    | SyncArrives             // CTRL 04
    | NotifyOut               // the receiver's pending notification goes out
    | StatusRead              // the STATUS characteristic is read
    | CommitArrives           // CTRL 02, sent after the loop
    | ApplyResult             // the session hands a finished result over
    | Disconnect              // the session ends, and a new receiver waits for the next

  function Min(a: nat, b: nat): nat { if a < b then a else b }

  /** Back to the loop head: leave the loop once everything is covered. */
  function LoopHead(s: Sys, p: seq<byte>, off: nat): Sys {
    s.(off := off, phase := if off >= |p| then Finished else Filling)
  }

  /** One step of the system; an action that is not enabled changes nothing. */
  function Step(p: seq<byte>, s: Sys, a: Action): Sys
    requires |p| <= MAX_IMAGE_BYTES
  {
    match a
    case SendNext(n) =>
      if s.phase == Filling && s.off < |p| && n > 0 then
        var part := p[s.off..Min(s.off + n, |p|)];
        s.(wire := s.wire + {DataPacket(s.off, part)}, off := s.off + |part|)
      else s
    case EndBurst => if s.phase == Filling then s.(phase := Waiting) else s
    case AckSeen(st) =>
      if s.phase == Waiting && st in s.seen && st.received >= s.off then LoopHead(s, p, s.off) else s
    case Synced(st) =>
      if s.phase == Waiting && st in s.seen then LoopHead(s, p, if st.received < s.off then st.received else s.off)
      else s
    case Deliver(pkt) => if pkt in s.wire then s.(dev := Push(s.dev, pkt)) else s
    case SyncArrives => s.(dev := Ctrl(s.dev, [0x04]))
    case NotifyOut =>
      var (dev, st) := Notify(s.dev);
      s.(dev := dev, seen := if st.Some? then s.seen + {st.value} else s.seen)
    case StatusRead => s.(seen := s.seen + {StatusOf(s.dev)})
    case CommitArrives => if s.phase == Finished then s.(dev := Ctrl(s.dev, [0x02])) else s
    case ApplyResult =>
      var (dev, out) := Apply(s.dev);
      s.(dev := dev, handed := if out.image.Some? || out.content.Some? then s.handed + [out] else s.handed)
    case Disconnect => s.(dev := Fresh(false))
  }

  function Steps(p: seq<byte>, s: Sys, acts: seq<Action>): Sys
    requires |p| <= MAX_IMAGE_BYTES
  {
    if acts == [] then s else Step(p, Steps(p, s, acts[..|acts| - 1]), acts[|acts| - 1])
  }

  /** The system just after START has reached a receiver in any state. */
  function Begin(before: Rx, goal: Goal, p: seq<byte>, ack: byte): Sys
    requires |p| < 0x1_0000_0000
  {
    Sys(Ctrl(before, StartPacket(goal, p, ack)), {}, {}, Filling, 0, [])
  }

  // -------------------------------------------------------------- invariant

  predicate Announced(r: Rx, goal: Goal, p: seq<byte>) {
    && GoodParams(r.params)
    && r.params.expected == |p| && r.params.crc == Crc.Crc32(p)
    && (goal.Picture? ==> r.params.kind == ImageKind && r.params.width == goal.width && r.params.height == goal.height)
    && (goal.PlainText? ==> r.params.kind == ContentKind)
  }

  /** A packet that says the truth about `p`. */
  predicate Truthful(p: seq<byte>, pkt: seq<byte>) {
    && |pkt| >= 3
    && var off := FromLe16(pkt[..2]);
       off + |pkt| - 2 <= |p| && pkt[2..] == p[off..off + |pkt| - 2]
  }

  /** The result of a complete transfer. */
  predicate Outcome(r: Rx, goal: Goal, p: seq<byte>) {
    match goal
    case Picture(w, h) => r.state == Committed && r.done == Some(MonoImage(w, h, p)) && r.doneContent == None
    case PlainText =>
      if Accepted(p) then r.state == Committed && r.done == None && r.doneContent == Some(p)
      else r.state == Rejected && r.done == None && r.doneContent == None
  }

  function Delivered(goal: Goal, p: seq<byte>): Handed {
    match goal
    case Picture(w, h) => Handed(Some(MonoImage(w, h, p)), None, false)
    case PlainText => Handed(None, Some(p), false)
  }

  predicate Running(s: Sys, goal: Goal, p: seq<byte>) {
    && s.dev.state == Receiving && s.dev.data <= p && s.dev.done == None && s.dev.doneContent == None
    && Announced(s.dev, goal, p)
    && (forall st :: st in s.seen ==> st.received <= |s.dev.data|)
    && (s.phase == Finished ==> s.dev.data == p)
    && s.handed == []
  }

  /** Every reachable state: the receiver holds a prefix of the payload; or the
      sender is through and the result waits, or the text was refused as
      invalid; or nothing is left of the transfer at the receiver, the result
      having been handed over once or lost with the session. */
  predicate SysInv(s: Sys, goal: Goal, p: seq<byte>) {
    && s.off <= |p|
    && !s.dev.clearReq
    && (forall pkt :: pkt in s.wire ==> Truthful(p, pkt))
    && (|| Running(s, goal, p)
        || (s.phase == Finished && s.dev.data == [] && s.handed == [] && Outcome(s.dev, goal, p))
        || (s.dev.data == [] && s.dev.state == Idle && s.dev.done == None && s.dev.doneContent == None
            && (s.handed == [] || s.handed == [Delivered(goal, p)])))
  }

  lemma StartAnnounces(before: Rx, goal: Goal, p: seq<byte>, ack: byte)
    requires Sendable(goal, p) && |p| <= MAX_IMAGE_BYTES
    ensures var r := Ctrl(before, StartPacket(goal, p, ack));
            && r.state == Receiving && r.data == [] && r.done == None && r.doneContent == None && !r.clearReq
            && Announced(r, goal, p)
  {
    hide Crc.Crc32, ImageBytes;
    var d, n, c := StartPacket(goal, p, ack), Le32(|p|), Le32(Crc.Crc32(p));
    RoundTrip32(|p|);
    RoundTrip32(Crc.Crc32(p));
    match goal
    case Picture(w, h) =>
      RoundTrip16(w);
      RoundTrip16(h);
      ImageBytesPositive(w, h);
      assert d[1..3] == Le16(w) && d[3..5] == Le16(h) && d[5..9] == n && d[9..13] == c && d[13] == ack;
    case PlainText =>
      assert d[1..5] == n && d[5..9] == c && d[9] == ack;
  }

  lemma PacketTruthful(p: seq<byte>, off: nat, n: nat)
    requires off < |p| <= MAX_IMAGE_BYTES && n > 0
    ensures Truthful(p, DataPacket(off, p[off..Min(off + n, |p|)]))
  {
    var part := p[off..Min(off + n, |p|)];
    var pkt := DataPacket(off, part);
    RoundTrip16(off);
    assert pkt[..2] == Le16(off) && pkt[2..] == part;
  }

  /** A truthful packet extends the prefix by the bytes that follow it, or is dropped. */
  lemma DeliverKeepsPrefix(r: Rx, goal: Goal, p: seq<byte>, pkt: seq<byte>)
    requires r.state == Receiving && r.data <= p && Announced(r, goal, p) && Truthful(p, pkt)
    ensures var r' := Push(r, pkt);
            && r'.data <= p && r.data <= r'.data
            && r' == r.(data := r'.data, sinceAck := r'.sinceAck, nakSent := r'.nakSent, pending := r'.pending)
            && (FromLe16(pkt[..2]) == |r.data| ==> |r'.data| > |r.data|)
  {
    hide GoodParams, Crc.Crc32;
    var off, payload := FromLe16(pkt[..2]), pkt[2..];
    if off == |r.data| {
      assert r.data + payload == p[..off + |payload|];
    }
  }

  lemma DeliverKeeps(s: Sys, goal: Goal, p: seq<byte>, pkt: seq<byte>)
    requires |p| <= MAX_IMAGE_BYTES && SysInv(s, goal, p)
    ensures SysInv(Step(p, s, Deliver(pkt)), goal, p)
  {
    hide Push, Accepted, GoodParams, Crc.Crc32;
    if pkt in s.wire {
      if s.dev.state == Receiving {
        DeliverKeepsPrefix(s.dev, goal, p, pkt);
      } else {
        PushOutside(s.dev, pkt);
      }
    }
  }

  lemma CommitKeepsOutcome(s: Sys, goal: Goal, p: seq<byte>)
    requires |p| <= MAX_IMAGE_BYTES && SysInv(s, goal, p)
    ensures SysInv(Step(p, s, CommitArrives), goal, p)
  {
    hide Accepted, GoodParams, Crc.Crc32, Truthful;
    if s.phase == Finished {
      assert Ctrl(s.dev, [0x02]) == Commit(s.dev);
    }
  }

  lemma SendKeeps(s: Sys, goal: Goal, p: seq<byte>, n: nat)
    requires |p| <= MAX_IMAGE_BYTES && SysInv(s, goal, p)
    ensures SysInv(Step(p, s, SendNext(n)), goal, p)
  {
    hide Accepted, Announced, Truthful, DataPacket, Outcome;
    if s.phase == Filling && s.off < |p| && n > 0 {
      PacketTruthful(p, s.off, n);
    }
  }

  /** Every step keeps the invariant. */
  lemma StepKeeps(p: seq<byte>, s: Sys, a: Action, goal: Goal)
    requires |p| <= MAX_IMAGE_BYTES && SysInv(s, goal, p)
    ensures SysInv(Step(p, s, a), goal, p)
  {
    match a
    case SendNext(n) => SendKeeps(s, goal, p, n);
    case Deliver(pkt) => DeliverKeeps(s, goal, p, pkt);
    case CommitArrives => CommitKeepsOutcome(s, goal, p);
    case _ => QuietKeeps(p, s, a, goal);
  }

  lemma QuietKeeps(p: seq<byte>, s: Sys, a: Action, goal: Goal)
    requires |p| <= MAX_IMAGE_BYTES && SysInv(s, goal, p)
    requires !a.SendNext? && !a.Deliver? && !a.CommitArrives?
    ensures SysInv(Step(p, s, a), goal, p)
  {
    hide Accepted, GoodParams, Crc.Crc32, Truthful, Push, Commit;
    if a.AckSeen? || a.Synced? {
      if s.phase == Waiting && a.st in s.seen && s.dev.state == Receiving && |s.dev.data| == |p| {
        assert s.dev.data == p;
      }
    }
  }

  lemma {:induction false} RunKeeps(before: Rx, goal: Goal, p: seq<byte>, ack: byte, acts: seq<Action>)
    requires Sendable(goal, p) && |p| <= MAX_IMAGE_BYTES
    ensures SysInv(Steps(p, Begin(before, goal, p, ack), acts), goal, p)
  {
    hide Step, Ctrl, Accepted, GoodParams, Announced, StartPacket;
    if acts == [] {
      StartAnnounces(before, goal, p, ack);
    } else {
      RunKeeps(before, goal, p, ack, acts[..|acts| - 1]);
      StepKeeps(p, Steps(p, Begin(before, goal, p, ack), acts[..|acts| - 1]), acts[|acts| - 1], goal);
    }
  }

  /** The safety of a transfer, over every run from a receiver in any state:
      what it holds is always a prefix of the payload; a sender past its loop
      means it holds all of it; a commit never ends in INCOMPLETE or CRC ERROR;
      and what the application gets, once, is the payload, bit for bit. */
  lemma TransferSafe(before: Rx, goal: Goal, p: seq<byte>, ack: byte, acts: seq<Action>)
    requires Sendable(goal, p) && |p| <= MAX_IMAGE_BYTES
    ensures var s := Steps(p, Begin(before, goal, p, ack), acts);
            && s.dev.data <= p
            && s.dev.state != Incomplete && s.dev.state != CrcError
            && (s.phase == Finished && s.dev.state == Receiving ==> s.dev.data == p)
            && (s.dev.state == Committed && goal.Picture? ==>
                  s.dev.done == Some(MonoImage(goal.width, goal.height, p)))
            && (goal.Picture? ==> s.dev.state != Rejected)
            && (s.handed == [] || s.handed == [Delivered(goal, p)])
  {
    hide Steps, Begin, Accepted;
    RunKeeps(before, goal, p, ack, acts);
  }

  /** A commit that arrives after the loop succeeds: COMMITTED with the
      payload, or REJECTED for a text the plate would not accept. */
  lemma CommitSucceeds(before: Rx, goal: Goal, p: seq<byte>, ack: byte, acts: seq<Action>)
    requires Sendable(goal, p) && |p| <= MAX_IMAGE_BYTES
    ensures var s := Steps(p, Begin(before, goal, p, ack), acts);
            s.phase == Finished && s.dev.state == Receiving ==> Outcome(Step(p, s, CommitArrives).dev, goal, p)
  {
    hide Steps, Begin, Accepted, GoodParams, Crc.Crc32;
    RunKeeps(before, goal, p, ack, acts);
    var s := Steps(p, Begin(before, goal, p, ack), acts);
    assert Ctrl(s.dev, [0x02]) == Commit(s.dev);
  }

  /** What the receiver holds never shrinks while it is receiving. */
  lemma ReceivedNeverDecreases(before: Rx, goal: Goal, p: seq<byte>, ack: byte, acts: seq<Action>, a: Action)
    requires Sendable(goal, p) && |p| <= MAX_IMAGE_BYTES
    ensures var s := Steps(p, Begin(before, goal, p, ack), acts);
            Step(p, s, a).dev.state == Receiving ==> s.dev.data <= Step(p, s, a).dev.data
  {
    hide Steps, Begin, Accepted, GoodParams, Crc.Crc32;
    RunKeeps(before, goal, p, ack, acts);
    var s := Steps(p, Begin(before, goal, p, ack), acts);
    if a.CommitArrives? { assert Ctrl(s.dev, [0x02]) == Commit(s.dev); }
  }
}
