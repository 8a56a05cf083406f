/**
 The senders' loops, run against the receiver over a link that is fair in one
 way only: in each burst one packet sent at the receiver's offset arrives, and
 a sync gets some answer, though it may be an old notification that was still
 queued. Everything else may be lost, repeated or late.
 */
module BleSender {
  import opened Bytes
  import opened Plate
  import opened BleSpec
  import opened BleRuns
  import Ble

  /** How many queued notifications tell of fewer than `n` bytes. */
  function Stale(inbox: seq<Status>, n: nat): nat {
    if inbox == [] then 0
    else Stale(inbox[..|inbox| - 1], n) + (if inbox[|inbox| - 1].received < n then 1 else 0)
  }

  lemma {:induction false} StaleHead(inbox: seq<Status>, n: nat)
    requires inbox != []
    ensures Stale(inbox, n) == (if inbox[0].received < n then 1 else 0) + Stale(inbox[1..], n)
    decreases |inbox|
  {
    var m := |inbox| - 1;
    if m > 0 {
      StaleHead(inbox[..m], n);
      assert inbox[..m][1..] == inbox[1..][..m - 1];
    }
  }

  lemma StaleSnoc(inbox: seq<Status>, st: Status, n: nat)
    ensures Stale(inbox + [st], n) == Stale(inbox, n) + (if st.received < n then 1 else 0)
  {
    assert (inbox + [st])[..|inbox|] == inbox;
  }

  class Link {
    const dev: Ble.ImgRx
    /** DATA packets ever sent. */
    var wire: seq<seq<byte>>
    /** Notifications the sender has not looked at, oldest first. */
    var inbox: seq<Status>
    /** This burst's packet at the receiver's offset has not come yet. */
    var owed: bool

    ghost predicate Valid(goal: Goal, p: seq<byte>)
      reads this, dev
    {
      && |p| <= MAX_IMAGE_BYTES
      && dev.state == Receiving && dev.data <= p && dev.done == None && dev.doneContent == None && dev.expected == |p|
      && !dev.clearImageReq
      && Announced(dev.View(), goal, p)
      && (forall i :: 0 <= i < |wire| ==> Truthful(p, wire[i]))
      && (forall i :: 0 <= i < |inbox| ==> inbox[i].received <= |dev.data| && inbox[i].state == Receiving)
    }

    /** Queued notifications that are behind the receiver. */
    ghost function Lag(): nat
      reads this, dev
    {
      Stale(inbox, |dev.data|)
    }

    constructor (dev: Ble.ImgRx)
      ensures this.dev == dev && wire == [] && inbox == [] && owed
    {
      this.dev, wire, inbox, owed := dev, [], [], true;
    }

    /** CTRL START, written with response. */
    method Start(goal: Goal, p: seq<byte>, ack: byte)
      requires Sendable(goal, p) && |p| <= MAX_IMAGE_BYTES && wire == [] && inbox == []
      modifies this`owed, dev
      ensures Valid(goal, p) && owed && dev.data == []
    {
      StartAnnounces(dev.View(), goal, p, ack);
      dev.Ctrl(StartPacket(goal, p, ack));
      owed := true;
    }

    /** A packet sent before reaches the receiver. */
    method Arrive(pkt: seq<byte>, ghost goal: Goal, ghost p: seq<byte>)
      requires Valid(goal, p) && Truthful(p, pkt)
      modifies dev
      ensures Valid(goal, p) && old(dev.data) <= dev.data
      ensures FromLe16(pkt[..2]) == |old(dev.data)| ==> |dev.data| > |old(dev.data)|
    {
      hide Push, GoodParams;
      DeliverKeepsPrefix(dev.View(), goal, p, pkt);
      dev.Push(pkt);
    }

    /** A pending notification goes out, and is queued unless it is lost. */
    method Notification(ghost goal: Goal, ghost p: seq<byte>)
      requires Valid(goal, p)
      modifies this`inbox, dev
      ensures Valid(goal, p) && dev.data == old(dev.data) && Lag() == old(Lag())
    {
      var st := dev.TakeNotification();
      var lost: bool := *;
      if st.Some? && !lost {
        StaleSnoc(inbox, st.value, |dev.data|);
        inbox := inbox + [st.value];
      }
    }

    /** The channel at work: any packets sent before arrive, in any order and
        number, and pending notifications may go out. New notifications are
        behind the receiver only if it moves. */
    method Churn(ghost goal: Goal, ghost p: seq<byte>)
      requires Valid(goal, p)
      modifies this`inbox, dev
      ensures Valid(goal, p) && old(dev.data) <= dev.data
      ensures |dev.data| == |old(dev.data)| ==> Lag() <= old(Lag())
    {
      var n: int := *;
      for k := 0 to if n < 0 then 0 else n
        invariant Valid(goal, p) && old(dev.data) <= dev.data
        invariant |dev.data| == |old(dev.data)| ==> Lag() <= old(Lag())
      {
        var i: int := *;
        if 0 <= i < |wire| { Arrive(wire[i], goal, p); } else { Notification(goal, p); }
      }
    }

    /** A DATA write without response. */
    method WriteData(off: nat, part: seq<byte>, ghost goal: Goal, ghost p: seq<byte>)
      requires Valid(goal, p) && off < |p| && 0 < |part| && off + |part| <= |p| && part == p[off..off + |part|]
      modifies this, dev
      ensures Valid(goal, p) && old(dev.data) <= dev.data
      ensures |dev.data| == |old(dev.data)| ==> Lag() <= old(Lag())
      ensures old(owed) && |dev.data| == |old(dev.data)| ==> owed && off != |dev.data|
    {
      hide Stale;
      PacketTruthful(p, off, |part|);
      var pkt := DataPacket(off, part);
      RoundTrip16(off);
      assert pkt[..2] == Le16(off);
      wire := wire + [pkt];
      Churn(goal, p);
      var lucky: bool := *;
      if lucky || (owed && off == |dev.data|) {
        if off == |dev.data| { owed := false; }
        Arrive(pkt, goal, p);
      }
      Churn(goal, p);
    }

    /** Look at the oldest queued notification. */
    method Take(ghost goal: Goal, ghost p: seq<byte>) returns (st: Status)
      requires Valid(goal, p) && inbox != []
      modifies this`inbox
      ensures Valid(goal, p) && st == old(inbox)[0] && inbox == old(inbox)[1..]
      ensures Lag() + (if st.received < |dev.data| then 1 else 0) == old(Lag())
    {
      StaleHead(inbox, |dev.data|);
      st, inbox := inbox[0], inbox[1..];
    }

    /** Wait for a notification covering `upto`, dropping those that do not;
        none when the wait times out. */
    method WaitFor(upto: nat, ghost goal: Goal, ghost p: seq<byte>) returns (st: Option<Status>)
      requires Valid(goal, p)
      modifies this, dev
      ensures Valid(goal, p) && old(dev.data) <= dev.data && owed
      ensures |dev.data| == |old(dev.data)| ==> Lag() <= old(Lag())
      ensures st.Some? ==> upto <= st.value.received <= |dev.data|
    {
      hide Stale;
      owed := true;
      var polls: int := *;
      for k := 0 to if polls < 0 then 0 else polls
        invariant Valid(goal, p) && old(dev.data) <= dev.data && owed
        invariant |dev.data| == |old(dev.data)| ==> Lag() <= old(Lag())
      {
        Churn(goal, p);
        if inbox != [] {
          var head := Take(goal, p);
          if head.received >= upto { return Some(head); }
        }
      }
      st := None;
    }

    /** CTRL 04 and the next notification, which may be an old one; or, if none
        comes in time, a read of STATUS. */
    method Sync(ghost goal: Goal, ghost p: seq<byte>) returns (st: Status)
      requires Valid(goal, p)
      modifies this`inbox, dev
      ensures Valid(goal, p) && old(dev.data) <= dev.data
      ensures st.received <= |dev.data| && st.state == Receiving
      ensures |dev.data| == |old(dev.data)| ==> Lag() + (if st.received < |dev.data| then 1 else 0) <= old(Lag())
    {
      hide Stale;
      dev.Ctrl([0x04]);
      Churn(goal, p);
      var late: bool := *;
      if inbox != [] && !late {
        st := Take(goal, p);
      } else {
        st := Status(dev.state, |dev.data|, dev.expected);
      }
      Churn(goal, p);
    }

    /** CTRL 02. */
    method Commit(ghost goal: Goal, ghost p: seq<byte>)
      requires Valid(goal, p) && dev.data == p
      modifies dev
      ensures Outcome(dev.View(), goal, p)
    {
      hide Accepted, GoodParams;
      assert Ctrl(dev.View(), [0x02]) == BleSpec.Commit(dev.View());
      dev.Ctrl([0x02]);
    }
  }

  /** A burst: up to `count` packets of up to `chunk` bytes. A packet sent at
      the receiver's offset, which only the first can be known to be, moves it. */
  method Burst(link: Link, p: seq<byte>, start: nat, chunk: nat, count: nat, ghost goal: Goal) returns (off: nat)
    requires link.Valid(goal, p) && link.owed && start < |p| && start <= |link.dev.data|
    requires chunk >= 1 && count >= 1
    modifies link, link.dev
    ensures link.Valid(goal, p) && old(link.dev.data) <= link.dev.data
    ensures |link.dev.data| == |old(link.dev.data)| ==> link.Lag() <= old(link.Lag())
    ensures start < off <= |p|
    ensures start == |old(link.dev.data)| ==> |link.dev.data| > |old(link.dev.data)|
  {
    hide Announced, Truthful, Stale;
    off := start;
    for k := 0 to count
      invariant link.Valid(goal, p) && old(link.dev.data) <= link.dev.data
      invariant start <= off <= |p| && (k == 0 ==> off == start) && (k > 0 ==> off > start)
      invariant |link.dev.data| == |old(link.dev.data)| ==> link.Lag() <= old(link.Lag())
      invariant |link.dev.data| == |old(link.dev.data)| ==> link.owed && (start == |link.dev.data| ==> k == 0)
    {
      if off >= |p| { break; }
      var part := p[off..Min(off + chunk, |p|)];
      link.WriteData(off, part, goal, p);
      off := off + |part|;
    }
  }

  /** The loop of the Python sender: bursts of `ackEvery` packets, a wait, and
      a sync with rewind when the wait times out. It ends, and the commit then
      succeeds with the whole payload. */
  method SendImage(link: Link, w: u16, h: u16, p: seq<byte>, chunk: nat, ackEvery: nat)
    requires Sendable(Picture(w, h), p) && |p| <= MAX_IMAGE_BYTES
    requires chunk >= 1 && 1 <= ackEvery <= 255 && link.wire == [] && link.inbox == []
    modifies link, link.dev
    ensures link.dev.state == Committed && link.dev.done == Some(MonoImage(w, h, p))
  {
    hide Sendable, Announced, Truthful, Stale;
    ghost var goal := Picture(w, h);
    link.Start(Picture(w, h), p, ackEvery);
    var off := 0;
    while off < |p|
      invariant link.Valid(goal, p) && link.owed && 0 <= off <= |link.dev.data|
      decreases |p| - |link.dev.data|, link.Lag(), |link.dev.data| - off
    {
      var burstEnd := Burst(link, p, off, chunk, ackEvery, goal);
      var st := link.WaitFor(burstEnd, goal, p);
      off := burstEnd;
      if st.None? {
        var now := link.Sync(goal, p);
        if now.received < burstEnd { off := now.received; }
      }
    }
    link.Commit(goal, p);
  }

  const PAGE_ACK_EVERY := 16
  const CHUNK_BIG := 123
  const CHUNK_SMALL := 18

  /** A burst of the web page: a failed write makes the packets small for good
      and ends the burst; failing again is final. */
  method PageBurst(link: Link, p: seq<byte>, start: nat, big: nat, ghost goal: Goal)
    returns (off: nat, chunk: nat, failed: bool)
    requires link.Valid(goal, p) && link.owed && start < |p| && start <= |link.dev.data|
    requires big == CHUNK_BIG || big == CHUNK_SMALL
    modifies link, link.dev
    ensures link.Valid(goal, p) && old(link.dev.data) <= link.dev.data
    ensures |link.dev.data| == |old(link.dev.data)| ==> link.Lag() <= old(link.Lag())
    ensures start <= off <= |p| && (chunk == big || CHUNK_SMALL == chunk < big)
    ensures failed || off > start || chunk < big
    ensures off > start == |old(link.dev.data)| ==> |link.dev.data| > |old(link.dev.data)|
  {
    hide Announced, Truthful, Stale;
    off, chunk, failed := start, big, false;
    for k := 0 to PAGE_ACK_EVERY
      invariant link.Valid(goal, p) && old(link.dev.data) <= link.dev.data && chunk == big
      invariant start <= off <= |p| && (k == 0 ==> off == start) && (k > 0 ==> off > start)
      invariant |link.dev.data| == |old(link.dev.data)| ==> link.Lag() <= old(link.Lag())
      invariant |link.dev.data| == |old(link.dev.data)| ==> link.owed && (start == |link.dev.data| ==> k == 0)
    {
      if off >= |p| { break; }
      var part := p[off..Min(off + chunk, |p|)];
      var broken: bool := *;
      if broken {
        if chunk > CHUNK_SMALL { chunk := CHUNK_SMALL; } else { failed := true; }
        break;
      }
      link.WriteData(off, part, goal, p);
      off := off + |part|;
    }
  }

  /** The page's `transfer`, whose packets may shrink on the way: it ends, and
      unless the link refuses even small packets, the receiver ends with the
      whole payload accepted. */
  method PageTransfer(link: Link, goal: Goal, p: seq<byte>) returns (ok: bool)
    requires Sendable(goal, p) && |p| <= MAX_IMAGE_BYTES && link.wire == [] && link.inbox == []
    modifies link, link.dev
    ensures ok ==> Outcome(link.dev.View(), goal, p)
    ensures !ok ==> link.dev.state == Receiving && link.dev.data <= p
  {
    hide Sendable, Announced, Truthful, Outcome, Stale;
    link.Start(goal, p, PAGE_ACK_EVERY);
    var chunk, off := CHUNK_BIG, 0;
    while off < |p|
      invariant link.Valid(goal, p) && link.owed && 0 <= off <= |link.dev.data|
      invariant chunk == CHUNK_BIG || chunk == CHUNK_SMALL
      decreases |p| - |link.dev.data|, link.Lag(), |link.dev.data| - off, chunk
    {
      var burstStart := off;
      var burstEnd, next, failed := PageBurst(link, p, off, chunk, goal);
      if failed { return false; }
      chunk, off := next, burstEnd;
      var st := link.WaitFor(burstEnd, goal, p);
      if st.None? {
        var now := link.Sync(goal, p);
        if now.state != Receiving { return false; }
        if now.received < burstEnd {
          if now.received == burstStart && chunk > CHUNK_SMALL { chunk := CHUNK_SMALL; }
          off := now.received;
        }
      }
    }
    link.Commit(goal, p);
    ok := true;
  }
}
