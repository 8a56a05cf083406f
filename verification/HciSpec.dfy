/**
 HCI packets from the Bluetooth controller, and the reassembly of fragmented
 L2CAP PDUs (section 5.4.2 of volume 4 part E of the Bluetooth Core Specification).
 */
module HciSpec {
  import opened Bytes

  type Packet = seq<byte>

  const HCI_ACL := 0x02
  const HCI_EVENT := 0x04
  const ACL_HDR := 5
  const BUF := 1024
  const STRAY := 512

  function PbFlag(p: Packet): nat
    requires |p| >= 3
  {
    p[2] / 16 % 4
  }

  predicate Continuation(p: Packet) { |p| >= ACL_HDR && p[0] == HCI_ACL && PbFlag(p) == 1 }

  function AclLen(p: Packet): nat
    requires |p| >= 5
  {
    FromLe16(p[3..5])
  }

  /** L2CAP header included, the length of the PDU a first fragment announces. */
  function Wanted(p: Packet): nat
    requires |p| >= 7
  {
    FromLe16(p[5..7]) + 4
  }

  /** A packet that must be completed with the fragments behind it. */
  predicate NeedsMore(p: Packet) {
    |p| >= ACL_HDR + 4 && p[0] == HCI_ACL && PbFlag(p) != 1 && AclLen(p) < Wanted(p)
  }

  function Min(a: nat, b: nat): nat { if a < b then a else b }

  /** One packet met while gathering: a fragment extends the buffer, another
      packet is put aside while there is room, nothing is nothing. */
  function Absorb(buf: seq<byte>, stray: seq<byte>, m: Packet): (r: (seq<byte>, seq<byte>))
    requires ACL_HDR <= |buf| <= BUF && |stray| <= STRAY
    ensures |buf| <= |r.0| <= BUF && |r.1| <= STRAY
  {
    if m == [] then (buf, stray)
    else if Continuation(m) then
      var k := Min(|m| - ACL_HDR, BUF - |buf|);
      (buf + m[ACL_HDR..ACL_HDR + k], stray)
    else if |stray| + |m| <= STRAY then (buf, stray + m)
    else (buf, stray)
  }

  /** The gathering loop: bytes so far, packets put aside, and what the
      controller still has. An empty packet is a poll that found nothing; a
      controller with nothing left times out. */
  function Gather(
    buf: seq<byte>, want: nat, stray: seq<byte>, queue: seq<Packet>): (r: (seq<byte>, seq<byte>, seq<Packet>))
    requires ACL_HDR <= |buf| <= BUF && |stray| <= STRAY
    ensures |buf| <= |r.0| <= BUF && |r.1| <= STRAY
    ensures |r.2| <= |queue| && r.2 == queue[|queue| - |r.2|..]
    decreases |queue|
  {
    if |buf| - ACL_HDR >= want || queue == [] then (buf, stray, queue)
    else
      var (b, s) := Absorb(buf, stray, queue[0]);
      Gather(b, want, s, queue[1..])
  }

  /** A packet with its length field set to what it now carries. */
  function Relabel(buf: seq<byte>): (r: seq<byte>)
    requires ACL_HDR <= |buf| <= BUF
    ensures |r| == |buf|
  {
    Splice(buf, 3, Le16(|buf| - ACL_HDR))
  }

  predicate Small(queue: seq<Packet>) { forall i :: 0 <= i < |queue| ==> |queue[i]| <= STRAY }

  /** `fill`: the bytes made ready, and what the controller still has. */
  function Fill(queue: seq<Packet>): (r: (seq<byte>, seq<Packet>))
    requires Small(queue)
    ensures Small(r.1) && |r.0| <= BUF && (queue != [] ==> |r.1| < |queue|)
  {
    if queue == [] then ([], [])
    else if !NeedsMore(queue[0]) then (queue[0], queue[1..])
    else
      var (buf, stray, rest) := Gather(queue[0], Wanted(queue[0]), [], queue[1..]);
      (Relabel(buf) + stray[..Min(|stray|, BUF - |buf|)], rest)
  }

  // --------------------------------------------------- a well-behaved stream

  /** A packet whose own length fields say where it ends. */
  predicate Framed(p: Packet) {
    || (|p| >= 3 && p[0] == HCI_EVENT && |p| == 3 + p[2] as int)
    || (|p| >= ACL_HDR && p[0] == HCI_ACL && |p| == ACL_HDR + AclLen(p))
  }

  /** What may come between the fragments of a PDU. */
  datatype Between = Piece(p: Packet) | Other(p: Packet) | Nothing

  /** What a controller with one connection delivers: nothing for a while, packets that stand on
      their own, and PDUs cut into a first fragment and the rest. */
  datatype Item = Pause | Whole(p: Packet) | Cut(first: Packet, rest: seq<Between>)

  function Sent(b: Between): Packet { if b.Nothing? then [] else b.p }

  function SentAll(bs: seq<Between>): seq<Packet> { seq(|bs|, i requires 0 <= i < |bs| => Sent(bs[i])) }

  function Body(b: Between): seq<byte> { if b.Piece? && |b.p| >= ACL_HDR then b.p[ACL_HDR..] else [] }

  /** The fragments' payloads in order. */
  function Payload(bs: seq<Between>): seq<byte> { if bs == [] then [] else Body(bs[0]) + Payload(bs[1..]) }

  /** The other packets in order. */
  function Others(bs: seq<Between>): seq<Packet> {
    if bs == [] then [] else (if bs[0].Other? then [bs[0].p] else []) + Others(bs[1..])
  }

  function OtherBytes(b: Between): seq<byte> { if b.Other? then b.p else [] }

  /** The other packets' bytes in order. */
  function Aside(bs: seq<Between>): seq<byte> { if bs == [] then [] else OtherBytes(bs[0]) + Aside(bs[1..]) }

  function Flat(ps: seq<Packet>): seq<byte> { if ps == [] then [] else ps[0] + Flat(ps[1..]) }

  predicate GoodBetween(b: Between) {
    match b
    case Piece(p) => Continuation(p) && Framed(p) && |p| > ACL_HDR
    case Other(p) => Framed(p) && p[0] == HCI_EVENT
    case Nothing => true
  }

  /** The PDU is complete exactly at its last fragment, and everything fits the buffers. */
  predicate GoodItem(it: Item) {
    match it
    case Pause => true
    case Whole(p) => Framed(p) && !NeedsMore(p) && |p| <= STRAY
    case Cut(first, rest) =>
      && Framed(first) && NeedsMore(first) && |first| <= STRAY
      && (forall i :: 0 <= i < |rest| ==> GoodBetween(rest[i]) && |Sent(rest[i])| <= STRAY)
      && rest != [] && rest[|rest| - 1].Piece?
      && |first| - ACL_HDR + |Payload(rest)| == Wanted(first)
      && |Aside(rest)| <= STRAY
      && |first| + |Payload(rest)| + |Aside(rest)| <= BUF
  }

  function Packets(it: Item): seq<Packet> {
    match it
    case Pause => [[]]
    case Whole(p) => [p]
    case Cut(first, rest) => [first] + SentAll(rest)
  }

  /** The packets the host is to see: each PDU as one ACL packet, then the packets that came in between. */
  function Seen(it: Item): seq<Packet>
    requires GoodItem(it)
  {
    match it
    case Pause => []
    case Whole(p) => [p]
    case Cut(first, rest) => [Relabel(first + Payload(rest))] + Others(rest)
  }

  lemma {:induction false} AsideIsOthers(bs: seq<Between>)
    ensures Flat(Others(bs)) == Aside(bs)
    decreases |bs|
  {
    if bs == [] {
    } else {
      hide Flat, Others, Aside;
      AsideIsOthers(bs[1..]);
      OthersCons(bs);
      AsideCons(bs);
      if bs[0].Other? { FlatCons(bs[0].p, Others(bs[1..])); }
    }
  }

  lemma AsideCons(bs: seq<Between>)
    requires bs != []
    ensures Aside(bs) == if bs[0].Other? then bs[0].p + Aside(bs[1..]) else Aside(bs[1..])
  {
    assert [] + Aside(bs[1..]) == Aside(bs[1..]);
  }

  lemma OthersCons(bs: seq<Between>)
    requires bs != []
    ensures Others(bs) == if bs[0].Other? then [bs[0].p] + Others(bs[1..]) else Others(bs[1..])
  {
  }

  lemma FlatCons(p: Packet, ps: seq<Packet>)
    ensures Flat([p] + ps) == p + Flat(ps)
  {
    assert ([p] + ps)[1..] == ps;
  }

  lemma AbsorbGood(buf: seq<byte>, stray: seq<byte>, b: Between)
    requires GoodBetween(b) && ACL_HDR <= |buf| && |buf| + |Body(b)| <= BUF
    requires |stray| + |OtherBytes(b)| <= STRAY
    ensures Absorb(buf, stray, Sent(b)) == (buf + Body(b), stray + OtherBytes(b))
  {
    assert stray + [] == stray && buf + [] == buf;
    match b
    case Nothing =>
    case Piece(p) =>
      assert Min(|p| - ACL_HDR, BUF - |buf|) == |p| - ACL_HDR;
      assert p[ACL_HDR..ACL_HDR + (|p| - ACL_HDR)] == p[ACL_HDR..] == Body(b);
    case Other(p) =>
  }

  lemma SentCons(bs: seq<Between>, tail: seq<Packet>)
    requires bs != []
    ensures var q := SentAll(bs) + tail; q != [] && q[0] == Sent(bs[0]) && q[1..] == SentAll(bs[1..]) + tail
  {
  }

  lemma NothingSent(tail: seq<Packet>)
    ensures SentAll([]) + tail == tail
  {
  }

  /** Gathering takes in every fragment and every other packet, in order, and stops with the PDU. */
  lemma {:induction false} GatherTakes(buf: seq<byte>, want: nat, stray: seq<byte>, bs: seq<Between>, tail: seq<Packet>)
    requires forall i :: 0 <= i < |bs| ==> GoodBetween(bs[i])
    requires ACL_HDR <= |buf| && |buf| - ACL_HDR + |Payload(bs)| == want
    requires bs != [] ==> bs[|bs| - 1].Piece?
    requires |buf| + |Payload(bs)| <= BUF && |stray| + |Aside(bs)| <= STRAY
    ensures Gather(buf, want, stray, SentAll(bs) + tail) == (buf + Payload(bs), stray + Aside(bs), tail)
    decreases |bs|
  {
    hide Absorb, GoodBetween, Body, OtherBytes, SentAll;
    if bs == [] {
      NothingSent(tail);
      assert buf + [] == buf && stray + [] == stray;
    } else {
      var b := bs[0];
      SentCons(bs, tail);
      AbsorbGood(buf, stray, b);
      PayloadPositive(bs);
      GatherTakes(buf + Body(b), want, stray + OtherBytes(b), bs[1..], tail);
      assert buf + Body(b) + Payload(bs[1..]) == buf + Payload(bs);
      assert stray + OtherBytes(b) + Aside(bs[1..]) == stray + Aside(bs);
    }
  }

  lemma {:induction false} PayloadPositive(bs: seq<Between>)
    requires bs != [] && bs[|bs| - 1].Piece? && GoodBetween(bs[|bs| - 1])
    ensures |Payload(bs)| > 0
    decreases |bs|
  {
    if |bs| > 1 { PayloadPositive(bs[1..]); }
  }

  lemma FillCut(first: Packet, rest: seq<Between>, tail: seq<Packet>, queue: seq<Packet>)
    requires GoodItem(Cut(first, rest)) && queue == [first] + SentAll(rest) + tail
    requires Small(queue)
    ensures Fill(queue) == (Relabel(first + Payload(rest)) + Aside(rest), tail)
  {
    hide Gather, SentAll, Payload, Aside, Relabel, GoodBetween, Framed, Sent, Splice;
    assert queue[0] == first;
    assert queue[1..] == SentAll(rest) + tail;
    GatherTakes(first, Wanted(first), [], rest, tail);
    assert [] + Aside(rest) == Aside(rest) == Aside(rest)[..|Aside(rest)|];
  }

  /** One `fill` turns one item into the packets the host is to see. */
  lemma FillOne(it: Item, tail: seq<Packet>)
    requires GoodItem(it)
    requires Small(Packets(it) + tail)
    ensures Fill(Packets(it) + tail) == (Flat(Seen(it)), tail)
  {
    hide SentAll, Payload, Relabel, Others, Aside, GoodBetween, Framed, Fill;
    var queue := Packets(it) + tail;
    match it
    case Pause =>
      FillNothing(tail);
    case Whole(p) =>
      FillWhole(p, tail);
      assert Flat([p]) == p + Flat([]) == p;
    case Cut(first, rest) =>
      FillCut(first, rest, tail, queue);
      FlatCons(Relabel(first + Payload(rest)), Others(rest));
      AsideIsOthers(rest);
  }

  lemma FillNothing(tail: seq<Packet>)
    requires Small([[]] + tail)
    ensures Fill([[]] + tail) == ([], tail)
  {
    assert ([[]] + tail)[0] == [] && ([[]] + tail)[1..] == tail;
  }

  lemma FillWhole(p: Packet, tail: seq<Packet>)
    requires GoodItem(Whole(p))
    requires Small([p] + tail)
    ensures Fill([p] + tail) == (p, tail)
  {
    var queue := [p] + tail;
    assert queue[0] == p && queue[1..] == tail;
  }

  lemma RelabelLayout(b: seq<byte>)
    requires ACL_HDR <= |b| <= BUF
    ensures var m := Relabel(b);
            AclLen(m) == |b| - ACL_HDR && m[..3] == b[..3] && m[ACL_HDR..] == b[ACL_HDR..]
  {
    RoundTrip16(|b| - ACL_HDR);
    assert Relabel(b)[3..5] == Le16(|b| - ACL_HDR);
  }

  /** A reassembled PDU is one framed ACL packet carrying all its fragments'
      bytes; its length field matches the L2CAP length it announces. */
  lemma MergedIsFramed(first: Packet, rest: seq<Between>)
    requires GoodItem(Cut(first, rest))
    ensures var m := Relabel(first + Payload(rest));
            && Framed(m) && !NeedsMore(m) && AclLen(m) == Wanted(m) == Wanted(first)
            && m[..3] == first[..3] && m[ACL_HDR..] == first[ACL_HDR..] + Payload(rest)
  {
    hide Payload, Relabel, Aside, GoodBetween, SentAll;
    var b := first + Payload(rest);
    var m := Relabel(b);
    RelabelLayout(b);
    assert m[0] == m[..3][0] == first[0];
    assert m[5..7] == m[5..][..2] == first[5..7];
  }

  // ------------------------------------------------------------ whole streams

  function PacketsAll(items: seq<Item>): seq<Packet> {
    if items == [] then [] else Packets(items[0]) + PacketsAll(items[1..])
  }

  function SeenAll(items: seq<Item>): seq<Packet>
    requires forall i :: 0 <= i < |items| ==> GoodItem(items[i])
  {
    if items == [] then [] else Seen(items[0]) + SeenAll(items[1..])
  }

  /** All bytes that filling again and again makes ready. */
  function Drain(queue: seq<Packet>): seq<byte>
    requires Small(queue)
    decreases |queue|
  {
    if queue == [] then [] else Fill(queue).0 + Drain(Fill(queue).1)
  }

  /** A byte stream cut into packets by their own length fields; none if it does not cut evenly. */
  function Frames(s: seq<byte>): Option<seq<Packet>> {
    if s == [] then Some([])
    else
      var n: nat := if |s| >= 3 && s[0] == HCI_EVENT then 3 + s[2] as int
                    else if |s| >= ACL_HDR && s[0] == HCI_ACL then ACL_HDR + AclLen(s) else 0;
      if n == 0 || n > |s| then None
      else
        var rest := Frames(s[n..]);
        if rest.None? then None else Some([s[..n]] + rest.value)
  }

  lemma {:induction false} FlatConcat(a: seq<Packet>, b: seq<Packet>)
    ensures Flat(a + b) == Flat(a) + Flat(b)
    decreases |a|
  {
    if a == [] {
      assert a + b == b;
    } else {
      FlatConcat(a[1..], b);
      assert (a + b)[1..] == a[1..] + b;
    }
  }

  lemma {:induction false} FramesFlat(ps: seq<Packet>)
    requires forall i :: 0 <= i < |ps| ==> Framed(ps[i])
    ensures Frames(Flat(ps)) == Some(ps)
    decreases |ps|
  {
    if ps != [] {
      var s, p := Flat(ps), ps[0];
      FramesFlat(ps[1..]);
      assert s[..|p|] == p && s[|p|..] == Flat(ps[1..]);
      assert s[0] == p[0];
      if p[0] == HCI_ACL { assert s[3..5] == p[3..5]; } else { assert s[2] == p[2]; }
      assert [p] + ps[1..] == ps;
    }
  }

  lemma SeenFramed(it: Item)
    requires GoodItem(it)
    ensures forall i :: 0 <= i < |Seen(it)| ==> Framed(Seen(it)[i]) && !NeedsMore(Seen(it)[i])
  {
    if it.Cut? {
      MergedIsFramed(it.first, it.rest);
      OthersFramed(it.rest);
    }
  }

  lemma {:induction false} OthersFramed(bs: seq<Between>)
    requires forall i :: 0 <= i < |bs| ==> GoodBetween(bs[i])
    ensures forall i :: 0 <= i < |Others(bs)| ==> Framed(Others(bs)[i]) && !NeedsMore(Others(bs)[i])
    decreases |bs|
  {
    if bs != [] { OthersFramed(bs[1..]); }
  }

  lemma {:induction false} SeenAllFramed(items: seq<Item>)
    requires forall i :: 0 <= i < |items| ==> GoodItem(items[i])
    ensures forall i :: 0 <= i < |SeenAll(items)| ==> Framed(SeenAll(items)[i]) && !NeedsMore(SeenAll(items)[i])
    decreases |items|
  {
    hide GoodItem, Seen;
    if items != [] {
      SeenFramed(items[0]);
      SeenAllFramed(items[1..]);
    }
  }

  /** The bytes the host reads are whole packets, complete, in order, with
      nothing lost or repeated: cut by their own lengths they are exactly the
      packets to be seen, none of which needs another fragment. */
  lemma {:induction false} StreamReassembled(items: seq<Item>)
    requires (forall i :: 0 <= i < |items| ==> GoodItem(items[i])) && Small(PacketsAll(items))
    ensures Drain(PacketsAll(items)) == Flat(SeenAll(items))
    ensures Frames(Drain(PacketsAll(items))) == Some(SeenAll(items))
    ensures forall i :: 0 <= i < |SeenAll(items)| ==> !NeedsMore(SeenAll(items)[i])
    decreases |items|
  {
    hide GoodItem, Seen, Fill, Packets;
    if items != [] {
      var queue, tail := PacketsAll(items), PacketsAll(items[1..]);
      assert Small(tail) by { SmallTail(Packets(items[0]), tail); }
      StreamReassembled(items[1..]);
      FillOne(items[0], tail);
      FlatConcat(Seen(items[0]), SeenAll(items[1..]));
      PacketsPresent(items[0]);
    }
    SeenAllFramed(items);
    FramesFlat(SeenAll(items));
  }

  lemma SmallTail(a: seq<Packet>, b: seq<Packet>)
    requires Small(a + b)
    ensures Small(b)
  {
    forall i | 0 <= i < |b| ensures |b[i]| <= STRAY { assert (a + b)[|a| + i] == b[i]; }
  }

  lemma PacketsPresent(it: Item)
    ensures Packets(it) != []
  {
  }

  // ------------------------------------------------------------ reads

  /** `read` with `rest` ready: what the host gets, what stays ready, what the controller still has. */
  function Serve(rest: seq<byte>, queue: seq<Packet>, max: nat): (r: (seq<byte>, seq<byte>, seq<Packet>))
    requires Small(queue)
    ensures Small(r.2)
  {
    var (ready, q) := if rest == [] then Fill(queue) else (rest, queue);
    var n := Min(max, |ready|);
    (ready[..n], ready[n..], q)
  }

  /** Reads of the given sizes one after the other, from an empty buffer. */
  function Reads(queue: seq<Packet>, sizes: seq<nat>): (r: (seq<byte>, seq<byte>, seq<Packet>))
    requires Small(queue)
    ensures Small(r.2)
  {
    if sizes == [] then ([], [], queue)
    else
      var (out, rest, q) := Reads(queue, sizes[..|sizes| - 1]);
      var (more, rest', q') := Serve(rest, q, sizes[|sizes| - 1]);
      (out + more, rest', q')
  }

  predicate AllGood(items: seq<Item>) { forall i :: 0 <= i < |items| ==> GoodItem(items[i]) }

  lemma {:induction false} SeenAllSnoc(items: seq<Item>, k: nat)
    requires AllGood(items) && k < |items|
    ensures SeenAll(items[..k + 1]) == SeenAll(items[..k]) + Seen(items[k])
    decreases k
  {
    hide Seen, GoodItem;
    assert items[..k + 1][1..] == items[1..][..k];
    if k > 0 {
      SeenAllSnoc(items[1..], k - 1);
      assert items[..k][1..] == items[1..][..k - 1];
    }
  }

  /** A read either takes from what is ready, or first makes one item ready. */
  lemma ServeOne(items: seq<Item>, k: nat, out: seq<byte>, rest: seq<byte>, max: nat) returns (k': nat)
    requires AllGood(items) && k <= |items| && Small(PacketsAll(items[k..]))
    requires out + rest == Flat(SeenAll(items[..k]))
    ensures k <= k' <= |items|
    ensures var (more, rest', q) := Serve(rest, PacketsAll(items[k..]), max);
            q == PacketsAll(items[k'..]) && out + more + rest' == Flat(SeenAll(items[..k']))
  {
    hide Seen, GoodItem, Packets, Fill, Small, SeenAll, Flat;
    var queue := PacketsAll(items[k..]);
    var (more, rest', q) := Serve(rest, queue, max);
    k' := k;
    if rest == [] && k < |items| {
      k' := k + 1;
      assert items[k..][1..] == items[k + 1..];
      FillOne(items[k], PacketsAll(items[k + 1..]));
      SeenAllSnoc(items, k);
      FlatConcat(SeenAll(items[..k]), Seen(items[k]));
      assert out + [] == out;
      assert out + more + rest' == out + (more + rest');
    } else if rest == [] {
      FillEmpty();
      assert out + more + rest' == out + rest;
    } else {
      assert out + more + rest' == out + rest;
    }
  }

  lemma FillEmpty()
    ensures PacketsAll([]) == [] && Fill([]) == ([], [])
  {
  }

  /** After any reads of any sizes, what the host has and what is ready for it are together whole packets. */
  lemma {:induction false} ReadsInStep(items: seq<Item>, sizes: seq<nat>) returns (k: nat)
    requires AllGood(items) && Small(PacketsAll(items))
    ensures k <= |items|
    ensures var (out, rest, q) := Reads(PacketsAll(items), sizes);
            q == PacketsAll(items[k..]) && out + rest == Flat(SeenAll(items[..k]))
    decreases |sizes|
  {
    hide Seen, GoodItem, Serve, Small;
    if sizes == [] {
      k := 0;
      assert items[0..] == items;
    } else {
      var j := ReadsInStep(items, sizes[..|sizes| - 1]);
      var (out, rest, q) := Reads(PacketsAll(items), sizes[..|sizes| - 1]);
      k := ServeOne(items, j, out, rest, sizes[|sizes| - 1]);
    }
  }

  /** What the host relies on: inside a packet every byte is there when it is
      asked for. A read that comes back empty only ever comes between packets. */
  lemma EmptyReadsBetweenPackets(items: seq<Item>, sizes: seq<nat>, max: nat) returns (k: nat)
    requires AllGood(items) && Small(PacketsAll(items)) && max > 0
    ensures var (out, rest, q) := Reads(PacketsAll(items), sizes);
            k <= |items|
            && (Serve(rest, q, max).0 == [] ==>
                  out == Flat(SeenAll(items[..k])) && Frames(out) == Some(SeenAll(items[..k])))
  {
    hide Seen, GoodItem, Small, Flat, SeenAll, Frames, Fill;
    k := ReadsInStep(items, sizes);
    var (out, rest, q) := Reads(PacketsAll(items), sizes);
    if rest == [] {
      assert out + rest == out;
      SeenAllFramed(items[..k]);
      FramesFlat(SeenAll(items[..k]));
    }
  }
}
