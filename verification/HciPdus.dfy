/**
 L2CAP PDUs on their way through the controller, spelled out byte by byte
 (section 5.4.2 of volume 4 part E, and section 3.1 of volume 3 part A, of the
 Bluetooth Core Specification), and what the host reads of them.
 */
module HciPdus {
  import opened Bytes
  import opened HciSpec

  /** Connection handle, low byte and upper four bits, and the channel. */
  datatype Link = Link(low: byte, high: nat, channel: seq<byte>)

  predicate GoodLink(l: Link) { l.high < 16 && |l.channel| == 2 }

  function Low(n: nat): byte { n % 256 }

  function High(n: nat): byte
    requires n < 0x1_0000
  {
    n / 256
  }

  /** An L2CAP PDU: the length of its information, the channel, the information. */
  function Pdu(l: Link, info: seq<byte>): (s: seq<byte>)
    requires GoodLink(l) && |info| < 0x1_0000
    ensures |s| == |info| + 4
  {
    [Low(|info|), High(|info|)] + l.channel + info
  }

  /** An ACL packet: type, handle with the boundary flag above it, data length, data. */
  function Acl(l: Link, boundary: nat, data: seq<byte>): (p: Packet)
    requires GoodLink(l) && boundary < 4 && |data| < 0x1_0000
    ensures |p| == |data| + 5
  {
    [0x02, l.low, l.high + 16 * boundary, Low(|data|), High(|data|)] + data
  }

  /** An event packet: type, code, parameter length, parameters. */
  function HciEvent(code: byte, params: seq<byte>): (p: Packet)
    requires |params| < 256
    ensures |p| == |params| + 3
  {
    [0x04, code, |params|] + params
  }

  /** What the controller has after the first fragment: more of the PDU, an event, or nothing yet. */
  datatype Next = More(data: seq<byte>) | Meanwhile(code: byte, params: seq<byte>) | Poll

  predicate GoodNext(x: Next) {
    match x
    case More(data) => 1 <= |data| <= 507
    case Meanwhile(_, params) => |params| < 256
    case Poll => true
  }

  predicate AllGoodNext(xs: seq<Next>) { forall i :: 0 <= i < |xs| ==> GoodNext(xs[i]) }

  function Queued(l: Link, x: Next): Packet
    requires GoodLink(l) && GoodNext(x)
  {
    match x
    case More(data) => Acl(l, 1, data)
    case Meanwhile(code, params) => HciEvent(code, params)
    case Poll => []
  }

  function QueuedAll(l: Link, xs: seq<Next>): seq<Packet>
    requires GoodLink(l) && AllGoodNext(xs)
  {
    if xs == [] then [] else [Queued(l, xs[0])] + QueuedAll(l, xs[1..])
  }

  /** The rest of the PDU, piece by piece. */
  function Pieces(xs: seq<Next>): seq<byte> {
    if xs == [] then [] else (if xs[0].More? then xs[0].data else []) + Pieces(xs[1..])
  }

  /** The events in between. */
  function Events(xs: seq<Next>): seq<Packet>
    requires AllGoodNext(xs)
  {
    if xs == [] then []
    else (if xs[0].Meanwhile? then [HciEvent(xs[0].code, xs[0].params)] else []) + Events(xs[1..])
  }

  /** A PDU cut after `cut` bytes, at least its header, into a first fragment
      (boundary flag 0 or 2) and continuations, the last of which ends it. */
  predicate GoodCut(l: Link, info: seq<byte>, first: nat, cut: nat, xs: seq<Next>) {
    && GoodLink(l) && (first == 0 || first == 2)
    && |info| + 4 + 5 <= 1024
    && 4 <= cut < |info| + 4 && cut <= 507
    && AllGoodNext(xs) && xs != [] && xs[|xs| - 1].More?
    && Pieces(xs) == Pdu(l, info)[cut..]
    && |Flat(Events(xs))| <= 512 && |info| + 9 + |Flat(Events(xs))| <= 1024
  }

  // ------------------------------------------ what the packets say of themselves

  lemma AclSays(l: Link, boundary: nat, data: seq<byte>)
    requires GoodLink(l) && boundary < 4 && |data| < 0x1_0000
    ensures var p := Acl(l, boundary, data);
            && p[0] == HCI_ACL && PbFlag(p) == boundary && AclLen(p) == |data| && Framed(p) && p[5..] == data
  {
    var p := Acl(l, boundary, data);
    FlagBits(l.high, boundary);
    assert p[3..5] == [Low(|data|), High(|data|)];
  }

  lemma FlagBits(high: nat, boundary: nat)
    requires high < 16 && boundary < 4
    ensures (high + 16 * boundary) / 16 % 4 == boundary
  {
  }

  /** The first fragment announces its whole PDU: header included, `|info| + 4` bytes. */
  lemma FirstSays(l: Link, info: seq<byte>, first: nat, cut: nat)
    requires GoodLink(l) && (first == 0 || first == 2) && |info| < 0xFFF0 && 4 <= cut <= |info| + 4
    ensures var p := Acl(l, first, Pdu(l, info)[..cut]);
            && Framed(p) && Wanted(p) == |info| + 4 && (NeedsMore(p) <==> cut < |info| + 4) && !Continuation(p)
  {
    var data := Pdu(l, info)[..cut];
    var p := Acl(l, first, data);
    AclSays(l, first, data);
    assert p[5..][..2] == p[5..7] == data[..2] == [Low(|info|), High(|info|)];
  }

  function AsBetween(l: Link, x: Next): Between
    requires GoodLink(l) && GoodNext(x)
  {
    match x
    case More(data) => Piece(Acl(l, 1, data))
    case Meanwhile(code, params) => Other(HciEvent(code, params))
    case Poll => Nothing
  }

  function AsBetweens(l: Link, xs: seq<Next>): (bs: seq<Between>)
    requires GoodLink(l) && AllGoodNext(xs)
    ensures |bs| == |xs|
  {
    if xs == [] then [] else [AsBetween(l, xs[0])] + AsBetweens(l, xs[1..])
  }

  lemma BetweenSays(l: Link, x: Next)
    requires GoodLink(l) && GoodNext(x)
    ensures var b := AsBetween(l, x);
            && GoodBetween(b) && Sent(b) == Queued(l, x) && |Sent(b)| <= 512 && (b.Piece? <==> x.More?)
            && Body(b) == (if x.More? then x.data else [])
            && (b.Other? <==> x.Meanwhile?) && (b.Other? ==> b.p == HciEvent(x.code, x.params))
  {
    if x.More? { AclSays(l, 1, x.data); }
  }

  lemma {:induction false} BetweensSay(l: Link, xs: seq<Next>)
    requires GoodLink(l) && AllGoodNext(xs)
    ensures var bs := AsBetweens(l, xs);
            && (forall i :: 0 <= i < |bs| ==> GoodBetween(bs[i]) && |Sent(bs[i])| <= 512)
            && SentAll(bs) == QueuedAll(l, xs) && Payload(bs) == Pieces(xs) && Others(bs) == Events(xs)
            && (xs != [] ==> (bs[|bs| - 1].Piece? <==> xs[|xs| - 1].More?))
    decreases |xs|
  {
    hide GoodBetween, AsBetween, Queued, Sent, Body, SentAll;
    if xs == [] {
      assert SentAll([]) == [] by { NothingToSend(); }
    } else {
      BetweenSays(l, xs[0]);
      BetweensSay(l, xs[1..]);
      var bs := AsBetweens(l, xs);
      assert bs[1..] == AsBetweens(l, xs[1..]);
      SentAllCons(bs);
    }
  }

  lemma NothingToSend()
    ensures SentAll([]) == []
  {
  }

  lemma SentAllCons(bs: seq<Between>)
    requires bs != []
    ensures SentAll(bs) == [Sent(bs[0])] + SentAll(bs[1..])
  {
  }

  // --------------------------------------------------------- one PDU at a time

  /** However a PDU is cut and whatever comes in between, one `fill` makes of
      it one ACL packet that holds exactly the PDU, with the right data length;
      the events follow it, and nothing else is taken from the controller. */
  lemma PduReassembled(l: Link, info: seq<byte>, first: nat, cut: nat, xs: seq<Next>, tail: seq<Packet>)
    requires GoodCut(l, info, first, cut, xs) && Small(tail)
    ensures var queue := [Acl(l, first, Pdu(l, info)[..cut])] + QueuedAll(l, xs) + tail;
            Small(queue) && Fill(queue) == (Acl(l, first, Pdu(l, info)) + Flat(Events(xs)), tail)
  {
    hide Fill, GoodBetween, SentAll, Relabel, Flat, Payload, Others, Aside, QueuedAll, Pieces, Events;
    var pdu := Pdu(l, info);
    var p, bs := Acl(l, first, pdu[..cut]), AsBetweens(l, xs);
    var queue := [p] + QueuedAll(l, xs) + tail;
    BetweensSay(l, xs);
    SmallQueue(p, bs, tail);
    PduItemGood(l, info, first, cut, xs);
    FillOne(Cut(p, bs), tail);
    assert Fill(queue).0 == Flat([Relabel(p + Payload(bs))] + Others(bs));
    FlatCons(Relabel(p + Payload(bs)), Others(bs));
    RelabelIsAcl(l, first, pdu[..cut], pdu[cut..]);
    assert pdu[..cut] + pdu[cut..] == pdu;
  }

  lemma SmallQueue(p: Packet, bs: seq<Between>, tail: seq<Packet>)
    requires |p| <= STRAY && Small(tail) && forall i :: 0 <= i < |bs| ==> |Sent(bs[i])| <= 512
    ensures Small([p] + SentAll(bs) + tail)
  {
  }

  /** The packets are a stream the reassembler is made for. */
  lemma PduItemGood(l: Link, info: seq<byte>, first: nat, cut: nat, xs: seq<Next>)
    requires GoodCut(l, info, first, cut, xs)
    ensures GoodItem(Cut(Acl(l, first, Pdu(l, info)[..cut]), AsBetweens(l, xs)))
  {
    hide GoodBetween, Framed, NeedsMore, Wanted, Flat, Payload, Others, Aside, Pieces, Events, AsBetweens, Acl;
    BetweensSay(l, xs);
    FirstSays(l, info, first, cut);
    AsideIsOthers(AsBetweens(l, xs));
  }

  lemma RelabelIsAcl(l: Link, boundary: nat, a: seq<byte>, b: seq<byte>)
    requires GoodLink(l) && boundary < 4 && |a| + |b| + 5 <= BUF
    ensures Relabel(Acl(l, boundary, a) + b) == Acl(l, boundary, a + b)
  {
    var m := Acl(l, boundary, a) + b;
    assert Le16(|m| - ACL_HDR) == [Low(|a + b|), High(|a + b|)];
  }

  /** A PDU that was not cut, and an event, are handed on as they are. */
  lemma WholeHandedOn(l: Link, info: seq<byte>, first: nat, code: byte, params: seq<byte>, tail: seq<Packet>)
    requires GoodLink(l) && (first == 0 || first == 2) && |info| + 9 <= 512 && |params| < 256 && Small(tail)
    ensures var p := Acl(l, first, Pdu(l, info)); Small([p] + tail) && Fill([p] + tail) == (p, tail)
    ensures var e := HciEvent(code, params); Small([e] + tail) && Fill([e] + tail) == (e, tail)
  {
    hide Acl, Pdu;
    FirstSays(l, info, first, |info| + 4);
    var pdu := Pdu(l, info);
    assert pdu[..|info| + 4] == pdu;
    FillWhole(Acl(l, first, pdu), tail);
    FillWhole(HciEvent(code, params), tail);
  }

  /** A first fragment that ends within the L2CAP header is not recognised as
      one: it goes to the host alone. */
  lemma HeaderMustBeWhole(l: Link, info: seq<byte>, first: nat, cut: nat, tail: seq<Packet>)
    requires GoodLink(l) && (first == 0 || first == 2) && |info| < 0xFFF0 && cut < 4 && Small(tail)
    ensures var p := Acl(l, first, Pdu(l, info)[..cut]); Small([p] + tail) && Fill([p] + tail) == (p, tail)
  {
    var p := Acl(l, first, Pdu(l, info)[..cut]);
    AclSays(l, first, Pdu(l, info)[..cut]);
    assert ([p] + tail)[0] == p && ([p] + tail)[1..] == tail;
  }

  /** A write of 25 bytes, as a controller with 27-byte buffers sends it. */
  lemma TwoFragments(l: Link, info: seq<byte>)
    requires GoodLink(l) && |info| == 25
    ensures var xs := [Poll, Meanwhile(0x13, [1]), More(Pdu(l, info)[27..])]; GoodCut(l, info, 2, 27, xs)
  {
    hide Acl;
    var last, note := More(Pdu(l, info)[27..]), Meanwhile(0x13, [1]);
    var xs := [Poll, note, last];
    assert xs[1..] == [note, last] && [note, last][1..] == [last] && [last][1..] == [];
    assert Pieces([last]) == last.data + Pieces([]) == last.data;
    assert Pieces([note, last]) == [] + Pieces([last]) == last.data;
    assert Pieces(xs) == [] + Pieces([note, last]) == last.data;
    assert Events([last]) == [] + Events([]) == [];
    assert Events([note, last]) == [HciEvent(0x13, [1])] + Events([last]) == [HciEvent(0x13, [1])];
    assert Events(xs) == [] + Events([note, last]) == [HciEvent(0x13, [1])];
    FlatOne(HciEvent(0x13, [1]));
  }

  // ------------------------------------------------------------ whole streams

  /** What the controller delivers, in order. */
  datatype Delivery =
    | Quiet
    | Notice(code: byte, params: seq<byte>)
    | Entire(l: Link, first: nat, info: seq<byte>)
    | InParts(l: Link, first: nat, info: seq<byte>, cut: nat, xs: seq<Next>)

  predicate GoodDelivery(d: Delivery) {
    match d
    case Quiet => true
    case Notice(_, params) => |params| < 256
    case Entire(l, first, info) => GoodLink(l) && (first == 0 || first == 2) && |info| + 9 <= 512
    case InParts(l, first, info, cut, xs) => GoodCut(l, info, first, cut, xs)
  }

  predicate AllGoodDeliveries(ds: seq<Delivery>) { forall i :: 0 <= i < |ds| ==> GoodDelivery(ds[i]) }

  function PacketsOf(d: Delivery): seq<Packet>
    requires GoodDelivery(d)
  {
    match d
    case Quiet => [[]]
    case Notice(code, params) => [HciEvent(code, params)]
    case Entire(l, first, info) => [Acl(l, first, Pdu(l, info))]
    case InParts(l, first, info, cut, xs) => [Acl(l, first, Pdu(l, info)[..cut])] + QueuedAll(l, xs)
  }

  /** What the host is to read of it: the PDU in one packet, and every event. */
  function Reading(d: Delivery): seq<Packet>
    requires GoodDelivery(d)
  {
    match d
    case Quiet => []
    case Notice(code, params) => [HciEvent(code, params)]
    case Entire(l, first, info) => [Acl(l, first, Pdu(l, info))]
    case InParts(l, first, info, cut, xs) => [Acl(l, first, Pdu(l, info))] + Events(xs)
  }

  function PacketsOfAll(ds: seq<Delivery>): seq<Packet>
    requires AllGoodDeliveries(ds)
  {
    if ds == [] then [] else PacketsOf(ds[0]) + PacketsOfAll(ds[1..])
  }

  function ReadingAll(ds: seq<Delivery>): seq<Packet>
    requires AllGoodDeliveries(ds)
  {
    if ds == [] then [] else Reading(ds[0]) + ReadingAll(ds[1..])
  }

  lemma FlatOne(p: Packet)
    ensures Flat([p]) == p
  {
    assert Flat([p]) == p + Flat([]);
  }

  lemma DeliveryFilled(d: Delivery, tail: seq<Packet>)
    requires GoodDelivery(d) && Small(tail)
    ensures Small(PacketsOf(d) + tail) && Fill(PacketsOf(d) + tail) == (Flat(Reading(d)), tail)
  {
    hide Fill, Acl, Pdu, QueuedAll, Events;
    match d
    case Quiet => FillNothing(tail);
    case Notice(code, params) =>
      WholeHandedOn(Link(0, 0, [0, 0]), [], 0, code, params, tail);
      FlatOne(HciEvent(code, params));
    case Entire(l, first, info) =>
      WholeHandedOn(l, info, first, 0, [], tail);
      FlatOne(Acl(l, first, Pdu(l, info)));
    case InParts(l, first, info, cut, xs) =>
      PduReassembled(l, info, first, cut, xs, tail);
      FlatCons(Acl(l, first, Pdu(l, info)), Events(xs));
  }

  /** Every PDU and every event of any such stream reaches the host once, whole
      and in order, and no byte besides. */
  lemma {:induction false} StreamOfPdus(ds: seq<Delivery>)
    requires AllGoodDeliveries(ds)
    ensures Small(PacketsOfAll(ds)) && Drain(PacketsOfAll(ds)) == Flat(ReadingAll(ds))
    decreases |ds|
  {
    hide PacketsOf, Reading, Fill, Flat, GoodDelivery, Small;
    if ds == [] {
      EmptyQueue();
      assert PacketsOfAll(ds) == [] && ReadingAll(ds) == [];
    } else {
      StreamOfPdus(ds[1..]);
      DeliveryFilled(ds[0], PacketsOfAll(ds[1..]));
      FlatConcat(Reading(ds[0]), ReadingAll(ds[1..]));
      SomethingSent(ds[0]);
      DrainOn(PacketsOfAll(ds));
    }
  }

  lemma EmptyQueue()
    ensures Small([]) && Drain([]) == Flat([]) == []
  {
  }

  lemma DrainOn(queue: seq<Packet>)
    requires Small(queue) && queue != []
    ensures Drain(queue) == Fill(queue).0 + Drain(Fill(queue).1)
  {
  }

  lemma SomethingSent(d: Delivery)
    requires GoodDelivery(d)
    ensures PacketsOf(d) != []
  {
  }
}
