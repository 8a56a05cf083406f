/**
 What the receiver promises about its packets, byte by byte: which starts it
 takes, what it commits, and when it asks for a notification. The client here
 may send anything, the wrong bytes included.
 */
module BleLaws {
  import opened Bytes
  import opened Plate
  import opened BleSpec
  import Crc

  // ---------------------------------------------------------- START packets

  /** Unsigned numbers in a packet, least significant byte first. */
  function Number16(d: seq<byte>, i: nat): nat
    requires i + 2 <= |d|
  {
    d[i] as int + 256 * d[i + 1] as int
  }

  function Number32(d: seq<byte>, i: nat): nat
    requires i + 4 <= |d|
  {
    d[i] as int + 256 * d[i + 1] as int + 65_536 * d[i + 2] as int + 16_777_216 * d[i + 3] as int
  }

  lemma NumbersRead(d: seq<byte>, i: nat)
    ensures i + 2 <= |d| ==> FromLe16(d[i..i + 2]) == Number16(d, i)
    ensures i + 4 <= |d| ==> FromLe32(d[i..i + 4]) == Number32(d, i)
  {
    if i + 4 <= |d| {
      var p := d[i..i + 4];
      assert p[..2] == d[i..i + 2] && p[2..] == d[i + 2..i + 4];
    }
  }

  predicate ImageStart(d: seq<byte>) { |d| >= 14 && d[0] == 0x10 }
  predicate TextStart(d: seq<byte>) { |d| >= 10 && d[0] == 0x11 }

  /** Sizes a START may announce. */
  predicate ImageFits(d: seq<byte>)
    requires ImageStart(d)
  {
    && 1 <= Number16(d, 1) <= 480 && 1 <= Number16(d, 3) <= 800
    && Number32(d, 5) == (Number16(d, 1) + 7) / 8 * Number16(d, 3)
  }

  predicate TextFits(d: seq<byte>)
    requires TextStart(d)
  {
    1 <= Number32(d, 1) <= 1024
  }

  /** Any START forgets what was before it; it begins a transfer exactly when
      the size it announces is one the plate can use. */
  lemma StartExact(r: Rx, d: seq<byte>)
    requires ImageStart(d) || TextStart(d)
    ensures var s := Ctrl(r, d);
            && s.data == [] && s.done == None && s.doneContent == None && s.pending && s.notifyOn == r.notifyOn
            && s.sinceAck == 0 && !s.nakSent
            && s.state == (if (if ImageStart(d) then ImageFits(d) else TextFits(d)) then Receiving else Idle)
            && (s.state == Receiving ==> Announces(s, d))
  {
    if ImageStart(d) { ImageStartExact(r, d); } else { TextStartExact(r, d); }
  }

  /** The receiver's parameters are those of the packet; an interval of 0 means 8. */
  predicate Announces(r: Rx, d: seq<byte>) {
    if ImageStart(d) then
      && r.params.kind == ImageKind && r.params.expected == Number32(d, 5) && r.params.crc == Number32(d, 9)
      && r.params.width as int == Number16(d, 1) && r.params.height as int == Number16(d, 3)
      && r.params.ackEvery == (if d[13] == 0 then 8 else d[13] as int)
    else
      TextStart(d)
      && r.params.kind == ContentKind && r.params.expected == Number32(d, 1) && r.params.crc == Number32(d, 5)
      && r.params.ackEvery == (if d[9] == 0 then 8 else d[9] as int)
  }

  lemma ImageStartExact(r: Rx, d: seq<byte>)
    requires ImageStart(d)
    ensures var s := Ctrl(r, d);
            && s.data == [] && s.done == None && s.doneContent == None && s.pending && s.notifyOn == r.notifyOn
            && s.sinceAck == 0 && !s.nakSent
            && s.state == (if ImageFits(d) then Receiving else Idle)
            && (s.state == Receiving ==> Announces(s, d))
  {
    hide Number16, Number32, ImageBytes;
    NumbersRead(d, 1);
    NumbersRead(d, 3);
    NumbersRead(d, 5);
    NumbersRead(d, 9);
    var w, h := Number16(d, 1), Number16(d, 3);
    assert ImageBytes(w, h) == (w + 7) / 8 * h by { BytesOf(w, h); }
    if GoodSize(w, h) { ImageBytesPositive(w, h); }
    assert Ctrl(r, d) == StartImage(r, d);
  }

  lemma BytesOf(w: nat, h: nat)
    ensures ImageBytes(w, h) == (w + 7) / 8 * h
  {
  }

  lemma TextStartExact(r: Rx, d: seq<byte>)
    requires TextStart(d)
    ensures var s := Ctrl(r, d);
            && s.data == [] && s.done == None && s.doneContent == None && s.pending && s.notifyOn == r.notifyOn
            && s.sinceAck == 0 && !s.nakSent
            && s.state == (if TextFits(d) then Receiving else Idle)
            && (s.state == Receiving ==> Announces(s, d))
  {
    hide Number16, Number32;
    NumbersRead(d, 1);
    NumbersRead(d, 5);
    assert Ctrl(r, d) == StartContent(r, d);
  }

  // ------------------------------------------------------------- commits

  /** The last START packet of a run of events. */
  function LastStart(evs: seq<Event>): Option<seq<byte>> {
    if evs == [] then None
    else
      var ev := evs[|evs| - 1];
      if ev.CtrlWrite? && (ImageStart(ev.d) || TextStart(ev.d)) then Some(ev.d) else LastStart(evs[..|evs| - 1])
  }

  /** A result is what `d` announced, to the byte count and the checksum. */
  predicate Matches(r: Rx, d: seq<byte>) {
    && (r.done.Some? ==>
          && ImageStart(d)
          && r.done.value.width as int == Number16(d, 1) && r.done.value.height as int == Number16(d, 3)
          && |r.done.value.bits| == Number32(d, 5) && Crc.Crc32(r.done.value.bits) == Number32(d, 9))
    && (r.doneContent.Some? ==>
          && TextStart(d) && |r.doneContent.value| == Number32(d, 1)
          && Crc.Crc32(r.doneContent.value) == Number32(d, 5))
  }

  /** Receiving means receiving for the last START, and so does having a result. */
  predicate Bound(r: Rx, d: Option<seq<byte>>) {
    && (r.state == Receiving ==> d.Some? && Announces(r, d.value))
    && (r.done.Some? || r.doneContent.Some? ==> d.Some? && Matches(r, d.value))
  }

  /** How the commit of a transfer ends: nothing but a complete payload with
      the announced checksum is ever accepted, and that always is, but for text
      the plate would reject. */
  lemma CommitExact(r: Rx, d: seq<byte>)
    requires Inv(r) && r.state == Receiving && Announces(r, d) && (ImageStart(d) || TextStart(d))
    ensures var s := Ctrl(r, [0x02]);
            var size, crc := if ImageStart(d) then Number32(d, 5) else Number32(d, 1),
                             if ImageStart(d) then Number32(d, 9) else Number32(d, 5);
            && s.pending && s.data == []
            && (if |r.data| != size then s.state == Incomplete && s.done == None && s.doneContent == None
                else if Crc.Crc32(r.data) != crc then s.state == CrcError && s.done == None && s.doneContent == None
                else if ImageStart(d) then
                  s.state == Committed && s.doneContent == None
                  && s.done == Some(MonoImage(Number16(d, 1), Number16(d, 3), r.data))
                else if Accepted(r.data) then
                  s.state == Committed && s.done == None && s.doneContent == Some(r.data)
                else s.state == Rejected && s.done == None && s.doneContent == None)
  {
    hide Accepted, Crc.Crc32, Number16, Number32, GoodParams;
    assert Ctrl(r, [0x02]) == Commit(r);
  }

  /** Outside a transfer a commit changes nothing and asks for a notification. */
  lemma CommitOutside(r: Rx)
    requires r.state != Receiving
    ensures Ctrl(r, [0x02]) == r.(pending := true)
  {
  }

  lemma OtherCtrl(r: Rx, d: seq<byte>)
    requires !Restarts(d) && (d == [] || d[0] != 0x02)
    ensures var s := Ctrl(r, d); s == r.(pending := s.pending, dozeReq := s.dozeReq, clearReq := s.clearReq)
  {
    hide StartContent, StartImage, Commit;
  }

  lemma BoundStep(r: Rx, d: Option<seq<byte>>, ev: Event)
    requires Inv(r) && Bound(r, d)
    requires !(ev.CtrlWrite? && (ImageStart(ev.d) || TextStart(ev.d)))
    ensures Bound(After(r, ev), d)
  {
    hide Accepted, Crc.Crc32, Ctrl, Push, ImageBytes, Number16, Number32;
    match ev
    case CtrlWrite(c) =>
      if c != [] && c[0] == 0x02 {
        assert Ctrl(r, c) == Commit(r) by { CommitCode(r, c); }
      } else if Restarts(c) {
        AbortClears(r, c);
      } else {
        OtherCtrl(r, c);
      }
    case DataWrite(c) => PushAlters(r, c);
    case Subscribe(on) =>
    case Notified =>
    case Applied =>
    case SessionEnded =>
  }

  lemma CommitCode(r: Rx, c: seq<byte>)
    requires c != [] && c[0] == 0x02
    ensures Ctrl(r, c) == Commit(r)
  {
  }

  lemma AbortClears(r: Rx, c: seq<byte>)
    requires Restarts(c) && !ImageStart(c) && !TextStart(c)
    ensures Ctrl(r, c) == Fresh(r.notifyOn).(pending := true)
  {
  }

  lemma PushAlters(r: Rx, d: seq<byte>)
    ensures var s := Push(r, d);
            s == r.(data := s.data, sinceAck := s.sinceAck, nakSent := s.nakSent, pending := s.pending)
  {
  }

  /** Whatever was sent, in any order and however wrong: what is received is
      received for the last START, and a result that waits has exactly the
      length and the CRC-32 that START announced. */
  lemma {:induction false} ResultsMatch(evs: seq<Event>)
    ensures Bound(AfterAll(Fresh(false), evs), LastStart(evs))
  {
    hide After, Bound, Inv;
    if evs == [] {
      assert Bound(Fresh(false), None) by { FreshBound(); }
    } else {
      var n := |evs| - 1;
      ResultsMatch(evs[..n]);
      SessionInvariant(evs[..n]);
      var r, ev := AfterAll(Fresh(false), evs[..n]), evs[n];
      if ev.CtrlWrite? && (ImageStart(ev.d) || TextStart(ev.d)) {
        StartBinds(r, ev);
      } else {
        BoundStep(r, LastStart(evs[..n]), ev);
      }
    }
  }

  lemma FreshBound()
    ensures Bound(Fresh(false), None)
  {
  }

  lemma StartBinds(r: Rx, ev: Event)
    requires ev.CtrlWrite? && (ImageStart(ev.d) || TextStart(ev.d))
    ensures Bound(After(r, ev), Some(ev.d))
  {
    hide Ctrl;
    StartExact(r, ev.d);
  }

  /** The commit law over every run. */
  lemma RunCommitExact(evs: seq<Event>)
    requires AfterAll(Fresh(false), evs).state == Receiving
    ensures LastStart(evs).Some? && Inv(AfterAll(Fresh(false), evs))
    ensures Announces(AfterAll(Fresh(false), evs), LastStart(evs).value)
    ensures ImageStart(LastStart(evs).value) || TextStart(LastStart(evs).value)
  {
    hide AfterAll, Inv;
    ResultsMatch(evs);
    SessionInvariant(evs);
  }

  // ---------------------------------------------------------- notifications

  /** The next bytes of the payload, and room for them. */
  predicate InOrder(r: Rx, d: seq<byte>) {
    |d| >= 3 && Number16(d, 0) == |r.data| && |r.data| + |d| - 2 <= r.params.expected
  }

  /** One DATA packet: taken exactly when it is the next; a notification is
      asked for at every `ackEvery`-th taken since the last, at the last byte,
      and at the first refused since the last taken. */
  lemma PushExact(r: Rx, d: seq<byte>)
    requires r.state == Receiving && |d| >= 3
    ensures var s := Push(r, d);
            if InOrder(r, d) then
              var full := r.sinceAck + 1 >= r.params.ackEvery || |r.data| + |d| - 2 == r.params.expected;
              && s.data == r.data + d[2..] && !s.nakSent
              && s.sinceAck == (if full then 0 else r.sinceAck + 1) && s.pending == (r.pending || full)
            else if r.nakSent then s == r
            else s == r.(nakSent := true, sinceAck := 0, pending := true)
  {
    NumbersRead(d, 0);
    assert d[0..2] == d[..2];
  }

  function PushAll(r: Rx, ds: seq<seq<byte>>): Rx {
    if ds == [] then r else Push(PushAll(r, ds[..|ds| - 1]), ds[|ds| - 1])
  }

  /** Packet `i` comes in order and does not complete the payload. */
  predicate TakenAt(r: Rx, ds: seq<seq<byte>>, i: nat)
    requires i < |ds|
  {
    InOrder(PushAll(r, ds[..i]), ds[i]) && |PushAll(r, ds[..i + 1]).data| < r.params.expected
  }

  predicate Window(r: Rx, ds: seq<seq<byte>>) { forall i :: 0 <= i < |ds| ==> TakenAt(r, ds, i) }

  /** Within a window no notification is asked for before the `ackEvery`-th
      packet, which then asks for one and begins the next window. */
  lemma {:induction false} WindowAsksOnce(r: Rx, ds: seq<seq<byte>>)
    requires r.state == Receiving && r.sinceAck == 0 && !r.pending && 1 <= r.params.ackEvery
    requires |ds| <= r.params.ackEvery && Window(r, ds)
    ensures var s := PushAll(r, ds);
            && s.state == Receiving && s.params == r.params
            && s.pending == (|ds| == r.params.ackEvery)
            && s.sinceAck == (if |ds| == r.params.ackEvery then 0 else |ds|)
    decreases |ds|
  {
    hide Push, InOrder;
    if ds != [] {
      var n := |ds| - 1;
      assert Window(r, ds[..n]) by { WindowPrefix(r, ds); }
      WindowAsksOnce(r, ds[..n]);
      var q := PushAll(r, ds[..n]);
      assert TakenAt(r, ds, n) && ds[..n + 1] == ds;
      assert |ds[n]| >= 3 by { InOrderLong(q, ds[n]); }
      PushExact(q, ds[n]);
      PushAlters(q, ds[n]);
    }
  }

  lemma InOrderLong(r: Rx, d: seq<byte>)
    requires InOrder(r, d)
    ensures |d| >= 3
  {
  }

  lemma WindowPrefix(r: Rx, ds: seq<seq<byte>>)
    requires ds != [] && Window(r, ds)
    ensures Window(r, ds[..|ds| - 1])
  {
    hide InOrder, PushAll;
    var n := |ds| - 1;
    forall i | 0 <= i < n ensures TakenAt(r, ds[..n], i) {
      assert TakenAt(r, ds, i);
      assert ds[..n][..i] == ds[..i] && ds[..n][..i + 1] == ds[..i + 1];
    }
  }

  /** After a refusal further packets out of order go unanswered until one is taken. */
  lemma {:induction false} StreakAsksOnce(r: Rx, ds: seq<seq<byte>>)
    requires r.state == Receiving && r.nakSent
    requires forall i :: 0 <= i < |ds| ==> |ds[i]| >= 3 && !InOrder(r, ds[i])
    ensures PushAll(r, ds) == r
    decreases |ds|
  {
    hide Push, InOrder;
    if ds != [] {
      StreakAsksOnce(r, ds[..|ds| - 1]);
      PushExact(r, ds[|ds| - 1]);
    }
  }

  /** A clear request reaches the application with the next hand-over, and a status asked for goes out. */
  lemma RequestsReach(r: Rx)
    ensures Ctrl(r, [0x04]) == r.(pending := true)
    ensures Ctrl(r, [0x05]) == r.(dozeReq := true)
    ensures var s := Ctrl(r, [0x06]);
            s == r.(clearReq := true, pending := true)
            && !Apply(s).1.clear && Apply(Notify(s).0).1.clear && !Apply(Apply(Notify(s).0).0).1.clear
    ensures Notify(r).1 == if r.pending && r.notifyOn then Some(Status(r.state, |r.data|, r.params.expected)) else None
    ensures !Notify(r).0.pending
  {
  }
}
