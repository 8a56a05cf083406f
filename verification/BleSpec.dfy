/** The receiving side of the BLE transfer protocol: CTRL and DATA writes, STATUS notifications. */
module BleSpec {
  import opened Bytes
  import opened Plate
  import Crc
  import Text

  const MAX_IMAGE_BYTES := 48_000
  const MAX_CONTENT_BYTES := 1024
  const DEFAULT_ACK_EVERY := 8

  datatype RxState = Idle | Receiving | Committed | CrcError | Incomplete | Rejected

  datatype Kind = NoKind | ImageKind | ContentKind

  /** STATUS: state, bytes received, bytes expected. */
  datatype Status = Status(state: RxState, received: nat, expected: nat)

  /** What a START announces. */
  datatype Params = Params(kind: Kind, width: u16, height: u16, expected: nat, crc: int, ackEvery: nat)

  /** The receiver's fields (the time stamp aside). */
  datatype Rx = Rx(
    state: RxState, params: Params, data: seq<byte>, done: Option<MonoImage>, doneContent: Option<seq<byte>>,
    notifyOn: bool, pending: bool, sinceAck: nat, nakSent: bool, clearReq: bool, dozeReq: bool)

  const NO_PARAMS := Params(NoKind, 0, 0, 0, 0, 0)

  function Fresh(notifyOn: bool): Rx {
    Rx(Idle, NO_PARAMS, [], None, None, notifyOn, false, 0, false, false, false)
  }

  /** `reset`: everything but the subscription. */
  function Reset(r: Rx): Rx { Fresh(r.notifyOn) }

  function AckEvery(b: byte): nat { if b == 0 then DEFAULT_ACK_EVERY else b }

  /** `PlateContent::validate_plain` on the lossily decoded text. */
  predicate Accepted(text: seq<byte>) { ApplyPlain(EMPTY, Text.Lossy(text)).Some? }

  function StartContent(r: Rx, d: seq<byte>): Rx
    requires |d| >= 10
  {
    var len := FromLe32(d[1..5]);
    var r' := Reset(r).(pending := true);
    if len == 0 || len > MAX_CONTENT_BYTES then r'
    else r'.(state := Receiving, params := Params(ContentKind, 0, 0, len, FromLe32(d[5..9]), AckEvery(d[9])))
  }

  function StartImage(r: Rx, d: seq<byte>): Rx
    requires |d| >= 14
  {
    var w, h, len := FromLe16(d[1..3]), FromLe16(d[3..5]), FromLe32(d[5..9]);
    var r' := Reset(r).(pending := true);
    if w == 0 || h == 0 || w > 480 || h > 800 || len != ImageBytes(w, h) || len > MAX_IMAGE_BYTES then r'
    else r'.(state := Receiving, params := Params(ImageKind, w, h, len, FromLe32(d[9..13]), AckEvery(d[13])))
  }

  /** How a commit of the data received so far turns out. */
  function Verdict(r: Rx): RxState {
    if |r.data| != r.params.expected then Incomplete
    else if Crc.Crc32(r.data) != r.params.crc then CrcError
    else if r.params.kind == ContentKind && !Accepted(r.data) then Rejected
    else Committed
  }

  function Commit(r: Rx): Rx {
    if r.state != Receiving then r.(pending := true)
    else
      var r' := r.(state := Verdict(r), data := [], pending := true);
      if r'.state != Committed then r'
      else if r.params.kind == ContentKind then r'.(doneContent := Some(r.data))
      else r'.(done := Some(MonoImage(r.params.width, r.params.height, r.data)))
  }

  /** `ctrl` */
  function Ctrl(r: Rx, d: seq<byte>): Rx {
    if d == [] then r
    else if d[0] == 0x11 && |d| >= 10 then StartContent(r, d)
    else if d[0] == 0x10 && |d| >= 14 then StartImage(r, d)
    else if d[0] == 0x02 then Commit(r)
    else if d[0] == 0x03 then Reset(r).(pending := true)
    else if d[0] == 0x04 then r.(pending := true)
    else if d[0] == 0x05 then r.(dozeReq := true)
    else if d[0] == 0x06 then r.(clearReq := true, pending := true)
    else r
  }

  /** `push`: a DATA packet is taken only at the exact offset and only if it fits. */
  function Push(r: Rx, d: seq<byte>): Rx {
    if r.state != Receiving || |d| < 3 then r
    else
      var off, payload := FromLe16(d[..2]), d[2..];
      if off == |r.data| && |r.data| + |payload| <= r.params.expected then
        var data := r.data + payload;
        var ack := r.sinceAck + 1 >= r.params.ackEvery || |data| == r.params.expected;
        r.(data := data, nakSent := false, sinceAck := if ack then 0 else r.sinceAck + 1, pending := r.pending || ack)
      else if !r.nakSent then r.(nakSent := true, sinceAck := 0, pending := true)
      else r
  }

  function StatusOf(r: Rx): Status { Status(r.state, |r.data|, r.params.expected) }

  /** `take_notification` */
  function Notify(r: Rx): (Rx, Option<Status>) {
    (r.(pending := false), if r.pending && r.notifyOn then Some(StatusOf(r)) else None)
  }

  /** What the session hands to the application, once the last notification is out. */
  datatype Handed = Handed(image: Option<MonoImage>, content: Option<seq<byte>>, clear: bool)

  function Apply(r: Rx): (Rx, Handed) {
    if r.pending then (r, Handed(None, None, false))
    else
      var idle := r.done.Some? || r.doneContent.Some?;
      (r.(state := if idle then Idle else r.state, done := None, doneContent := None, clearReq := false),
       Handed(r.done, r.doneContent, r.clearReq))
  }

  // -------------------------------------------------------------- invariant

  predicate GoodParams(p: Params) {
    && 1 <= p.ackEvery <= 255
    && p.kind != NoKind
    && (p.kind == ContentKind ==> 1 <= p.expected <= MAX_CONTENT_BYTES)
    && (p.kind == ImageKind ==>
          GoodSize(p.width, p.height) && 1 <= p.expected == ImageBytes(p.width, p.height) <= MAX_IMAGE_BYTES)
  }

  /** What every sequence of writes keeps. */
  predicate Inv(r: Rx) {
    && (r.state == Receiving ==>
          GoodParams(r.params) && |r.data| <= r.params.expected && r.sinceAck < r.params.ackEvery)
    && (r.state != Receiving ==> r.data == [])
    && (r.done.None? || r.doneContent.None?)
    && (r.state != Committed ==> r.done.None? && r.doneContent.None?)
    && (r.done.Some? ==> ValidImage(r.done.value))
    && (r.doneContent.Some? ==> |r.doneContent.value| <= MAX_CONTENT_BYTES && Accepted(r.doneContent.value))
  }

  lemma CtrlKeeps(r: Rx, d: seq<byte>)
    requires Inv(r)
    ensures Inv(Ctrl(r, d))
  {
    hide Accepted, StartContent, StartImage, Commit, GoodParams, ValidImage;
    if |d| >= 14 && d[0] == 0x10 {
      StartImageKeeps(r, d);
    } else if |d| >= 1 && d[0] == 0x02 {
      CommitKeeps(r);
    } else if |d| >= 10 && d[0] == 0x11 {
      StartContentKeeps(r, d);
    } else {
      var r' := Ctrl(r, d);
      assert r' == r || r' == r.(pending := true) || r' == r.(dozeReq := true)
             || r' == r.(clearReq := true, pending := true) || r' == Reset(r).(pending := true);
    }
  }

  lemma CommitKeeps(r: Rx)
    requires Inv(r)
    ensures Inv(Commit(r))
  {
    hide Accepted, Crc.Crc32, ImageBytes;
  }

  lemma StartImageKeeps(r: Rx, d: seq<byte>)
    requires |d| >= 14
    ensures Inv(StartImage(r, d))
  {
    hide ImageBytes;
    var w, h := FromLe16(d[1..3]), FromLe16(d[3..5]);
    if GoodSize(w, h) { ImageBytesPositive(w, h); }
  }

  lemma StartContentKeeps(r: Rx, d: seq<byte>)
    requires |d| >= 10
    ensures Inv(StartContent(r, d))
  {
  }

  lemma PushKeeps(r: Rx, d: seq<byte>)
    requires Inv(r)
    ensures Inv(Push(r, d))
    ensures r.data <= Push(r, d).data && Push(r, d).state == r.state
  {
    hide Accepted;
  }

  /** Handing a result over never cuts a running transfer short, and gives the application valid data only. */
  lemma ApplyKeeps(r: Rx)
    requires Inv(r)
    ensures var (r', out) := Apply(r);
            && Inv(r')
            && (r.state == Receiving ==>
                  r'.state == Receiving && r'.data == r.data && out.image == None && out.content == None)
            && (out.image.Some? ==> ValidImage(out.image.value) && out.content.None?)
            && (out.content.Some? ==> Accepted(out.content.value))
  {
    hide Accepted;
  }

  /** START of either kind, or ABORT. */
  predicate Restarts(d: seq<byte>) {
    d != [] && ((d[0] == 0x11 && |d| >= 10) || (d[0] == 0x10 && |d| >= 14) || d[0] == 0x03)
  }

  lemma RestartClears(r: Rx, d: seq<byte>)
    requires Restarts(d)
    ensures Ctrl(r, d).done == None && Ctrl(r, d).doneContent == None
  {
    hide ImageBytes;
  }

  /** Outside a transfer every other CTRL write only marks what is to be done. */
  lemma OtherwiseMarks(r: Rx, d: seq<byte>)
    requires !Restarts(d) && r.state != Receiving
    ensures var s := Ctrl(r, d); s == r.(pending := s.pending, dozeReq := s.dozeReq, clearReq := s.clearReq)
  {
    hide Verdict, StartContent, StartImage;
  }

  /** A result that waits to be handed over is lost to a CTRL write exactly when that starts over or aborts. */
  lemma WaitingResultKept(r: Rx, d: seq<byte>)
    requires Inv(r) && (r.done.Some? || r.doneContent.Some?)
    ensures Ctrl(r, d).done == r.done && Ctrl(r, d).doneContent == r.doneContent <==> !Restarts(d)
  {
    hide Ctrl, Restarts, ValidImage, Accepted, GoodParams;
    if Restarts(d) { RestartClears(r, d); } else { OtherwiseMarks(r, d); }
  }

  /** Anything a client or the session can do to the receiver; a disconnect
      or too many errors end the session, and the next begins with a new receiver. */
  datatype Event =
    CtrlWrite(d: seq<byte>) | DataWrite(d: seq<byte>) | Subscribe(on: bool) | Notified | Applied | SessionEnded

  function After(r: Rx, ev: Event): Rx {
    match ev
    case CtrlWrite(d) => Ctrl(r, d)
    case DataWrite(d) => Push(r, d)
    case Subscribe(on) => r.(notifyOn := on)
    case Notified => Notify(r).0
    case Applied => Apply(r).0
    case SessionEnded => Fresh(false)
  }

  function AfterAll(r: Rx, evs: seq<Event>): Rx {
    if evs == [] then r else After(AfterAll(r, evs[..|evs| - 1]), evs[|evs| - 1])
  }

  lemma AfterKeeps(r: Rx, ev: Event)
    requires Inv(r)
    ensures Inv(After(r, ev))
  {
    hide Accepted, Ctrl, Push, Apply;
    match ev
    case CtrlWrite(d) => CtrlKeeps(r, d);
    case DataWrite(d) => PushKeeps(r, d);
    case Subscribe(on) =>
    case Notified =>
    case Applied => ApplyKeeps(r);
    case SessionEnded =>
  }

  /** Over every sequence of events from a fresh session: lengths within the
      caps, the acknowledgement counter below its limit (so it never leaves a
      byte), at most one result waiting and that only while COMMITTED, and
      every image within the bounds the drawing code relies on. */
  lemma {:induction false} SessionInvariant(evs: seq<Event>)
    ensures Inv(AfterAll(Fresh(false), evs))
  {
    hide After;
    if evs != [] {
      SessionInvariant(evs[..|evs| - 1]);
      AfterKeeps(AfterAll(Fresh(false), evs[..|evs| - 1]), evs[|evs| - 1]);
    }
  }

  // ------------------------------------------------- the fate of a result

  predicate Waits(r: Rx) { r.done.Some? || r.doneContent.Some? }

  predicate SameResult(r: Rx, s: Rx) { s.done == r.done && s.doneContent == r.doneContent }

  /** START, ABORT, or the end of the session. */
  predicate Discards(ev: Event) { ev.SessionEnded? || (ev.CtrlWrite? && Restarts(ev.d)) }

  lemma PushOutside(r: Rx, d: seq<byte>)
    requires r.state != Receiving
    ensures Push(r, d) == r
  {
  }

  /** What is waiting stays the same through one event unless that discards
      it, which leaves nothing waiting, or hands over exactly it. */
  lemma ResultStep(r: Rx, ev: Event)
    requires Inv(r) && Waits(r)
    ensures var s := After(r, ev);
            if Discards(ev) then !Waits(s)
            else if ev.Applied? && !r.pending then
              !Waits(s) && Apply(r).1.image == r.done && Apply(r).1.content == r.doneContent
            else SameResult(r, s) && (ev.Applied? ==> Apply(r).1.image == None && Apply(r).1.content == None)
  {
    hide Accepted, ValidImage, GoodParams, Ctrl, Restarts, Push;
    match ev
    case CtrlWrite(d) =>
      WaitingResultKept(r, d);
      if Restarts(d) { RestartClears(r, d); }
    case DataWrite(d) => PushOutside(r, d);
    case _ =>
  }

  /** Event `i` hands over the very result that waited at the start and has waited ever since. */
  ghost predicate HandedAt(r: Rx, evs: seq<Event>, i: nat) {
    && i < |evs| && evs[i].Applied?
    && (forall j :: 0 <= j <= i ==> SameResult(r, AfterAll(r, evs[..j])))
    && Apply(AfterAll(r, evs[..i])).1.image == r.done
    && Apply(AfterAll(r, evs[..i])).1.content == r.doneContent
  }

  /** Event `i` is a hand-over with no notification pending, and nothing before it discards. */
  ghost predicate ReachedAt(r: Rx, evs: seq<Event>, i: nat) {
    && i < |evs| && evs[i].Applied? && !AfterAll(r, evs[..i]).pending
    && forall j :: 0 <= j < i ==> !Discards(evs[j])
  }

  lemma AfterAllSnoc(r: Rx, evs: seq<Event>, i: nat)
    requires i < |evs|
    ensures AfterAll(r, evs[..i + 1]) == After(AfterAll(r, evs[..i]), evs[i])
  {
    assert evs[..i + 1][..i] == evs[..i];
  }

  /** Up to the first discard or hand-over the result just waits. */
  lemma {:induction false} ResultHeld(r: Rx, evs: seq<Event>, i: nat)
    requires Inv(r) && Waits(r) && i <= |evs|
    requires forall j :: 0 <= j < i ==> !Discards(evs[j]) && !ReachedAt(r, evs, j)
    ensures Inv(AfterAll(r, evs[..i]))
    ensures forall j :: 0 <= j <= i ==> SameResult(r, AfterAll(r, evs[..j]))
  {
    hide After, Inv, Apply, Discards;
    if i > 0 {
      ResultHeld(r, evs, i - 1);
      AfterAllSnoc(r, evs, i - 1);
      var s := AfterAll(r, evs[..i - 1]);
      assert SameResult(r, s);
      AfterKeeps(s, evs[i - 1]);
      ResultStep(s, evs[i - 1]);
      assert !ReachedAt(r, evs, i - 1);
    }
  }

  /** A committed result reaches the application if and only if a hand-over
      with its notification out comes before any START, ABORT or session end. */
  lemma {:induction false} ResultFate(r: Rx, evs: seq<Event>)
    requires Inv(r) && Waits(r)
    ensures (exists i: nat :: HandedAt(r, evs, i)) <==> (exists i: nat :: ReachedAt(r, evs, i))
  {
    if i: nat :| HandedAt(r, evs, i) { HandedWasReached(r, evs, i); }
    if i: nat :| ReachedAt(r, evs, i) { var j := ReachedIsHanded(r, evs, i); }
  }

  lemma {:induction false} ReachedIsHanded(r: Rx, evs: seq<Event>, i: nat) returns (k: nat)
    requires Inv(r) && Waits(r) && ReachedAt(r, evs, i)
    ensures HandedAt(r, evs, k)
    decreases i
  {
    hide After, Inv, Apply, Discards;
    if j: nat :| j < i && ReachedAt(r, evs, j) {
      k := ReachedIsHanded(r, evs, j);
    } else {
      ResultHeld(r, evs, i);
      var s := AfterAll(r, evs[..i]);
      assert SameResult(r, s);
      ResultStep(s, evs[i]);
      assert !Discards(evs[i]) by { AppliedKeeps(evs[i]); }
      k := i;
    }
  }

  lemma AppliedKeeps(ev: Event)
    requires ev.Applied?
    ensures !Discards(ev)
  {
  }

  lemma {:induction false} HandedWasReached(r: Rx, evs: seq<Event>, i: nat)
    requires Inv(r) && Waits(r) && HandedAt(r, evs, i)
    ensures ReachedAt(r, evs, i)
  {
    hide After, Inv, Apply, Discards;
    forall j | 0 <= j <= i
      ensures Inv(AfterAll(r, evs[..j])) && (j < i ==> !Discards(evs[j]))
    {
      InvAfter(r, evs, j);
      if j < i {
        var s := AfterAll(r, evs[..j]);
        assert SameResult(r, s);
        ResultStep(s, evs[j]);
        AfterAllSnoc(r, evs, j);
        assert SameResult(r, AfterAll(r, evs[..j + 1]));
      }
    }
    var s := AfterAll(r, evs[..i]);
    assert SameResult(r, s);
    ResultStep(s, evs[i]);
    AppliedKeeps(evs[i]);
  }

  lemma {:induction false} InvAfter(r: Rx, evs: seq<Event>, i: nat)
    requires Inv(r) && i <= |evs|
    ensures Inv(AfterAll(r, evs[..i]))
  {
    hide After, Inv;
    if i > 0 {
      InvAfter(r, evs, i - 1);
      AfterAllSnoc(r, evs, i - 1);
      AfterKeeps(AfterAll(r, evs[..i - 1]), evs[i - 1]);
    }
  }
}
