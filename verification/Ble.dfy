/** The receiver as the firmware has it, fields updated in place, held to BleSpec. */
module Ble {
  import opened Bytes
  import opened Plate
  import opened BleSpec
  import Spec = BleSpec
  import Crc

  class ImgRx {
    var state: RxState
    var kind: Kind
    var width: u16
    var height: u16
    var expected: nat
    var crc: int
    var ackEvery: nat
    var data: seq<byte>
    var done: Option<MonoImage>
    var doneContent: Option<seq<byte>>
    var notifyOn: bool
    var pendingNtf: bool
    var sinceAck: nat
    var nakSent: bool
    var clearImageReq: bool
    var dozeTestReq: bool

    ghost function View(): Rx
      reads this
    {
      Rx(state, Params(kind, width, height, expected, crc, ackEvery), data, done, doneContent,
         notifyOn, pendingNtf, sinceAck, nakSent, clearImageReq, dozeTestReq)
    }

    constructor ()
      ensures View() == Fresh(false)
    {
      state, kind, width, height, expected, crc, ackEvery := Idle, NoKind, 0, 0, 0, 0, 0;
      data, done, doneContent := [], None, None;
      notifyOn, pendingNtf, sinceAck, nakSent, clearImageReq, dozeTestReq := false, false, 0, false, false, false;
    }

    method ClearTransfer()
      modifies `state, `kind, `width, `height, `expected, `crc, `ackEvery, `data
      ensures state == Idle && kind == NoKind && width == 0 && height == 0
      ensures expected == 0 && crc == 0 && ackEvery == 0 && data == []
    {
      state, kind, width, height := Idle, NoKind, 0, 0;
      expected, crc, ackEvery, data := 0, 0, 0, [];
    }

    method ClearRequests()
      modifies `done, `doneContent, `pendingNtf, `sinceAck, `nakSent, `clearImageReq, `dozeTestReq
      ensures done == None && doneContent == None && !pendingNtf && sinceAck == 0
      ensures !nakSent && !clearImageReq && !dozeTestReq
    {
      done, doneContent, pendingNtf, sinceAck := None, None, false, 0;
      nakSent, clearImageReq, dozeTestReq := false, false, false;
    }

    method Reset()
      modifies this
      ensures View() == Spec.Reset(old(View()))
    {
      ClearTransfer();
      ClearRequests();
    }

    /** Fields of a transfer that has been accepted. */
    method Begin(kind: Kind, w: u16, h: u16, expected: nat, crc: int, ack: byte)
      modifies `state, `kind, `width, `height, `expected, `crc, `ackEvery, `pendingNtf
      ensures state == Receiving && pendingNtf
      ensures Params(this.kind, width, height, this.expected, this.crc, ackEvery)
              == Params(kind, w, h, expected, crc, AckEvery(ack))
    {
      state, pendingNtf, width, height := Receiving, true, w, h;
      this.kind, this.expected, this.crc := kind, expected, crc;
      ackEvery := if ack == 0 then DEFAULT_ACK_EVERY else ack;
    }

    method StartContent(d: seq<byte>)
      requires |d| >= 10
      modifies this
      ensures View() == Spec.StartContent(old(View()), d)
    {
      var len := FromLe32(d[1..5]);
      Reset();
      if len == 0 || len > MAX_CONTENT_BYTES {
        pendingNtf := true;
        return;
      }
      Begin(ContentKind, 0, 0, len, FromLe32(d[5..9]), d[9]);
    }

    method StartImage(d: seq<byte>)
      requires |d| >= 14
      modifies this
      ensures View() == Spec.StartImage(old(View()), d)
    {
      hide ImageBytes;
      var w, h, len := FromLe16(d[1..3]), FromLe16(d[3..5]), FromLe32(d[5..9]);
      Reset();
      if w == 0 || h == 0 || w > 480 || h > 800 || len != ImageBytes(w, h) || len > MAX_IMAGE_BYTES {
        pendingNtf := true;
        return;
      }
      Begin(ImageKind, w, h, len, FromLe32(d[9..13]), d[13]);
    }

    method Commit()
      modifies this
      ensures View() == Spec.Commit(old(View()))
    {
      hide Accepted, Crc.Crc32;
      if state == Receiving {
        var sum := Crc.Bitwise(data);
        if |data| != expected {
          state := Incomplete;
        } else if sum != crc {
          state := CrcError;
        } else if kind == ContentKind {
          if Accepted(data) {
            state := Committed;
            doneContent := Some(data);
          } else {
            state := Rejected;
          }
        } else {
          state := Committed;
          done := Some(MonoImage(width, height, data));
        }
        data := [];
      }
      pendingNtf := true;
    }

    /** `ctrl` */
    method Ctrl(d: seq<byte>)
      modifies this
      ensures View() == Spec.Ctrl(old(View()), d)
    {
      hide Spec.StartContent, Spec.StartImage, Spec.Commit;
      if d == [] {
      } else if d[0] == 0x11 && |d| >= 10 {
        StartContent(d);
      } else if d[0] == 0x10 && |d| >= 14 {
        StartImage(d);
      } else if d[0] == 0x02 {
        Commit();
      } else if d[0] == 0x03 {
        Reset();
        pendingNtf := true;
      } else if d[0] == 0x04 {
        pendingNtf := true;
      } else if d[0] == 0x05 {
        dozeTestReq := true;
      } else if d[0] == 0x06 {
        clearImageReq := true;
        pendingNtf := true;
      }
    }

    /** `push` */
    method Push(d: seq<byte>)
      modifies this
      ensures View() == Spec.Push(old(View()), d)
    {
      if state != Receiving || |d| < 3 { return; }
      var off, payload := FromLe16(d[..2]), d[2..];
      if off == |data| && |data| + |payload| <= expected {
        data := data + payload;
        nakSent := false;
        sinceAck := sinceAck + 1;
        if sinceAck >= ackEvery || |data| == expected {
          sinceAck := 0;
          pendingNtf := true;
        }
      } else if !nakSent {
        nakSent := true;
        sinceAck := 0;
        pendingNtf := true;
      }
    }

    /** `take_notification` */
    method TakeNotification() returns (st: Option<Status>)
      modifies this
      ensures (View(), st) == Spec.Notify(old(View()))
    {
      if !pendingNtf { return None; }
      pendingNtf := false;
      st := if notifyOn then Some(Status(state, |data|, expected)) else None;
    }

    /** The deferred part of `ble_session`: results leave only after their notification. */
    method Apply() returns (out: Handed)
      modifies this
      ensures (View(), out) == Spec.Apply(old(View()))
    {
      var image: Option<MonoImage>, content: Option<seq<byte>>, clear := None, None, false;
      if !pendingNtf { image, done := done, None; }
      if image.Some? { state := Idle; }
      if !pendingNtf { content, doneContent := doneContent, None; }
      if content.Some? { state := Idle; }
      if clearImageReq && !pendingNtf {
        clearImageReq := false;
        clear := true;
      }
      out := Handed(image, content, clear);
    }
  }
}
