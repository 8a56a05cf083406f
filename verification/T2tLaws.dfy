/**
 When the emulator moves, exactly: in terms of the interrupts the chip
 signals, what the next samples of the world show, and the bytes of a command.
 */
module T2tLaws {
  import opened Bytes
  import opened Tlv
  import opened T2tSpec
  import opened T2tRuns

  /** Interrupt `i` is pending or comes with the next look at the chip. */
  predicate Signalled(s: Tag, w: World, i: Irq) { i in s.chip.pending || i in w(s.chip.t).irqs }

  // --------------------------------------------------------- going off and on

  /** With the oscillator on, going off forgets the bit rate and all
      interrupts, and ends idle exactly when the field shows right after. */
  lemma OffExact(s: Tag, w: World)
    requires s.chip.en
    ensures GotoOff(s, w).state == if w(s.chip.t + 1).field then Idle else Off
    ensures var r := GotoOff(s, w); !r.wakeup && !r.bitrate106 && r.chip.pending == {}
  {
    hide GotoOff, GotoIdle;
    OffSteps(s, w);
    IdleWhenOn(Tick(Sensing(s)), w);
  }

  lemma OffSteps(s: Tag, w: World)
    ensures GotoOff(s, w)
            == var s2 := Tick(Sensing(s));
               if w(Sensing(s).chip.t).field then GotoIdle(s2, w) else s2.(state := Off, chip := s2.chip.(en := true))
  {
    hide GotoIdle, Sensing, Tick;
  }

  lemma IdleWhenOn(s: Tag, w: World)
    requires s.chip.en
    ensures GotoIdle(s, w) == EnterIdle(s)
  {
    hide GotoOff, WaitOsc;
  }

  /** The wait for the oscillator succeeds exactly when one of 42 looks, five
      milliseconds apart, finds it running. */
  lemma OscillatorExact(c: Regs, w: World)
    ensures WaitOsc(c, w, 0).1 <==> exists k :: c.t <= k < c.t + 42 && Running(w, k)
  {
    LooksLeft(c, w, 0, 42);
  }

  predicate Running(w: World, k: nat) { w(k).osc }

  lemma {:induction false} LooksLeft(c: Regs, w: World, waited: nat, n: nat)
    requires n >= 1 && waited + 5 * n == 210
    ensures WaitOsc(c, w, waited).1 <==> exists k :: c.t <= k < c.t + n && Running(w, k)
    decreases n
  {
    hide WaitOsc;
    WaitStep(c, w, waited);
    if Running(w, c.t) {
    } else if n > 1 {
      var c' := c.(t := c.t + 1);
      LooksLeft(c', w, waited + 5, n - 1);
      if k :| c.t <= k < c.t + n && Running(w, k) { assert c'.t <= k < c'.t + (n - 1) && Running(w, k); }
    }
  }

  /** Off: the field is reported, and the tag goes idle, exactly when the chip
      signalled it or the next sample shows it. */
  lemma OffLaw(s: Tag, w: World)
    requires Inv(s) && s.state == Off
    ensures var (r, ev) := Update(s, w);
            if Signalled(s, w, EonFieldOn) || w(s.chip.t + 1).field then r.state == Idle && ev == FieldOn
            else r.state == Off && ev == NoEvent
  {
    var hit := Take(s.chip, w, {EonFieldOn}).1;
    if Signalled(s, w, EonFieldOn) { assert EonFieldOn in hit; } else { assert hit == {}; }
  }

  // ------------------------------------------------------------- being selected

  /** Idle or halted: the tag is called, and gets ready, exactly when the chip
      signals its passive target interrupt at 106 kbit/s with a code past the
      first of the state (1 for idle, 9 for halted), nothing else having been
      received and the field not having gone. */
  lemma WaitingLaw(s: Tag, w: World)
    requires Inv(s) && (s.state == Idle || s.state == Halt)
    ensures var r := Update(s, w).0;
            var t, measured := s.chip.t, Signalled(s, w, NfctBitRate);
            var kbit106 := if measured then w(t + 1).bitRate == 0 else s.bitrate106;
            var u := if measured then t + 2 else t + 1;
            var called := Signalled(s, w, RxePta) && !Signalled(s, w, RxeReceived) && kbit106
                          && w(u).pta % 16 > (if s.state == Halt then 9 else 1);
            if Signalled(s, w, EofFieldOff) then r.state == if w(u + 1).field then Idle else Off
            else if !called then r.state == s.state && r.wakeup == s.wakeup && r.bitrate106 == kbit106
            else if EofFieldOff in w(u + 1).irqs then r.state == if w(u + 3).field then Idle else Off
            else r.state == Ready && r.wakeup == (s.state == Halt) && r.bitrate106 == kbit106
  {
    hide GotoOff, GotoReady, Heard;
    HeardExact(s, w);
    HeardKeeps(s, w);
    var (s1, f) := Heard(s, w);
    if EofFieldOff in f {
      OffExact(s1, w);
    } else if RxeReceived !in f && RxePta in f && s1.bitrate106 {
      ReadyExact(s1.(chip := s1.chip.(t := s1.chip.t + 1), wakeup := s.state == Halt), w);
    }
  }

  lemma HeardExact(s: Tag, w: World)
    ensures var (s1, f) := Heard(s, w);
            var measured := Signalled(s, w, NfctBitRate);
            && s1.chip.t == (if measured then s.chip.t + 2 else s.chip.t + 1)
            && s1.bitrate106 == (if measured then w(s.chip.t + 1).bitRate == 0 else s.bitrate106)
            && (EofFieldOff in f <==> Signalled(s, w, EofFieldOff)) && (RxePta in f <==> Signalled(s, w, RxePta))
            && (RxeReceived in f <==> Signalled(s, w, RxeReceived))
  {
  }

  lemma ReadyExact(s: Tag, w: World)
    requires s.chip.en && EofFieldOff !in s.chip.pending
    ensures var r := GotoReady(s, w);
            if EofFieldOff in w(s.chip.t).irqs then r.state == if w(s.chip.t + 2).field then Idle else Off
            else r.state == Ready && r.wakeup == s.wakeup && r.bitrate106 == s.bitrate106
  {
    hide GotoOff;
    var (c, hit) := Take(s.chip, w, {EofFieldOff});
    if EofFieldOff in w(s.chip.t).irqs {
      assert EofFieldOff in hit;
      OffExact(s.(chip := c), w);
    } else {
      assert hit == {};
    }
  }

  /** Ready: a loss of the field goes first, then the wake-up interrupt of the
      state it came from selects the tag, and nothing else moves it. */
  lemma ReadyLaw(s: Tag, w: World)
    requires Inv(s) && s.state == Ready
    ensures var (r, ev) := Update(s, w);
            if Signalled(s, w, EofFieldOff) then r.state == if w(s.chip.t + 2).field then Idle else Off
            else if Signalled(s, w, if s.wakeup then WuAx else WuA) then
              r.state == Active && r.wakeup == s.wakeup && ev == Selected
            else r.state == Ready && r.wakeup == s.wakeup && ev == NoEvent
  {
    hide GotoOff;
    var (c, f) := Take(s.chip, w, {EofFieldOff, if s.wakeup then WuAx else WuA});
    if Signalled(s, w, EofFieldOff) {
      assert EofFieldOff in f;
      OffExact(s.(chip := c), w);
    }
  }

  // ------------------------------------------------------------------ commands

  predicate IsRead(rx: seq<byte>) { |rx| == 2 && rx[0] == 0x30 && rx[1] < 231 }
  predicate IsFastRead(rx: seq<byte>) {
    |rx| == 3 && rx[0] == 0x3A && rx[1] <= rx[2] < 231 && rx[2] as int - rx[1] as int < 128
  }
  predicate IsWrite(rx: seq<byte>) { |rx| == 6 && rx[0] == 0xA2 && 2 <= rx[1] < 231 }
  predicate IsGetVersion(rx: seq<byte>) { rx == [0x60] }
  predicate IsReadSig(rx: seq<byte>) { |rx| == 2 && rx[0] == 0x3C }
  predicate IsHlta(rx: seq<byte>) { rx != [] && rx[0] == 0x50 }

  predicate Answered(rx: seq<byte>) {
    IsRead(rx) || IsFastRead(rx) || IsWrite(rx) || IsGetVersion(rx) || IsReadSig(rx)
  }

  /** The whole command set: what each frame is answered with and does; any
      other frame gets a NAK and ends the session. */
  lemma CommandLaw(mem: seq<byte>, rx: seq<byte>)
    requires |mem| == MEM_BYTES && rx != []
    ensures var (m, wrote, reply, outcome) := Command(mem, rx);
            && (IsRead(rx) ==>
                  m == mem && outcome == Stay && reply.Some? && reply.value.Frame? && |reply.value.bytes| == 16
                  && forall i :: 0 <= i < 16 ==> reply.value.bytes[i] == mem[(4 * rx[1] as int + i) % 924])
            && (IsFastRead(rx) ==>
                  m == mem && outcome == Stay && reply == Some(Frame(mem[4 * rx[1] as int..4 * rx[2] as int + 4])))
            && (IsWrite(rx) ==>
                  && outcome == Stay && reply == Some(Nibble(0x0A))
                  && forall k :: 0 <= k < 924 ==>
                       m[k] == if rx[1] >= 3 && k / 4 == rx[1] as int then rx[2 + k % 4] else mem[k])
            && (IsGetVersion(rx) ==>
                  m == mem && outcome == Stay && reply == Some(Frame([0x00, 0x04, 0x04, 0x02, 0x01, 0x00, 0x13, 0x03])))
            && (IsReadSig(rx) ==> m == mem && outcome == Stay && reply == Some(Frame(seq(32, _ => 0))))
            && (IsHlta(rx) ==> m == mem && outcome == GoHalt && reply == None)
            && (!Answered(rx) && !IsHlta(rx) ==> m == mem && outcome == Drop && reply == Some(Nibble(0x00)))
            && (wrote <==> IsWrite(rx) && 4 <= rx[1] <= 225)
  {
    if IsWrite(rx) { WriteExact(mem, rx); }
    if IsFastRead(rx) { assert (rx[2] as int + 1) * 4 == 4 * rx[2] as int + 4; }
  }

  lemma WriteExact(mem: seq<byte>, rx: seq<byte>)
    requires |mem| == MEM_BYTES && IsWrite(rx)
    ensures var m := Command(mem, rx).0;
            forall k :: 0 <= k < 924 ==>
              m[k] == if rx[1] >= 3 && k / 4 == rx[1] as int then rx[2 + k % 4] else mem[k]
  {
    var m, page := Command(mem, rx).0, rx[1] as int;
    assert m == if page >= 3 then Splice(mem, page * 4, rx[2..6]) else mem;
    forall k | 0 <= k < 924 ensures m[k] == if page >= 3 && k / 4 == page then rx[2 + k % 4] else mem[k] {
      if page >= 3 { SpliceReads(mem, page * 4, rx[2..6], k); }
    }
  }

  /** Active: only a loss of the field or a frame moves the tag. A frame with
      errors, of fewer than three or more than 64 bytes, or refused by the
      command set sends it back, to HALT if that is where it was woken; HLTA
      halts it; and HALT needs the field. */
  lemma ActiveLaw(s: Tag, w: World)
    requires Inv(s) && s.state == Active
    ensures var r := Update(s, w).0;
            var t := s.chip.t;
            var fifo := w(t + 2).fifo;
            var clean := !Signalled(s, w, RxError) && RxError !in w(t + 1).irqs && 3 <= |fifo| <= 64;
            var halts := IsHlta(fifo) && clean;
            var stays := clean && Answered(fifo[..|fifo| - 2]);
            if Signalled(s, w, EofFieldOff) then r.state == if w(t + 2).field then Idle else Off
            else if !Signalled(s, w, RxeReceived) || stays then r.state == Active && r.wakeup == s.wakeup
            else if !halts && !s.wakeup then r.state == Idle
            else if w(t + 3).field then r.state == Halt
            else r.state == if w(t + 5).field then Idle else Off
  {
    hide GotoOff, FallBack, Serve, Command, Answered, IsHlta;
    var (c, f) := Take(s.chip, w, {EofFieldOff, RxeReceived});
    assert EofFieldOff in f <==> Signalled(s, w, EofFieldOff);
    assert RxeReceived in f <==> Signalled(s, w, RxeReceived);
    if EofFieldOff in f {
      OffExact(s.(chip := c), w);
    } else if RxeReceived in f {
      FrameLaw(s, w, c);
    }
  }

  /** The part of `ActiveLaw` from a received frame on. */
  lemma FrameLaw(s: Tag, w: World, c: Regs)
    requires Inv(s) && s.state == Active && c == Take(s.chip, w, {EofFieldOff, RxeReceived}).0
    requires !Signalled(s, w, EofFieldOff) && Signalled(s, w, RxeReceived)
    ensures var r := Update(s, w).0;
            var t := s.chip.t;
            var fifo := w(t + 2).fifo;
            var clean := !Signalled(s, w, RxError) && RxError !in w(t + 1).irqs && 3 <= |fifo| <= 64;
            var halts := IsHlta(fifo) && clean;
            var stays := clean && Answered(fifo[..|fifo| - 2]);
            if stays then r.state == Active && r.wakeup == s.wakeup
            else if !halts && !s.wakeup then r.state == Idle
            else if w(t + 3).field then r.state == Halt
            else r.state == if w(t + 5).field then Idle else Off
  {
    hide GotoOff, GotoHalt, FallBack, Serve, Answered, IsHlta;
    var (c', errs) := Take(c, w, {RxError});
    var fifo := w(c'.t).fifo;
    var rx := Received(errs, fifo);
    var s' := s.(chip := c'.(t := c'.t + 1));
    assert RxError in errs <==> Signalled(s, w, RxError) || RxError in w(c.t).irqs;
    match rx
    case None => BackLaw(s', w);
    case Some(x) =>
      assert IsHlta(fifo) <==> IsHlta(x) by { SameCode(fifo, x); }
      ServedLaw(s', w, x);
  }

  lemma SameCode(fifo: seq<byte>, x: seq<byte>)
    requires fifo != [] && x != [] && fifo[0] == x[0]
    ensures IsHlta(fifo) <==> IsHlta(x)
  {
  }

  lemma ServedLaw(s: Tag, w: World, rx: seq<byte>)
    requires Inv(s) && s.state == Active && rx != []
    ensures var r := Serve(s, w, rx);
            if Answered(rx) then r.state == Active && r.wakeup == s.wakeup
            else if !IsHlta(rx) && !s.wakeup then r.state == Idle
            else if w(s.chip.t).field then r.state == Halt
            else r.state == if w(s.chip.t + 2).field then Idle else Off
  {
    hide GotoHalt, FallBack, Command;
    CommandLaw(s.mem, rx);
    var (mem, wrote, reply, outcome) := Command(s.mem, rx);
    var air := s.chip.air + (if reply.Some? then [OnAir(reply.value)] else []);
    var s' := s.(mem := mem, dirty := s.dirty || wrote, chip := s.chip.(air := air));
    match outcome
    case Stay =>
    case GoHalt => HaltLaw(s', w);
    case Drop => BackLaw(s', w);
  }

  lemma HaltLaw(s: Tag, w: World)
    requires s.chip.en
    ensures GotoHalt(s, w).state
            == if w(s.chip.t).field then Halt else if w(s.chip.t + 2).field then Idle else Off
  {
    hide GotoOff;
    OffExact(s.(chip := s.chip.(autoOff := false, asleep := true, t := s.chip.t + 1)), w);
  }

  lemma BackLaw(s: Tag, w: World)
    requires s.chip.en
    ensures FallBack(s, w).state
            == if !s.wakeup then Idle
               else if w(s.chip.t).field then Halt else if w(s.chip.t + 2).field then Idle else Off
  {
    hide GotoHalt;
    HaltLaw(s, w);
  }

  lemma OnlyActiveServes(s: Tag, w: World)
    requires s.state != Active
    ensures ServedFrame(s, w) == None
  {
  }

  /** What an answered frame, and only a frame with an answer, puts on air. */
  lemma AirLaw(s: Tag, w: World)
    requires Inv(s)
    ensures var rx, r := ServedFrame(s, w), Update(s, w).0;
            r.chip.air == if rx.Some? && Command(s.mem, rx.value).2.Some?
                          then s.chip.air + [OnAir(Command(s.mem, rx.value).2.value)] else s.chip.air
  {
    hide GotoOff, Command, UpdateWaiting, UpdateActive, ServedFrame;
    if s.state != Active { OnlyActiveServes(s, w); }
    match s.state
    case Off =>
    case Idle => WaitingQuiet(s, w);
    case Halt => WaitingQuiet(s, w);
    case Ready => OffEnds(s.(chip := Take(s.chip, w, {EofFieldOff, if s.wakeup then WuAx else WuA}).0), w);
    case Active => ActiveAir(s, w);
  }

  lemma ActiveAir(s: Tag, w: World)
    requires Inv(s) && s.state == Active
    ensures var rx, r := ServedFrame(s, w), UpdateActive(s, w);
            r.chip.air == if rx.Some? && Command(s.mem, rx.value).2.Some?
                          then s.chip.air + [OnAir(Command(s.mem, rx.value).2.value)] else s.chip.air
  {
    hide GotoOff, FallBack, Command, Serve;
    var (c, f) := Take(s.chip, w, {EofFieldOff, RxeReceived});
    if EofFieldOff in f {
      OffEnds(s.(chip := c), w);
    } else if RxeReceived in f {
      var (c', errs) := Take(c, w, {RxError});
      var s' := s.(chip := c'.(t := c'.t + 1));
      match Received(errs, w(c'.t).fifo)
      case None => BackQuiet(s', w);
      case Some(x) => ServeAir(s', w, x);
    }
  }

  lemma ServeAir(s: Tag, w: World, rx: seq<byte>)
    requires Inv(s) && rx != []
    ensures Serve(s, w, rx).chip.air
            == s.chip.air + (if Command(s.mem, rx).2.Some? then [OnAir(Command(s.mem, rx).2.value)] else [])
  {
    hide GotoHalt, FallBack, Command;
    var (mem, wrote, reply, outcome) := Command(s.mem, rx);
    var air := s.chip.air + (if reply.Some? then [OnAir(reply.value)] else []);
    var s' := s.(mem := mem, dirty := s.dirty || wrote, chip := s.chip.(air := air));
    HaltQuiet(s', w);
    BackQuiet(s', w);
  }

  lemma HaltQuiet(s: Tag, w: World)
    ensures GotoHalt(s, w).chip.air == s.chip.air
  {
    hide GotoOff;
    OffEnds(s.(chip := s.chip.(autoOff := false, asleep := true, t := s.chip.t + 1)), w);
  }

  lemma BackQuiet(s: Tag, w: World)
    requires s.chip.en
    ensures FallBack(s, w).chip.air == s.chip.air
  {
    HaltQuiet(s, w);
  }

  lemma WaitingQuiet(s: Tag, w: World)
    requires Inv(s) && (s.state == Idle || s.state == Halt)
    ensures UpdateWaiting(s, w).chip.air == s.chip.air
  {
    hide GotoOff, Heard;
    HeardKeeps(s, w);
    var s1 := Heard(s, w).0;
    OffEnds(s1, w);
    var s2 := s1.(chip := s1.chip.(t := s1.chip.t + 1), wakeup := s.state == Halt);
    OffEnds(s2.(chip := Take(s2.chip, w, {EofFieldOff}).0), w);
  }
}
