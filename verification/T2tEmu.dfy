/** The emulator as the firmware has it, fields updated in place, held to T2tSpec. */
module T2tEmu {
  import opened Bytes
  import opened Tlv
  import opened T2tSpec
  import Spec = T2tSpec

  /** The ST25R3916: the registers the emulator touches, fed by the world outside. */
  class Nfc {
    const world: World
    var en: bool
    var autoOff: bool
    var asleep: bool
    var noCrc: bool
    var pending: set<Irq>
    var t: nat
    var air: seq<Reply>

    ghost function View(): Regs
      reads this
    {
      Regs(en, autoOff, asleep, noCrc, pending, t, air)
    }

    constructor (world: World)
      ensures this.world == world && !en && t == 0
    {
      this.world := world;
      en, autoOff, asleep, noCrc := false, false, false, false;
      pending, t, air := {}, 0, [];
    }

    method Now() returns (s: Sample)
      modifies this`t
      ensures s == world(old(t)) && t == old(t) + 1
    {
      s := world(t);
      t := t + 1;
    }

    /** `take_irq` */
    method TakeIrq(bits: set<Irq>) returns (hit: set<Irq>)
      modifies this`pending, this`t
      ensures (View(), hit) == Take(old(View()), world, bits)
    {
      var s := Now();
      pending := pending + s.irqs;
      hit := pending * bits;
      pending := pending - hit;
      assert pending == old(pending) + s.irqs - bits;
    }

    /** `clear_irq` */
    method ClearIrq()
      modifies this`pending, this`t
      ensures View() == Cleared(old(View()))
    {
      pending := {};
      var _ := Now();
    }

    /** `target_transmit` */
    method Transmit(r: Reply)
      modifies this`air
      ensures air == old(air) + [OnAir(r)]
    {
      air := air + [OnAir(r)];
    }
  }

  // ----------------------------------------------------- the emulator object

  class Emulator {
    const memory: array<byte>
    var state: State
    var bitrate106: bool
    var wakeup: bool
    var dirty: bool

    ghost function View(nfc: Nfc): Tag
      reads this, memory, nfc
    {
      Tag(memory[..], state, bitrate106, wakeup, dirty, nfc.View())
    }

    /** `new` */
    constructor (uid: seq<byte>)
      requires |uid| == 7
      ensures fresh(memory) && memory.Length == MEM_BYTES && memory[..] == Blank(uid)
      ensures state == Off && !bitrate106 && !wakeup && !dirty
    {
      hide Splice, Xor;
      memory := new byte[MEM_BYTES](_ => 0);
      state, bitrate106, wakeup, dirty := Off, false, false, false;
      new;
      assert memory[..] == Zeros(MEM_BYTES);
      CopyInto(memory, 0, Serial(uid));
      CopyInto(memory, 12, [0xE1, 0x10, 0x6D, 0x00]);
      CopyInto(memory, 16, [0x03, 0x00, 0xFE, 0x00]);
      CopyInto(memory, (USER_LAST_PAGE + 1) * 4, CONFIG);
    }

    method Sense(nfc: Nfc)
      modifies this, nfc
      ensures View(nfc) == Sensing(old(View(nfc)))
    {
      bitrate106 := false;
      wakeup := false;
      nfc.autoOff := false;
      nfc.asleep := false;
      nfc.ClearIrq();
      nfc.noCrc := true;
    }

    method GotoOff(nfc: Nfc)
      modifies this, nfc
      ensures View(nfc) == Spec.GotoOff(old(View(nfc)), nfc.world)
      decreases if nfc.en then 0 else 1, 1
    {
      hide Spec.GotoIdle;
      Sense(nfc);
      var s := nfc.Now();
      if s.field {
        GotoIdle(nfc);
        return;
      }
      nfc.en := true;
      state := Off;
    }

    /** The polling loop of `goto_idle`. */
    method AwaitOscillator(nfc: Nfc) returns (ok: bool)
      modifies nfc`t
      ensures (nfc.View(), ok) == WaitOsc(old(nfc.View()), nfc.world, 0)
      ensures nfc.View() == old(nfc.View()).(t := nfc.t)
    {
      hide WaitOsc;
      var waited := 0;
      while true
        invariant 0 <= waited && nfc.View() == old(nfc.View()).(t := nfc.t)
        invariant WaitOsc(nfc.View(), nfc.world, waited) == WaitOsc(old(nfc.View()), nfc.world, 0)
        decreases if waited > 200 then 0 else 201 - waited
      {
        WaitStep(nfc.View(), nfc.world, waited);
        var s := nfc.Now();
        if s.osc { return true; }
        if waited > 200 { return false; }
        waited := waited + 5;
      }
    }

    method GotoIdle(nfc: Nfc)
      modifies this, nfc
      ensures View(nfc) == Spec.GotoIdle(old(View(nfc)), nfc.world)
      decreases if nfc.en then 0 else 1, 0
    {
      hide Spec.GotoOff, Spec.WaitOsc;
      if !nfc.en {
        nfc.en := true;
        var ok := AwaitOscillator(nfc);
        if !ok {
          GotoOff(nfc);
          return;
        }
      }
      nfc.noCrc := true;
      if state == Active && !wakeup {
        nfc.autoOff := false;
        nfc.asleep := false;
      }
      wakeup := false;
      state := Idle;
    }

    method GotoReady(nfc: Nfc)
      modifies this, nfc
      ensures View(nfc) == Spec.GotoReady(old(View(nfc)), nfc.world)
    {
      hide Spec.GotoOff;
      var f := nfc.TakeIrq({EofFieldOff});
      if f != {} {
        GotoOff(nfc);
        return;
      }
      nfc.noCrc := false;
      state := Ready;
    }

    method GotoActive(nfc: Nfc)
      modifies this, nfc
      ensures View(nfc) == Spec.GotoActive(old(View(nfc)), nfc.world)
    {
      nfc.autoOff := true;
      var _ := nfc.TakeIrq({RxError});
      state := Active;
    }

    method GotoHalt(nfc: Nfc)
      modifies this, nfc
      ensures View(nfc) == Spec.GotoHalt(old(View(nfc)), nfc.world)
    {
      hide Spec.GotoOff;
      nfc.autoOff := false;
      nfc.asleep := true;
      var s := nfc.Now();
      if !s.field {
        GotoOff(nfc);
        return;
      }
      state := Halt;
    }

    /** `start`, when the chip comes up. */
    method Start(nfc: Nfc)
      modifies this, nfc
      ensures View(nfc) == Spec.Start(old(View(nfc)), nfc.world)
    {
      nfc.en := true;
      nfc.autoOff := false;
      dirty := false;
      GotoOff(nfc);
    }

    /** `handle_command` */
    method HandleCommand(nfc: Nfc, rx: seq<byte>) returns (outcome: Outcome)
      requires memory.Length == MEM_BYTES && rx != []
      modifies memory, this`dirty, nfc`air
      ensures var (mem, wrote, reply, out) := Command(old(memory[..]), rx);
              && outcome == out && memory[..] == mem && dirty == (old(dirty) || wrote)
              && nfc.air == old(nfc.air) + (if reply.Some? then [OnAir(reply.value)] else [])
    {
      outcome := Stay;
      if rx[0] == 0x30 && |rx| == 2 {
        if rx[1] >= PAGES {
          nfc.Transmit(Nibble(NAK));
          return Drop;
        }
        nfc.Transmit(Frame(Quad(memory[..], rx[1])));
      } else if rx[0] == 0x3A && |rx| == 3 {
        var from, to := rx[1] as int, rx[2] as int;
        if from > to || to >= PAGES || (to - from + 1) * 4 > 512 {
          nfc.Transmit(Nibble(NAK));
          return Drop;
        }
        assert memory[from * 4..(to + 1) * 4] == memory[..][from * 4..(to + 1) * 4];
        nfc.Transmit(Frame(memory[from * 4..(to + 1) * 4]));
      } else if rx[0] == 0xA2 && |rx| == 6 {
        var page := rx[1] as int;
        if page < 2 || page >= PAGES {
          nfc.Transmit(Nibble(NAK));
          return Drop;
        }
        if page >= 3 {
          CopyInto(memory, page * 4, rx[2..6]);
          if USER_FIRST_PAGE <= page <= USER_LAST_PAGE { dirty := true; }
        }
        nfc.Transmit(Nibble(ACK));
      } else if rx[0] == 0x60 && |rx| == 1 {
        nfc.Transmit(Frame(VERSION));
      } else if rx[0] == 0x3C && |rx| == 2 {
        nfc.Transmit(Frame(Zeros(32)));
      } else if rx[0] == 0x50 {
        return GoHalt;
      } else {
        nfc.Transmit(Nibble(NAK));
        return Drop;
      }
    }

    /** Answer a frame, and leave the selected state if it says so. */
    method Serve(nfc: Nfc, rx: seq<byte>)
      requires memory.Length == MEM_BYTES && rx != []
      modifies this, memory, nfc
      ensures View(nfc) == Spec.Serve(old(View(nfc)), nfc.world, rx)
    {
      hide Spec.GotoHalt, Spec.FallBack, Command;
      var outcome := HandleCommand(nfc, rx);
      match outcome {
        case Stay =>
        case GoHalt => GotoHalt(nfc);
        case Drop => FallBack(nfc);
      }
    }

    method FallBack(nfc: Nfc)
      modifies this, nfc
      ensures View(nfc) == Spec.FallBack(old(View(nfc)), nfc.world)
    {
      hide Spec.GotoHalt, Spec.GotoIdle;
      if wakeup { GotoHalt(nfc); } else { GotoIdle(nfc); }
    }

    method UpdateOff(nfc: Nfc)
      modifies this, nfc
      ensures View(nfc) == Spec.UpdateOff(old(View(nfc)), nfc.world)
    {
      hide Spec.GotoIdle;
      var f := nfc.TakeIrq({EonFieldOn});
      if f != {} {
        GotoIdle(nfc);
        return;
      }
      var s := nfc.Now();
      if s.field { GotoIdle(nfc); }
    }

    method Hear(nfc: Nfc) returns (f: set<Irq>)
      modifies this`bitrate106, nfc`pending, nfc`t
      ensures (View(nfc), f) == Heard(old(View(nfc)), nfc.world)
    {
      f := nfc.TakeIrq(WAITING);
      if NfctBitRate in f {
        var s := nfc.Now();
        bitrate106 := s.bitRate == 0;
      }
    }

    method UpdateWaiting(nfc: Nfc)
      requires state == Idle || state == Halt
      modifies this, nfc
      ensures View(nfc) == Spec.UpdateWaiting(old(View(nfc)), nfc.world)
    {
      hide Spec.GotoOff, Spec.GotoReady, Heard;
      var f := Hear(nfc);
      assert state == old(state);
      if EofFieldOff in f {
        GotoOff(nfc);
      } else if RxeReceived in f {
        var _ := nfc.TakeIrq({RxError});
      } else if RxePta in f && bitrate106 {
        var s := nfc.Now();
        var threshold := if state == Halt then 9 else 1;
        if s.pta % 16 > threshold {
          wakeup := state == Halt;
          GotoReady(nfc);
        }
      }
    }

    method UpdateReady(nfc: Nfc)
      modifies this, nfc
      ensures View(nfc) == Spec.UpdateReady(old(View(nfc)), nfc.world)
    {
      hide Spec.GotoOff, Spec.GotoActive;
      var wake := if wakeup then WuAx else WuA;
      var f := nfc.TakeIrq({EofFieldOff, wake});
      if EofFieldOff in f { GotoOff(nfc); } else if wake in f { GotoActive(nfc); }
    }

    method UpdateActive(nfc: Nfc)
      requires memory.Length == MEM_BYTES
      modifies this, memory, nfc
      ensures View(nfc) == Spec.UpdateActive(old(View(nfc)), nfc.world)
    {
      hide Spec.GotoOff, Spec.FallBack, Spec.Serve;
      var f := nfc.TakeIrq({EofFieldOff, RxeReceived});
      if EofFieldOff in f {
        GotoOff(nfc);
      } else if RxeReceived in f {
        var errs := nfc.TakeIrq({RxError});
        var s := nfc.Now();
        var rx := Received(errs, s.fifo);
        if rx.None? { FallBack(nfc); } else { Serve(nfc, rx.value); }
      }
    }

    /** `update` */
    method Update(nfc: Nfc) returns (ev: Event)
      requires memory.Length == MEM_BYTES
      modifies this, memory, nfc
      ensures (View(nfc), ev) == Spec.Update(old(View(nfc)), nfc.world)
    {
      hide Spec.UpdateOff, Spec.UpdateWaiting, Spec.UpdateReady, Spec.UpdateActive;
      var before := state;
      match state {
        case Off => UpdateOff(nfc);
        case Idle => UpdateWaiting(nfc);
        case Halt => UpdateWaiting(nfc);
        case Ready => UpdateReady(nfc);
        case Active => UpdateActive(nfc);
      }
      if before == Off && state != Off {
        ev := FieldOn;
      } else if before != Off && state == Off {
        ev := FieldOff(dirty);
        dirty := false;
      } else if before != Active && state == Active {
        ev := Selected;
      } else {
        ev := NoEvent;
      }
    }
  }
}
