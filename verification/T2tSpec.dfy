/**
 The Type 2 tag emulator: five states driven by the interrupts of the
 ST25R3916, and the command set served while active.

 The world outside is a function of time: every register read that depends on
 the reader's field, the oscillator or the air interface takes the next sample.
 */
module T2tSpec {
  import opened Bytes
  import opened Tlv

  // ------------------------------------------------------------ the chip

  datatype Irq = EonFieldOn | EofFieldOff | NfctBitRate | RxeReceived | RxePta | WuA | WuAx | RxError

  /** What the chip would answer at one moment. */
  datatype Sample = Sample(field: bool, osc: bool, irqs: set<Irq>, bitRate: nat, pta: nat, fifo: seq<byte>)

  type World = nat -> Sample

  /** A transmission from target mode: a 4-bit code, or a frame with CRC. */
  datatype Reply = Nibble(code: nat) | Frame(bytes: seq<byte>)

  /** What goes on air: the transmit-length register keeps nine bits of the byte count. */
  function OnAir(r: Reply): Reply {
    match r
    case Nibble(_) => r
    case Frame(bytes) => Frame(bytes[..|bytes| % 0x200])
  }

  /** The registers that matter: EN, auto-response off, sleep or sense, CRC
      bytes kept unchecked, unread interrupts, the clock, and what was sent. */
  datatype Regs = Regs(en: bool, autoOff: bool, asleep: bool, noCrc: bool, pending: set<Irq>, t: nat, air: seq<Reply>)

  function Take(c: Regs, w: World, bits: set<Irq>): (Regs, set<Irq>) {
    var all := c.pending + w(c.t).irqs;
    (c.(pending := all - bits, t := c.t + 1), all * bits)
  }

  function Cleared(c: Regs): Regs { c.(pending := {}, t := c.t + 1) }

  // --------------------------------------------------------- a blank tag

  function Xor(a: byte, b: byte): byte { ((a as bv8) ^ (b as bv8)) as int }

  /** The configuration pages behind user memory. */
  const CONFIG: seq<byte> := [0x00, 0x00, 0x00, 0xFF, 0x00, 0x05, 0x00, 0x00, 0xFF, 0xFF, 0xFF, 0xFF]

  /** UID, cut in two groups with a check byte each, and the internal byte. */
  function Serial(uid: seq<byte>): (s: seq<byte>)
    requires |uid| == 7
    ensures |s| == 10
  {
    [uid[0], uid[1], uid[2], Xor(Xor(Xor(0x88, uid[0]), uid[1]), uid[2]),
     uid[3], uid[4], uid[5], uid[6], Xor(Xor(Xor(uid[3], uid[4]), uid[5]), uid[6]), 0x48]
  }

  /** Memory of a new tag: serial number, capability container, an empty NDEF
      TLV, and the configuration pages, over zeros. */
  function Blank(uid: seq<byte>): (m: seq<byte>)
    requires |uid| == 7
    ensures |m| == MEM_BYTES
  {
    var m := Splice(Splice(Zeros(MEM_BYTES), 0, Serial(uid)), 12, [0xE1, 0x10, 0x6D, 0x00]);
    Splice(Splice(m, 16, [0x03, 0x00, 0xFE, 0x00]), (USER_LAST_PAGE + 1) * 4, CONFIG)
  }

  lemma XorSelf(a: byte)
    ensures Xor(a, a) == 0
  {
    var v := a as bv8;
    assert v ^ v == 0;
  }

  lemma SpliceReads(m: seq<byte>, at: nat, data: seq<byte>, k: nat)
    requires at + |data| <= |m| && k < |m|
    ensures Splice(m, at, data)[k] == if at <= k < at + |data| then data[k - at] else m[k]
  {
  }

  lemma BlankReads(uid: seq<byte>, k: nat)
    requires |uid| == 7 && k < MEM_BYTES
    ensures Blank(uid)[k]
            == if k < 10 then Serial(uid)[k] else if 12 <= k < 16 then [0xE1, 0x10, 0x6D, 0x00][k - 12]
               else if 16 <= k < 20 then [0x03, 0x00, 0xFE, 0x00][k - 16]
               else if 904 <= k < 916 then CONFIG[k - 904] else 0
  {
    hide Splice, Serial;
    var a := Splice(Zeros(MEM_BYTES), 0, Serial(uid));
    var b := Splice(a, 12, [0xE1, 0x10, 0x6D, 0x00]);
    var c := Splice(b, 16, [0x03, 0x00, 0xFE, 0x00]);
    SpliceReads(Zeros(MEM_BYTES), 0, Serial(uid), k);
    SpliceReads(a, 12, [0xE1, 0x10, 0x6D, 0x00], k);
    SpliceReads(b, 16, [0x03, 0x00, 0xFE, 0x00], k);
    SpliceReads(c, (USER_LAST_PAGE + 1) * 4, CONFIG, k);
  }

  /** A new tag shows the UID, in the two groups of section 6.5.4 of ISO/IEC
      14443-3 whose check bytes cancel them out, and serves an empty message. */
  lemma BlankTag(uid: seq<byte>)
    requires |uid| == 7
    ensures var m := Blank(uid);
            && m[..3] + m[4..8] == uid
            && Xor(Xor(Xor(Xor(0x88, m[0]), m[1]), m[2]), m[3]) == 0
            && Xor(Xor(Xor(Xor(m[4], m[5]), m[6]), m[7]), m[8]) == 0
            && Ndef(m) == Some([])
  {
    hide Xor, Blank;
    var m := Blank(uid);
    forall k: nat | k < 10 ensures m[k] == Serial(uid)[k] { BlankReads(uid, k); }
    XorSelf(m[3]);
    XorSelf(m[8]);
    BlankReads(uid, 16);
    BlankReads(uid, 17);
    assert User(m)[0] == m[16] == 0x03 && User(m)[1] == m[17] == 0x00;
    assert User(m)[2..2] == [];
  }

  // -------------------------------------------------------- state machine

  datatype State = Off | Idle | Ready | Active | Halt

  datatype Event = NoEvent | FieldOn | FieldOff(written: bool) | Selected

  /** The emulator with its chip. */
  datatype Tag = Tag(mem: seq<byte>, state: State, bitrate106: bool, wakeup: bool, dirty: bool, chip: Regs)

  /** Poll for the oscillator every 5 ms, giving up past 200 ms. */
  function WaitOsc(c: Regs, w: World, waited: nat): (Regs, bool)
    decreases if waited > 200 then 0 else 201 - waited
  {
    var c' := c.(t := c.t + 1);
    if w(c.t).osc then (c', true) else if waited > 200 then (c', false) else WaitOsc(c', w, waited + 5)
  }

  lemma {:induction false} WaitKeepsRegs(c: Regs, w: World, waited: nat)
    ensures WaitOsc(c, w, waited).0 == c.(t := WaitOsc(c, w, waited).0.t)
    ensures c.t < WaitOsc(c, w, waited).0.t
    decreases if waited > 200 then 0 else 201 - waited
  {
    if !w(c.t).osc && waited <= 200 { WaitKeepsRegs(c.(t := c.t + 1), w, waited + 5); }
  }

  lemma WaitStep(c: Regs, w: World, waited: nat)
    ensures WaitOsc(c, w, waited)
            == var c' := c.(t := c.t + 1);
               if w(c.t).osc then (c', true) else if waited > 200 then (c', false) else WaitOsc(c', w, waited + 5)
  {
  }

  /** Reset to sensing for a field: the register writes at the head of `goto_off`. */
  function Sensing(s: Tag): Tag {
    s.(bitrate106 := false, wakeup := false,
       chip := Cleared(s.chip.(autoOff := false, asleep := false)).(noCrc := true))
  }

  function Tick(s: Tag): Tag { s.(chip := s.chip.(t := s.chip.t + 1)) }

  function GotoOff(s: Tag, w: World): (r: Tag)
    decreases if s.chip.en then 0 else 1, 1
  {
    var s1 := Sensing(s);
    var s2 := Tick(s1);
    if w(s1.chip.t).field then GotoIdle(s2, w) else s2.(state := Off, chip := s2.chip.(en := true))
  }

  function GotoIdle(s: Tag, w: World): (r: Tag)
    decreases if s.chip.en then 0 else 1, 0
  {
    if s.chip.en then EnterIdle(s)
    else
      var (c, ok) := WaitOsc(s.chip.(en := true), w, 0);
      assert c.en by { WaitKeepsRegs(s.chip.(en := true), w, 0); }
      var s' := s.(chip := c);
      if ok then EnterIdle(s') else GotoOff(s', w)
  }

  function EnterIdle(s: Tag): Tag {
    var c := s.chip.(noCrc := true);
    var c' := if s.state == Active && !s.wakeup then c.(autoOff := false, asleep := false) else c;
    s.(wakeup := false, state := Idle, chip := c')
  }

  function GotoReady(s: Tag, w: World): Tag {
    var (c, hit) := Take(s.chip, w, {EofFieldOff});
    if hit != {} then GotoOff(s.(chip := c), w) else s.(state := Ready, chip := c.(noCrc := false))
  }

  function GotoActive(s: Tag, w: World): Tag {
    s.(state := Active, chip := Take(s.chip.(autoOff := true), w, {RxError}).0)
  }

  function GotoHalt(s: Tag, w: World): Tag {
    var c := s.chip.(autoOff := false, asleep := true, t := s.chip.t + 1);
    if w(s.chip.t).field then s.(state := Halt, chip := c) else GotoOff(s.(chip := c), w)
  }

  /** `start`: the chip brought up with its oscillator on and configured as a target. */
  function Start(s: Tag, w: World): Tag {
    GotoOff(s.(dirty := false, chip := s.chip.(en := true, autoOff := false)), w)
  }

  // ------------------------------------------------------------- commands

  datatype Outcome = Stay | GoHalt | Drop

  const ACK := 0x0A
  const NAK := 0x00
  const VERSION: seq<byte> := [0x00, 0x04, 0x04, 0x02, 0x01, 0x00, 0x13, 0x03]

  /** Sixteen bytes from `start`, wrapping at the end of memory. */
  function Quad(mem: seq<byte>, start: nat): (r: seq<byte>)
    requires |mem| == MEM_BYTES
    ensures |r| == 16
  {
    seq(16, i requires 0 <= i < 16 => mem[(start * 4 + i) % MEM_BYTES])
  }

  /** Answer to a command frame: new memory, whether user memory was written,
      the reply if any, and what becomes of the session. */
  function Command(mem: seq<byte>, rx: seq<byte>): (r: (seq<byte>, bool, Option<Reply>, Outcome))
    requires |mem| == MEM_BYTES && rx != []
    ensures |r.0| == MEM_BYTES
  {
    var nak := (mem, false, Some(Nibble(NAK)), Drop);
    if rx[0] == 0x30 && |rx| == 2 then
      if rx[1] >= PAGES then nak else (mem, false, Some(Frame(Quad(mem, rx[1]))), Stay)
    else if rx[0] == 0x3A && |rx| == 3 then
      var from, to := rx[1] as int, rx[2] as int;
      if from > to || to >= PAGES || (to - from + 1) * 4 > 512 then nak
      else (mem, false, Some(Frame(mem[from * 4..(to + 1) * 4])), Stay)
    else if rx[0] == 0xA2 && |rx| == 6 then
      var page := rx[1] as int;
      if page < 2 || page >= PAGES then nak
      else
        (if page >= 3 then Splice(mem, page * 4, rx[2..6]) else mem,
         USER_FIRST_PAGE <= page <= USER_LAST_PAGE, Some(Nibble(ACK)), Stay)
    else if rx[0] == 0x60 && |rx| == 1 then (mem, false, Some(Frame(VERSION)), Stay)
    else if rx[0] == 0x3C && |rx| == 2 then (mem, false, Some(Frame(Zeros(32))), Stay)
    else if rx[0] == 0x50 then (mem, false, None, GoHalt)
    else nak
  }

  // --------------------------------------------------------------- update

  /** Back out of a selected state: to HALT when woken from there, else to IDLE. */
  function FallBack(s: Tag, w: World): Tag { if s.wakeup then GotoHalt(s, w) else GotoIdle(s, w) }

  function UpdateOff(s: Tag, w: World): Tag {
    var (c, hit) := Take(s.chip, w, {EonFieldOn});
    if hit != {} then GotoIdle(s.(chip := c), w)
    else
      var c' := c.(t := c.t + 1);
      if w(c.t).field then GotoIdle(s.(chip := c'), w) else s.(chip := c')
  }

  const WAITING: set<Irq> := {NfctBitRate, RxeReceived, EofFieldOff, RxePta}

  /** Interrupts taken while waiting to be selected, with the bit rate noted. */
  function Heard(s: Tag, w: World): (Tag, set<Irq>) {
    var (c, f) := Take(s.chip, w, WAITING);
    (if NfctBitRate in f then s.(bitrate106 := w(c.t).bitRate == 0, chip := c.(t := c.t + 1)) else s.(chip := c), f)
  }

  function UpdateWaiting(s: Tag, w: World): Tag {
    var (s1, f) := Heard(s, w);
    if EofFieldOff in f then GotoOff(s1, w)
    else if RxeReceived in f then s1.(chip := Take(s1.chip, w, {RxError}).0)
    else if RxePta in f && s1.bitrate106 then
      var s2 := s1.(chip := s1.chip.(t := s1.chip.t + 1));
      if w(s1.chip.t).pta % 16 > (if s.state == Halt then 9 else 1) then GotoReady(s2.(wakeup := s.state == Halt), w)
      else s2
    else s1
  }

  function UpdateReady(s: Tag, w: World): Tag {
    var wake := if s.wakeup then WuAx else WuA;
    var (c, f) := Take(s.chip, w, {EofFieldOff, wake});
    var s1 := s.(chip := c);
    if EofFieldOff in f then GotoOff(s1, w) else if wake in f then GotoActive(s1, w) else s1
  }

  /** The frame in the receive FIFO, its CRC taken off; none when it has errors or a bad length. */
  function Received(errs: set<Irq>, fifo: seq<byte>): Option<seq<byte>> {
    if errs != {} || |fifo| <= 2 || |fifo| > 64 then None else Some(fifo[..|fifo| - 2])
  }

  function Serve(s: Tag, w: World, rx: seq<byte>): Tag
    requires |s.mem| == MEM_BYTES && rx != []
  {
    var (mem, wrote, reply, outcome) := Command(s.mem, rx);
    var air := s.chip.air + (if reply.Some? then [OnAir(reply.value)] else []);
    var s' := s.(mem := mem, dirty := s.dirty || wrote, chip := s.chip.(air := air));
    match outcome
    case Stay => s'
    case GoHalt => GotoHalt(s', w)
    case Drop => FallBack(s', w)
  }

  function UpdateActive(s: Tag, w: World): Tag
    requires |s.mem| == MEM_BYTES
  {
    var (c, f) := Take(s.chip, w, {EofFieldOff, RxeReceived});
    if EofFieldOff in f then GotoOff(s.(chip := c), w)
    else if RxeReceived in f then
      var (c', errs) := Take(c, w, {RxError});
      var rx := Received(errs, w(c'.t).fifo);
      var s' := s.(chip := c'.(t := c'.t + 1));
      if rx.None? then FallBack(s', w) else Serve(s', w, rx.value)
    else s.(chip := c)
  }

  function Moved(s: Tag, w: World): Tag
    requires |s.mem| == MEM_BYTES
  {
    match s.state
    case Off => UpdateOff(s, w)
    case Idle => UpdateWaiting(s, w)
    case Halt => UpdateWaiting(s, w)
    case Ready => UpdateReady(s, w)
    case Active => UpdateActive(s, w)
  }

  function EventOf(before: Tag, after: Tag): Event {
    if before.state == Off && after.state != Off then FieldOn
    else if before.state != Off && after.state == Off then FieldOff(after.dirty)
    else if before.state != Active && after.state == Active then Selected
    else NoEvent
  }

  /** One call of `update`. */
  function Update(s: Tag, w: World): (Tag, Event)
    requires |s.mem| == MEM_BYTES
  {
    var s' := Moved(s, w);
    var ev := EventOf(s, s');
    (if ev.FieldOff? then s'.(dirty := false) else s', ev)
  }
}
