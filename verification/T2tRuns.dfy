/** What every run of the emulator keeps, for every behaviour of the reader, the field and the oscillator. */
module T2tRuns {
  import opened Bytes
  import opened Tlv
  import opened T2tSpec

  /** The chip and the emulator agree: auto-response is off exactly while
      active, a tag that is off or idle was not woken from HALT, the chip
      sleeps in HALT and senses in IDLE, and CRCs are checked from READY on. */
  predicate Inv(s: Tag) {
    && |s.mem| == MEM_BYTES
    && s.chip.en
    && (s.chip.autoOff <==> s.state == Active)
    && (s.state == Off || s.state == Idle ==> !s.wakeup && !s.chip.asleep && s.chip.noCrc)
    && (s.state == Halt ==> s.chip.asleep)
    && (s.state == Ready || s.state == Active ==> !s.chip.noCrc)
  }

  // -------------------------------------------------- off and idle terminate

  /** Whatever the field and the oscillator do, going off ends: in `Off` with
      no field seen last, or in `Idle`; and the oscillator is on. */
  lemma OffEnds(s: Tag, w: World)
    ensures var r := GotoOff(s, w);
            && r.chip.en && !r.wakeup && !r.chip.autoOff && !r.chip.asleep && r.chip.noCrc
            && r.mem == s.mem && r.dirty == s.dirty && r.chip.air == s.chip.air
            && s.chip.t < r.chip.t
            && (r.state == Off || r.state == Idle)
            && (r.state == Off ==> !w(r.chip.t - 1).field)
    decreases if s.chip.en then 0 else 1, 1
  {
    hide GotoIdle;
    var s1 := Sensing(s);
    if w(s1.chip.t).field { IdleEnds(Tick(s1), w); }
  }

  lemma IdleEnds(s: Tag, w: World)
    requires !s.chip.autoOff && !s.chip.asleep
    ensures var r := GotoIdle(s, w);
            && r.chip.en && !r.wakeup && !r.chip.autoOff && !r.chip.asleep && r.chip.noCrc
            && r.mem == s.mem && r.dirty == s.dirty && r.chip.air == s.chip.air
            && s.chip.t <= r.chip.t
            && (r.state == Off || r.state == Idle)
            && (r.state == Off ==> s.chip.t < r.chip.t && !w(r.chip.t - 1).field)
    decreases if s.chip.en then 0 else 1, 0
  {
    hide GotoOff, WaitOsc;
    if !s.chip.en {
      var (c, ok) := WaitOsc(s.chip.(en := true), w, 0);
      WaitKeepsRegs(s.chip.(en := true), w, 0);
      if !ok { OffEnds(s.(chip := c), w); }
    }
  }

  // ------------------------------------------------------------ the diagram

  /** PICC states of section 6.3 of ISO/IEC 14443-3:2011. */
  datatype Picc = PowerOff | PIdle | PReady | PActive | PHalt | PReadyStar | PActiveStar

  function Map(s: Tag): Picc {
    match s.state
    case Off => PowerOff
    case Idle => PIdle
    case Ready => if s.wakeup then PReadyStar else PReady
    case Active => if s.wakeup then PActiveStar else PActive
    case Halt => PHalt
  }

  /** The transitions of the diagram taken with the field on. */
  predicate Edge(a: Picc, b: Picc) {
    match a
    case PowerOff => b == PIdle
    case PIdle => b == PReady
    case PReady => b == PActive || b == PIdle
    case PActive => b == PHalt || b == PIdle
    case PHalt => b == PReadyStar
    case PReadyStar => b == PActiveStar || b == PHalt
    case PActiveStar => b == PHalt
  }

  /** The chip had reported the field gone, or it was gone at some moment from `t0` to `t1`. */
  predicate FieldLost(c: Regs, w: World, t1: nat) {
    EofFieldOff in c.pending || exists k :: c.t <= k < t1 && Gone(w, k)
  }

  predicate Gone(w: World, k: nat) { EofFieldOff in w(k).irqs || !w(k).field }

  lemma OffStep(s: Tag, w: World, c: Regs)
    requires s.chip.en && |s.mem| == MEM_BYTES
    requires c.t <= s.chip.t && FieldLost(c, w, s.chip.t)
    ensures var r := GotoOff(s, w);
            Inv(r) && (Map(r) == PowerOff || Map(r) == PIdle) && s.chip.t < r.chip.t && FieldLost(c, w, r.chip.t)
            && r.mem == s.mem && r.dirty == s.dirty && r.chip.air == s.chip.air
  {
    OffEnds(s, w);
    var r := GotoOff(s, w);
    if EofFieldOff !in c.pending {
      var k :| c.t <= k < s.chip.t && Gone(w, k);
      assert c.t <= k < r.chip.t;
    }
  }

  /** A move the diagram allows: none, one edge, or a loss of the field the
      chip has seen, ending off or, when the field is back, idle. */
  predicate Allowed(s: Tag, r: Tag, w: World) {
    || Map(r) == Map(s)
    || Edge(Map(s), Map(r))
    || ((Map(r) == PowerOff || Map(r) == PIdle) && FieldLost(s.chip, w, r.chip.t))
  }

  predicate Good(s: Tag, r: Tag, w: World) { Inv(r) && Allowed(s, r, w) && s.chip.t <= r.chip.t }

  lemma LossSeen(c: Regs, w: World, k: nat, t1: nat)
    requires c.t <= k < t1 && Gone(w, k)
    ensures FieldLost(c, w, t1)
  {
  }

  lemma TakeSees(c: Regs, w: World, bits: set<Irq>, t1: nat)
    requires EofFieldOff in Take(c, w, bits).1 && c.t < t1
    ensures FieldLost(c, w, t1)
  {
    if EofFieldOff !in c.pending { LossSeen(c, w, c.t, t1); }
  }

  lemma OffMove(s: Tag, w: World)
    requires Inv(s) && s.state == Off
    ensures Good(s, UpdateOff(s, w), w)
  {
  }

  lemma ReadyMove(s: Tag, w: World)
    requires Inv(s) && s.state == Ready
    ensures Good(s, UpdateReady(s, w), w)
  {
    hide GotoOff, FieldLost;
    var wake := if s.wakeup then WuAx else WuA;
    var (c, f) := Take(s.chip, w, {EofFieldOff, wake});
    if EofFieldOff in f {
      TakeSees(s.chip, w, {EofFieldOff, wake}, c.t);
      OffStep(s.(chip := c), w, s.chip);
    }
  }

  lemma WaitingMove(s: Tag, w: World)
    requires Inv(s) && (s.state == Idle || s.state == Halt)
    ensures Good(s, UpdateWaiting(s, w), w)
  {
    hide GotoOff, GotoReady, FieldLost, Heard;
    HeardKeeps(s, w);
    var (s1, f) := Heard(s, w);
    if EofFieldOff in f {
      OffStep(s1, w, s.chip);
    } else if RxeReceived !in f && RxePta in f && s1.bitrate106 {
      WokenMove(s1.(chip := s1.chip.(t := s1.chip.t + 1), wakeup := s.state == Halt), w, s.chip);
    }
  }

  lemma TakeFacts(c: Regs, w: World, bits: set<Irq>, i: Irq)
    requires i in bits
    ensures var r := Take(c, w, bits).0; r == c.(pending := r.pending, t := c.t + 1) && i !in r.pending
  {
  }

  lemma HeardKeeps(s: Tag, w: World)
    ensures var (s1, f) := Heard(s, w);
            && s1 == s.(bitrate106 := s1.bitrate106, chip := s.chip.(pending := s1.chip.pending, t := s1.chip.t))
            && s.chip.t < s1.chip.t && EofFieldOff !in s1.chip.pending
            && (EofFieldOff in f ==> FieldLost(s.chip, w, s1.chip.t))
  {
    hide FieldLost, Take;
    TakeFacts(s.chip, w, WAITING, EofFieldOff);
    var s1 := Heard(s, w).0;
    if EofFieldOff in Heard(s, w).1 { TakeSees(s.chip, w, WAITING, s1.chip.t); }
  }

  /** Into READY or READY*, unless the field was seen to go. */
  lemma WokenMove(s: Tag, w: World, c: Regs)
    requires s.chip.en && |s.mem| == MEM_BYTES && !s.chip.autoOff && c.t <= s.chip.t && EofFieldOff !in s.chip.pending
    ensures var r := GotoReady(s, w);
            && Inv(r) && s.chip.t < r.chip.t
            && (Map(r) == (if s.wakeup then PReadyStar else PReady)
                || ((Map(r) == PowerOff || Map(r) == PIdle) && FieldLost(c, w, r.chip.t)))
  {
    hide GotoOff, FieldLost;
    var (c2, hit) := Take(s.chip, w, {EofFieldOff});
    if hit != {} {
      LaterTakeSees(c, s.chip, w);
      OffStep(s.(chip := c2), w, c);
    }
  }

  /** A second look at the field-off interrupt, after a first that did not show it. */
  lemma LaterTakeSees(c0: Regs, c: Regs, w: World)
    requires c0.t <= c.t
    requires EofFieldOff in c.pending ==> FieldLost(c0, w, c.t + 1)
    requires Take(c, w, {EofFieldOff}).1 != {}
    ensures FieldLost(c0, w, c.t + 1)
  {
    var hit := Take(c, w, {EofFieldOff}).1;
    var i :| i in hit;
    assert i == EofFieldOff;
    if EofFieldOff !in c.pending { LossSeen(c0, w, c.t, c.t + 1); }
  }

  lemma FallBackMove(s: Tag, w: World, c: Regs)
    requires Inv(s) && s.state == Active && c.t <= s.chip.t
    ensures var r := FallBack(s, w);
            && Inv(r) && s.chip.t <= r.chip.t && r.mem == s.mem && r.dirty == s.dirty
            && (Map(r) == (if s.wakeup then PHalt else PIdle)
                || ((Map(r) == PowerOff || Map(r) == PIdle) && FieldLost(c, w, r.chip.t)))
  {
    if s.wakeup { HaltMove(s, w, c); }
  }

  lemma HaltMove(s: Tag, w: World, c: Regs)
    requires Inv(s) && s.state == Active && c.t <= s.chip.t
    ensures var r := GotoHalt(s, w);
            && Inv(r) && s.chip.t <= r.chip.t && r.mem == s.mem && r.dirty == s.dirty
            && (Map(r) == PHalt || ((Map(r) == PowerOff || Map(r) == PIdle) && FieldLost(c, w, r.chip.t)))
  {
    hide GotoOff, FieldLost;
    if !w(s.chip.t).field {
      var s' := s.(chip := s.chip.(autoOff := false, asleep := true, t := s.chip.t + 1));
      assert Gone(w, s.chip.t);
      LossSeen(c, w, s.chip.t, s'.chip.t);
      OffStep(s', w, c);
    }
  }

  lemma ServeMove(s: Tag, w: World, rx: seq<byte>, c: Regs)
    requires Inv(s) && s.state == Active && rx != [] && c.t <= s.chip.t
    ensures var r := Serve(s, w, rx);
            && Inv(r) && s.chip.t <= r.chip.t
            && r.mem == Command(s.mem, rx).0 && r.dirty == (s.dirty || Command(s.mem, rx).1)
            && (Map(r) == Map(s) || Map(r) == PHalt || (!s.wakeup && Map(r) == PIdle)
                || ((Map(r) == PowerOff || Map(r) == PIdle) && FieldLost(c, w, r.chip.t)))
  {
    hide GotoHalt, FallBack, Command, FieldLost;
    var (mem, wrote, reply, outcome) := Command(s.mem, rx);
    var air := s.chip.air + (if reply.Some? then [OnAir(reply.value)] else []);
    var s' := s.(mem := mem, dirty := s.dirty || wrote, chip := s.chip.(air := air));
    match outcome
    case Stay =>
    case GoHalt => HaltMove(s', w, c);
    case Drop => FallBackMove(s', w, c);
  }

  lemma ActiveMove(s: Tag, w: World)
    requires Inv(s) && s.state == Active
    ensures Good(s, UpdateActive(s, w), w)
  {
    hide GotoOff, FallBack, Serve, Command, FieldLost;
    var bits := {EofFieldOff, RxeReceived};
    var (c, f) := Take(s.chip, w, bits);
    if EofFieldOff in f {
      TakeSees(s.chip, w, bits, c.t);
      OffStep(s.(chip := c), w, s.chip);
    } else if RxeReceived in f {
      var (c', errs) := Take(c, w, {RxError});
      var rx := Received(errs, w(c'.t).fifo);
      var s' := s.(chip := c'.(t := c'.t + 1));
      if rx.None? { FallBackMove(s', w, s.chip); } else { ServeMove(s', w, rx.value, s.chip); }
    }
  }

  /** Every call of `update` follows the PICC state diagram and keeps the
      chip and the emulator in agreement, whatever the world does. */
  lemma UpdateFollowsDiagram(s: Tag, w: World)
    requires Inv(s)
    ensures Good(s, Update(s, w).0, w)
  {
    hide UpdateOff, UpdateWaiting, UpdateReady, UpdateActive, FieldLost;
    match s.state
    case Off => OffMove(s, w);
    case Idle => WaitingMove(s, w);
    case Halt => WaitingMove(s, w);
    case Ready => ReadyMove(s, w);
    case Active => ActiveMove(s, w);
  }

  /** Selection needs the chip's word: from READY on a REQA wake-up, from
      READY* on a WUPA wake-up, and only with the field still there. */
  lemma SelectedWhenWoken(s: Tag, w: World)
    requires Inv(s) && s.state != Active
    ensures Update(s, w).1 == Selected
            <==> s.state == Ready
                 && (if s.wakeup then WuAx else WuA) in s.chip.pending + w(s.chip.t).irqs
                 && EofFieldOff !in s.chip.pending + w(s.chip.t).irqs
  {
    hide GotoOff, UpdateOff, UpdateWaiting;
    if s.state == Ready {
      OffEnds(s.(chip := Take(s.chip, w, {EofFieldOff, if s.wakeup then WuAx else WuA}).0), w);
    } else if s.state == Off {
      OffMove(s, w);
    } else {
      WaitingMove(s, w);
    }
  }

  // ------------------------------------------------------------------ runs

  /** The frame `update` serves in this step, if it serves one. */
  function ServedFrame(s: Tag, w: World): (rx: Option<seq<byte>>)
    ensures rx.Some? ==> rx.value != []
  {
    var (c, f) := Take(s.chip, w, {EofFieldOff, RxeReceived});
    var (c', errs) := Take(c, w, {RxError});
    if s.state != Active || EofFieldOff in f || RxeReceived !in f then None else Received(errs, w(c'.t).fifo)
  }

  predicate IsUserWrite(rx: seq<byte>) {
    |rx| == 6 && rx[0] == 0xA2 && USER_FIRST_PAGE <= rx[1] <= USER_LAST_PAGE
  }

  /** This step accepts a WRITE into user memory. */
  predicate WritesUser(s: Tag, w: World) {
    ServedFrame(s, w).Some? && IsUserWrite(ServedFrame(s, w).value)
  }

  lemma CommandEffects(mem: seq<byte>, rx: seq<byte>)
    requires |mem| == MEM_BYTES && rx != []
    ensures var (m, wrote, reply, outcome) := Command(mem, rx);
            && m[..12] == mem[..12]
            && (wrote <==> IsUserWrite(rx))
            && (wrote ==> outcome == Stay && reply == Some(Nibble(ACK)))
            && (m != mem ==>
                  |rx| == 6 && rx[0] == 0xA2 && 3 <= rx[1] < PAGES && m == Splice(mem, rx[1] as int * 4, rx[2..]))
  {
    if |rx| == 6 { assert rx[2..6] == rx[2..]; }
  }

  /** One step: the dirty flag rises exactly on an accepted user write, and
      memory changes only as the served command says. */
  lemma StepEffects(s: Tag, w: World)
    requires Inv(s)
    ensures var r := Moved(s, w);
            && r.dirty == (s.dirty || WritesUser(s, w))
            && (WritesUser(s, w) ==> r.state == Active)
            && r.mem == (if ServedFrame(s, w).Some? then Command(s.mem, ServedFrame(s, w).value).0 else s.mem)
  {
    hide GotoOff, UpdateActive, UpdateWaiting, FallBack, Command, FieldLost;
    match s.state
    case Off =>
    case Idle => WaitingEffects(s, w);
    case Halt => WaitingEffects(s, w);
    case Ready => OffEnds(s.(chip := Take(s.chip, w, {EofFieldOff, if s.wakeup then WuAx else WuA}).0), w);
    case Active => ActiveEffects(s, w);
  }

  lemma ActiveEffects(s: Tag, w: World)
    requires Inv(s) && s.state == Active
    ensures var r := UpdateActive(s, w);
            && r.dirty == (s.dirty || WritesUser(s, w))
            && (WritesUser(s, w) ==> r.state == Active)
            && r.mem == (if ServedFrame(s, w).Some? then Command(s.mem, ServedFrame(s, w).value).0 else s.mem)
  {
    hide GotoOff, FallBack, Serve, Command, FieldLost, Received, IsUserWrite;
    var (c, f) := Take(s.chip, w, {EofFieldOff, RxeReceived});
    if EofFieldOff in f {
      OffEnds(s.(chip := c), w);
    } else if RxeReceived in f {
      var (c', errs) := Take(c, w, {RxError});
      var s' := s.(chip := c'.(t := c'.t + 1));
      match Received(errs, w(c'.t).fifo)
      case None => FallBackMove(s', w, s.chip);
      case Some(rx) =>
        assert ServedFrame(s, w) == Some(rx);
        ServedEffects(s', w, rx);
    }
  }

  lemma ServedEffects(s: Tag, w: World, rx: seq<byte>)
    requires Inv(s) && s.state == Active && rx != []
    ensures var r := Serve(s, w, rx);
            && r.dirty == (s.dirty || IsUserWrite(rx)) && r.mem == Command(s.mem, rx).0
            && (IsUserWrite(rx) ==> r.state == Active)
  {
    hide GotoHalt, FallBack, Command, FieldLost, IsUserWrite;
    ServeMove(s, w, rx, s.chip);
    CommandEffects(s.mem, rx);
  }

  lemma WaitingEffects(s: Tag, w: World)
    requires Inv(s) && (s.state == Idle || s.state == Halt)
    ensures var r := UpdateWaiting(s, w); r.dirty == s.dirty && r.mem == s.mem
  {
    hide GotoOff, Heard;
    HeardKeeps(s, w);
    var s1 := Heard(s, w).0;
    OffEnds(s1, w);
    var s2 := s1.(chip := s1.chip.(t := s1.chip.t + 1), wakeup := s.state == Halt);
    OffEnds(s2.(chip := Take(s2.chip, w, {EofFieldOff}).0), w);
  }

  /** The emulator after `n` updates. */
  function Run(s: Tag, w: World, n: nat): (r: Tag)
    requires Inv(s)
    ensures Inv(r)
  {
    if n == 0 then s
    else
      var r := Run(s, w, n - 1);
      UpdateFollowsDiagram(r, w);
      Update(r, w).0
  }

  predicate OffAt(s: Tag, w: World, i: nat)
    requires Inv(s)
  {
    Update(Run(s, w, i), w).1.FieldOff?
  }

  predicate WriteAt(s: Tag, w: World, i: nat)
    requires Inv(s)
  {
    WritesUser(Run(s, w, i), w)
  }

  /** Some step before `n` wrote user memory, and no field-off was reported since. */
  ghost predicate WrittenSinceOff(s: Tag, w: World, n: nat)
    requires Inv(s)
  {
    exists i :: 0 <= i < n && WriteAt(s, w, i) && forall j :: i < j < n ==> !OffAt(s, w, j)
  }

  lemma DirtyStep(s: Tag, w: World)
    requires Inv(s)
    ensures var (r, ev) := Update(s, w);
            && r.dirty == (!ev.FieldOff? && (s.dirty || WritesUser(s, w)))
            && (WritesUser(s, w) ==> !ev.FieldOff?)
            && (ev.FieldOff? ==> ev.written == s.dirty)
  {
    hide Moved, WritesUser;
    StepEffects(s, w);
  }

  lemma {:induction false} DirtyExact(s: Tag, w: World, n: nat)
    requires Inv(s) && !s.dirty
    ensures Run(s, w, n).dirty <==> WrittenSinceOff(s, w, n)
  {
    hide Update, WritesUser, Inv;
    if n > 0 {
      var m := n - 1;
      DirtyExact(s, w, m);
      DirtyStep(Run(s, w, m), w);
      if WriteAt(s, w, m) {
        assert WrittenSinceOff(s, w, n);
      } else if OffAt(s, w, m) {
        assert !WrittenSinceOff(s, w, n);
      } else {
        if i :| 0 <= i < m && WriteAt(s, w, i) && forall j :: i < j < m ==> !OffAt(s, w, j) {
          assert forall j :: i < j < n ==> !OffAt(s, w, j);
        }
        if i :| 0 <= i < n && WriteAt(s, w, i) && forall j :: i < j < n ==> !OffAt(s, w, j) {
          assert i < m;
        }
      }
    }
  }

  /** A field-off event says "written" exactly when some accepted WRITE hit
      user memory since the previous field-off event, also across sessions
      that fell straight back to IDLE without one. */
  lemma WrittenFlagExact(s: Tag, w: World, n: nat)
    requires Inv(s) && !s.dirty && OffAt(s, w, n)
    ensures Update(Run(s, w, n), w).1 == FieldOff(WrittenSinceOff(s, w, n))
  {
    hide Update, WritesUser;
    DirtyExact(s, w, n);
    DirtyStep(Run(s, w, n), w);
  }

  /** The UID and the lock bytes survive every run. */
  lemma {:induction false} UidNeverChanges(s: Tag, w: World, n: nat)
    requires Inv(s)
    ensures Run(s, w, n).mem[..12] == s.mem[..12]
  {
    hide Moved, Command, ServedFrame, WritesUser;
    if n > 0 {
      UidNeverChanges(s, w, n - 1);
      var r := Run(s, w, n - 1);
      StepEffects(r, w);
      if ServedFrame(r, w).Some? { CommandEffects(r.mem, ServedFrame(r, w).value); }
    }
  }

  /** Runs begin here: a started emulator satisfies the invariant with nothing written. */
  lemma StartedGood(s: Tag, w: World)
    requires |s.mem| == MEM_BYTES
    ensures Inv(Start(s, w)) && !Start(s, w).dirty && Start(s, w).mem == s.mem
  {
    OffEnds(s.(dirty := false, chip := s.chip.(en := true, autoOff := false)), w);
  }

  // ------------------------------------------------- a reader's whole session

  /** Memory after WRITE commands lay `data` down from `page` on; none if one is refused. */
  function WriteAll(mem: seq<byte>, page: nat, data: seq<byte>): Option<seq<byte>>
    requires |mem| == MEM_BYTES && |data| % 4 == 0
    decreases |data|
  {
    if data == [] then Some(mem)
    else if page >= 256 then None
    else
      var (m, wrote, reply, outcome) := Command(mem, [0xA2, page] + data[..4]);
      if reply == Some(Nibble(ACK)) && outcome == Stay then WriteAll(m, page + 1, data[4..]) else None
  }

  lemma {:induction false} WriteAllLands(mem: seq<byte>, page: nat, data: seq<byte>)
    requires |mem| == MEM_BYTES && |data| % 4 == 0 && page >= 3 && page * 4 + |data| <= MEM_BYTES
    ensures WriteAll(mem, page, data) == Some(Splice(mem, page * 4, data))
    decreases |data|
  {
    if data == [] {
      assert Splice(mem, page * 4, []) == mem;
    } else {
      var rx := [0xA2, page] + data[..4];
      assert rx[2..6] == data[..4];
      WriteAllLands(Splice(mem, page * 4, data[..4]), page + 1, data[4..]);
      SpliceTwice(mem, page * 4, data[..4], data[4..]);
      assert data[..4] + data[4..] == data;
    }
  }

  /** TLVs a phone writes page by page are served as it laid them down. */
  lemma PhoneWriteIsServed(mem: seq<byte>, bs: seq<Block>, rest: seq<byte>)
    requires |mem| == MEM_BYTES && forall i :: 0 <= i < |bs| ==> WellFormed(bs[i])
    requires FirstNdef(bs).Some? || (rest != [] && rest[0] == 0xFE)
    requires var data := LayAll(bs) + rest; |data| % 4 == 0 && |data| <= USER_BYTES
    ensures var m := WriteAll(mem, USER_FIRST_PAGE, LayAll(bs) + rest);
            m.Some? && |m.value| == MEM_BYTES && Ndef(m.value) == FirstNdef(bs)
  {
    hide WriteAll, LayAll, FirstNdef, NdefFrom, Splice, WellFormed;
    var data := LayAll(bs) + rest;
    WriteAllLands(mem, USER_FIRST_PAGE, data);
    var tail := rest + mem[USER_START + |data|..USER_END];
    NdefIsFirstBlock([], bs, tail);
    SplicedUser(mem, data);
    assert User(Splice(mem, USER_START, data)) == [] + LayAll(bs) + tail;
  }

  /** A FAST_READ puts exactly the asked pages on air if and only if there are
      fewer than 128: the 512-byte frame is accepted but its length wraps to zero. */
  lemma FastReadExact(mem: seq<byte>, from: byte, to: byte)
    requires |mem| == MEM_BYTES && from <= to < PAGES && (to - from + 1) * 4 <= 512
    ensures var (m, wrote, reply, outcome) := Command(mem, [0x3A, from, to]);
            && m == mem && reply.Some? && outcome == Stay
            && (OnAir(reply.value) == Frame(mem[from as int * 4..(to as int + 1) * 4]) <==> to - from + 1 < 128)
            && (to - from + 1 == 128 ==> OnAir(reply.value) == Frame([]))
  {
  }

  /** What READ commands for every fourth page from `page` on return together. */
  function ReadSweep(mem: seq<byte>, page: nat, n: nat): seq<byte>
    requires |mem| == MEM_BYTES
    decreases n
  {
    if n == 0 || page >= PAGES then []
    else
      var (m, wrote, reply, outcome) := Command(mem, [0x30, page]);
      if reply.Some? && OnAir(reply.value).Frame? then OnAir(reply.value).bytes + ReadSweep(m, page + 4, n - 1) else []
  }

  lemma {:induction false} ReadSweepReads(mem: seq<byte>, page: nat, n: nat)
    requires |mem| == MEM_BYTES && page * 4 + 16 * n <= MEM_BYTES
    ensures ReadSweep(mem, page, n) == mem[page * 4..page * 4 + 16 * n]
    decreases n
  {
    hide ReadSweep;
    if n == 0 {
      assert ReadSweep(mem, page, 0) == [] by { SweepEnds(mem, page); }
    } else {
      ReadSweepReads(mem, page + 4, n - 1);
      SweepStep(mem, page, n);
      Adjacent(mem, page * 4, page * 4 + 16, page * 4 + 16 * n);
    }
  }

  lemma SweepEnds(mem: seq<byte>, page: nat)
    requires |mem| == MEM_BYTES
    ensures ReadSweep(mem, page, 0) == []
  {
  }

  lemma SweepStep(mem: seq<byte>, page: nat, n: nat)
    requires |mem| == MEM_BYTES && n > 0 && page * 4 + 16 <= MEM_BYTES
    ensures ReadSweep(mem, page, n) == mem[page * 4..page * 4 + 16] + ReadSweep(mem, page + 4, n - 1)
  {
    hide Command;
    ReadsQuad(mem, page);
    var part := mem[page * 4..page * 4 + 16];
    assert part[..16] == part;
  }

  lemma Adjacent(s: seq<byte>, a: nat, b: nat, c: nat)
    requires a <= b <= c <= |s|
    ensures s[a..b] + s[b..c] == s[a..c]
  {
  }

  /** A READ of four pages that are all there returns them and changes nothing. */
  lemma ReadsQuad(mem: seq<byte>, page: nat)
    requires |mem| == MEM_BYTES && page * 4 + 16 <= MEM_BYTES
    ensures Command(mem, [0x30, page]) == (mem, false, Some(Frame(mem[page * 4..page * 4 + 16])), Stay)
  {
    assert Quad(mem, page) == mem[page * 4..page * 4 + 16];
  }

  /** A message the plate serves reaches a reader that reads user memory with READ. */
  lemma ServedMessageIsRead(mem: seq<byte>, msg: seq<byte>)
    requires |mem| == MEM_BYTES && Fits(msg)
    ensures var s := ReadSweep(SetNdef(mem, msg), USER_FIRST_PAGE, 56);
            |s| >= USER_BYTES && NdefFrom(s[..USER_BYTES], 0) == Some(msg)
  {
    var m := SetNdef(mem, msg);
    ReadSweepReads(m, USER_FIRST_PAGE, 56);
    assert m[16..16 + 896][..USER_BYTES] == User(m);
    StoredIsServed(mem, msg);
  }

  /** What a FAST_READ of pages `from` to `to` puts on air. */
  function FastRead(mem: seq<byte>, from: byte, to: byte): seq<byte>
    requires |mem| == MEM_BYTES
  {
    var (m, wrote, reply, outcome) := Command(mem, [0x3A, from, to]);
    if reply.Some? && OnAir(reply.value).Frame? then OnAir(reply.value).bytes else []
  }

  /** And one that uses FAST_READ, wherever it cuts user memory in two: the
      message gets through if both parts have fewer than 128 pages. */
  lemma ServedMessageIsFastRead(mem: seq<byte>, msg: seq<byte>, cut: byte)
    requires |mem| == MEM_BYTES && Fits(msg)
    requires USER_FIRST_PAGE <= cut < USER_LAST_PAGE && cut - USER_FIRST_PAGE + 1 < 128 && USER_LAST_PAGE - cut < 128
    ensures var m := SetNdef(mem, msg);
            NdefFrom(FastRead(m, USER_FIRST_PAGE, cut) + FastRead(m, cut + 1, USER_LAST_PAGE), 0) == Some(msg)
  {
    hide SetNdef, NdefFrom, Command;
    var m := SetNdef(mem, msg);
    StoredIsServed(mem, msg);
    FastReadExact(m, USER_FIRST_PAGE, cut);
    FastReadExact(m, cut + 1, USER_LAST_PAGE);
    assert FastRead(m, USER_FIRST_PAGE, cut) + FastRead(m, cut + 1, USER_LAST_PAGE) == User(m);
  }
}
