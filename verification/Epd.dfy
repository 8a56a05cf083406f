/** The SSD1677 driver: its bookkeeping of face and power, and its refresh paths. */
module Epd {
  import opened Bytes
  import opened Frame
  import opened EpdSpec

  datatype Ram = BW | RED
  datatype GrayMode = QualityMode | TextMode | FastMode

  function LutOf(m: GrayMode): Lut {
    match m
    case QualityMode => Quality
    case TextMode => TextLut
    case FastMode => Fast
  }

  function PlaneOf(c: Ctl, ram: Ram): Plane { if ram.BW? then c.bw else c.red }

  function WithRam(c: Ctl, ram: Ram, p: Plane, cursor: Cursor): Ctl {
    if ram.BW? then c.(bw := p, cursor := cursor) else c.(red := p, cursor := cursor)
  }

  /** The controller behind its commands. */
  class Controller {
    var chip: Ctl

    constructor (glass: Glass)
      ensures GoodCursor(chip.cursor) && !chip.power && !chip.face && !chip.asleep && chip.glass == glass
    {
      var p: Plane := seq(PLANE_BYTES, _ => 0);
      chip := Ctl(p, p, FULL, NoLut, 0, false, false, false, glass);
    }

    /** The reset line: the only way out of deep sleep. */
    method HardReset()
      modifies this
      ensures chip == old(chip).(face := false, power := false, asleep := false, lut := NoLut, c2 := 0)
    {
      chip := chip.(face := false, power := false, asleep := false, lut := NoLut, c2 := 0);
    }

    method SwReset()
      requires !chip.asleep
      modifies this
      ensures chip == old(chip).(face := false, power := false, lut := NoLut, c2 := 0)
    {
      chip := chip.(face := false, power := false, lut := NoLut, c2 := 0);
    }

    /** Data entry mode, window and counters; x in source pixels. */
    method Window(x: nat, y: nat, w: nat, h: nat)
      requires !chip.asleep && x % 8 == 0 && w % 8 == 0 && w >= 8 && h >= 1 && x + w <= HEIGHT && y + h <= WIDTH
      modifies this
      ensures chip == old(chip).(cursor := Cursor(x / 8, (x + w - 1) / 8, y, y + h - 1, x / 8, y))
    {
      chip := chip.(cursor := Cursor(x / 8, (x + w - 1) / 8, y, y + h - 1, x / 8, y));
    }

    method AutoWrite(ram: Ram)
      requires !chip.asleep
      modifies this
      ensures chip == WithRam(old(chip), ram, seq(PLANE_BYTES, _ => 0xFF), old(chip).cursor)
    {
      chip := WithRam(chip, ram, seq(PLANE_BYTES, _ => 0xFF), chip.cursor);
    }

    method Data(ram: Ram, d: seq<bv8>)
      requires !chip.asleep && GoodCursor(chip.cursor)
      modifies this
      ensures var w := Put(PlaneOf(old(chip), ram), old(chip).cursor, d); chip == WithRam(old(chip), ram, w.0, w.1)
    {
      var w := Put(PlaneOf(chip, ram), chip.cursor, d);
      chip := WithRam(chip, ram, w.0, w.1);
    }

    method WriteLut(l: Lut)
      requires !chip.asleep
      modifies this
      ensures chip == old(chip).(lut := l)
    {
      chip := chip.(lut := l);
    }

    method UpdateCtrl2(v: bv8)
      requires !chip.asleep
      modifies this
      ensures chip == old(chip).(c2 := v)
    {
      chip := chip.(c2 := v);
    }

    method MasterActivation()
      requires !chip.asleep
      modifies this
      ensures chip == Activated(old(chip))
    {
      chip := Activated(chip);
    }

    method Sleep()
      requires !chip.asleep
      modifies this
      ensures chip == old(chip).(asleep := true)
    {
      chip := chip.(asleep := true);
    }
  }

  // ------------------------------------------------------ row by row transfers

  /** `c` after the first `y` rows of `want` went to `ram`, everything else as in `was`. */
  ghost predicate Sent(c: Ctl, was: Ctl, ram: Ram, want: Plane, y: nat)
    requires y <= WIDTH
  {
    PlaneOf(c, ram)[..y * ROW_BYTES] == want[..y * ROW_BYTES]
    && c == WithRam(was, ram, PlaneOf(c, ram), FullAt(y * ROW_BYTES))
  }

  lemma FullEnds()
    ensures FullAt(0) == FullAt(PLANE_BYTES) == FULL && GoodCursor(FULL)
  {
  }

  function Row(p: Plane, y: nat): seq<bv8>
    requires y < WIDTH
  {
    p[y * ROW_BYTES..y * ROW_BYTES + ROW_BYTES]
  }

  lemma RowSent(c: Ctl, was: Ctl, ram: Ram, want: Plane, y: nat)
    requires y < WIDTH && Sent(c, was, ram, want, y)
    ensures GoodCursor(c.cursor)
    ensures var w := Put(PlaneOf(c, ram), c.cursor, Row(want, y));
            Sent(WithRam(c, ram, w.0, w.1), was, ram, want, y + 1)
  {
    hide GoodCursor, Next;
    var p, at := PlaneOf(c, ram), y * ROW_BYTES;
    PutLands(p, at, Row(want, y));
    var q := Splice(p, at, Row(want, y));
    assert q[..at + ROW_BYTES] == p[..at] + Row(want, y);
    assert want[..at + ROW_BYTES] == want[..at] + Row(want, y);
  }

  lemma AllSent(c: Ctl, was: Ctl, ram: Ram, want: Plane)
    requires Sent(c, was, ram, want, WIDTH)
    ensures c == WithRam(was, ram, want, FULL)
  {
    assert PlaneOf(c, ram) == PlaneOf(c, ram)[..PLANE_BYTES] == want[..PLANE_BYTES] == want;
  }

  // ------------------------------------------------------------- the driver

  const DISPLAY: bv8 := 0x04
  const MODE2: bv8 := 0x08
  const LOAD: bv8 := 0x30
  const DISABLE: bv8 := 0x03
  const ENABLE: bv8 := 0xC0

  lemma Sequences(c2: bv8)
    requires c2 == 0x07 || c2 == 0x0C || c2 == 0x34
    ensures c2 & 0x04 != 0 && (c2 | 0xC0) & 0x04 != 0 && (c2 | 0xC0) & 0xC0 == 0xC0
    ensures (c2 | 0xC0) & 0x03 == c2 & 0x03 && (c2 & 0x03 == 0 <==> c2 != 0x07)
    ensures (c2 | 0xC0) & 0x08 == c2 & 0x08 && (c2 & 0x08 == 0 <==> c2 != 0x0C)
    ensures (c2 | 0xC0) & 0x10 == c2 & 0x10 && (c2 & 0x10 == 0 <==> c2 != 0x34)
  {
  }

  predicate InRow(r: Region, y: nat, k: nat)
    requires GoodRegion(r)
  {
    r.y0 <= y <= LastRow(r) && FirstByte(r) <= k <= LastByte(r)
  }

  lemma RowInverted(p: Plane, y: nat)
    requires y < WIDTH
    ensures forall k :: 0 <= k < ROW_BYTES ==> Row(Inverted(p), y)[k] == !p[y * ROW_BYTES + k]
  {
  }

  lemma RowOfRegion(mono: Plane, msb: Plane, r: Region, y: nat)
    requires GoodRegion(r) && y < WIDTH
    ensures forall k :: 0 <= k < ROW_BYTES ==>
              Row(Patched(msb, mono, r), y)[k]
              == if InRow(r, y, k) then mono[y * ROW_BYTES + k]
                 else msb[y * ROW_BYTES + k]
  {
    forall k | 0 <= k < ROW_BYTES ensures Inside(r, y * ROW_BYTES + k) == InRow(r, y, k) {
      IndexParts(y, k);
    }
  }

  lemma ClassesOfRegion(mono: Plane, lsb: Plane, msb: Plane, r: Region, y: nat)
    requires GoodRegion(r) && y < WIDTH
    ensures forall k :: 0 <= k < ROW_BYTES ==>
              Row(Classes(mono, lsb, msb, r), y)[k]
              == if InRow(r, y, k) then
                   Class(mono[y * ROW_BYTES + k], lsb[y * ROW_BYTES + k], msb[y * ROW_BYTES + k])
                 else msb[y * ROW_BYTES + k]
  {
    hide Class;
    forall k | 0 <= k < ROW_BYTES ensures Inside(r, y * ROW_BYTES + k) == InRow(r, y, k) {
      IndexParts(y, k);
    }
  }

  lemma MonoShows(face: bool, mono: Plane, g: Glass)
    ensures Shows(Driven(OtpMono, false, face, mono, mono, g), mono, mono)
  {
  }

  class Ssd1677 {
    const ctl: Controller
    var screenOn: bool
    var faceOdd: bool
    var faceKnown: bool
    const row: array<bv8>

    /** The bookkeeping mirrors the controller. */
    ghost predicate Valid()
      reads this, ctl
    {
      row.Length == ROW_BYTES
      && GoodCursor(ctl.chip.cursor)
      && screenOn == ctl.chip.power
      && (faceKnown ==> faceOdd == ctl.chip.face)
      && (ctl.chip.asleep ==> !screenOn && !faceKnown)
    }

    /** The face the next refresh will find. */
    ghost function Face(): bool
      reads this
    {
      faceKnown && faceOdd
    }

    constructor (c: Controller)
      requires GoodCursor(c.chip.cursor) && !c.chip.power
      ensures Valid() && ctl == c && !faceKnown && fresh(row)
    {
      ctl := c;
      screenOn, faceOdd, faceKnown := false, false, false;
      row := new bv8[ROW_BYTES](_ => 0);
    }

    method Init()
      requires Valid() && !ctl.chip.asleep
      modifies this, ctl
      ensures Valid() && !ctl.chip.asleep && faceKnown && !faceOdd && !screenOn
      ensures ctl.chip.glass == old(ctl.chip.glass)
    {
      ctl.SwReset();
      SetFullWindow();
      ctl.AutoWrite(RED);
      ctl.AutoWrite(BW);
      screenOn, faceOdd, faceKnown := false, false, true;
    }

    method SetPower(on: bool)
      requires Valid() && !ctl.chip.asleep
      modifies this, ctl
      ensures Valid() && screenOn == on && !ctl.chip.asleep
      ensures ctl.chip.glass == old(ctl.chip.glass) && ctl.chip.face == old(ctl.chip.face)
      ensures faceKnown == old(faceKnown) && faceOdd == old(faceOdd)
    {
      if on == screenOn { return; }
      ctl.UpdateCtrl2(if on then 0xC0 else 0x03);
      ctl.MasterActivation();
      screenOn := on;
    }

    method DeepSleep()
      requires Valid() && !ctl.chip.asleep
      modifies this, ctl
      ensures Valid() && ctl.chip.asleep && !Face() && ctl.chip.glass == old(ctl.chip.glass)
    {
      SetPower(false);
      ctl.Sleep();
      faceKnown := false;
    }

    method SetFullWindow()
      requires !ctl.chip.asleep
      modifies ctl
      ensures ctl.chip == old(ctl.chip).(cursor := FULL) && FULL == FullAt(0) && GoodCursor(FULL)
    {
      ctl.Window(0, 0, HEIGHT, WIDTH);
    }

    method WritePlane(ram: Ram, plane: array<bv8>, invert: bool)
      requires row.Length == ROW_BYTES && !ctl.chip.asleep && plane.Length == PLANE_BYTES && plane != row
      modifies ctl, row
      ensures GoodCursor(FULL)
      ensures ctl.chip == WithRam(old(ctl.chip), ram, if invert then Inverted(plane[..]) else plane[..], FULL)
    {
      hide GoodCursor, Put, FullAt, Inverted;
      SetFullWindow();
      FullEnds();
      ghost var was, p: Plane := ctl.chip, plane[..];
      if !invert {
        PutLands(PlaneOf(was, ram), 0, p);
        assert Splice(PlaneOf(was, ram), 0, p) == p;
        ctl.Data(ram, plane[..]);
        return;
      }
      for y := 0 to WIDTH
        invariant plane[..] == p && !ctl.chip.asleep
        invariant Sent(ctl.chip, was, ram, Inverted(p), y)
      {
        InvertRow(plane, y);
        SendRow(ram, was, Inverted(p), y);
      }
      AllSent(ctl.chip, was, ram, Inverted(p));
    }

    method InvertRow(plane: array<bv8>, y: nat)
      requires row.Length == ROW_BYTES && plane.Length == PLANE_BYTES && plane != row && y < WIDTH
      modifies row
      ensures row[..] == Row(Inverted(plane[..]), y)
    {
      for k := 0 to ROW_BYTES
        invariant forall j :: 0 <= j < k ==> row[j] == !plane[y * ROW_BYTES + j]
      {
        row[k] := !plane[y * ROW_BYTES + k];
      }
      RowInverted(plane[..], y);
    }

    method SendRow(ram: Ram, ghost was: Ctl, ghost want: Plane, y: nat)
      requires !ctl.chip.asleep && y < WIDTH && Sent(ctl.chip, was, ram, want, y)
      requires row[..] == Row(want, y)
      modifies ctl
      ensures Sent(ctl.chip, was, ram, want, y + 1) && !ctl.chip.asleep
    {
      RowSent(ctl.chip, was, ram, want, y);
      ctl.Data(ram, row[..]);
    }

    method SendLut(l: Lut)
      requires Valid() && !ctl.chip.asleep
      modifies ctl
      ensures Valid() && ctl.chip == old(ctl.chip).(lut := l)
    {
      ctl.WriteLut(l);
    }

    method EnsureKnownFace()
      requires Valid() && !ctl.chip.asleep
      modifies this, ctl
      ensures Valid() && !ctl.chip.asleep && faceKnown && faceOdd == old(Face())
      ensures ctl.chip.glass == old(ctl.chip.glass)
    {
      if faceKnown { return; }
      Init();
    }

    /** One of the three sequences the refreshes ask for: the clocks are added
        when the panel is off, and the books follow the controller. */
    method Activate(c2: bv8)
      requires Valid() && !ctl.chip.asleep && faceKnown && (c2 == 0x07 || c2 == 0x0C || c2 == 0x34)
      modifies this, ctl
      ensures Valid() && !ctl.chip.asleep && faceKnown
      ensures var c, lut, mode2 := old(ctl.chip), if c2 == 0x34 then OtpMono else old(ctl.chip).lut, c2 == 0x0C;
              ctl.chip.glass == (if mode2 != Mode2Table(lut) then Spoilt()
                                 else Driven(lut, mode2, c.face, c.bw, c.red, c.glass))
              && faceOdd == (mode2 && !c.face)
      ensures screenOn == (c2 != 0x07)
    {
      Sequences(c2);
      var v := if screenOn then c2 else c2 | ENABLE;
      ctl.UpdateCtrl2(v);
      ctl.MasterActivation();
      screenOn := v & DISABLE == 0;
      if v & MODE2 != 0 {
        if faceKnown { faceOdd := !faceOdd; }
      } else {
        faceOdd, faceKnown := false, true;
      }
    }

    /** Black and white by the built-in table. */
    method RefreshMonoFull(mono: array<bv8>)
      requires Valid() && !ctl.chip.asleep && mono.Length == PLANE_BYTES && mono != row
      modifies this, ctl, row
      ensures Valid() && !ctl.chip.asleep && screenOn && !Face()
      ensures Shows(ctl.chip.glass, mono[..], mono[..])
    {
      hide Driven, GoodCursor;
      EnsureKnownFace();
      WritePlane(RED, mono, false);
      WritePlane(BW, mono, false);
      MonoShows(faceOdd, mono[..], ctl.chip.glass);
      Activate(LOAD | DISPLAY);
    }

    /** The exact gray picture, whatever the face was. */
    method RefreshGray4(lsb: array<bv8>, msb: array<bv8>, mode: GrayMode)
      requires Valid() && !ctl.chip.asleep
      requires lsb.Length == PLANE_BYTES && msb.Length == PLANE_BYTES && lsb != row && msb != row
      modifies this, ctl, row
      ensures Valid() && !ctl.chip.asleep && screenOn == mode.FastMode?
      ensures var s := Updated(Screen(old(ctl.chip.glass), old(Face()), lsb[..], msb[..]),
                               Absolute(lsb[..], msb[..], LutOf(mode)));
              ctl.chip.glass == s.glass && Face() == s.face
      ensures Shows(ctl.chip.glass, lsb[..], msb[..])
    {
      hide Driven, GoodCursor, Inverted;
      EnsureKnownFace();
      AbsoluteSettles(Screen(ctl.chip.glass, faceOdd, lsb[..], msb[..]), Absolute(lsb[..], msb[..], LutOf(mode)));
      match mode {
        case QualityMode | TextMode =>
          WritePlane(BW, if faceOdd then msb else lsb, true);
          WritePlane(RED, if faceOdd then lsb else msb, true);
          SendLut(if mode.QualityMode? then Quality else TextLut);
          Activate(DISPLAY | DISABLE);
        case FastMode =>
          WritePlane(BW, lsb, true);
          WritePlane(RED, msb, true);
          SendLut(Fast);
          Activate(MODE2 | DISPLAY);
      }
    }

    /** One row of the new image: the old one with the region's bytes replaced. */
    method PatchRow(oldMsb: array<bv8>, mono: array<bv8>, r: Region, y: nat)
      requires row.Length == ROW_BYTES && oldMsb.Length == PLANE_BYTES && mono.Length == PLANE_BYTES
      requires oldMsb != row && mono != row && GoodRegion(r) && y < WIDTH
      modifies row
      ensures row[..] == Row(Patched(oldMsb[..], mono[..], r), y)
    {
      hide Patched;
      RegionOnPanel(r);
      var o, first, last := y * ROW_BYTES, FirstByte(r), LastByte(r);
      CopyInto(row, 0, oldMsb[o..o + ROW_BYTES]);
      if r.y0 <= y <= LastRow(r) {
        CopyInto(row, first, mono[o + first..o + last + 1]);
      }
      RowOfRegion(mono[..], oldMsb[..], r, y);
    }

    /** One row of transition classes. */
    method ClassRow(mono: array<bv8>, oldLsb: array<bv8>, oldMsb: array<bv8>, r: Region, y: nat)
      requires row.Length == ROW_BYTES
      requires oldLsb.Length == PLANE_BYTES && oldMsb.Length == PLANE_BYTES && mono.Length == PLANE_BYTES
      requires oldLsb != row && oldMsb != row && mono != row && GoodRegion(r) && y < WIDTH
      modifies row
      ensures row[..] == Row(Classes(mono[..], oldLsb[..], oldMsb[..], r), y)
    {
      hide Classes;
      RegionOnPanel(r);
      var o, first, last := y * ROW_BYTES, FirstByte(r), LastByte(r);
      CopyInto(row, 0, oldMsb[o..o + ROW_BYTES]);
      if r.y0 <= y <= LastRow(r) {
        for b := first to last + 1
          invariant forall k :: 0 <= k < ROW_BYTES ==>
                      row[k] == if first <= k < b then Class(mono[o + k], oldLsb[o + k], oldMsb[o + k])
                                else oldMsb[o + k]
        {
          var n, l, m := mono[o + b], oldLsb[o + b], oldMsb[o + b];
          row[b] := (n & (l & m)) | (!n & (l | m));
        }
      }
      ClassesOfRegion(mono[..], oldLsb[..], oldMsb[..], r, y);
    }

    /** The black-and-white image into BW RAM, the transition classes into RED RAM. */
    method WriteDifference(mono: array<bv8>, oldLsb: array<bv8>, oldMsb: array<bv8>, r: Region)
      requires row.Length == ROW_BYTES && !ctl.chip.asleep
      requires oldLsb.Length == PLANE_BYTES && oldMsb.Length == PLANE_BYTES && mono.Length == PLANE_BYTES
      requires oldLsb != row && oldMsb != row && mono != row && GoodRegion(r)
      modifies ctl, row
      ensures GoodCursor(FULL)
      ensures ctl.chip == old(ctl.chip).(bw := Patched(oldMsb[..], mono[..], r),
                                         red := Classes(mono[..], oldLsb[..], oldMsb[..], r), cursor := FULL)
    {
      hide GoodCursor, Put, FullAt, Patched, Classes;
      ghost var bw, red := Patched(oldMsb[..], mono[..], r), Classes(mono[..], oldLsb[..], oldMsb[..], r);
      FullEnds();
      SetFullWindow();
      ghost var was := ctl.chip;
      for y := 0 to WIDTH
        invariant bw == Patched(oldMsb[..], mono[..], r) && red == Classes(mono[..], oldLsb[..], oldMsb[..], r)
        invariant !ctl.chip.asleep && Sent(ctl.chip, was, BW, bw, y)
      {
        PatchRow(oldMsb, mono, r, y);
        SendRow(BW, was, bw, y);
      }
      AllSent(ctl.chip, was, BW, bw);
      SetFullWindow();
      was := ctl.chip;
      for y := 0 to WIDTH
        invariant bw == Patched(oldMsb[..], mono[..], r) && red == Classes(mono[..], oldLsb[..], oldMsb[..], r)
        invariant !ctl.chip.asleep && Sent(ctl.chip, was, RED, red, y)
      {
        ClassRow(mono, oldLsb, oldMsb, r, y);
        SendRow(RED, was, red, y);
      }
      AllSent(ctl.chip, was, RED, red);
    }

    /** From a glass that shows the old planes: the region goes to the new
        black-and-white image, everything else stays. */
    method RefreshFastest(mono: array<bv8>, oldLsb: array<bv8>, oldMsb: array<bv8>, r: Region)
      requires Valid() && !ctl.chip.asleep
      requires oldLsb.Length == PLANE_BYTES && oldMsb.Length == PLANE_BYTES && mono.Length == PLANE_BYTES
      requires oldLsb != row && oldMsb != row && mono != row && GoodRegion(r)
      modifies this, ctl, row
      ensures Valid() && !ctl.chip.asleep && screenOn
      ensures var s := Updated(Screen(old(ctl.chip.glass), old(Face()), oldLsb[..], oldMsb[..]),
                               Differential(mono[..], r));
              ctl.chip.glass == s.glass && Face() == s.face
      ensures Shows(old(ctl.chip.glass), oldLsb[..], oldMsb[..]) ==>
                Shows(ctl.chip.glass, Patched(oldLsb[..], mono[..], r), Patched(oldMsb[..], mono[..], r))
    {
      hide Driven, GoodCursor, Patched, Classes, Shows;
      EnsureKnownFace();
      ghost var s := Screen(ctl.chip.glass, faceOdd, oldLsb[..], oldMsb[..]);
      if Shows(s.glass, s.lsb, s.msb) { UpdateKeepsRecord(s, Differential(mono[..], r)); }
      WriteDifference(mono, oldLsb, oldMsb, r);
      SendLut(Fastest);
      Activate(MODE2 | DISPLAY);
    }
  }
}
