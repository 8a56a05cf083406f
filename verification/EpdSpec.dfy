/**
 The SSD1677 as the driver relies on it: two RAM planes behind a window with
 address counters, a waveform table, a face that mode-2 updates swap, panel
 power, and the glass.
 */
module EpdSpec {
  import opened Bytes
  import opened Frame

  /** Waveform tables, by what their groups do to a pixel. */
  datatype Lut = NoLut | Quality | TextLut | Fast | Fastest | OtpMono

  predicate Mode2Table(l: Lut) { l == Fast || l == Fastest }

  /** Gray level of each pixel (row, column); 4 where an update went wrong. */
  type Glass = (nat, nat) -> nat

  const SPOILT := 4

  /** RAM window in bytes and rows, with its address counters. */
  datatype Cursor = Cursor(xs: nat, xe: nat, ys: nat, ye: nat, x: nat, y: nat)

  predicate GoodCursor(c: Cursor) {
    c.xs <= c.x <= c.xe < ROW_BYTES && c.ys <= c.y <= c.ye < WIDTH
  }

  datatype Ctl = Ctl(
    bw: Plane, red: Plane, cursor: Cursor, lut: Lut, c2: bv8,
    face: bool, power: bool, asleep: bool, glass: Glass)

  const FULL := Cursor(0, ROW_BYTES - 1, 0, WIDTH - 1, 0, 0)

  // ------------------------------------------------------------ RAM writes

  /** Data entry mode 3: x runs first, then y, both wrapping inside the window. */
  function Next(c: Cursor): Cursor {
    if c.x < c.xe then c.(x := c.x + 1)
    else if c.y < c.ye then c.(x := c.xs, y := c.y + 1)
    else c.(x := c.xs, y := c.ys)
  }

  function Put(ram: Plane, c: Cursor, data: seq<bv8>): (r: (Plane, Cursor))
    requires GoodCursor(c)
    ensures GoodCursor(r.1)
    decreases |data|
  {
    if data == [] then (ram, c)
    else
      assert c.y * ROW_BYTES + c.x < PLANE_BYTES by { IndexParts(c.y, c.x); }
      Put(ram[c.y * ROW_BYTES + c.x := data[0]], Next(c), data[1..])
  }

  /** The full window with the counters at byte `p` (back at the start once full). */
  function FullAt(p: nat): Cursor
    requires p <= PLANE_BYTES
  {
    var q := if p == PLANE_BYTES then 0 else p;
    FULL.(x := q % ROW_BYTES, y := q / ROW_BYTES)
  }

  lemma NextFull(p: nat)
    requires p < PLANE_BYTES
    ensures GoodCursor(FullAt(p)) && FullAt(p).y * ROW_BYTES + FullAt(p).x == p
    ensures Next(FullAt(p)) == FullAt(p + 1)
  {
    if p + 1 < PLANE_BYTES {
      if p % ROW_BYTES == ROW_BYTES - 1 {
        assert (p + 1) / ROW_BYTES == p / ROW_BYTES + 1 && (p + 1) % ROW_BYTES == 0;
      } else {
        assert (p + 1) / ROW_BYTES == p / ROW_BYTES && (p + 1) % ROW_BYTES == p % ROW_BYTES + 1;
      }
    }
  }

  /** Through the full window a run of data lands byte after byte. */
  lemma {:induction false} PutLands(ram: Plane, p: nat, data: seq<bv8>)
    requires p + |data| <= PLANE_BYTES
    ensures GoodCursor(FullAt(p))
    ensures Put(ram, FullAt(p), data) == (Splice(ram, p, data), FullAt(p + |data|))
    decreases |data|
  {
    if data == [] {
      assert Splice(ram, p, data) == ram;
      if p < PLANE_BYTES { NextFull(p); }
    } else {
      NextFull(p);
      PutLands(ram[p := data[0]], p + 1, data[1..]);
      assert Splice(ram[p := data[0]], p + 1, data[1..]) == Splice(ram, p, data);
    }
  }

  // ------------------------------------------------------------ activation

  function Num(b: bool): nat { if b then 1 else 0 }

  /** What a waveform does to a pixel: the absolute tables put level 3 - group
      on the glass; the differential one drives groups 1 and 2 to white and
      black and holds the others. On the swapped face a mode-1 update reads the
      two planes exchanged. */
  function Waveform(lut: Lut, mode2: bool, face: bool, bw: bool, red: bool, before: nat): nat {
    var group := if face && !mode2 then 2 * Num(bw) + Num(red) else 2 * Num(red) + Num(bw);
    match lut
    case NoLut => SPOILT
    case Quality => 3 - group
    case TextLut => 3 - group
    case Fast => 3 - group
    case Fastest => if group == 1 then 3 else if group == 2 then 0 else before
    case OtpMono => if bw then 3 else 0
  }

  function PixelAfter(lut: Lut, mode2: bool, face: bool, bw: Plane, red: Plane, g: Glass, y: nat, x: nat): nat {
    if y < WIDTH && x < HEIGHT then Waveform(lut, mode2, face, On(bw, y, x), On(red, y, x), g(y, x)) else 0
  }

  /** The glass after a waveform has run over both planes. */
  function Driven(lut: Lut, mode2: bool, face: bool, bw: Plane, red: Plane, g: Glass): Glass {
    (y: nat, x: nat) => PixelAfter(lut, mode2, face, bw, red, g, y, x)
  }

  function Spoilt(): Glass { (y: nat, x: nat) => SPOILT }

  /** Master activation of the update sequence in control register 2. */
  function Activated(c: Ctl): Ctl {
    var on := c.power || c.c2 & 0xC0 == 0xC0;
    var lut := if c.c2 & 0x10 != 0 then OtpMono else c.lut;
    var mode2 := c.c2 & 0x08 != 0;
    var c' := c.(lut := lut, power := on && c.c2 & 0x03 == 0);
    if c.c2 & 0x04 == 0 then c'
    else
      c'.(glass := if on && mode2 == Mode2Table(lut) then Driven(lut, mode2, c.face, c.bw, c.red, c.glass)
                   else Spoilt(),
          face := if mode2 then !c.face else false)
  }

  /** The glass shows the planes. */
  ghost predicate Shows(g: Glass, lsb: Plane, msb: Plane) {
    forall y: nat, x: nat | y < WIDTH && x < HEIGHT :: g(y, x) == Level(lsb, msb, y, x)
  }

  // ------------------------------------------------------- the two pixel laws

  /** Absolute update: inverted planes, exchanged on the swapped face in mode
      1, put each pixel's exact level on the glass for both parities. */
  lemma AbsoluteExact(lsb: Plane, msb: Plane, lut: Lut, mode2: bool, face: bool, before: nat, y: nat, x: nat)
    requires y < WIDTH && x < HEIGHT
    requires ((lut == Quality || lut == TextLut) && !mode2) || (lut == Fast && mode2)
    ensures var swap := face && !mode2;
            var bw, red := Inverted(if swap then msb else lsb), Inverted(if swap then lsb else msb);
            Waveform(lut, mode2, face, On(bw, y, x), On(red, y, x), before) == Level(lsb, msb, y, x)
  {
    InvertedPixel(lsb, y, x);
    InvertedPixel(msb, y, x);
  }

  /** Why the parity is tracked: with the wrong belief about the face a mode-1
      update is right on a pixel exactly when it is black or white; the two
      middle grays change places. */
  lemma WrongFace(lsb: Plane, msb: Plane, lut: Lut, face: bool, before: nat, y: nat, x: nat)
    requires y < WIDTH && x < HEIGHT && (lut == Quality || lut == TextLut)
    ensures var bw, red := Inverted(if face then lsb else msb), Inverted(if face then msb else lsb);
            var got, want := Waveform(lut, false, face, On(bw, y, x), On(red, y, x), before), Level(lsb, msb, y, x);
            (got == want <==> want == 0 || want == 3) && (want == 1 ==> got == 2) && (want == 2 ==> got == 1)
  {
    InvertedPixel(lsb, y, x);
    InvertedPixel(msb, y, x);
  }

  /** Differential update: from any of the four old grays, a pixel inside the
      byte-aligned region goes to its new endpoint and any other holds; that is
      what the record with the region patched into both planes says. */
  lemma DifferentialExact(mono: Plane, lsb: Plane, msb: Plane, r: Region, face: bool, y: nat, x: nat)
    requires GoodRegion(r) && y < WIDTH && x < HEIGHT
    ensures Waveform(Fastest, true, face, On(Patched(msb, mono, r), y, x), On(Classes(mono, lsb, msb, r), y, x),
                     Level(lsb, msb, y, x))
            == Level(Patched(lsb, mono, r), Patched(msb, mono, r), y, x)
            == if Covers(r, y, x) then (if On(mono, y, x) then 3 else 0) else Level(lsb, msb, y, x)
  {
    PatchedPixel(lsb, mono, r, y, x);
    PatchedPixel(msb, mono, r, y, x);
    ClassesPixel(mono, lsb, msb, r, y, x);
  }

  // ------------------------------------------- a run of updates and its record

  /** An update of the panel: a whole picture, a region of one in black and
      white, or a rest in deep sleep, which forgets the face. */
  datatype Update = Absolute(lsb: Plane, msb: Plane, lut: Lut) | Differential(mono: Plane, r: Region) | Rest

  predicate GoodUpdate(u: Update) {
    match u
    case Absolute(_, _, lut) => lut == Quality || lut == TextLut || lut == Fast
    case Differential(_, r) => GoodRegion(r)
    case Rest => true
  }

  /** The controller, power aside, and the application's record of the glass. */
  datatype Screen = Screen(glass: Glass, face: bool, lsb: Plane, msb: Plane)

  function Updated(s: Screen, u: Update): Screen
    requires GoodUpdate(u)
  {
    match u
    case Absolute(lsb, msb, lut) =>
      var mode2 := lut == Fast;
      var swap := s.face && !mode2;
      var bw, red := Inverted(if swap then msb else lsb), Inverted(if swap then lsb else msb);
      Screen(Driven(lut, mode2, s.face, bw, red, s.glass),
             if mode2 then !s.face else false, lsb, msb)
    case Differential(mono, r) =>
      var bw, red := Patched(s.msb, mono, r), Classes(mono, s.lsb, s.msb, r);
      Screen(Driven(Fastest, true, s.face, bw, red, s.glass),
             !s.face, Patched(s.lsb, mono, r), Patched(s.msb, mono, r))
    case Rest => s.(face := false)
  }

  function UpdatedAll(s: Screen, us: seq<Update>): Screen
    requires forall i :: 0 <= i < |us| ==> GoodUpdate(us[i])
  {
    if us == [] then s else Updated(UpdatedAll(s, us[..|us| - 1]), us[|us| - 1])
  }

  lemma UpdateKeepsRecord(s: Screen, u: Update)
    requires GoodUpdate(u) && Shows(s.glass, s.lsb, s.msb)
    ensures var t := Updated(s, u); Shows(t.glass, t.lsb, t.msb)
  {
    hide Waveform, Level, On;
    var t := Updated(s, u);
    forall y: nat, x: nat | y < WIDTH && x < HEIGHT
      ensures t.glass(y, x) == Level(t.lsb, t.msb, y, x)
    {
      match u
      case Absolute(lsb, msb, lut) => AbsoluteExact(lsb, msb, lut, lut == Fast, s.face, s.glass(y, x), y, x);
      case Differential(mono, r) => DifferentialExact(mono, s.lsb, s.msb, r, s.face, y, x);
      case Rest =>
    }
  }

  /** After every run of updates from a glass that showed the record, the
      record is the glass, pixel for pixel; a first absolute update makes it so
      whatever was there before. */
  lemma {:induction false} RecordIsGlass(s: Screen, us: seq<Update>)
    requires forall i :: 0 <= i < |us| ==> GoodUpdate(us[i])
    requires Shows(s.glass, s.lsb, s.msb) || (us != [] && us[0].Absolute?)
    ensures var t := UpdatedAll(s, us); Shows(t.glass, t.lsb, t.msb)
  {
    hide Updated, Shows;
    if us != [] {
      var n := |us| - 1;
      if n == 0 && us[0].Absolute? {
        AbsoluteSettles(s, us[0]);
      } else {
        if us[0].Absolute? { assert us[..n][0] == us[0]; }
        RecordIsGlass(s, us[..n]);
        UpdateKeepsRecord(UpdatedAll(s, us[..n]), us[n]);
      }
    }
  }

  lemma AbsoluteSettles(s: Screen, u: Update)
    requires GoodUpdate(u) && u.Absolute?
    ensures var t := Updated(s, u); Shows(t.glass, t.lsb, t.msb)
  {
    hide Waveform, Level, On;
    var t := Updated(s, u);
    forall y: nat, x: nat | y < WIDTH && x < HEIGHT
      ensures t.glass(y, x) == Level(t.lsb, t.msb, y, x)
    {
      AbsoluteExact(u.lsb, u.msb, u.lut, u.lut == Fast, s.face, s.glass(y, x), y, x);
    }
  }
}
