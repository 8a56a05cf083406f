/** The application's screen: what it draws, and its record of what is on glass. */
module Panel {
  import opened Frame
  import opened FrameBuf
  import opened EpdSpec
  import opened Epd

  const FASTEST_PER_FULL := 10
  const PANEL_X := 12
  const PANEL_Y := 200
  const PANEL_W := WIDTH - 24
  const PANEL_H := 380

  function TagPanel(): Region { NativeRegion(PANEL_X, PANEL_Y, PANEL_W, PANEL_H) }

  class Display {
    const epd: Ssd1677
    const fb: FrameBuffer
    const displayed: FrameBuffer
    var fastRefreshes: nat
    var sleeping: bool

    ghost predicate Valid()
      reads this, epd, epd.ctl
    {
      epd.Valid() && fb.Valid() && displayed.Valid()
      && sleeping == epd.ctl.chip.asleep
      && {fb.lsb, fb.msb} !! {displayed.lsb, displayed.msb}
      && epd.row !in {fb.lsb, fb.msb, displayed.lsb, displayed.msb}
    }

    /** The glass, the face the next refresh finds, and the record. */
    ghost function Abs(): Screen
      requires Valid()
      reads this, epd, epd.ctl, displayed.lsb, displayed.msb
    {
      Screen(epd.ctl.chip.glass, epd.Face(), displayed.Lsb(), displayed.Msb())
    }

    ghost function Drawn(lut: Lut): Update
      requires Valid()
      reads this, epd, epd.ctl, fb.lsb, fb.msb
    {
      Absolute(fb.Lsb(), fb.Msb(), lut)
    }

    /** `displayed` is the glass, pixel for pixel. */
    ghost predicate Faithful()
      requires Valid()
      reads this, epd, epd.ctl, displayed.lsb, displayed.msb
    {
      Shows(epd.ctl.chip.glass, displayed.Lsb(), displayed.Msb())
    }

    /** The record can be relied on: it is the glass, or the next update of the
        tag panel is an absolute one, which does not read it. */
    ghost predicate Sound()
      requires Valid()
      reads this, epd, epd.ctl, displayed.lsb, displayed.msb
    {
      Faithful() || fastRefreshes % FASTEST_PER_FULL == 0
    }

    constructor (c: Controller, buffer: FrameBuffer)
      requires GoodCursor(c.chip.cursor) && !c.chip.power && !c.chip.asleep && buffer.Valid()
      ensures Valid() && fb == buffer && epd.ctl == c && fresh(displayed.lsb) && fresh(displayed.msb) && fresh(epd.row)
      ensures fastRefreshes == 0 && !sleeping && Sound()
    {
      epd := new Ssd1677(c);
      fb := buffer;
      displayed := new FrameBuffer();
      fastRefreshes, sleeping := 0, false;
    }

    /** A full refresh of what is drawn, recorded. */
    method Refresh(mode: GrayMode)
      requires Valid() && !sleeping
      modifies epd, epd.ctl, epd.row, displayed.lsb, displayed.msb
      ensures Valid() && Abs() == Updated(old(Abs()), old(Drawn(LutOf(mode)))) && Faithful()
      ensures displayed.Lsb() == fb.Lsb() && displayed.Msb() == fb.Msb()
    {
      hide Driven, Inverted;
      epd.RefreshGray4(fb.lsb, fb.msb, mode);
      displayed.CopyFrom(fb);
    }

    /** At a start from deep sleep of the whole board the record is taken from
        the drawing without a look at the glass. It is then the glass only if
        the plate was what the panel last showed; if a tag was, the first
        update, an absolute one, puts it right. */
    method Baseline()
      requires Valid() && fastRefreshes == 0
      modifies displayed.lsb, displayed.msb
      ensures Valid() && Sound() && epd.ctl.chip.glass == old(epd.ctl.chip.glass)
      ensures displayed.Lsb() == fb.Lsb() && displayed.Msb() == fb.Msb()
      ensures Faithful() <==> Shows(epd.ctl.chip.glass, fb.Lsb(), fb.Msb())
    {
      displayed.CopyFrom(fb);
    }

    method Rest()
      requires Valid() && !sleeping
      modifies this, epd, epd.ctl
      ensures Valid() && sleeping && Abs() == Updated(old(Abs()), Update.Rest)
      ensures old(Sound()) ==> Sound()
    {
      epd.DeepSleep();
      sleeping := true;
    }

    /** After a rest the next update of the tag panel is an absolute one. */
    method Wake()
      requires Valid()
      modifies this, epd, epd.ctl
      ensures Valid() && !sleeping && fastRefreshes == if old(sleeping) then 0 else old(fastRefreshes)
      ensures Abs() == if old(sleeping) then Updated(old(Abs()), Update.Rest) else old(Abs())
      ensures old(Sound()) ==> Sound()
    {
      if !sleeping { return; }
      epd.ctl.HardReset();
      epd.Init();
      sleeping := false;
      fastRefreshes := 0;
    }

    /** New content was drawn: wake and show it all. */
    method ShowAll(mode: GrayMode)
      requires Valid()
      modifies this, epd, epd.ctl, epd.row, displayed.lsb, displayed.msb
      ensures Valid() && !sleeping && Faithful() && fastRefreshes == 1
      ensures displayed.Lsb() == fb.Lsb() && displayed.Msb() == fb.Msb()
    {
      Wake();
      Refresh(mode);
      fastRefreshes := 1;
    }

    /** A differential update of the tag panel; every tenth time a full one.
        Afterwards the record is the glass. */
    method RefreshPanelRegion()
      requires Valid() && !sleeping
      modifies this, epd, epd.ctl, epd.row, displayed.lsb, displayed.msb
      ensures Valid() && !sleeping && fastRefreshes == old(fastRefreshes) + 1
      ensures var u := if old(fastRefreshes) % 10 == 0 then old(Drawn(TextLut))
                       else Differential(old(fb.Msb()), TagPanel());
              GoodUpdate(u) && Abs() == Updated(old(Abs()), u)
      ensures old(Sound()) ==> Faithful()
    {
      hide Driven, Inverted, Patched, Classes, Shows;
      if fastRefreshes % FASTEST_PER_FULL == 0 {
        Refresh(TextMode);
      } else {
        var r := NativeRegion(PANEL_X, PANEL_Y, PANEL_W, PANEL_H);
        epd.RefreshFastest(fb.msb, displayed.lsb, displayed.msb, r);
        displayed.ApplyMonoRegion(fb.msb, r);
      }
      fastRefreshes := fastRefreshes + 1;
    }
  }

  /** What is drawn is what is seen: a pixel set at (x, y) shows there after a
      refresh, and every other pixel shows what was drawn at its own place. */
  method ShowPixel(d: Display, x: nat, y: nat, level: bv8, mode: GrayMode)
    requires d.Valid() && !d.sleeping && d.fb.orientation == Orientation(false, false)
    requires x < WIDTH && y < HEIGHT
    modifies d.fb.lsb, d.fb.msb, d.epd, d.epd.ctl, d.epd.row, d.displayed.lsb, d.displayed.msb
    ensures d.Valid() && d.epd.ctl.chip.glass(x, y) == (level & 3) as nat
    ensures forall px: nat, py: nat | px < WIDTH && py < HEIGHT && (px, py) != (x, y) ::
              d.epd.ctl.chip.glass(px, py) == Level(old(d.fb.Lsb()), old(d.fb.Msb()), px, py)
  {
    hide Level, Painted, Driven, Updated;
    ghost var l, m := d.fb.Lsb(), d.fb.Msb();
    d.fb.SetPixel(x, y, level);
    ghost var l', m' := d.fb.Lsb(), d.fb.Msb();
    d.Refresh(mode);
    forall px: nat, py: nat | px < WIDTH && py < HEIGHT
      ensures d.epd.ctl.chip.glass(px, py) == if px == x && py == y then (level & 3) as nat else Level(l, m, px, py)
    {
      PixelAtExact(Orientation(false, false), l', m', px, py);
      PixelAtExact(Orientation(false, false), l, m, px, py);
    }
  }

  /** The tag panel's region reaches from bit column 200 to 583 and row 12 to 467. */
  lemma TagPanelExtent(y: nat, x: nat)
    requires y < WIDTH && x < HEIGHT
    ensures GoodRegion(TagPanel()) && (Covers(TagPanel(), y, x) <==> 12 <= y <= 467 && 200 <= x <= 583)
  {
  }
}
