/** The framebuffer object: two planes changed in place. */
module FrameBuf {
  import opened Bytes
  import opened Frame

  /** Axis flips between logical coordinates and controller RAM. */
  datatype Orientation = Orientation(flipX: bool, flipY: bool)

  function Flip(on: bool, size: nat, v: nat): (r: nat)
    requires v < size
    ensures r < size
  {
    if on then size - 1 - v else v
  }

  /** Gray level at logical (x, y). */
  function PixelAt(o: Orientation, lsb: Plane, msb: Plane, x: nat, y: nat): (v: nat)
    requires x < WIDTH && y < HEIGHT
    ensures v < 4
  {
    Level(lsb, msb, Flip(o.flipX, WIDTH, x), Flip(o.flipY, HEIGHT, y))
  }

  /** Byte index and bit of logical (x, y). */
  function Locate(o: Orientation, x: nat, y: nat): (r: (nat, nat))
    requires x < WIDTH && y < HEIGHT
    ensures r.0 < PLANE_BYTES && r.1 < 8
  {
    var row, col := Flip(o.flipX, WIDTH, x), Flip(o.flipY, HEIGHT, y);
    IndexParts(row, col / 8);
    (row * ROW_BYTES + col / 8, col % 8)
  }

  /** Every pixel has a bit of its own. */
  lemma LocateInjective(o: Orientation, x: nat, y: nat, x2: nat, y2: nat)
    requires x < WIDTH && y < HEIGHT && x2 < WIDTH && y2 < HEIGHT
    ensures Locate(o, x, y) == Locate(o, x2, y2) <==> x == x2 && y == y2
  {
    var row, col := Flip(o.flipX, WIDTH, x), Flip(o.flipY, HEIGHT, y);
    var row2, col2 := Flip(o.flipX, WIDTH, x2), Flip(o.flipY, HEIGHT, y2);
    IndexParts(row, col / 8);
    IndexParts(row2, col2 / 8);
  }

  function WithBitAt(p: Plane, at: (nat, nat), on: bool): Plane
    requires at.0 < PLANE_BYTES && at.1 < 8
  {
    p[at.0 := WithBit(p[at.0], at.1, on)]
  }

  function Painted(o: Orientation, p: Plane, x: nat, y: nat, on: bool): Plane
    requires x < WIDTH && y < HEIGHT
  {
    WithBitAt(p, Locate(o, x, y), on)
  }

  function Lit(v: bv8, bit: bv8): bool { v & bit != 0 }

  /** A painted pixel reads back its level; every other pixel keeps its own. */
  lemma PaintReadsBack(o: Orientation, lsb: Plane, msb: Plane, x: nat, y: nat, level: bv8, x2: nat, y2: nat)
    requires x < WIDTH && y < HEIGHT && x2 < WIDTH && y2 < HEIGHT
    ensures PixelAt(o, Painted(o, lsb, x, y, Lit(level, 1)), Painted(o, msb, x, y, Lit(level, 2)), x2, y2)
            == if x2 == x && y2 == y then (level & 3) as nat else PixelAt(o, lsb, msb, x2, y2)
  {
    LocateInjective(o, x, y, x2, y2);
    var at, at2 := Locate(o, x, y), Locate(o, x2, y2);
    WithBitBits(lsb[at.0], at.1, Lit(level, 1), at2.1);
    WithBitBits(msb[at.0], at.1, Lit(level, 2), at2.1);
    LowBits(level);
  }

  lemma LowBits(v: bv8)
    ensures (v & 3) as nat == (if Lit(v, 1) then 1 else 0) + (if Lit(v, 2) then 2 else 0)
  {
    assert v & 3 == (if Lit(v, 1) then 1 else 0) | (if Lit(v, 2) then 2 else 0);
    assert v & 3 == 0 || v & 3 == 1 || v & 3 == 2 || v & 3 == 3;
  }

  /** The region's rows above `y` taken from `mono`. */
  ghost function PatchedRows(base: Plane, mono: Plane, r: Region, y: nat): Plane
    requires GoodRegion(r)
  {
    seq(PLANE_BYTES, i requires 0 <= i < PLANE_BYTES => if Inside(r, i) && i / ROW_BYTES < y then mono[i] else base[i])
  }

  lemma PatchRow(base: Plane, mono: Plane, r: Region, y: nat)
    requires GoodRegion(r) && r.y0 <= y <= LastRow(r)
    ensures var at, n := y * ROW_BYTES + FirstByte(r), LastByte(r) - FirstByte(r) + 1;
            n > 0 && at + n <= PLANE_BYTES
            && Splice(PatchedRows(base, mono, r, y), at, mono[at..at + n]) == PatchedRows(base, mono, r, y + 1)
  {
    RegionOnPanel(r);
    var at, n := y * ROW_BYTES + FirstByte(r), LastByte(r) - FirstByte(r) + 1;
    var got, want := Splice(PatchedRows(base, mono, r, y), at, mono[at..at + n]), PatchedRows(base, mono, r, y + 1);
    forall i | 0 <= i < PLANE_BYTES ensures got[i] == want[i] { RowOf(i, y); }
  }

  lemma RowOf(i: nat, y: nat)
    ensures i / ROW_BYTES == y <==> y * ROW_BYTES <= i < y * ROW_BYTES + ROW_BYTES
    ensures i / ROW_BYTES == y ==> i % ROW_BYTES == i - y * ROW_BYTES
  {
  }

  lemma PatchEnds(base: Plane, mono: Plane, r: Region)
    requires GoodRegion(r)
    ensures PatchedRows(base, mono, r, r.y0) == base
    ensures PatchedRows(base, mono, r, LastRow(r) + 1) == Patched(base, mono, r)
  {
  }

  /** A logical rectangle as a native region, clamped to the panel. */
  function NativeRegion(x: nat, y: nat, w: nat, h: nat): Region {
    var x, y := Smaller(x, WIDTH - 1), Smaller(y, HEIGHT - 1);
    Region(y, Smaller(h, HEIGHT - y), x, Smaller(w, WIDTH - x))
  }

  /** Every logical pixel of a rectangle that is not empty is in its native region. */
  lemma NativeRegionCovers(x: nat, y: nat, w: nat, h: nat, px: nat, py: nat)
    requires w >= 1 && h >= 1 && x <= px < x + w && y <= py < y + h && px < WIDTH && py < HEIGHT
    ensures GoodRegion(NativeRegion(x, y, w, h)) && Covers(NativeRegion(x, y, w, h), px, py)
  {
  }

  /** Where a pixel is: without flips column x is the row of the planes and row
      y the bit column; each flag mirrors its own axis. */
  lemma PixelAtExact(o: Orientation, lsb: Plane, msb: Plane, x: nat, y: nat)
    requires x < WIDTH && y < HEIGHT
    ensures PixelAt(o, lsb, msb, x, y)
            == Level(lsb, msb, if o.flipX then 479 - x else x, if o.flipY then 799 - y else y)
    ensures Locate(o, x, y)
            == (var row, col := if o.flipX then 479 - x else x, if o.flipY then 799 - y else y;
                (100 * row + col / 8, col % 8))
  {
  }

  lemma MaskShift(k: nat)
    requires k < 8
    ensures Mask(k) == (0x80 as bv8) >> k
  {
    if k == 0 {} else if k == 1 {} else if k == 2 {} else if k == 3 {}
    else if k == 4 {} else if k == 5 {} else if k == 6 {} else { assert k == 7; }
  }

  /** The bit of a pixel, and the levels two bits make. */
  lemma LevelBits(lsb: Plane, msb: Plane, row: nat, col: nat)
    requires row < WIDTH && col < HEIGHT
    ensures var i, bit := 100 * row + col / 8, (0x80 as bv8) >> (col % 8);
            i < 48_000
            && Level(lsb, msb, row, col) == (if lsb[i] & bit != 0 then 1 else 0) + (if msb[i] & bit != 0 then 2 else 0)
  {
    IndexParts(row, col / 8);
    MaskShift(col % 8);
  }

  /** Bit k of a byte is `0x80 >> k`. */
  lemma BitSet(b: bv8, k: nat, on: bool)
    requires k < 8
    ensures WithBit(b, k, on) == (var bit := (0x80 as bv8) >> k; if on then b | bit else b & !bit)
  {
    MaskShift(k);
    hide Mask;
  }

  /** Painting without flips changes one byte of a plane, in one bit. */
  lemma PaintedByte(p: Plane, x: nat, y: nat, on: bool)
    requires x < WIDTH && y < HEIGHT
    ensures 100 * x + y / 8 < 48_000
    ensures Painted(Orientation(false, false), p, x, y, on)
            == p[100 * x + y / 8 := WithBit(p[100 * x + y / 8], y % 8, on)]
  {
    IndexParts(x, y / 8);
    hide WithBit;
  }

  /** Without flips the byte a pixel is painted into lies inside the native
      region of every rectangle that holds the pixel. */
  lemma PaintedInRegion(x: nat, y: nat, w: nat, h: nat, px: nat, py: nat)
    requires w >= 1 && h >= 1 && x <= px < x + w && y <= py < y + h && px < WIDTH && py < HEIGHT
    ensures var r := NativeRegion(x, y, w, h);
            GoodRegion(r) && Inside(r, Locate(Orientation(false, false), px, py).0)
  {
    NativeRegionCovers(x, y, w, h, px, py);
    IndexParts(px, py / 8);
  }

  class FrameBuffer {
    const lsb: array<bv8>
    const msb: array<bv8>
    var orientation: Orientation

    ghost predicate Valid() { lsb.Length == PLANE_BYTES && msb.Length == PLANE_BYTES && lsb != msb }

    ghost function Lsb(): Plane
      requires Valid()
      reads lsb
    {
      lsb[..]
    }

    ghost function Msb(): Plane
      requires Valid()
      reads msb
    {
      msb[..]
    }

    constructor ()
      ensures Valid() && fresh(lsb) && fresh(msb) && orientation == Orientation(false, false)
      ensures Lsb() == Msb() == seq(PLANE_BYTES, _ => 0xFF)
    {
      lsb := new bv8[PLANE_BYTES](_ => 0xFF);
      msb := new bv8[PLANE_BYTES](_ => 0xFF);
      orientation := Orientation(false, false);
    }

    method SetPixel(x: int, y: int, level: bv8)
      requires Valid()
      modifies lsb, msb
      ensures 0 <= x < WIDTH && 0 <= y < HEIGHT ==>
                Lsb() == Painted(orientation, old(Lsb()), x, y, Lit(level, 1))
                && Msb() == Painted(orientation, old(Msb()), x, y, Lit(level, 2))
      ensures !(0 <= x < WIDTH && 0 <= y < HEIGHT) ==> Lsb() == old(Lsb()) && Msb() == old(Msb())
      ensures forall px: nat, py: nat | px < WIDTH && py < HEIGHT ::
                PixelAt(orientation, Lsb(), Msb(), px, py)
                == if px == x && py == y then (level & 3) as nat else old(PixelAt(orientation, Lsb(), Msb(), px, py))
    {
      if x < 0 || y < 0 || x >= WIDTH || y >= HEIGHT { return; }
      ghost var l, m := Lsb(), Msb();
      var at := Locate(orientation, x, y);
      lsb[at.0] := WithBit(lsb[at.0], at.1, level & 1 != 0);
      msb[at.0] := WithBit(msb[at.0], at.1, level & 2 != 0);
      assert Lsb() == Painted(orientation, l, x, y, Lit(level, 1));
      assert Msb() == Painted(orientation, m, x, y, Lit(level, 2));
      forall px: nat, py: nat | px < WIDTH && py < HEIGHT
        ensures PixelAt(orientation, Lsb(), Msb(), px, py)
                == if px == x && py == y then (level & 3) as nat else PixelAt(orientation, l, m, px, py)
      {
        PaintReadsBack(orientation, l, m, x, y, level, px, py);
      }
    }

    method GetPixel(x: nat, y: nat) returns (v: nat)
      requires Valid() && x < WIDTH && y < HEIGHT
      ensures v == PixelAt(orientation, Lsb(), Msb(), x, y)
    {
      var at := Locate(orientation, x, y);
      var row, col := Flip(orientation.flipX, WIDTH, x), Flip(orientation.flipY, HEIGHT, y);
      IndexParts(row, col / 8);
      v := (if Bit(lsb[at.0], at.1) then 1 else 0) + (if Bit(msb[at.0], at.1) then 2 else 0);
    }

    method CopyFrom(src: FrameBuffer)
      requires Valid() && src.Valid() && lsb != src.msb
      modifies lsb, msb
      ensures Lsb() == old(src.Lsb()) && Msb() == old(src.Msb())
    {
      CopyInto(lsb, 0, src.lsb[..]);
      CopyInto(msb, 0, src.msb[..]);
    }

    method ApplyMonoRegion(mono: array<bv8>, r: Region)
      requires Valid() && GoodRegion(r) && mono.Length == PLANE_BYTES && mono != lsb && mono != msb
      modifies lsb, msb
      ensures Lsb() == Patched(old(Lsb()), mono[..], r) && Msb() == Patched(old(Msb()), mono[..], r)
    {
      hide Patched, PatchedRows;
      RegionOnPanel(r);
      ghost var l, m, new_: Plane := Lsb(), Msb(), mono[..];
      PatchEnds(l, new_, r);
      PatchEnds(m, new_, r);
      var first, last := FirstByte(r), LastByte(r);
      for y := r.y0 to LastRow(r) + 1
        invariant Lsb() == PatchedRows(l, new_, r, y) && Msb() == PatchedRows(m, new_, r, y)
        invariant mono[..] == new_
      {
        var o := y * ROW_BYTES;
        PatchRow(l, new_, r, y);
        PatchRow(m, new_, r, y);
        CopyInto(lsb, o + first, mono[o + first..o + last + 1]);
        CopyInto(msb, o + first, mono[o + first..o + last + 1]);
      }
    }
  }
}
