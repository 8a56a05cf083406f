/**
 The two bit planes of the framebuffer, eight pixels a byte, most significant
 first: rows are gate lines (portrait x), bit columns source lines (portrait y).
 */
module Frame {
  const WIDTH := 480
  const HEIGHT := 800
  const ROW_BYTES := 100
  const PLANE_BYTES := 48_000

  type Plane = s: seq<bv8> | |s| == PLANE_BYTES witness seq(PLANE_BYTES, _ => 0)

  // ----------------------------------------------------------------- bits

  /** `0x80 >> k` */
  function Mask(k: nat): bv8
    requires k < 8
  {
    if k == 0 then 0x80 else if k == 1 then 0x40 else if k == 2 then 0x20 else if k == 3 then 0x10
    else if k == 4 then 0x08 else if k == 5 then 0x04 else if k == 6 then 0x02 else 0x01
  }

  predicate Bit(b: bv8, k: nat)
    requires k < 8
  {
    b & Mask(k) != 0
  }

  function WithBit(b: bv8, k: nat, on: bool): bv8
    requires k < 8
  {
    if on then b | Mask(k) else b & !Mask(k)
  }

  lemma WithBitBits(b: bv8, k: nat, on: bool, j: nat)
    requires k < 8 && j < 8
    ensures Bit(WithBit(b, k, on), j) == if j == k then on else Bit(b, j)
  {
    MasksDiffer(b, Mask(k), Mask(j));
  }

  lemma MasksDiffer(b: bv8, p: bv8, q: bv8)
    ensures p & q == 0 ==> (b | p) & q == b & q && (b & !p) & q == b & q
    ensures p == q ==> (b | p) & q == q && (b & !p) & q == 0
  {
  }

  lemma NotBit(b: bv8, k: nat)
    requires k < 8
    ensures Bit(!b, k) == !Bit(b, k)
  {
  }

  /** The transition class of a differential update: where the old image stands relative to the new endpoint. */
  function Class(n: bv8, l: bv8, m: bv8): bv8 { (n & (l & m)) | (!n & (l | m)) }

  lemma ClassBit(n: bv8, l: bv8, m: bv8, k: nat)
    requires k < 8
    ensures Bit(Class(n, l, m), k) == if Bit(n, k) then Bit(l, k) && Bit(m, k) else Bit(l, k) || Bit(m, k)
  {
    SingleBit(n, k);
    SingleBit(l, k);
    SingleBit(m, k);
    ClassMasked(n, l, m, Mask(k));
    BothOrEither(l & Mask(k), m & Mask(k), Mask(k));
  }

  lemma SingleBit(b: bv8, k: nat)
    requires k < 8
    ensures (b & Mask(k) == 0 || b & Mask(k) == Mask(k)) && Mask(k) != 0
  {
  }

  lemma ClassMasked(n: bv8, l: bv8, m: bv8, q: bv8)
    ensures n & q == q ==> Class(n, l, m) & q == (l & q) & (m & q)
    ensures n & q == 0 ==> Class(n, l, m) & q == (l & q) | (m & q)
  {
  }

  lemma BothOrEither(a: bv8, b: bv8, q: bv8)
    requires (a == 0 || a == q) && (b == 0 || b == q)
    ensures (a & b != 0 <==> a != 0 && b != 0) && (a | b != 0 <==> a != 0 || b != 0)
  {
  }

  // --------------------------------------------------------------- pixels

  /** Bit of pixel (row, column) in a plane. */
  predicate On(p: Plane, y: nat, x: nat)
    requires y < WIDTH && x < HEIGHT
  {
    Bit(p[y * ROW_BYTES + x / 8], x % 8)
  }

  /** Gray level of a pixel: 0 black to 3 white. */
  function Level(lsb: Plane, msb: Plane, y: nat, x: nat): (v: nat)
    requires y < WIDTH && x < HEIGHT
    ensures v < 4
  {
    (if On(lsb, y, x) then 1 else 0) + (if On(msb, y, x) then 2 else 0)
  }

  lemma IndexParts(y: nat, c: nat)
    requires y < WIDTH && c < ROW_BYTES
    ensures 0 <= y * ROW_BYTES + c < PLANE_BYTES
    ensures (y * ROW_BYTES + c) / ROW_BYTES == y && (y * ROW_BYTES + c) % ROW_BYTES == c
  {
  }

  // --------------------------------------------------------------- regions

  /** A native region: bit columns x0..x0+w, rows y0..y0+h. */
  datatype Region = Region(x0: nat, w: nat, y0: nat, h: nat)

  predicate GoodRegion(r: Region) { r.x0 < HEIGHT && r.y0 < WIDTH && r.w >= 1 && r.h >= 1 }

  function FirstByte(r: Region): nat { r.x0 / 8 }

  function Smaller(a: nat, b: nat): nat { if a < b then a else b }

  /** The last byte of the region, rounded outwards and kept on the panel. */
  function LastByte(r: Region): nat
    requires r.w >= 1
  {
    Smaller((r.x0 + r.w - 1) / 8 * 8 + 7, HEIGHT - 1) / 8
  }

  function LastRow(r: Region): nat
    requires r.h >= 1
  {
    Smaller(r.y0 + r.h - 1, WIDTH - 1)
  }

  lemma RegionOnPanel(r: Region)
    requires GoodRegion(r)
    ensures FirstByte(r) <= LastByte(r) < ROW_BYTES && r.y0 <= LastRow(r) < WIDTH
  {
  }

  /** Is byte `i` of a plane inside the byte-aligned region? */
  predicate Inside(r: Region, i: nat)
    requires GoodRegion(r)
  {
    r.y0 <= i / ROW_BYTES <= LastRow(r) && FirstByte(r) <= i % ROW_BYTES <= LastByte(r)
  }

  predicate Covers(r: Region, y: nat, x: nat)
    requires GoodRegion(r)
  {
    r.y0 <= y <= LastRow(r) && FirstByte(r) <= x / 8 <= LastByte(r)
  }

  /** The region's pixels, rounded outwards to whole bytes and cut at the panel's edges. */
  lemma CoversExact(r: Region, y: nat, x: nat)
    requires GoodRegion(r) && y < 480 && x < 800
    ensures Covers(r, y, x)
            <==> r.y0 <= y < r.y0 + r.h && r.x0 / 8 * 8 <= x && x / 8 * 8 < r.x0 + r.w
  {
  }

  /** A plane with the region taken from another. */
  function Patched(base: Plane, mono: Plane, r: Region): Plane
    requires GoodRegion(r)
  {
    seq(PLANE_BYTES, i requires 0 <= i < PLANE_BYTES => if Inside(r, i) then mono[i] else base[i])
  }

  /** The transition classes: inside the region the class bits, outside the old image. */
  function Classes(mono: Plane, lsb: Plane, msb: Plane, r: Region): Plane
    requires GoodRegion(r)
  {
    seq(PLANE_BYTES, i requires 0 <= i < PLANE_BYTES => if Inside(r, i) then Class(mono[i], lsb[i], msb[i]) else msb[i])
  }

  lemma PatchedPixel(base: Plane, mono: Plane, r: Region, y: nat, x: nat)
    requires GoodRegion(r) && y < WIDTH && x < HEIGHT
    ensures On(Patched(base, mono, r), y, x) == if Covers(r, y, x) then On(mono, y, x) else On(base, y, x)
  {
    IndexParts(y, x / 8);
  }

  lemma ClassesPixel(mono: Plane, lsb: Plane, msb: Plane, r: Region, y: nat, x: nat)
    requires GoodRegion(r) && y < WIDTH && x < HEIGHT
    ensures On(Classes(mono, lsb, msb, r), y, x)
            == if Covers(r, y, x) then
                 (if On(mono, y, x) then On(lsb, y, x) && On(msb, y, x) else On(lsb, y, x) || On(msb, y, x))
               else On(msb, y, x)
  {
    IndexParts(y, x / 8);
    var i := y * ROW_BYTES + x / 8;
    ClassBit(mono[i], lsb[i], msb[i], x % 8);
  }

  function Inverted(p: Plane): Plane { seq(PLANE_BYTES, i requires 0 <= i < PLANE_BYTES => !p[i]) }

  lemma InvertedPixel(p: Plane, y: nat, x: nat)
    requires y < WIDTH && x < HEIGHT
    ensures On(Inverted(p), y, x) == !On(p, y, x)
  {
    IndexParts(y, x / 8);
    NotBit(p[y * ROW_BYTES + x / 8], x % 8);
  }
}
