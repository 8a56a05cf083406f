/** Records in flash: the plate's NDEF message and the display image. */
module ConfigStore {
  import opened Bytes
  import opened Plate

  const FLASH_SIZE := 0x100_0000
  const REGION_OFFSET := 0x9000
  const REGION_SIZE := 0x6000
  const IMAGE_OFFSET := 0xFB_0000
  const IMAGE_REGION := 0x5_0000
  /** "PNP1" */
  const MAGIC: seq<byte> := [0x50, 0x4E, 0x50, 0x31]
  const HEADER := 8
  const MAX_DATA := 2048
  const MAX_IMAGE := 48_004

  // ------------------------------------------------------------------ crc

  function Bit16(c: bv16): bv16 { if c & 0x8000 != 0 then (c << 1) ^ 0x1021 else c << 1 }

  function Bits16(c: bv16, n: nat): bv16
    decreases n
  {
    if n == 0 then c else Bits16(Bit16(c), n - 1)
  }

  function Mix16(c: bv16, b: byte): bv16 { c ^ (((b as bv8) as bv16) << 8) }

  function Absorb16(c: bv16, b: byte): bv16 { Bits16(Mix16(c, b), 8) }

  /** CRC-16 register (CCITT-FALSE) after `data`, from register `c`. */
  function Crc16From(c: bv16, data: seq<byte>): bv16
    decreases |data|
  {
    if data == [] then c else Crc16From(Absorb16(c, data[0]), data[1..])
  }

  /** The one byte of the CRC that a record keeps. */
  function CrcByte(data: seq<byte>): byte { ((Crc16From(0xFFFF, data) & 0xFF) as bv8) as int }

  lemma {:induction false} CrcConcat(c: bv16, a: seq<byte>, b: seq<byte>)
    ensures Crc16From(c, a + b) == Crc16From(Crc16From(c, a), b)
    decreases |a|
  {
    hide Absorb16;
    if a == [] {
      assert a + b == b;
    } else {
      CrcConcat(Absorb16(c, a[0]), a[1..], b);
      assert (a + b)[0] == a[0] && (a + b)[1..] == a[1..] + b;
    }
  }

  /** The CRC loops of `crc16` and `save_rec`. */
  method CrcLoop(start: bv16, data: seq<byte>) returns (crc: bv16)
    ensures crc == Crc16From(start, data)
  {
    hide Mix16;
    crc := start;
    assert data[0..] == data;
    for i := 0 to |data|
      invariant Crc16From(start, data) == Crc16From(crc, data[i..])
    {
      assert data[i..][0] == data[i] && data[i..][1..] == data[i + 1..];
      crc := BitLoop(Mix16(crc, data[i]));
    }
  }

  method BitLoop(start: bv16) returns (crc: bv16)
    ensures crc == Bits16(start, 8)
  {
    crc := start;
    for k := 0 to 8
      invariant Bits16(start, 8) == Bits16(crc, 8 - k)
    {
      crc := if crc & 0x8000 != 0 then (crc << 1) ^ 0x1021 else crc << 1;
    }
  }

  function Eight16(c: bv16): bv16 { Bit16(Bit16(Bit16(Bit16(Bit16(Bit16(Bit16(Bit16(c)))))))) }

  lemma EightBits(c: bv16)
    ensures Bits16(c, 8) == Eight16(c)
  {
    hide Bit16;
    var c4 := Bit16(Bit16(Bit16(Bit16(c))));
    assert Bits16(c, 8) == Bits16(Bit16(c), 7) == Bits16(Bit16(Bit16(c)), 6) == Bits16(Bit16(Bit16(Bit16(c))), 5)
        == Bits16(c4, 4);
    assert Bits16(c4, 4) == Bits16(Bit16(c4), 3) == Bits16(Bit16(Bit16(c4)), 2) == Bits16(Bit16(Bit16(Bit16(c4))), 1);
    assert Bits16(Bit16(Bit16(Bit16(c4))), 1) == Bits16(Bit16(Bit16(Bit16(Bit16(c4)))), 0);
  }

  const DIGITS: seq<byte> := [0x31, 0x32, 0x33, 0x34, 0x35, 0x36, 0x37, 0x38, 0x39]

  lemma AbsorbDigit(n: nat, before: bv16, mixed: bv16, after: bv16)
    requires n < 9 && mixed == Mix16(before, DIGITS[n]) && Eight16(mixed) == after
    ensures Crc16From(before, DIGITS[n..]) == Crc16From(after, DIGITS[n + 1..])
  {
    hide Mix16, Eight16;
    EightBits(mixed);
    assert DIGITS[n..][1..] == DIGITS[n + 1..];
  }

  lemma DigitSteps()
    ensures Eight16(0xCEFF) == 0xC782
    ensures Eight16(0xF582) == 0x3DBA
    ensures Eight16(0x0EBA) == 0x5BCE
    ensures Eight16(0x6FCE) == 0x5349
    ensures Eight16(0x6649) == 0x4560
    ensures Eight16(0x7360) == 0x2EF4
    ensures Eight16(0x19F4) == 0x7718
    ensures Eight16(0x4F18) == 0xA12B
    ensures Eight16(0x982B) == 0x29B1
  {
  }

  /** The check value of this CRC: that of the digits 1 to 9. */
  lemma CheckValue()
    ensures Crc16From(0xFFFF, [0x31, 0x32, 0x33, 0x34, 0x35, 0x36, 0x37, 0x38, 0x39]) == 0x29B1
    ensures CrcByte([0x31, 0x32, 0x33, 0x34, 0x35, 0x36, 0x37, 0x38, 0x39]) == 0xB1
  {
    hide Crc16From, Eight16;
    DigitSteps();
    assert DIGITS[0..] == DIGITS && DIGITS[9..] == [];
    AbsorbDigit(0, 0xFFFF, 0xCEFF, 0xC782);
    AbsorbDigit(1, 0xC782, 0xF582, 0x3DBA);
    AbsorbDigit(2, 0x3DBA, 0x0EBA, 0x5BCE);
    AbsorbDigit(3, 0x5BCE, 0x6FCE, 0x5349);
    AbsorbDigit(4, 0x5349, 0x6649, 0x4560);
    AbsorbDigit(5, 0x4560, 0x7360, 0x2EF4);
    AbsorbDigit(6, 0x2EF4, 0x19F4, 0x7718);
    AbsorbDigit(7, 0x7718, 0x4F18, 0xA12B);
    AbsorbDigit(8, 0xA12B, 0x982B, 0x29B1);
    NothingLeft(0x29B1);
  }

  lemma NothingLeft(c: bv16)
    ensures Crc16From(c, []) == c
  {
  }

  // --------------------------------------------------------------- records

  /** `load_rec`: twenty bits of length, eight of CRC. */
  function LoadRec(mem: seq<byte>, offset: nat, max: nat, region: nat): Option<seq<byte>>
    requires HEADER <= region && offset + region <= |mem|
  {
    var hdr := mem[offset..offset + HEADER];
    var len := FromLe16(hdr[4..6]) + hdr[6] as int % 16 * 0x1_0000;
    if hdr[..4] != MAGIC || len == 0 || len > max || HEADER + len > region then None
    else
      var data := mem[offset + HEADER..offset + HEADER + len];
      if CrcByte(data) == hdr[7] then Some(data) else None
  }

  /** A record is loaded exactly when it begins with "PNP1", its 20-bit length
      is one the slot can hold, and its data have the CRC byte it gives;
      anything else loads as none. */
  lemma LoadExact(mem: seq<byte>, offset: nat, max: nat, region: nat)
    requires 8 <= region && offset + region <= |mem|
    ensures var o := offset;
            var len := mem[o + 4] as int + 256 * mem[o + 5] as int + 65_536 * (mem[o + 6] as int % 16);
            LoadRec(mem, offset, max, region)
            == if mem[o..o + 4] == [0x50, 0x4E, 0x50, 0x31] && 1 <= len <= max && 8 + len <= region
                  && CrcByte(mem[o + 8..o + 8 + len]) == mem[o + 7]
               then Some(mem[o + 8..o + 8 + len]) else None
  {
    hide CrcByte;
    var hdr := mem[offset..offset + HEADER];
    assert hdr[..4] == mem[offset..offset + 4] && hdr[4..6] == [mem[offset + 4], mem[offset + 5]];
  }

  /** The header of a record, byte by byte. */
  lemma HeaderBytes(payload: seq<byte>)
    requires |payload| < 0x10_0000
    ensures var n := |payload|;
            Header(n, payload)
            == [0x50, 0x4E, 0x50, 0x31, n % 256, n / 256 % 256, n / 65_536, CrcByte(payload)]
  {
    hide CrcByte;
    LengthBytes(|payload|, |payload| / 0x1_0000, |payload| % 0x1_0000);
  }

  lemma LengthBytes(n: nat, hi: nat, lo: nat)
    requires n == hi * 0x1_0000 + lo && lo < 0x1_0000 && hi < 16
    ensures Le16(lo) == [n % 256, n / 256 % 256] && n / 0x1_0000 % 16 == n / 65_536 == hi && n % 0x1_0000 == lo
  {
    assert n / 256 == hi * 256 + lo / 256;
  }

  function Cap(n: nat, max: nat): nat { if n < max then n else max }

  function Header(len: nat, payload: seq<byte>): (h: seq<byte>)
    ensures |h| == HEADER
  {
    MAGIC + Le16(len % 0x1_0000) + [len / 0x1_0000 % 16, CrcByte(payload)]
  }

  /** What `save_rec` stores: prefix and data, cut to the cap. */
  function Stored(max: nat, prefix: seq<byte>, data: seq<byte>): (p: seq<byte>)
    requires |prefix| <= max
    ensures |p| <= max
  {
    prefix + data[..Cap(|prefix| + |data|, max) - |prefix|]
  }

  function SaveRec(mem: seq<byte>, offset: nat, max: nat, prefix: seq<byte>, data: seq<byte>): (m: seq<byte>)
    requires |prefix| <= max && offset + HEADER + max <= |mem|
    ensures |m| == |mem|
  {
    var payload := Stored(max, prefix, data);
    Splice(mem, offset, Header(|payload|, payload) + payload)
  }

  /** What is saved is what is loaded: the whole payload up to its cap, unless it is empty. */
  lemma LoadAfterSave(mem: seq<byte>, offset: nat, max: nat, region: nat, prefix: seq<byte>, data: seq<byte>)
    requires |prefix| <= max < 0x10_0000 && HEADER + max <= region && offset + region <= |mem|
    ensures var p := Stored(max, prefix, data);
            LoadRec(SaveRec(mem, offset, max, prefix, data), offset, max, region) == if p == [] then None else Some(p)
  {
    hide CrcByte, Stored;
    var p := Stored(max, prefix, data);
    var m, h := SaveRec(mem, offset, max, prefix, data), Header(|p|, p);
    assert m[offset..offset + HEADER] == h;
    assert h[..4] == MAGIC && h[4..6] == Le16(|p| % 0x1_0000) && h[6] == |p| / 0x1_0000 % 16 && h[7] == CrcByte(p);
    RoundTrip16(|p| % 0x1_0000);
    assert FromLe16(h[4..6]) + h[6] as int % 16 * 0x1_0000 == |p|;
    assert m[offset + HEADER..offset + HEADER + |p|] == p;
  }

  lemma SliceOfSlice(s: seq<byte>, at: nat, len: nat, from: nat, n: nat)
    requires at + len <= |s| && from + n <= len
    ensures s[at..at + len][from..from + n] == s[at + from..at + from + n]
  {
    var l, r := s[at..at + len][from..from + n], s[at + from..at + from + n];
    assert |l| == |r| && forall k :: 0 <= k < n ==> l[k] == r[k];
  }

  /** A record is read from its own region only. */
  lemma LoadReadsRegion(a: seq<byte>, b: seq<byte>, offset: nat, max: nat, region: nat)
    requires HEADER <= region && offset + region <= |a| == |b|
    requires a[offset..offset + region] == b[offset..offset + region]
    ensures LoadRec(a, offset, max, region) == LoadRec(b, offset, max, region)
  {
    hide CrcByte;
    SliceOfSlice(a, offset, region, 0, HEADER);
    SliceOfSlice(b, offset, region, 0, HEADER);
    assert a[offset..offset + HEADER] == b[offset..offset + HEADER];
    var hdr := a[offset..offset + HEADER];
    var len := FromLe16(hdr[4..6]) + hdr[6] as int % 16 * 0x1_0000;
    if HEADER + len <= region {
      SliceOfSlice(a, offset, region, HEADER, len);
      SliceOfSlice(b, offset, region, HEADER, len);
    }
  }

  // ------------------------------------------------- the plate's two records

  function Load(mem: seq<byte>): Option<seq<byte>>
    requires |mem| == FLASH_SIZE
  {
    LoadRec(mem, REGION_OFFSET, MAX_DATA, REGION_SIZE)
  }

  function Save(mem: seq<byte>, data: seq<byte>): (m: seq<byte>)
    requires |mem| == FLASH_SIZE
    ensures |m| == FLASH_SIZE
  {
    SaveRec(mem, REGION_OFFSET, MAX_DATA, [], data)
  }

  /** The image in the slot, if the slot holds a good one. */
  function Slot(mem: seq<byte>): (r: Option<MonoImage>)
    requires |mem| == FLASH_SIZE
    ensures r.Some? ==> ValidImage(r.value)
  {
    var p := LoadRec(mem, IMAGE_OFFSET, MAX_IMAGE, IMAGE_REGION);
    if p.None? then None else Decode(p.value)
  }

  function SaveImage(mem: seq<byte>, img: MonoImage): (m: seq<byte>)
    requires |mem| == FLASH_SIZE
    ensures |m| == FLASH_SIZE
  {
    SaveRec(mem, IMAGE_OFFSET, MAX_IMAGE, Le16(img.width) + Le16(img.height), img.bits)
  }

  const ERASED: seq<byte> := [0xFF, 0xFF, 0xFF, 0xFF, 0xFF, 0xFF, 0xFF, 0xFF]

  function ClearImage(mem: seq<byte>): (m: seq<byte>)
    requires |mem| == FLASH_SIZE
    ensures |m| == FLASH_SIZE
  {
    Splice(mem, IMAGE_OFFSET, ERASED)
  }

  /** Saving the message replaces the message and keeps the image. */
  lemma SaveKeeps(mem: seq<byte>, data: seq<byte>)
    requires |mem| == FLASH_SIZE
    ensures Load(Save(mem, data)) == if data == [] then None else Some(data[..Cap(|data|, MAX_DATA)])
    ensures Slot(Save(mem, data)) == Slot(mem)
  {
    hide LoadRec, Splice;
    LoadAfterSave(mem, REGION_OFFSET, MAX_DATA, REGION_SIZE, [], data);
    var p := Stored(MAX_DATA, [], data);
    assert p == data[..Cap(|data|, MAX_DATA)];
    SpliceElsewhere(mem, REGION_OFFSET, Header(|p|, p) + p, IMAGE_OFFSET, IMAGE_REGION);
    LoadReadsRegion(mem, Save(mem, data), IMAGE_OFFSET, MAX_IMAGE, IMAGE_REGION);
  }

  lemma SpliceElsewhere(mem: seq<byte>, at: nat, data: seq<byte>, from: nat, len: nat)
    requires at + |data| <= |mem| && from + len <= |mem|
    requires at + |data| <= from || from + len <= at
    ensures Splice(mem, at, data)[from..from + len] == mem[from..from + len]
  {
  }

  /** Saving a valid image fills the slot with it and keeps the message. */
  lemma SaveImageKeeps(mem: seq<byte>, img: MonoImage)
    requires |mem| == FLASH_SIZE && ValidImage(img)
    ensures Slot(SaveImage(mem, img)) == Some(img)
    ensures Load(SaveImage(mem, img)) == Load(mem)
  {
    hide LoadRec, Splice, Decode, ValidImage;
    var wh := Le16(img.width) + Le16(img.height);
    ImageFits(img);
    LoadAfterSave(mem, IMAGE_OFFSET, MAX_IMAGE, IMAGE_REGION, wh, img.bits);
    var p := Stored(MAX_IMAGE, wh, img.bits);
    assert p == Encode(img);
    ImageRoundTrip(img, []);
    SpliceElsewhere(mem, IMAGE_OFFSET, Header(|p|, p) + p, REGION_OFFSET, REGION_SIZE);
    LoadReadsRegion(mem, SaveImage(mem, img), REGION_OFFSET, MAX_DATA, REGION_SIZE);
  }

  lemma ImageFits(img: MonoImage)
    requires ValidImage(img)
    ensures 4 + |img.bits| <= MAX_IMAGE
  {
    ImageBytesPositive(img.width, img.height);
  }

  /** Clearing empties the slot and keeps the message. */
  lemma ClearImageKeeps(mem: seq<byte>)
    requires |mem| == FLASH_SIZE
    ensures Slot(ClearImage(mem)) == None && Load(ClearImage(mem)) == Load(mem)
  {
    hide CrcByte, Decode;
    assert ClearImage(mem)[IMAGE_OFFSET..IMAGE_OFFSET + HEADER] == ERASED;
    assert ERASED[..4] != MAGIC by { assert ERASED[..4][0] == 0xFF; }
    SpliceElsewhere(mem, IMAGE_OFFSET, ERASED, REGION_OFFSET, REGION_SIZE);
    LoadReadsRegion(mem, ClearImage(mem), REGION_OFFSET, MAX_DATA, REGION_SIZE);
  }

  // ------------------------------------------------------------ flash object

  class Flash {
    var mem: seq<byte>

    constructor (mem: seq<byte>)
      ensures this.mem == mem
    {
      this.mem := mem;
    }

    method Write(at: nat, data: seq<byte>)
      requires at + |data| <= |mem|
      modifies this
      ensures mem == Splice(old(mem), at, data)
    {
      mem := Splice(mem, at, data);
    }

    /** `load_rec` */
    method LoadRecord(offset: nat, max: nat, region: nat) returns (r: Option<seq<byte>>)
      requires HEADER <= region && offset + region <= |mem|
      ensures r == LoadRec(mem, offset, max, region)
    {
      hide Crc16From;
      var hdr := mem[offset..offset + HEADER];
      if hdr[..4] != MAGIC { return None; }
      var len := FromLe16(hdr[4..6]) + hdr[6] as int % 16 * 0x1_0000;
      if len == 0 || len > max || HEADER + len > region { return None; }
      var data := mem[offset + HEADER..offset + HEADER + len];
      var crc := CrcLoop(0xFFFF, data);
      r := if ((crc & 0xFF) as bv8) as int == hdr[7] then Some(data) else None;
    }

    /** `save_rec`: header and prefix in a first write, the data in a second. */
    method SaveRecord(offset: nat, max: nat, prefix: seq<byte>, data: seq<byte>)
      requires |prefix| <= max && offset + HEADER + max <= |mem|
      modifies this
      ensures mem == SaveRec(old(mem), offset, max, prefix, data)
    {
      hide Crc16From, Splice;
      var len := Cap(|prefix| + |data|, max);
      var part := data[..len - |prefix|];
      ghost var payload := Stored(max, prefix, data);
      assert payload == prefix + part;
      var crc := CrcLoop(0xFFFF, prefix);
      crc := CrcLoop(crc, part);
      CrcConcat(0xFFFF, prefix, part);
      var head := MAGIC;
      head := head + Le16(len % 0x1_0000);
      head := head + [len / 0x1_0000 % 16];
      head := head + [((crc & 0xFF) as bv8) as int];
      assert head == Header(|payload|, payload);
      hide Header, Le16;
      head := head + prefix;
      assert head + part == Header(|payload|, payload) + payload;
      ghost var was := mem;
      Write(offset, head);
      if part != [] { Write(offset + |head|, part); } else { SpliceNothing(mem, offset + |head|); }
      assert mem == Splice<byte>(Splice<byte>(was, offset, head), offset + |head|, part);
      SpliceTwice<byte>(was, offset, head, part);
    }
  }

  lemma SpliceNothing(mem: seq<byte>, at: nat)
    requires at <= |mem|
    ensures Splice(mem, at, []) == mem
  {
  }
}
