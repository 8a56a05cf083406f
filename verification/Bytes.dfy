/** Byte strings and the fixed-width integer encodings every protocol here uses. */
module Bytes {
  type byte = x: int | 0 <= x < 256

  datatype Option<+T> = None | Some(value: T)

  function Le16(v: int): seq<byte>
    requires 0 <= v < 0x1_0000
  {
    [v % 256, v / 256]
  }

  function FromLe16(s: seq<byte>): (v: int)
    requires |s| == 2
    ensures 0 <= v < 0x1_0000
  {
    s[0] as int + 256 * s[1] as int
  }

  function Be16(v: int): seq<byte>
    requires 0 <= v < 0x1_0000
  {
    [v / 256, v % 256]
  }

  function FromBe16(s: seq<byte>): (v: int)
    requires |s| == 2
    ensures 0 <= v < 0x1_0000
  {
    256 * s[0] as int + s[1] as int
  }

  function Le32(v: int): seq<byte>
    requires 0 <= v < 0x1_0000_0000
  {
    Le16(v % 0x1_0000) + Le16(v / 0x1_0000)
  }

  function FromLe32(s: seq<byte>): (v: int)
    requires |s| == 4
    ensures 0 <= v < 0x1_0000_0000
  {
    FromLe16(s[..2]) + 0x1_0000 * FromLe16(s[2..])
  }

  function Be32(v: int): seq<byte>
    requires 0 <= v < 0x1_0000_0000
  {
    Be16(v / 0x1_0000) + Be16(v % 0x1_0000)
  }

  function FromBe32(s: seq<byte>): (v: int)
    requires |s| == 4
    ensures 0 <= v < 0x1_0000_0000
  {
    0x1_0000 * FromBe16(s[..2]) + FromBe16(s[2..])
  }

  /** Which byte is which. */
  lemma ByteOrder(a: byte, b: byte, c: byte, d: byte)
    ensures FromLe16([a, b]) == a + 256 * b && FromBe16([a, b]) == 256 * a + b
    ensures FromLe32([a, b, c, d]) == a + 256 * b + 65_536 * c + 16_777_216 * d
    ensures FromBe32([a, b, c, d]) == 16_777_216 * a + 65_536 * b + 256 * c + d
  {
    assert [a, b, c, d][..2] == [a, b] && [a, b, c, d][2..] == [c, d];
  }

  lemma RoundTrip16(v: int)
    requires 0 <= v < 0x1_0000
    ensures FromLe16(Le16(v)) == v && FromBe16(Be16(v)) == v
  {
  }

  lemma RoundTrip32(v: int)
    requires 0 <= v < 0x1_0000_0000
    ensures FromLe32(Le32(v)) == v && FromBe32(Be32(v)) == v
  {
    assert Le32(v)[..2] == Le16(v % 0x1_0000) && Le32(v)[2..] == Le16(v / 0x1_0000);
    assert Be32(v)[..2] == Be16(v / 0x1_0000) && Be32(v)[2..] == Be16(v % 0x1_0000);
  }

  /** Bytes needed for a row of `w` one-bit pixels: `ceil(w / 8)`. */
  function RowBytes(w: nat): nat { (w + 7) / 8 }

  /** `n` zero bytes. */
  function Zeros(n: nat): (s: seq<byte>)
    ensures |s| == n
  {
    seq(n, _ => 0)
  }

  /** `m` with the bytes from `at` on replaced by `data`. */
  function Splice<T>(m: seq<T>, at: nat, data: seq<T>): (r: seq<T>)
    requires at + |data| <= |m|
    ensures |r| == |m|
  {
    m[..at] + data + m[at + |data|..]
  }

  lemma SpliceTwice<T>(m: seq<T>, at: nat, a: seq<T>, b: seq<T>)
    requires at + |a| + |b| <= |m|
    ensures Splice(Splice(m, at, a), at + |a|, b) == Splice(m, at, a + b)
  {
  }

  /** `copy_from_slice` into `mem[at..]`. */
  method CopyInto<T>(mem: array<T>, at: nat, data: seq<T>)
    requires at + |data| <= mem.Length
    modifies mem
    ensures mem[..] == Splice(old(mem[..]), at, data)
  {
    forall k | 0 <= k < |data| { mem[at + k] := data[k]; }
  }
}
