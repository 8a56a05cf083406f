/**
 A conforming Type 4 tag: SELECT and READ BINARY as sections 7.1.1 and 7.2.3
 of ISO/IEC 7816-4:2005 have them, over a capability container and one NDEF file.
 */
module Type4Card {
  import opened Bytes

  const AID: seq<byte> := [0xD2, 0x76, 0x00, 0x00, 0x85, 0x01, 0x01]

  datatype Files = Files(fci: seq<byte>, cc: seq<byte>, ndefId: seq<byte>, ndef: seq<byte>)

  datatype Selection = NoApp | NoFile | CcFile | NdefFile

  function MaxLe(f: Files): int
    requires |f.cc| >= 5
  {
    FromBe16(f.cc[3..5])
  }

  function Nlen(f: Files): nat
    requires |f.ndef| >= 2
  {
    FromBe16(f.ndef[..2])
  }

  /** A capability container with its NDEF file control TLV, and a file that holds the message it announces. */
  predicate GoodFiles(f: Files) {
    && |f.cc| >= 15 && MaxLe(f) >= 15
    && f.cc[7] == 0x04 && f.cc[8] == 0x06 && f.cc[9..11] == f.ndefId
    && |f.ndefId| == 2 && f.ndefId != [0xE1, 0x03]
    && 2 <= |f.ndef| <= 0x1_0000 && 2 + Nlen(f) <= |f.ndef|
  }

  const OK: seq<byte> := [0x90, 0x00]
  const NOT_FOUND: seq<byte> := [0x6A, 0x82]

  /** READ BINARY: bit 8 of P1 clear gives a 15-bit offset into the selected
      file; set, it names a file by short identifier, and this card has none. */
  function ReadBinary(f: Files, content: seq<byte>, p1: byte, p2: byte, le: byte): seq<byte>
    requires |f.cc| >= 5
  {
    if p1 >= 0x80 then NOT_FOUND
    else if le > MaxLe(f) then [0x67, 0x00]
    else
      var off := 256 * p1 as int + p2 as int;
      if off + le > |content| then [0x6B, 0x00] else content[off..off + le] + OK
  }

  function Respond(f: Files, s: Selection, apdu: seq<byte>): (Selection, seq<byte>) {
    if apdu == [0x00, 0xA4, 0x04, 0x00, 0x07] + AID + [0x00] then (NoFile, f.fci + OK)
    else if s == NoApp then (s, NOT_FOUND)
    else if apdu == [0x00, 0xA4, 0x00, 0x0C, 0x02, 0xE1, 0x03] then (CcFile, OK)
    else if apdu == [0x00, 0xA4, 0x00, 0x0C, 0x02] + f.ndefId then (NdefFile, OK)
    else if |apdu| == 5 && apdu[..2] == [0x00, 0xB0] && s != NoFile && |f.cc| >= 5 then
      (s, ReadBinary(f, if s == CcFile then f.cc else f.ndef, apdu[2], apdu[3], apdu[4]))
    else (s, NOT_FOUND)
  }

  /** The reader's chunk size for this card: its MLe, kept within 15 and 246. */
  function ChunkSize(f: Files): int
    requires |f.cc| >= 5
  {
    if MaxLe(f) < 15 then 15 else if MaxLe(f) > 246 then 246 else MaxLe(f)
  }

  /** Every chunk of the message starts at an offset of at most 15 bits. */
  predicate Reachable(nlen: nat, chunk: int)
    requires chunk > 0
  {
    nlen == 0 || 2 + (nlen - 1) / chunk * chunk <= 0x7FFF
  }

  lemma DivBounds(n: nat, chunk: int)
    requires chunk > 0
    ensures n / chunk * chunk <= n < (n / chunk + 1) * chunk
  {
  }

  lemma Cancel(a: int, b: int, chunk: int)
    requires chunk > 0
    ensures a * chunk < b * chunk <==> a < b
  {
    assert (b - a) * chunk == b * chunk - a * chunk;
  }

  lemma NotReachable(nlen: nat, chunk: int, k: nat)
    requires chunk > 0 && k * chunk < nlen && 2 + k * chunk > 0x7FFF
    ensures !Reachable(nlen, chunk)
  {
    var q := (nlen - 1) / chunk;
    DivBounds(nlen - 1, chunk);
    Cancel(k, q + 1, chunk);
    Cancel(q, k, chunk);
  }

  lemma AllReachable(nlen: nat, chunk: int, k: nat)
    requires chunk > 0 && nlen <= k * chunk && forall j :: 0 <= j < k ==> 2 + j * chunk <= 0x7FFF
    ensures Reachable(nlen, chunk)
  {
    if nlen > 0 {
      var q := (nlen - 1) / chunk;
      DivBounds(nlen - 1, chunk);
      Cancel(q, k, chunk);
      assert 2 + q * chunk <= 0x7FFF;
    }
  }

  lemma NextMultiple(k: nat, chunk: int)
    ensures (k + 1) * chunk == k * chunk + chunk
  {
  }

  /** Messages of up to 0x7FFE bytes are always within reach; those a chunk longer never are. */
  lemma ReachableBounds(nlen: nat, chunk: int)
    requires 15 <= chunk <= 246
    ensures nlen <= 0x7FFE ==> Reachable(nlen, chunk)
    ensures nlen > 0x7FFD + chunk ==> !Reachable(nlen, chunk)
  {
    var q := (nlen - 1) / chunk;
    assert q * chunk <= nlen - 1 < q * chunk + chunk;
  }

  // ------------------------------------------------------- the card's answers

  /** What READ BINARY reads. */
  function Content(f: Files, s: Selection): seq<byte> { if s == CcFile then f.cc else f.ndef }

  lemma ReadAnswer(f: Files, s: Selection, p1: byte, p2: byte, le: byte)
    requires s == CcFile || s == NdefFile
    ensures Respond(f, s, [0x00, 0xB0, p1, p2, le])
            == (s, if |f.cc| < 5 then NOT_FOUND else ReadBinary(f, Content(f, s), p1, p2, le))
  {
    var apdu: seq<byte> := [0x00, 0xB0, p1, p2, le];
    assert apdu[1] == 0xB0 && apdu[..2] == [0x00, 0xB0];
    assert ([0x00, 0xA4, 0x00, 0x0C, 0x02] + f.ndefId)[1] == 0xA4;
  }

  /** Reading a chunk: refused past 0x7FFF, then if it goes past the end of the file. */
  lemma ReadsChunk(f: Files, s: Selection, offset: nat, chunk: nat)
    requires s == CcFile || s == NdefFile
    requires |f.cc| >= 5 && 15 <= MaxLe(f) && chunk <= ChunkSize(f) && offset < 0x1_0000
    ensures var off, x := Be16(offset), Content(f, s);
            Respond(f, s, [0x00, 0xB0, off[0], off[1], chunk])
            == (s, if offset > 0x7FFF then NOT_FOUND else if offset + chunk > |x| then [0x6B, 0x00]
                   else x[offset..offset + chunk] + OK)
  {
    var off := Be16(offset);
    ReadAnswer(f, s, off[0], off[1], chunk);
  }

  lemma SelectsApp(f: Files, s: Selection)
    ensures Respond(f, s, [0x00, 0xA4, 0x04, 0x00, 0x07] + AID + [0x00]) == (NoFile, f.fci + OK)
  {
  }

  lemma SelectsCc(f: Files)
    ensures Respond(f, NoFile, [0x00, 0xA4, 0x00, 0x0C, 0x02, 0xE1, 0x03]) == (CcFile, OK)
  {
    assert [0x00, 0xA4, 0x00, 0x0C, 0x02, 0xE1, 0x03][2] != ([0x00, 0xA4, 0x04, 0x00, 0x07] + AID + [0x00])[2];
  }

  /** The file an identifier names: the capability container, the NDEF file, or none. */
  function Named(f: Files, id: seq<byte>): Selection {
    if id == [0xE1, 0x03] then CcFile else if id == f.ndefId then NdefFile else NoFile
  }

  lemma SelectsNamed(f: Files, hi: byte, lo: byte)
    ensures Respond(f, CcFile, [0x00, 0xA4, 0x00, 0x0C, 0x02, hi, lo])
            == if Named(f, [hi, lo]) == NoFile then (CcFile, NOT_FOUND) else (Named(f, [hi, lo]), OK)
  {
    var apdu: seq<byte> := [0x00, 0xA4, 0x00, 0x0C, 0x02, hi, lo];
    assert apdu[2] != ([0x00, 0xA4, 0x04, 0x00, 0x07] + AID + [0x00])[2];
    assert apdu[5..] == [hi, lo] && [0x00, 0xA4, 0x00, 0x0C, 0x02, 0xE1, 0x03][5..] == [0xE1, 0x03];
    assert ([0x00, 0xA4, 0x00, 0x0C, 0x02] + f.ndefId)[5..] == f.ndefId;
    assert apdu[1] == 0xA4 && apdu[..2] != [0x00, 0xB0];
    assert f.ndefId == [hi, lo] ==> apdu == [0x00, 0xA4, 0x00, 0x0C, 0x02] + f.ndefId;
  }

  /** Chunk `k` is the first that does not fit the file. */
  lemma FirstShort(size: nat, nlen: nat, chunk: int, k: nat)
    requires chunk > 0 && k * chunk <= size < nlen && k * chunk < nlen
    requires (if nlen - k * chunk < chunk then nlen - k * chunk else chunk) > size - k * chunk
    ensures size / chunk == k
  {
    DivBounds(size, chunk);
    NextMultiple(k, chunk);
    Cancel(size / chunk, k + 1, chunk);
    Cancel(k, size / chunk + 1, chunk);
  }

  /** No chunk before `k` is the first that does not fit. */
  lemma ShortNotBefore(size: nat, chunk: int, k: nat)
    requires chunk > 0 && k * chunk <= size
    ensures k * chunk <= size / chunk * chunk
  {
    DivBounds(size, chunk);
    Cancel(k, size / chunk + 1, chunk);
    if k < size / chunk { Cancel(k, size / chunk, chunk); }
  }
}
