/** The answer to select (section 5.2 of ISO/IEC 14443-4), as the reader takes it apart. */
module Ats {
  import opened Bytes

  const FSC_TABLE: seq<nat> := [16, 24, 32, 40, 48, 64, 96, 128, 256]

  datatype Ats = Ats(raw: seq<byte>, fwtMs: nat, fsc: nat)

  function Smaller(a: nat, b: nat): nat { if a < b then a else b }

  function Pow2(n: nat): nat { if n == 0 then 1 else 2 * Pow2(n - 1) }

  /** Frame waiting time in milliseconds, kept within 5 and 3000. */
  function WaitMs(fwi: nat): (ms: nat)
    ensures 5 <= ms <= 3000
  {
    var ms := 302 * Pow2(Smaller(fwi, 14)) / 1000;
    if ms < 5 then 5 else if ms > 3000 then 3000 else ms
  }

  /** The receive buffer holds 32 bytes; its last two are taken to be the CRC. */
  const ROOM := 30

  /** `activate`, on the frame that answers RATS without its CRC: what is left
      of it in the receive buffer, taken apart; none for a bad length. */
  function Parse(frame: seq<byte>): (r: Option<Ats>)
    ensures r.Some? ==> 16 <= r.value.fsc <= 256 && 5 <= r.value.fwtMs <= 3000
  {
    var data := frame[..Smaller(|frame|, ROOM)];
    if data == [] || data[0] < 1 || data[0] > |data| then None
    else
      var tl := data[0] as int;
      if tl < 2 then Some(Ats(data[..tl], 40, 32))
      else
        var t0, idx := data[1], if data[1] / 0x10 % 2 == 1 then 3 else 2;
        Some(Ats(data[..tl],
                 if t0 / 0x20 % 2 == 1 && idx < tl then WaitMs(data[idx] / 0x10) else 40,
                 FSC_TABLE[Smaller(t0 % 0x10, 8)]))
  }

  /** The frame sizes of table 1 of section 5.2.3: 16 bytes and eight more up
      to index 4, then 64, 96, 128, and 256 from index 8 on. */
  lemma FrameSizes(fsci: nat)
    requires fsci < 16
    ensures FSC_TABLE[Smaller(fsci, 8)]
            == if fsci <= 4 then 16 + 8 * fsci else if fsci == 5 then 64
               else if fsci == 6 then 96 else if fsci == 7 then 128 else 256
  {
  }

  /** The waiting time of each index in milliseconds: 0.302 ms doubled that
      often, whole milliseconds, from 5 up to 3000. */
  lemma WaitTable(fwi: nat)
    requires fwi < 16
    ensures WaitMs(fwi)
            == [5, 5, 5, 5, 5, 9, 19, 38, 77, 154, 309, 618, 1236, 2473, 3000, 3000][fwi]
  {
    Powers();
    if fwi < 8 { LowPowers(); }
  }

  lemma LowPowers()
    ensures Pow2(0) == 1 && Pow2(1) == 2 && Pow2(2) == 4 && Pow2(3) == 8
    ensures Pow2(4) == 16 && Pow2(5) == 32 && Pow2(6) == 64 && Pow2(7) == 128
  {
  }

  lemma Powers()
    ensures Pow2(8) == 256 && Pow2(9) == 512 && Pow2(10) == 1024 && Pow2(11) == 2048
    ensures Pow2(12) == 4096 && Pow2(13) == 8192 && Pow2(14) == 16384
  {
    LowPowers();
    assert Pow2(8) == 2 * Pow2(7);
    assert Pow2(11) == 2 * Pow2(10) == 4 * Pow2(9) == 8 * Pow2(8);
    assert Pow2(14) == 2 * Pow2(13) == 4 * Pow2(12) == 8 * Pow2(11);
  }

  /** The interface bytes a card sends: frame size index, and the optional TA, TB, TC. */
  datatype Card = Card(fsci: nat, ta: Option<byte>, tb: Option<byte>, tc: Option<byte>, historical: seq<byte>)

  function One(b: Option<byte>): seq<byte> { if b.Some? then [b.value] else [] }
  function FlagOf(b: Option<byte>, f: nat): nat { if b.Some? then f else 0 }

  predicate Sendable(c: Card) { c.fsci < 16 && |c.historical| <= 250 }

  function Sent(c: Card): seq<byte>
    requires Sendable(c)
  {
    var rest := One(c.ta) + One(c.tb) + One(c.tc) + c.historical;
    [2 + |rest|, Format(c)] + rest
  }

  /** The format byte: frame size index, and which optional bytes follow. */
  function Format(c: Card): byte
    requires Sendable(c)
  {
    c.fsci + FlagOf(c.ta, 0x10) + FlagOf(c.tb, 0x20) + FlagOf(c.tc, 0x40)
  }

  lemma FormatBits(c: Card)
    requires Sendable(c)
    ensures Format(c) % 0x10 == c.fsci
    ensures (Format(c) / 0x10 % 2 == 1 <==> c.ta.Some?) && (Format(c) / 0x20 % 2 == 1 <==> c.tb.Some?)
  {
  }

  lemma SentLayout(c: Card)
    requires Sendable(c)
    ensures var s := Sent(c);
            && |s| >= 2 && s[0] == |s| && s[1] == Format(c)
            && (c.tb.Some? ==> var k := if c.ta.Some? then 3 else 2; k < |s| && s[k] == c.tb.value)
  {
    hide Format;
  }

  /** Whatever optional bytes a card sends, and whatever follows them, the
      reader finds its frame size and its waiting-time index, if and only if
      the answer fits the buffer; a longer one is refused. */
  lemma ParseSent(c: Card, tail: seq<byte>)
    requires Sendable(c)
    ensures Parse(Sent(c) + tail)
            == if |Sent(c)| <= ROOM then
                 Some(Ats(Sent(c), if c.tb.Some? then WaitMs(c.tb.value / 0x10) else 40, FSC_TABLE[Smaller(c.fsci, 8)]))
               else None
  {
    hide Sent, Format, WaitMs;
    FormatBits(c);
    SentLayout(c);
    var sent, frame := Sent(c), Sent(c) + tail;
    var data := frame[..Smaller(|frame|, ROOM)];
    assert data[0] == sent[0] && data[1] == sent[1];
    if |sent| <= ROOM {
      assert data[..|sent|] == sent;
      if c.tb.Some? { assert data[if c.ta.Some? then 3 else 2] == c.tb.value; }
    }
  }
}
