/** Cards that meet every demand of the Type 4 read, and what the reader gets from them. */
module CardExamples {
  import opened Bytes
  import opened IsoDepSpec
  import opened Type4Card
  import opened IsoDep

  /** Pieces of 253 bytes, with a request for more time ahead of each. */
  function Cut(r: seq<byte>): (plan: seq<CardStep>)
    ensures plan != []
    decreases |r|
  {
    if |r| <= 253 then [Wtx(1), Piece(r)] else [Wtx(1), Piece(r[..253])] + Cut(r[253..])
  }

  lemma {:induction false} CutIsGood(r: seq<byte>)
    ensures GoodPlan(Cut(r)) && Answer(Cut(r)) == r && 253 * |Cut(r)| <= 2 * |r| + 506
    decreases |r|
  {
    hide GoodPlan, Answer;
    if |r| <= 253 {
      AnswerOf(1, r, []);
      LongerPlan(1, r, []);
      assert Cut(r) == [Wtx(1), Piece(r)] + [];
    } else {
      CutIsGood(r[253..]);
      AnswerOf(1, r[..253], Cut(r[253..]));
      LongerPlan(1, r[..253], Cut(r[253..]));
      assert r[..253] + r[253..] == r;
    }
    assert Answer([]) == [] by { AnswerNothing(); }
  }

  lemma LongerPlan(m: byte, data: seq<byte>, rest: seq<CardStep>)
    requires |data| <= 253 && (rest == [] || GoodPlan(rest))
    ensures GoodPlan([Wtx(m), Piece(data)] + rest)
  {
    var plan := [Wtx(m), Piece(data)] + rest;
    if rest != [] { assert plan[|plan| - 1] == rest[|rest| - 1]; }
  }

  lemma AnswerOf(m: byte, data: seq<byte>, rest: seq<CardStep>)
    ensures Answer([Wtx(m), Piece(data)] + rest) == data + Answer(rest)
  {
    var plan := [Wtx(m), Piece(data)] + rest;
    assert plan[1..] == [Piece(data)] + rest && plan[1..][1..] == rest;
    assert [] + (data + Answer(rest)) == data + Answer(rest);
  }

  /** Nothing this card answers takes more than four blocks. */
  lemma AnswersAreShort(files: Files, s: Selection, apdu: seq<byte>)
    requires |files.fci| <= 256
    ensures |Respond(files, s, apdu).1| <= 258
  {
  }

  /** A fresh session with a card that holds `files`, frames of 16 bytes towards the card. */
  method Present(files: Files) returns (dep: Initiator, nfc: Nfc)
    requires |files.fci| <= 256
    ensures fresh(dep) && fresh(nfc) && Ready(dep, nfc, files)
  {
    var app := App((s, apdu) => Respond(files, s, apdu), (n, r) => Cut(r));
    forall n: nat, r: seq<byte> ensures GoodPlan(app.cut(n, r)) && Answer(app.cut(n, r)) == r { CutIsGood(r); }
    forall n: nat, s: Selection, apdu: seq<byte> ensures |app.cut(n, Respond(files, s, apdu).1)| <= MAX_FRAMES {
      AnswersAreShort(files, s, apdu);
      CutIsGood(Respond(files, s, apdu).1);
    }
    dep := new Initiator(16);
    nfc := new Nfc(app, Card(1, [], [], NoApp, 0));
  }

  /** What the reader makes of any such card, from its first command on. */
  method ReadCard(files: Files) returns (r: ReadResult)
    requires |files.fci| <= 256
    ensures r == Outcome(files)
  {
    hide Outcome;
    var dep, nfc := Present(files);
    r := ReadType4(dep, nfc, files);
  }

  /** A card with a message of `n` zero bytes that gives out at most 255 at a time. */
  function ZeroCard(n: nat): Files
    requires n <= 0xFFFE
  {
    Files([], [0x00, 0x0F, 0x20, 0x00, 0xFF, 0x00, 0x34, 0x04, 0x06, 0xE1, 0x04, 0xFF, 0xFF, 0x00, 0x00],
          [0xE1, 0x04], Be16(n) + Zeros(n))
  }

  lemma ZeroCardGood(n: nat)
    requires n <= 0xFFFE
    ensures GoodFiles(ZeroCard(n)) && Nlen(ZeroCard(n)) == n && ChunkSize(ZeroCard(n)) == 246
    ensures ZeroCard(n).ndef[2..2 + n] == Zeros(n)
  {
    RoundTrip16(n);
    var f := ZeroCard(n);
    assert f.ndef[..2] == Be16(n);
    assert f.cc[3..5] == [0x00, 0xFF] && f.cc[9..11] == f.ndefId;
  }

  /** A message the file may well hold and the reader cannot fetch: its last
      chunk starts past 0x7FFF. */
  method ReadFar() returns (r: ReadResult)
    ensures r == Failure(StatusWord(0x6A82))
  {
    ZeroCardGood(0x8100);
    GoodOutcome(ZeroCard(0x8100));
    ReachableBounds(0x8100, 246);
    r := ReadCard(ZeroCard(0x8100));
  }

  /** And one it can: the longest that always is. */
  method ReadNear() returns (r: ReadResult)
    ensures r == Message(Zeros(0x7FFE))
  {
    ZeroCardGood(0x7FFE);
    GoodOutcome(ZeroCard(0x7FFE));
    ReachableBounds(0x7FFE, 246);
    r := ReadCard(ZeroCard(0x7FFE));
  }
}
