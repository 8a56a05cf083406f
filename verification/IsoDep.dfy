/** The initiator as the firmware has it, and the Type 4 read on top of it. */
module IsoDep {
  import opened Bytes
  import opened IsoDepSpec
  import Spec = IsoDepSpec
  import opened Type4Card
  import Ats

  /** The reader chip with a card in its field: `transceive` as an abstract exchange. */
  class Nfc {
    const app: App<Selection>
    var card: Card<Selection>

    constructor (app: App<Selection>, card: Card<Selection>)
      ensures this.app == app && this.card == card
    {
      this.app, this.card := app, card;
    }

    method Transceive(tx: seq<byte>) returns (rx: Option<seq<byte>>)
      requires card.num < 2
      modifies this
      ensures (card, rx) == React(app, old(card), tx)
    {
      card, rx := React(app, card, tx).0, React(app, card, tx).1;
    }
  }

  class Initiator {
    var blockNum: nat
    const fsc: nat

    constructor (fsc: nat)
      ensures blockNum == 0 && this.fsc == fsc
    {
      blockNum, this.fsc := 0, fsc;
    }

    /** `exchange` */
    method Exchange(nfc: Nfc, apdu: seq<byte>) returns (r: Reply)
      requires blockNum < 2 && nfc.card.num < 2
      modifies this, nfc
      ensures blockNum < 2 && nfc.card.num < 2
      ensures var e := Spec.Exchange(nfc.app, old(blockNum), fsc, apdu, old(nfc.card));
              if e.Ok? then r == Answered(e.rsp) && blockNum == e.num && nfc.card == e.card
              else r == Failed(e.error)
    {
      hide React;
      if |apdu| + 3 > fsc { return Failed(Protocol); }
      var tx: seq<byte> := [0x02 + blockNum] + apdu;
      var rsp: seq<byte> := [];
      var guard := 0;
      while true
        invariant 0 <= guard <= MAX_FRAMES && blockNum < 2 && nfc.card.num < 2
        invariant Loop(nfc.app, blockNum, tx, rsp, nfc.card, guard)
                  == Spec.Exchange(nfc.app, old(blockNum), fsc, apdu, old(nfc.card))
        decreases MAX_FRAMES - guard
      {
        if guard + 1 > MAX_FRAMES { return Failed(Retries); }
        guard := guard + 1;
        var f := nfc.Transceive(tx);
        if f.None? { return Failed(NoAnswer); }
        if f.value == [] { return Failed(Protocol); }
        var pcb, payload := f.value[0], f.value[1..];
        if IsWtx(pcb) {
          var wtxm := (if payload == [] then 1 else payload[0]) % 0x40;
          tx := [0xF2, wtxm];
          continue;
        }
        if !IsIBlock(pcb) || pcb % 2 != blockNum { return Failed(Protocol); }
        rsp := rsp + payload;
        blockNum := 1 - blockNum;
        if !IsChained(pcb) { return Answered(rsp); }
        tx := [0xA2 + blockNum];
      }
    }
  }

  /** `activate`, from the answer to RATS: a session with block number 0 and
      the card's frame size, which holds every command of the Type 4 read. */
  method Activate(frame: seq<byte>) returns (dep: Option<Initiator>)
    ensures dep.Some? <==> Ats.Parse(frame).Some?
    ensures dep.Some? ==>
              fresh(dep.value) && dep.value.blockNum == 0 && dep.value.fsc == Ats.Parse(frame).value.fsc >= 16
  {
    var ats := Ats.Parse(frame);
    match ats
    case None => return None;
    case Some(a) =>
      var i := new Initiator(a.fsc);
      dep := Some(i);
  }

  datatype Reply = Answered(rsp: seq<byte>) | Failed(error: Error)

  // ------------------------------------------------------------ Type 4 read

  datatype ReadError = Dep(error: Error) | StatusWord(sw: int) | Malformed

  datatype ReadResult = Message(msg: seq<byte>) | Failure(error: ReadError)

  /** `check`: the status word at the end of an answer. */
  function Check(r: Reply): Option<ReadError> {
    if r.Failed? then Some(Dep(r.error))
    else if |r.rsp| < 2 then Some(Malformed)
    else
      var sw := FromBe16(r.rsp[|r.rsp| - 2..]);
      if sw != 0x9000 then Some(StatusWord(sw)) else None
  }

  /** The card holds the files and answers from them, each answer within the
      frames allowed, and card and reader are in step. */
  ghost predicate Ready(dep: Initiator, nfc: Nfc, files: Files)
    reads dep, nfc
  {
    && Conforming(nfc.app) && InStep(dep.blockNum, nfc.card) && dep.fsc >= 16
    && (forall n: nat, s: Selection, apdu: seq<byte> :: |nfc.app.cut(n, Respond(files, s, apdu).1)| <= MAX_FRAMES)
    && (forall s: Selection, apdu: seq<byte> :: nfc.app.respond(s, apdu) == Respond(files, s, apdu))
  }

  /** One command to a conforming card. */
  method Command(dep: Initiator, nfc: Nfc, apdu: seq<byte>, ghost files: Files) returns (r: Reply)
    requires Ready(dep, nfc, files) && |apdu| <= 13
    modifies dep, nfc
    ensures Ready(dep, nfc, files)
    ensures r == Answered(Respond(files, old(nfc.card.state), apdu).1)
    ensures nfc.card.state == Respond(files, old(nfc.card.state), apdu).0
  {
    ExchangeDelivers(nfc.app, dep.blockNum, dep.fsc, apdu, nfc.card);
    assert nfc.app.respond(nfc.card.state, apdu) == Respond(files, nfc.card.state, apdu);
    r := dep.Exchange(nfc, apdu);
  }

  function Clamp(v: int, lo: int, hi: int): int { if v < lo then lo else if v > hi then hi else v }

  function Refusal(sw: int): ReadResult { Failure(StatusWord(sw)) }

  /** What the reader makes of a selected file: its message if the file holds
      all it announces and every chunk of it is within reach; otherwise the
      card's refusal of the first chunk that is not. */
  function FileOutcome(x: seq<byte>, mle: int): ReadResult
    requires mle > 0
  {
    if |x| < 2 then Refusal(0x6B00)
    else
      var nlen := FromBe16(x[..2]);
      if nlen <= |x| - 2 && Reachable(nlen, mle) then Message(x[2..2 + nlen])
      else if nlen > |x| - 2 && 2 + (|x| - 2) / mle * mle <= 0x7FFF then Refusal(0x6B00)
      else Refusal(0x6A82)
  }

  /** What the reader makes of a card, whatever its files hold. */
  function Outcome(f: Files): ReadResult {
    if |f.cc| < 5 then Refusal(0x6A82)
    else if MaxLe(f) < 15 then Refusal(0x6700)
    else if |f.cc| < 15 then Refusal(0x6B00)
    else if f.cc[7] != 0x04 then Failure(Malformed)
    else
      var s := Named(f, f.cc[9..11]);
      if s == NoFile then Refusal(0x6A82) else FileOutcome(Content(f, s), ChunkSize(f))
  }

  /** For a card in order that is the message of its NDEF file, if and only if
      every chunk starts at an offset a plain READ BINARY can name. */
  lemma GoodOutcome(f: Files)
    requires GoodFiles(f)
    ensures Outcome(f) == if Reachable(Nlen(f), ChunkSize(f)) then Message(f.ndef[2..2 + Nlen(f)]) else Refusal(0x6A82)
  {
    hide Reachable;
  }

  datatype Chunk = Got(data: seq<byte>) | Refused(error: ReadError)

  /** One READ BINARY of the loop. */
  method ReadChunk(dep: Initiator, nfc: Nfc, ghost files: Files, offset: nat, chunk: nat) returns (c: Chunk)
    requires Ready(dep, nfc, files) && (nfc.card.state == CcFile || nfc.card.state == NdefFile)
    requires |files.cc| >= 5 && MaxLe(files) >= 15 && chunk <= ChunkSize(files) && offset < 0x1_0000
    modifies dep, nfc
    ensures Ready(dep, nfc, files) && nfc.card.state == old(nfc.card.state)
    ensures var x := Content(files, nfc.card.state);
            c == if offset > 0x7FFF then Refused(StatusWord(0x6A82))
                 else if offset + chunk > |x| then Refused(StatusWord(0x6B00)) else Got(x[offset..offset + chunk])
  {
    hide Ready, Respond, Check;
    ghost var x := Content(files, nfc.card.state);
    var off := Be16(offset);
    ReadsChunk(files, nfc.card.state, offset, chunk);
    CheckExact(if offset + chunk <= |x| then x[offset..offset + chunk] else []);
    var rsp := Command(dep, nfc, [0x00, 0xB0, off[0], off[1], chunk], files);
    var bad := Check(rsp);
    match bad { case Some(e) => return Refused(e); case None => }
    if |rsp.rsp| < 2 + chunk { return Refused(Malformed); }
    c := Got(rsp.rsp[..chunk]);
  }

  /** The chunk loop of `read_type4`, from a selected file. */
  method ReadChunks(dep: Initiator, nfc: Nfc, ghost files: Files, nlen: nat, mle: nat) returns (r: ReadResult)
    requires Ready(dep, nfc, files) && (nfc.card.state == CcFile || nfc.card.state == NdefFile)
    requires |files.cc| >= 5 && MaxLe(files) >= 15 && mle == ChunkSize(files)
    requires var x := Content(files, nfc.card.state); |x| >= 2 && nlen == FromBe16(x[..2])
    modifies dep, nfc
    ensures r == FileOutcome(Content(files, old(nfc.card.state)), mle)
  {
    hide Ready, Reachable, FileOutcome;
    ghost var s, x := nfc.card.state, Content(files, nfc.card.state);
    var msg: seq<byte> := [];
    var offset := 2;
    ghost var k := 0;
    while |msg| < nlen
      invariant Ready(dep, nfc, files) && nfc.card.state == s
      invariant |msg| <= nlen && offset == 2 + |msg| <= |x| && offset <= 0x7FFF + 246 && msg == x[2..offset]
      invariant 0 <= k && (|msg| < nlen ==> |msg| == k * mle)
      invariant forall j :: 0 <= j < k ==> 2 + j * mle <= 0x7FFF
      invariant |msg| == nlen ==> nlen <= k * mle
      decreases nlen - |msg|
    {
      var rest := nlen - |msg|;
      var chunk := if rest < mle then rest else mle;
      ChunkRefused(x, nlen, mle, k, chunk);
      var c := ReadChunk(dep, nfc, files, offset, chunk);
      match c { case Refused(e) => return Failure(e); case Got(_) => }
      assert x[2..offset] + x[offset..offset + chunk] == x[2..offset + chunk];
      msg := msg + c.data;
      offset := offset + chunk;
      NextMultiple(k, mle);
      k := k + 1;
    }
    AllRead(x, nlen, mle, k);
    r := Message(msg);
  }

  lemma AllRead(x: seq<byte>, nlen: nat, mle: nat, k: nat)
    requires 15 <= mle && |x| >= 2 && nlen == FromBe16(x[..2]) && nlen <= |x| - 2 && nlen <= k * mle
    requires forall j :: 0 <= j < k ==> 2 + j * mle <= 0x7FFF
    ensures FileOutcome(x, mle) == Message(x[2..2 + nlen])
  {
    hide Reachable;
    AllReachable(nlen, mle, k);
  }

  /** A status word is what an answer ends in. */
  lemma CheckExact(data: seq<byte>)
    ensures Check(Answered(data + OK)) == None
    ensures Check(Answered(NOT_FOUND)) == Some(StatusWord(0x6A82))
    ensures Check(Answered([0x6B, 0x00])) == Some(StatusWord(0x6B00))
    ensures Check(Answered([0x67, 0x00])) == Some(StatusWord(0x6700))
  {
    assert (data + OK)[|data + OK| - 2..] == OK;
    assert NOT_FOUND[0..] == [0x6A, 0x82] && [0x6B, 0x00][0..] == [0x6B, 0x00] && [0x67, 0x00][0..] == [0x67, 0x00];
  }

  /** Why a chunk is refused is what the whole read comes to. */
  lemma ChunkRefused(x: seq<byte>, nlen: nat, mle: nat, k: nat, chunk: nat)
    requires 15 <= mle <= 246 && |x| >= 2 && nlen == FromBe16(x[..2]) && k * mle < nlen && 2 + k * mle <= |x|
    requires chunk == if nlen - k * mle < mle then nlen - k * mle else mle
    ensures 2 + k * mle > 0x7FFF ==> FileOutcome(x, mle) == Refusal(0x6A82)
    ensures 2 + k * mle <= 0x7FFF && 2 + k * mle + chunk > |x| ==> FileOutcome(x, mle) == Refusal(0x6B00)
  {
    hide Reachable;
    if 2 + k * mle > 0x7FFF {
      NotReachable(nlen, mle, k);
      ShortNotBefore(|x| - 2, mle, k);
    } else if 2 + k * mle + chunk > |x| {
      FirstShort(|x| - 2, nlen, mle, k);
    }
  }

  datatype Opening = Opened(mle: nat) | NotOpened(error: ReadError)

  /** The first half of `read_type4`: select the application, read the
      capability container, select the file it names. */
  method OpenNdef(dep: Initiator, nfc: Nfc, ghost files: Files) returns (o: Opening)
    requires Ready(dep, nfc, files)
    modifies dep, nfc
    ensures o.NotOpened? ==> Outcome(files) == Failure(o.error)
    ensures o.Opened? ==>
              && Ready(dep, nfc, files) && (nfc.card.state == CcFile || nfc.card.state == NdefFile)
              && |files.cc| >= 5 && MaxLe(files) >= 15 && o.mle == ChunkSize(files)
              && Outcome(files) == FileOutcome(Content(files, nfc.card.state), o.mle)
  {
    hide Ready, Respond, FileOutcome, Outcome, Check;
    var c := ReadCc(dep, nfc, files);
    match c {
      case Unread(e) => return NotOpened(e);
      case Cc(cc) =>
        var mle := Clamp(FromBe16(cc[3..5]), 15, 246);
        CcOutcome(files, cc);
        if cc[7] != 0x04 { return NotOpened(Malformed); }
        SelectsNamed(files, cc[9], cc[10]);
        CheckExact([]);
        var rsp := Command(dep, nfc, [0x00, 0xA4, 0x00, 0x0C, 0x02, cc[9], cc[10]], files);
        assert [] + OK == OK;
        var bad := Check(rsp);
        match bad { case Some(e) => return NotOpened(e); case None => }
        o := Opened(mle);
    }
  }

  datatype Container = Cc(cc: seq<byte>) | Unread(error: ReadError)

  /** From the start of `read_type4` to the capability container. */
  method ReadCc(dep: Initiator, nfc: Nfc, ghost files: Files) returns (c: Container)
    requires Ready(dep, nfc, files)
    modifies dep, nfc
    ensures c.Unread? ==> Outcome(files) == Failure(c.error)
    ensures c.Cc? ==>
              && Ready(dep, nfc, files) && nfc.card.state == CcFile
              && |files.cc| >= 15 && MaxLe(files) >= 15 && c.cc == files.cc[..15]
  {
    hide Ready, Respond, FileOutcome, Check;
    SelectsApp(files, nfc.card.state);
    CheckExact(files.fci);
    var rsp := Command(dep, nfc, [0x00, 0xA4, 0x04, 0x00, 0x07] + AID + [0x00], files);
    var bad := Check(rsp);
    match bad { case Some(e) => return Unread(e); case None => }
    SelectsCc(files);
    CheckExact([]);
    assert [] + OK == OK;
    rsp := Command(dep, nfc, [0x00, 0xA4, 0x00, 0x0C, 0x02, 0xE1, 0x03], files);
    bad := Check(rsp);
    match bad { case Some(e) => return Unread(e); case None => }
    ReadAnswer(files, CcFile, 0x00, 0x00, 0x0F);
    CheckExact(if |files.cc| >= 15 then files.cc[..15] else []);
    rsp := Command(dep, nfc, [0x00, 0xB0, 0x00, 0x00, 0x0F], files);
    bad := Check(rsp);
    match bad { case Some(e) => return Unread(e); case None => }
    if |rsp.rsp| < 2 + 15 { return Unread(Malformed); }
    c := Cc(rsp.rsp[..15]);
  }

  /** What the reader needs of the container is in its first fifteen bytes. */
  lemma CcOutcome(f: Files, cc: seq<byte>)
    requires |f.cc| >= 15 && MaxLe(f) >= 15 && cc == f.cc[..15]
    ensures Clamp(FromBe16(cc[3..5]), 15, 246) == ChunkSize(f)
    ensures var s := Named(f, [cc[9], cc[10]]);
            Outcome(f) == if cc[7] != 0x04 then Failure(Malformed)
                          else if s == NoFile then Refusal(0x6A82) else FileOutcome(Content(f, s), ChunkSize(f))
  {
    hide FileOutcome;
    assert cc[3..5] == f.cc[3..5] && [cc[9], cc[10]] == f.cc[9..11] && cc[7] == f.cc[7];
  }

  /** `read_type4`, against a conforming card with any files whatever: the
      message, or the reason it cannot be read. */
  method ReadType4(dep: Initiator, nfc: Nfc, ghost files: Files) returns (r: ReadResult)
    requires Ready(dep, nfc, files)
    modifies dep, nfc
    ensures r == Outcome(files)
  {
    hide Ready, Respond, Outcome;
    var o := OpenNdef(dep, nfc, files);
    match o { case NotOpened(e) => return Failure(e); case Opened(_) => }
    ReadAnswer(files, nfc.card.state, 0x00, 0x00, 0x02);
    var rsp := Command(dep, nfc, [0x00, 0xB0, 0x00, 0x00, 0x02], files);
    var bad := Check(rsp);
    match bad { case Some(e) => return Failure(e); case None => }
    if |rsp.rsp| < 4 { return Failure(Malformed); }
    var nlen := FromBe16([rsp.rsp[0], rsp.rsp[1]]);
    assert [rsp.rsp[0], rsp.rsp[1]] == Content(files, nfc.card.state)[..2];
    r := ReadChunks(dep, nfc, files, nlen, o.mle);
  }
}
