/**
 ISO-DEP between the reader and a card that follows the block rules of
 section 7.5 of ISO/IEC 14443-4: alternating block numbers, chained answers,
 waiting-time extensions.
 */
module IsoDepSpec {
  import opened Bytes

  // ------------------------------------------------------------- the card

  /** What the card does for one command, in order: ask for more time, or send a piece of the answer. */
  datatype CardStep = Wtx(m: byte) | Piece(data: seq<byte>)

  /** A plan ends with a piece, and every piece fits a frame of 256 bytes. */
  predicate GoodPlan(plan: seq<CardStep>) {
    && plan != [] && plan[|plan| - 1].Piece?
    && forall i :: 0 <= i < |plan| && plan[i].Piece? ==> |plan[i].data| <= 253
  }

  /** The answer the pieces make up. */
  function Answer(plan: seq<CardStep>): seq<byte> {
    if plan == [] then [] else (if plan[0].Piece? then plan[0].data else []) + Answer(plan[1..])
  }

  /** The application on the card, and how the card will cut its answers, command by command. */
  datatype App<!A> = App(respond: (A, seq<byte>) -> (A, seq<byte>), cut: (nat, seq<byte>) -> seq<CardStep>)

  ghost predicate Conforming<A(!new)>(app: App<A>) {
    forall n: nat, r: seq<byte> :: GoodPlan(app.cut(n, r)) && Answer(app.cut(n, r)) == r
  }

  datatype Card<A> = Card(num: nat, todo: seq<CardStep>, last: seq<byte>, state: A, count: nat)

  /** Send the next block of the plan; a piece with more behind it says so. */
  function Emit<A>(c: Card<A>): (Card<A>, seq<byte>)
    requires c.todo != [] && c.num < 2
  {
    var frame := match c.todo[0]
      case Wtx(m) => [0xF2, m]
      case Piece(data) => [0x02 + c.num + (if |c.todo| > 1 then 0x10 else 0)] + data;
    (c.(todo := c.todo[1..], last := frame), frame)
  }

  /** The card's reaction to a frame from the reader; silence to anything it does not understand. */
  function React<A>(app: App<A>, c: Card<A>, frame: seq<byte>): (r: (Card<A>, Option<seq<byte>>))
    requires c.num < 2
    ensures r.0.num < 2
  {
    if frame == [] then (c, None)
    else if frame[0] == 0x02 || frame[0] == 0x03 then
      // rule D: an I-block toggles the card's number, whatever number it carries
      var (s, r) := app.respond(c.state, frame[1..]);
      var plan := app.cut(c.count, r);
      var c' := c.(num := 1 - c.num, todo := plan, state := s, count := c.count + 1);
      if plan == [] then (c', None) else var (c'', f) := Emit(c'); (c'', Some(f))
    else if frame == [0xA2] || frame == [0xA3] then
      // rule E: an R(ACK) with the other number asks for the next block; with the same one, for the last again
      if frame[0] - 0xA2 == c.num then (c, Some(c.last))
      else if c.todo == [] then (c, None)
      else var (c', f) := Emit(c.(num := 1 - c.num)); (c', Some(f))
    else if |c.last| == 2 && c.last[0] == 0xF2 && frame == [0xF2, c.last[1] % 0x40] && c.todo != [] then
      var (c', f) := Emit(c); (c', Some(f))
    else (c, None)
  }

  // ----------------------------------------------------------- the reader

  datatype Error = Protocol | Retries | NoAnswer

  const MAX_FRAMES := 32

  datatype Result<A> = Ok(rsp: seq<byte>, num: nat, card: Card<A>) | Err(error: Error)

  /** S(WTX), I-block, and chained I-block, by their control byte (a following CID allowed in S(WTX)). */
  predicate IsWtx(pcb: byte) { pcb == 0xF2 || pcb == 0xFA }
  predicate IsIBlock(pcb: byte) { pcb / 0x20 == 0 && pcb / 2 % 2 == 1 }
  predicate IsChained(pcb: byte) { pcb / 0x10 % 2 == 1 }

  /** The `exchange` loop from frame `tx`, `sent` frames into it. */
  function Loop<A>(app: App<A>, num: nat, tx: seq<byte>, rsp: seq<byte>, c: Card<A>, sent: nat): (r: Result<A>)
    requires num < 2 && c.num < 2
    ensures r.Ok? ==> r.num < 2 && r.card.num < 2
    decreases MAX_FRAMES - sent
  {
    if sent >= MAX_FRAMES then Err(Retries)
    else
      var (c', f) := React(app, c, tx);
      if f.None? then Err(NoAnswer)
      else if f.value == [] then Err(Protocol)
      else
        var pcb, payload := f.value[0], f.value[1..];
        if IsWtx(pcb) then
          Loop(app, num, [0xF2, (if payload == [] then 1 else payload[0]) % 0x40], rsp, c', sent + 1)
        else if IsIBlock(pcb) && pcb % 2 == num then
          if IsChained(pcb) then Loop(app, 1 - num, [0xA2 + (1 - num)], rsp + payload, c', sent + 1)
          else Ok(rsp + payload, 1 - num, c')
        else Err(Protocol)
  }

  /** The control bytes of an I-block with number `n`: chaining, CID and NAD bits may be set. */
  predicate CarriesData(pcb: byte, n: nat) {
    var p := pcb as int - n;
    p == 0x02 || p == 0x06 || p == 0x0A || p == 0x0E || p == 0x12 || p == 0x16 || p == 0x1A || p == 0x1E
  }

  /** What the reader does with a frame, whatever card it is from: it grants
      time, takes an I-block that has its own number, and gives up on anything
      else, an I-block with the other number included. */
  lemma FrameExact<A>(app: App<A>, num: nat, tx: seq<byte>, rsp: seq<byte>, c: Card<A>, sent: nat)
    requires num < 2 && c.num < 2 && sent < 32
    ensures var (c', f) := React(app, c, tx);
            var r := Loop(app, num, tx, rsp, c, sent);
            if f.None? then r == Err(NoAnswer)
            else if f.value == [] then r == Err(Protocol)
            else
              var pcb, data := f.value[0], f.value[1..];
              if pcb == 0xF2 || pcb == 0xFA then
                r == Loop(app, num, [0xF2, if data == [] then 1 else data[0] % 64], rsp, c', sent + 1)
              else if CarriesData(pcb, num) then
                r == if pcb < 0x10 then Ok(rsp + data, 1 - num, c')
                     else Loop(app, 1 - num, [0xA3 - num], rsp + data, c', sent + 1)
              else r == Err(Protocol)
  {
    hide React;
    var f := React(app, c, tx).1;
    if f.Some? && f.value != [] { DataBits(f.value[0], num); }
  }

  lemma DataBits(pcb: byte, n: nat)
    requires n < 2
    ensures CarriesData(pcb, n) <==> IsIBlock(pcb) && pcb % 2 == n
    ensures CarriesData(pcb, n) ==> (IsChained(pcb) <==> pcb >= 0x10) && !IsWtx(pcb)
  {
  }

  /** Between exchanges the reader's next number is the one the card did not use last. */
  predicate InStep<A>(num: nat, c: Card<A>) { num < 2 && c.num == 1 - num }

  /** A card that asked for time and gets its answer goes on. */
  lemma ReactToWtx<A>(app: App<A>, c: Card<A>)
    requires c.num < 2 && c.todo != [] && c.todo[0].Wtx? && c.todo[1..] != []
    ensures var (c', f) := Emit(c);
            React(app, c', [0xF2, c.todo[0].m % 0x40]) == (Emit(c').0, Some(Emit(c').1))
  {
  }

  /** A card that is acknowledged with the other number goes on with that number. */
  lemma ReactToAck<A>(app: App<A>, c: Card<A>)
    requires c.num < 2 && c.todo != [] && c.todo[1..] != []
    ensures var next := Emit(c).0.(num := 1 - c.num);
            React(app, Emit(c).0, [0xA2 + (1 - c.num)]) == (Emit(next).0, Some(Emit(next).1))
  {
  }

  lemma PieceFrame<A>(c: Card<A>)
    requires c.num < 2 && c.todo != [] && c.todo[0].Piece?
    ensures var f := Emit(c).1;
            && f != [] && f[1..] == c.todo[0].data
            && IsIBlock(f[0]) && f[0] % 2 == c.num && !IsWtx(f[0])
            && (IsChained(f[0]) <==> c.todo[1..] != [])
  {
    var pcb := 0x02 + c.num + (if |c.todo| > 1 then 0x10 else 0);
    assert Emit(c).1[0] == pcb;
  }

  lemma PlanTail(todo: seq<CardStep>)
    requires GoodPlan(todo)
    ensures todo != []
    ensures todo[1..] != [] ==> GoodPlan(todo[1..])
    ensures todo[0].Wtx? ==> todo[1..] != []
    ensures Answer(todo) == (if todo[0].Piece? then todo[0].data else []) + Answer(todo[1..])
  {
  }

  /** A request for more time sends the reader round its loop again. */
  lemma LoopWtx<A>(app: App<A>, tx: seq<byte>, rsp: seq<byte>, c: Card<A>, sent: nat, next: Card<A>)
    requires c.num < 2 && next.num < 2 && sent < MAX_FRAMES
    requires next.todo != [] && next.todo[0].Wtx?
    requires React(app, c, tx) == (Emit(next).0, Some(Emit(next).1))
    ensures Loop(app, next.num, tx, rsp, c, sent)
            == Loop(app, next.num, [0xF2, next.todo[0].m % 0x40], rsp, Emit(next).0, sent + 1)
  {
    hide React;
    assert Emit(next).1[1..] == [next.todo[0].m];
  }

  /** A piece is added, and acknowledged if there are more. */
  lemma LoopPiece<A>(app: App<A>, tx: seq<byte>, rsp: seq<byte>, c: Card<A>, sent: nat, next: Card<A>)
    requires c.num < 2 && next.num < 2 && sent < MAX_FRAMES
    requires next.todo != [] && next.todo[0].Piece?
    requires React(app, c, tx) == (Emit(next).0, Some(Emit(next).1))
    ensures Loop(app, next.num, tx, rsp, c, sent)
            == if next.todo[1..] == [] then Ok(rsp + next.todo[0].data, 1 - next.num, Emit(next).0)
               else Loop(app, 1 - next.num, [0xA2 + (1 - next.num)], rsp + next.todo[0].data, Emit(next).0, sent + 1)
  {
    PieceFrame(next);
    hide React, Emit, IsIBlock, IsChained, IsWtx;
  }

  lemma LoopGivesUp<A>(app: App<A>, num: nat, tx: seq<byte>, rsp: seq<byte>, c: Card<A>, sent: nat)
    requires num < 2 && c.num < 2 && sent >= MAX_FRAMES
    ensures Loop(app, num, tx, rsp, c, sent) == Err(Retries)
  {
  }

  /** From a card about to emit `next.todo`, the loop collects exactly the pieces that are left. */
  lemma {:induction false} LoopCollects<A>(
    app: App<A>, tx: seq<byte>, rsp: seq<byte>, c: Card<A>, sent: nat, next: Card<A>)
    requires c.num < 2 && next.num < 2 && GoodPlan(next.todo)
    requires React(app, c, tx) == (Emit(next).0, Some(Emit(next).1))
    ensures var r := Loop(app, next.num, tx, rsp, c, sent);
            if sent + |next.todo| <= MAX_FRAMES then
              && r.Ok? && r.rsp == rsp + Answer(next.todo) && InStep(r.num, r.card)
              && r.card.state == next.state && r.card.count == next.count
            else r == Err(Retries)
    decreases |next.todo|
  {
    hide React, GoodPlan, Answer, Loop;
    var todo := next.todo;
    PlanTail(todo);
    if sent >= MAX_FRAMES {
      LoopGivesUp(app, next.num, tx, rsp, c, sent);
    } else if todo[0].Wtx? {
      LoopWtx(app, tx, rsp, c, sent, next);
      ReactToWtx(app, next);
      LoopCollects(app, [0xF2, todo[0].m % 0x40], rsp, Emit(next).0, sent + 1, Emit(next).0);
      assert [] + Answer(todo[1..]) == Answer(todo[1..]);
    } else {
      LoopPiece(app, tx, rsp, c, sent, next);
      Regroup(rsp, todo[0].data, Answer(todo[1..]));
      if todo[1..] == [] {
        AnswerNothing();
      } else {
        ReactToAck(app, next);
        LoopCollects(app, [0xA2 + (1 - next.num)], rsp + todo[0].data, Emit(next).0, sent + 1,
                     Emit(next).0.(num := 1 - next.num));
      }
    }
  }

  lemma Regroup(a: seq<byte>, b: seq<byte>, c: seq<byte>)
    ensures a + b + c == a + (b + c) && a + [] == a
  {
  }

  lemma AnswerNothing()
    ensures Answer([]) == []
  {
  }

  /** One exchange: `apdu` to the card, its answer back. */
  function Exchange<A>(app: App<A>, num: nat, fsc: nat, apdu: seq<byte>, c: Card<A>): (r: Result<A>)
    requires num < 2 && c.num < 2
    ensures r.Ok? ==> r.num < 2 && r.card.num < 2
  {
    if |apdu| + 3 > fsc then Err(Protocol) else Loop(app, num, [0x02 + num] + apdu, [], c, 0)
  }

  /** Against a conforming card an exchange returns exactly the card's answer,
      put together from its pieces, and leaves both block numbers in step, if
      and only if the answer takes at most 32 frames, extensions included. */
  lemma ExchangeDelivers<A(!new)>(app: App<A>, num: nat, fsc: nat, apdu: seq<byte>, c: Card<A>)
    requires Conforming(app) && InStep(num, c) && |apdu| + 3 <= fsc
    ensures var (s, answer) := app.respond(c.state, apdu);
            var r := Exchange(app, num, fsc, apdu, c);
            if |app.cut(c.count, answer)| <= 32 then
              r.Ok? && r.rsp == answer && InStep(r.num, r.card) && r.card.state == s && r.card.count == c.count + 1
            else r == Err(Retries)
    ensures forall other: nat :: other < |apdu| + 3 ==> Exchange(app, num, other, apdu, c) == Err(Protocol)
  {
    var tx := [0x02 + num] + apdu;
    assert tx[1..] == apdu;
    var (s, answer) := app.respond(c.state, apdu);
    var plan := app.cut(c.count, answer);
    assert GoodPlan(plan) && Answer(plan) == answer;
    LoopCollects(app, tx, [], c, 0, c.(num := num, todo := plan, state := s, count := c.count + 1));
    assert [] + answer == answer;
  }

  // ------------------------------------------------------------- a session

  /** Commands one after the other: their answers and how both sides end; none once one fails. */
  function Session<A>(
    app: App<A>, num: nat, fsc: nat, apdus: seq<seq<byte>>, c: Card<A>): Option<(seq<seq<byte>>, nat, Card<A>)>
    requires num < 2 && c.num < 2
    decreases |apdus|
  {
    if apdus == [] then Some(([], num, c))
    else
      var r := Exchange(app, num, fsc, apdus[0], c);
      if !r.Ok? then None
      else
        var rest := Session(app, r.num, fsc, apdus[1..], r.card);
        if rest.None? then None else Some(([r.rsp] + rest.value.0, rest.value.1, rest.value.2))
  }

  /** What the card's application answers, and the state it is left in. */
  function Answers<A>(app: App<A>, s: A, apdus: seq<seq<byte>>): (seq<seq<byte>>, A)
    decreases |apdus|
  {
    if apdus == [] then ([], s)
    else
      var (s', r) := app.respond(s, apdus[0]);
      var (rs, end) := Answers(app, s', apdus[1..]);
      ([r] + rs, end)
  }

  /** Every answer, cut as the card will cut it, stays within the frames allowed. */
  predicate WithinFrames<A>(app: App<A>, s: A, count: nat, apdus: seq<seq<byte>>)
    decreases |apdus|
  {
    apdus == []
    || var (s', r) := app.respond(s, apdus[0]);
       |app.cut(count, r)| <= 32 && WithinFrames(app, s', count + 1, apdus[1..])
  }

  /** Over any sequence of commands the answers are the card's, one for one,
      and the block numbers end in step, if and only if each answer takes at
      most 32 frames. */
  lemma {:induction false} SessionDelivers<A(!new)>(app: App<A>, num: nat, fsc: nat, apdus: seq<seq<byte>>, c: Card<A>)
    requires Conforming(app) && InStep(num, c)
    requires forall i :: 0 <= i < |apdus| ==> |apdus[i]| + 3 <= fsc
    ensures var r := Session(app, num, fsc, apdus, c);
            && (r.Some? <==> WithinFrames(app, c.state, c.count, apdus))
            && (r.Some? ==>
                  && r.value.0 == Answers(app, c.state, apdus).0
                  && InStep(r.value.1, r.value.2) && r.value.2.state == Answers(app, c.state, apdus).1)
    decreases |apdus|
  {
    hide Exchange, Conforming;
    if apdus != [] {
      ExchangeDelivers(app, num, fsc, apdus[0], c);
      var r := Exchange(app, num, fsc, apdus[0], c);
      if r.Ok? { SessionDelivers(app, r.num, fsc, apdus[1..], r.card); }
    }
  }
}
