/** The tag's user memory: the NDEF TLV writer and the TLV reader. */
module Tlv {
  import opened Bytes

  const PAGES := 231
  const MEM_BYTES := PAGES * 4
  const USER_FIRST_PAGE := 4
  const USER_LAST_PAGE := 225
  const USER_BYTES := (USER_LAST_PAGE - USER_FIRST_PAGE + 1) * 4
  const USER_START := USER_FIRST_PAGE * 4
  const USER_END := (USER_LAST_PAGE + 1) * 4

  function User(mem: seq<byte>): (u: seq<byte>)
    requires |mem| == MEM_BYTES
    ensures |u| == USER_BYTES
  {
    mem[USER_START..USER_END]
  }

  // --------------------------------------------------------------- reader

  /** Length and header size of the TLV at `i`; none when it is cut off. */
  function Header(user: seq<byte>, i: nat): Option<(nat, nat)> {
    if i + 1 >= |user| then None
    else if user[i + 1] != 0xFF then Some((user[i + 1], 2))
    else if i + 3 >= |user| then None
    else Some((FromBe16([user[i + 2], user[i + 3]]), 4))
  }

  /** `ndef`: value of the first NDEF TLV from `i` on, before any terminator. */
  function NdefFrom(user: seq<byte>, i: nat): Option<seq<byte>>
    decreases |user| - i
  {
    if i >= |user| || user[i] == 0xFE then None
    else if user[i] == 0x00 then NdefFrom(user, i + 1)
    else
      var h := Header(user, i);
      if h.None? then None
      else
        var (len, hdr) := h.value;
        if i + hdr + len > |user| then None
        else if user[i] == 0x03 then Some(user[i + hdr..i + hdr + len])
        else NdefFrom(user, i + hdr + len)
  }

  function Ndef(mem: seq<byte>): Option<seq<byte>>
    requires |mem| == MEM_BYTES
  {
    NdefFrom(User(mem), 0)
  }

  /** `ndef`, with its cursor loop. */
  method FindNdef(mem: array<byte>) returns (r: Option<seq<byte>>)
    requires mem.Length == MEM_BYTES
    ensures r == Ndef(mem[..])
  {
    var user := mem[USER_START..USER_END];
    assert user == User(mem[..]);
    var i := 0;
    while i < |user|
      invariant 0 <= i && NdefFrom(user, i) == NdefFrom(user, 0)
      decreases |user| - i
    {
      if user[i] == 0x00 {
        i := i + 1;
      } else if user[i] == 0xFE {
        return None;
      } else {
        var h := Header(user, i);
        if h.None? { return None; }
        var (len, hdr) := h.value;
        if i + hdr + len > |user| { return None; }
        if user[i] == 0x03 { return Some(user[i + hdr..i + hdr + len]); }
        i := i + hdr + len;
      }
    }
    r := None;
  }

  // ------------------------------------------------ TLVs (NFC Forum Type 2)

  /** A TLV block other than the terminator (section 2.3 of the Type 2 Tag
      Operation Specification 1.1): the one-byte NULL, or tag, length in the
      one- or three-byte form, and value. */
  datatype Block = Null | Block(tag: byte, long: bool, value: seq<byte>)

  predicate WellFormed(b: Block) {
    b.Block? ==> b.tag != 0x00 && b.tag != 0xFE && (if b.long then |b.value| < 0x1_0000 else |b.value| < 0xFF)
  }

  function Lay(b: Block): (s: seq<byte>)
    requires WellFormed(b)
    ensures |s| > 0
  {
    match b
    case Null => [0x00]
    case Block(tag, long, value) =>
      [tag] + (if long then [0xFF] + Be16(|value|) else [|value|]) + value
  }

  predicate IsNdef(b: Block) { b.Block? && b.tag == 0x03 }

  function LayAll(bs: seq<Block>): seq<byte>
    requires forall i :: 0 <= i < |bs| ==> WellFormed(bs[i])
  {
    if bs == [] then [] else Lay(bs[0]) + LayAll(bs[1..])
  }

  /** Value of the first NDEF block of a list. */
  function FirstNdef(bs: seq<Block>): Option<seq<byte>> {
    if bs == [] then None else if IsNdef(bs[0]) then Some(bs[0].value) else FirstNdef(bs[1..])
  }

  lemma LaidLayout(pre: seq<byte>, b: Block, post: seq<byte>)
    requires WellFormed(b) && b.Block?
    ensures var user, i := pre + Lay(b) + post, |pre|;
            var hdr := if b.long then 4 else 2;
            && i + hdr + |b.value| == i + |Lay(b)| <= |user|
            && user[i] == b.tag
            && (if b.long then user[i + 1] == 0xFF && user[i + 2] == |b.value| / 256 && user[i + 3] == |b.value| % 256
                else user[i + 1] == |b.value|)
            && user[i + hdr..i + hdr + |b.value|] == b.value
  {
    var user, i, l, hdr := pre + Lay(b) + post, |pre|, Lay(b), if b.long then 4 else 2;
    LaidBytes(b);
    InMiddle(pre, l, post, user);
    hide Lay;
    assert user[i..i + |l|][hdr..] == user[i + hdr..i + |l|];
  }

  lemma LaidBytes(b: Block)
    requires WellFormed(b) && b.Block?
    ensures var l, hdr := Lay(b), if b.long then 4 else 2;
            && |l| == hdr + |b.value| && l[0] == b.tag && l[hdr..] == b.value
            && (if b.long then l[1] == 0xFF && l[2] == |b.value| / 256 && l[3] == |b.value| % 256
                else l[1] == |b.value|)
  {
    var head := [b.tag] + (if b.long then [0xFF] + Be16(|b.value|) else [|b.value|]);
    assert Lay(b) == head + b.value;
    assert b.long ==> head == [b.tag, 0xFF, Be16(|b.value|)[0], Be16(|b.value|)[1]];
  }

  lemma InMiddle(pre: seq<byte>, l: seq<byte>, post: seq<byte>, user: seq<byte>)
    requires user == pre + l + post
    ensures user[|pre|..|pre| + |l|] == l
    ensures forall k :: 0 <= k < |l| ==> user[|pre| + k] == l[k]
  {
  }

  lemma LaidHeader(user: seq<byte>, i: nat, b: Block)
    requires WellFormed(b) && b.Block? && i + (if b.long then 4 else 2) <= |user|
    requires if b.long then user[i + 1] == 0xFF && user[i + 2] == |b.value| / 256 && user[i + 3] == |b.value| % 256
             else user[i + 1] == |b.value|
    ensures Header(user, i) == Some((|b.value|, if b.long then 4 else 2))
  {
    if b.long { assert [user[i + 2], user[i + 3]] == Be16(|b.value|); RoundTrip16(|b.value|); }
  }

  lemma AtBlock(user: seq<byte>, i: nat, tag: byte, len: nat, hdr: nat)
    requires i < |user| && user[i] == tag && tag != 0 && tag != 0xFE
    requires Header(user, i) == Some((len, hdr)) && 0 < hdr && i + hdr + len <= |user|
    ensures NdefFrom(user, i)
            == if tag == 0x03 then Some(user[i + hdr..i + hdr + len]) else NdefFrom(user, i + hdr + len)
  {
  }

  lemma StepOver(pre: seq<byte>, b: Block, post: seq<byte>)
    requires WellFormed(b)
    ensures NdefFrom(pre + Lay(b) + post, |pre|)
            == if IsNdef(b) then Some(b.value) else NdefFrom(pre + Lay(b) + post, |pre| + |Lay(b)|)
  {
    hide Lay, NdefFrom, Header;
    var user := pre + Lay(b) + post;
    match b
    case Null =>
      assert Lay(b) == [0x00] by { LaidNull(); }
      assert user[|pre|] == 0;
      AtNull(user, |pre|);
    case Block(tag, long, value) =>
      LaidLayout(pre, b, post);
      LaidHeader(user, |pre|, b);
      AtBlock(user, |pre|, tag, |value|, if long then 4 else 2);
  }

  lemma LaidNull()
    ensures Lay(Null) == [0x00]
  {
  }

  lemma AtNull(user: seq<byte>, i: nat)
    requires i < |user| && user[i] == 0x00
    ensures NdefFrom(user, i) == NdefFrom(user, i + 1)
  {
  }

  lemma NdefEnds(user: seq<byte>, i: nat)
    requires i >= |user| || user[i] == 0xFE
    ensures NdefFrom(user, i) == None
  {
  }

  /** The reader returns the first NDEF block's value, in either length form,
      whatever lies behind a terminator or behind that block; and nothing when
      the terminator or the end of memory comes first. */
  lemma {:induction false} NdefIsFirstBlock(pre: seq<byte>, bs: seq<Block>, rest: seq<byte>)
    requires forall i :: 0 <= i < |bs| ==> WellFormed(bs[i])
    ensures var user := pre + LayAll(bs) + rest;
            FirstNdef(bs).Some? || rest == [] || rest[0] == 0xFE
            ==> NdefFrom(user, |pre|) == FirstNdef(bs)
    decreases |bs|
  {
    hide NdefFrom, Lay;
    var user := pre + LayAll(bs) + rest;
    if bs == [] {
      assert user == pre + rest;
      if rest == [] || rest[0] == 0xFE { NdefEnds(user, |pre|); }
    } else {
      var l := Lay(bs[0]);
      StepOver(pre, bs[0], LayAll(bs[1..]) + rest);
      assert user == pre + l + (LayAll(bs[1..]) + rest);
      NdefIsFirstBlock(pre + l, bs[1..], rest);
      assert user == (pre + l) + LayAll(bs[1..]) + rest;
    }
  }

  // --------------------------------------------------------------- writer

  predicate Fits(msg: seq<byte>) { (if |msg| < 0xFF then 2 else 4) + |msg| + 1 <= USER_BYTES }

  function NdefBlock(msg: seq<byte>): Block { Block(0x03, |msg| >= 0xFF, msg) }

  /** `set_ndef`: the NDEF TLV, the terminator, and zeros to the end of user memory. */
  function SetNdef(mem: seq<byte>, msg: seq<byte>): (m: seq<byte>)
    requires |mem| == MEM_BYTES && Fits(msg)
    ensures |m| == MEM_BYTES
  {
    var tlv := Lay(NdefBlock(msg)) + [0xFE];
    Splice(mem, USER_START, tlv + Zeros(USER_BYTES - |tlv|))
  }

  /** `set_ndef`, writing the memory in place piece by piece. */
  method StoreNdef(mem: array<byte>, msg: seq<byte>) returns (ok: bool)
    requires mem.Length == MEM_BYTES
    modifies mem
    ensures ok == Fits(msg)
    ensures mem[..] == if ok then SetNdef(old(mem[..]), msg) else old(mem[..])
  {
    hide Splice;
    var hdr := if |msg| < 0xFF then 2 else 4;
    if hdr + |msg| + 1 > USER_BYTES { return false; }
    ghost var was := mem[..];
    var i := USER_START;
    CopyInto(mem, i, [0x03]);
    i := i + 1;
    var len: seq<byte> := if hdr == 2 then [|msg|] else [0xFF] + Be16(|msg|);
    CopyInto(mem, i, len);
    SpliceTwice(was, USER_START, [0x03], len);
    i := i + |len|;
    CopyInto(mem, i, msg);
    SpliceTwice(was, USER_START, [0x03] + len, msg);
    i := i + |msg|;
    CopyInto(mem, i, [0xFE]);
    SpliceTwice(was, USER_START, [0x03] + len + msg, [0xFE]);
    i := i + 1;
    var zeros := Zeros(USER_END - i);
    CopyInto(mem, i, zeros);
    SpliceTwice(was, USER_START, [0x03] + len + msg + [0xFE], zeros);
    assert Lay(NdefBlock(msg)) == [0x03] + len + msg;
    ok := true;
  }

  /** What is stored is what is served: a message that fits reads back, and
      nothing outside user memory changes. */
  lemma StoredIsServed(mem: seq<byte>, msg: seq<byte>)
    requires |mem| == MEM_BYTES && Fits(msg)
    ensures Ndef(SetNdef(mem, msg)) == Some(msg)
    ensures var m := SetNdef(mem, msg); m[..USER_START] == mem[..USER_START] && m[USER_END..] == mem[USER_END..]
  {
    hide Lay, LayAll, NdefFrom, Splice;
    var b := NdefBlock(msg);
    LaidBytes(b);
    var rest := [0xFE] + Zeros(USER_BYTES - |Lay(b)| - 1);
    NdefIsFirstBlock([], [b], rest);
    LayOne(b);
    SplicedUser(mem, Lay(b) + rest);
    assert Lay(b) + [0xFE] + Zeros(USER_BYTES - |Lay(b) + [0xFE]|) == Lay(b) + rest;
    assert User(SetNdef(mem, msg)) == [] + LayAll([b]) + rest;
  }

  lemma LayOne(b: Block)
    requires WellFormed(b)
    ensures LayAll([b]) == Lay(b) && FirstNdef([b]) == if IsNdef(b) then Some(b.value) else None
  {
  }

  lemma SplicedUser(mem: seq<byte>, data: seq<byte>)
    requires |mem| == MEM_BYTES && |data| <= USER_BYTES
    ensures User(Splice(mem, USER_START, data)) == data + mem[USER_START + |data|..USER_END]
    ensures Splice(mem, USER_START, data)[..USER_START] == mem[..USER_START]
    ensures Splice(mem, USER_START, data)[USER_END..] == mem[USER_END..]
  {
  }

  lemma LaidMessage(msg: seq<byte>, hdr: seq<byte>)
    requires |msg| < 0x1_0000
    requires hdr == if |msg| < 255 then [0x03, |msg|] else [0x03, 0xFF, |msg| / 256, |msg| % 256]
    ensures Lay(NdefBlock(msg)) == hdr + msg
  {
  }

  lemma SetNdefTo(mem: seq<byte>, msg: seq<byte>, user: seq<byte>)
    requires |mem| == MEM_BYTES && Fits(msg) && |user| == USER_BYTES
    requires user == Lay(NdefBlock(msg)) + [0xFE] + Zeros(USER_BYTES - |Lay(NdefBlock(msg))| - 1)
    ensures SetNdef(mem, msg) == Splice(mem, USER_START, user)
  {
    hide Lay, Splice;
  }

  /** A stored message, byte by byte: the user memory begins at page 4, a length
      of 255 or more takes three bytes, and a terminator ends it. */
  lemma StoredBytes(mem: seq<byte>, msg: seq<byte>)
    requires |mem| == MEM_BYTES && Fits(msg)
    ensures var m, n := SetNdef(mem, msg), |msg|;
            var hdr := if n < 255 then [0x03, n] else [0x03, 0xFF, n / 256, n % 256];
            && 16 + |hdr| + n < 904
            && m[16..16 + |hdr|] == hdr && m[16 + |hdr|..16 + |hdr| + n] == msg && m[16 + |hdr| + n] == 0xFE
            && m[..16] == mem[..16] && m[904..] == mem[904..]
  {
    hide Splice, SetNdef, Lay, User;
    var m, n := SetNdef(mem, msg), |msg|;
    var hdr := if n < 255 then [0x03, n] else [0x03, 0xFF, n / 256, n % 256];
    var rest := [0xFE] + Zeros(USER_BYTES - |hdr| - n - 1);
    LaidMessage(msg, hdr);
    SetNdefTo(mem, msg, hdr + msg + rest);
    SplicedUser(mem, hdr + msg + rest);
    assert hdr + msg + rest + mem[904..904] == hdr + msg + rest;
    UserParts(m, hdr, msg, rest);
  }

  lemma UserParts(m: seq<byte>, hdr: seq<byte>, msg: seq<byte>, rest: seq<byte>)
    requires |m| == MEM_BYTES && User(m) == hdr + msg + rest && rest != []
    ensures var k, n := 16 + |hdr|, |msg|;
            && k + n < 904 && m[16..k] == hdr && m[k..k + n] == msg && m[k + n] == rest[0]
  {
    var u := User(m);
    assert u[..|hdr|] == hdr;
    assert u[|hdr|..|hdr| + |msg|] == msg;
    assert u[|hdr| + |msg|] == rest[0];
    UserSlice(m, 0, |hdr|);
    UserSlice(m, |hdr|, |hdr| + |msg|);
    assert m[16 + |hdr| + |msg|] == u[|hdr| + |msg|];
  }

  lemma UserSlice(m: seq<byte>, a: nat, b: nat)
    requires |m| == MEM_BYTES && a <= b <= USER_BYTES
    ensures m[16 + a..16 + b] == User(m)[a..b]
  {
    forall k | 0 <= k < b - a ensures m[16 + a..16 + b][k] == User(m)[a..b][k] {
      assert User(m)[a + k] == m[16 + (a + k)];
    }
  }
}
