/**
 The plate's content: the image codec, NDEF records, the message served to
 readers, and the parser that adopts a message written by a phone.
 */
module Plate {
  import opened Bytes
  import opened Text
  import Base64

  const MAX_TEXT_PAYLOAD := 240
  const MAX_URL_LEN := 200
  /** Largest encoded image that still goes into the NDEF message. */
  const MAX_IMAGE_RECORD := 700

  type u16 = x: int | 0 <= x < 0x1_0000

  // ---------------------------------------------------------------- image

  /** A 1-bpp image: rows padded to whole bytes. */
  datatype MonoImage = MonoImage(width: u16, height: u16, bits: seq<byte>)

  predicate GoodSize(w: int, h: int) { 1 <= w <= 480 && 1 <= h <= 800 }

  /** Bytes of a whole image. */
  function ImageBytes(w: nat, h: nat): nat { RowBytes(w) * h }

  lemma MulBounds(rb: nat, h: nat)
    requires 1 <= rb <= 60
    ensures h <= rb * h <= 60 * h
  {
  }

  /** No image is larger than a full screen. */
  lemma ImageBytesPositive(w: nat, h: nat)
    requires GoodSize(w, h)
    ensures 1 <= ImageBytes(w, h) <= 48_000
  {
    var rb := RowBytes(w);
    assert 1 <= rb <= 60;
    MulBounds(rb, h);
  }

  predicate ValidImage(img: MonoImage) {
    GoodSize(img.width, img.height) && |img.bits| == ImageBytes(img.width, img.height)
  }

  function Encode(img: MonoImage): seq<byte> { Le16(img.width) + Le16(img.height) + img.bits }

  /** `MonoImage::decode`: size-checked, extra bytes ignored. */
  function Decode(payload: seq<byte>): (r: Option<MonoImage>)
    ensures r.Some? ==> ValidImage(r.value)
  {
    if |payload| < 4 then None
    else
      var w, h := FromLe16(payload[..2]), FromLe16(payload[2..4]);
      if !GoodSize(w, h) then None
      else
        var need := ImageBytes(w, h);
        if |payload| < 4 + need then None else Some(MonoImage(w, h, payload[4..4 + need]))
  }

  /** `MonoImage::decode_owned`: the same answer, cutting the buffer down in place. */
  method DecodeOwned(buffer: seq<byte>) returns (r: Option<MonoImage>)
    ensures r == Decode(buffer)
  {
    var payload := buffer;
    if |payload| < 4 { return None; }
    var w, h := FromLe16(payload[..2]), FromLe16(payload[2..4]);
    if w == 0 || h == 0 || w > 480 || h > 800 { return None; }
    var need := ImageBytes(w, h);
    if |payload| < 4 + need { return None; }
    payload := payload[4..];
    payload := payload[..need];
    assert payload == buffer[4..4 + need];
    r := Some(MonoImage(w, h, payload));
  }

  /** The codec gives back exactly the valid images, whatever follows them. */
  lemma ImageRoundTrip(img: MonoImage, rest: seq<byte>)
    ensures ValidImage(img) ==> Decode(Encode(img) + rest) == Some(img)
    ensures Decode(Encode(img)) == Some(img) <==> ValidImage(img)
  {
    RoundTrip16(img.width);
    RoundTrip16(img.height);
    var e := Encode(img);
    assert (e + rest)[..2] == Le16(img.width) && (e + rest)[2..4] == Le16(img.height);
    assert e[..2] == Le16(img.width) && e[2..4] == Le16(img.height);
    if ValidImage(img) {
      assert (e + rest)[4..4 + |img.bits|] == img.bits && e[4..4 + |img.bits|] == img.bits;
    }
  }

  /** Every pixel `draw_image` reads lies inside the bits of a valid image. */
  lemma DrawImageInBounds(img: MonoImage, x: nat, y: nat)
    requires ValidImage(img) && x < img.width && y < img.height
    ensures y * RowBytes(img.width) + x / 8 < |img.bits|
  {
    var rb := RowBytes(img.width);
    assert x / 8 < rb;
    assert (y + 1) * rb <= img.height * rb;
  }

  // -------------------------------------------------------------- records

  const TYPE_U: seq<byte> := [0x55]
  const TYPE_T: seq<byte> := [0x54]
  /** "image/x-plate" */
  const IMAGE_MIME: seq<byte> := [0x69, 0x6D, 0x61, 0x67, 0x65, 0x2F, 0x78, 0x2D, 0x70, 0x6C, 0x61, 0x74, 0x65]
  /** "B64:" */
  const B64_TAG: seq<byte> := [0x42, 0x36, 0x34, 0x3A]

  /** An NDEF record without an ID (section 3.2 of the NFC Forum NDEF 1.0 specification). */
  datatype Record = Record(mb: bool, me: bool, tnf: nat, rtype: seq<byte>, payload: seq<byte>)

  predicate WellFormed(r: Record) { r.tnf < 8 && |r.rtype| < 256 && |r.payload| < 0x1_0000_0000 }

  function Flags(r: Record): byte
    requires WellFormed(r)
  {
    (if r.mb then 0x80 else 0) + (if r.me then 0x40 else 0) + (if |r.payload| < 256 then 0x10 else 0) + r.tnf
  }

  function PayloadLength(n: nat): seq<byte>
    requires n < 0x1_0000_0000
  {
    if n < 256 then [n] else Be32(n)
  }

  /** The record's bytes: flags, type length, payload length, type, payload. */
  function Print(r: Record): (s: seq<byte>)
    requires WellFormed(r)
    ensures |s| >= 3
  {
    [Flags(r), |r.rtype|] + PayloadLength(|r.payload|) + r.rtype + r.payload
  }

  predicate AllWellFormed(rs: seq<Record>) { forall i :: 0 <= i < |rs| ==> WellFormed(rs[i]) }

  function PrintAll(rs: seq<Record>): seq<byte>
    requires AllWellFormed(rs)
  {
    if rs == [] then [] else Print(rs[0]) + PrintAll(rs[1..])
  }

  /** What `record_at` reports: type name format, type, payload, offset of the next record. */
  datatype Found = Found(tnf: nat, rtype: seq<byte>, payload: seq<byte>, next: nat)

  function Slice(s: seq<byte>, from: nat, len: nat): (r: Option<seq<byte>>)
    ensures r.Some? <==> from + len <= |s|
    ensures r.Some? ==> r.value == s[from..from + len]
  {
    if from + len <= |s| then Some(s[from..from + len]) else None
  }

  /** `record_at` */
  function RecordAt(msg: seq<byte>, i: nat): (r: Option<Found>)
    ensures r.Some? ==> i + 3 <= r.value.next <= |msg|
  {
    if i + 1 >= |msg| then None
    else
      var hdr, typeLen := msg[i], msg[i + 1];
      var short, il := (hdr / 0x10) % 2 == 1, (hdr / 0x08) % 2 == 1;
      var p := i + 2;
      var lenBytes := Slice(msg, p, if short then 1 else 4);
      if lenBytes.None? then None
      else
        var payloadLen: nat := if short then lenBytes.value[0] else FromBe32(lenBytes.value);
        var p1 := p + |lenBytes.value|;
        if il && p1 >= |msg| then None
        else
          var p2 := if il then p1 + 1 + msg[p1] else p1;
          var rtype := Slice(msg, p2, typeLen);
          if rtype.None? then None
          else
            var p3 := p2 + typeLen;
            var payload := Slice(msg, p3, payloadLen);
            if payload.None? then None
            else Some(Found(hdr % 8, rtype.value, payload.value, p3 + payloadLen))
  }

  /** The walk through one record, once the header's bits and lengths are known. */
  lemma RecordReads(m: seq<byte>, i: nat, long: bool, n: nat, ided: bool, idLen: nat)
    requires i + 1 < |m| && (m[i] / 0x10 % 2 == 1 <==> !long) && (m[i] / 0x08 % 2 == 1 <==> ided)
    requires var w := if long then 4 else 1;
             var p := i + 2 + w + (if ided then 1 else 0);
             && p + idLen + m[i + 1] as int + n <= |m|
             && (if long then FromBe32(m[i + 2..i + 6]) == n else m[i + 2] == n)
             && (if ided then m[i + 2 + w] == idLen else idLen == 0)
    ensures var p := i + 2 + (if long then 4 else 1) + (if ided then 1 else 0) + idLen;
            var q := p + m[i + 1] as int;
            RecordAt(m, i) == Some(Found(m[i] % 8, m[p..q], m[q..q + n], q + n))
  {
    hide FromBe32;
    assert long ==> Slice(m, i + 2, 4) == Some(m[i + 2..i + 6]);
    assert !long ==> m[i + 2..i + 3] == [m[i + 2]] && Slice(m, i + 2, 1) == Some([m[i + 2]]);
  }

  /** A printed record is read back where it stands, whatever surrounds it. */
  lemma RecordAtPrinted(pre: seq<byte>, r: Record, post: seq<byte>)
    requires WellFormed(r)
    ensures RecordAt(pre + Print(r) + post, |pre|) == Some(Found(r.tnf, r.rtype, r.payload, |pre| + |Print(r)|))
  {
    hide RecordAt, Flags, Print;
    var m, i, n := pre + Print(r) + post, |pre|, |r.payload|;
    PrintLayout(pre, r, post);
    FlagBits(r);
    LengthOf(m, i + 2, n);
    RecordReads(m, i, n >= 256, n, false, 0);
  }

  lemma LengthOf(m: seq<byte>, p: nat, n: nat)
    requires n < 0x1_0000_0000 && p + |PayloadLength(n)| <= |m| && m[p..p + |PayloadLength(n)|] == PayloadLength(n)
    ensures |PayloadLength(n)| == if n < 256 then 1 else 4
    ensures if n < 256 then m[p] == n else FromBe32(m[p..p + 4]) == n
  {
    if n < 256 { assert m[p] == m[p..p + 1][0]; } else { RoundTrip32(n); }
  }

  lemma PrintLayout(pre: seq<byte>, r: Record, post: seq<byte>)
    requires WellFormed(r)
    ensures var m, i := pre + Print(r) + post, |pre|;
            var t := i + 2 + |PayloadLength(|r.payload|)|;
            && t + |r.rtype| + |r.payload| == i + |Print(r)| <= |m|
            && m[i] == Flags(r) && m[i + 1] == |r.rtype|
            && m[i + 2..t] == PayloadLength(|r.payload|)
            && m[t..t + |r.rtype|] == r.rtype
            && m[t + |r.rtype|..t + |r.rtype| + |r.payload|] == r.payload
  {
    hide Flags, PayloadLength;
    FiveParts(pre, [Flags(r), |r.rtype|], PayloadLength(|r.payload|), r.rtype, r.payload, post);
  }

  /** Parts laid end to end, each at the sum of the lengths before it. */
  lemma FiveParts(pre: seq<byte>, a: seq<byte>, b: seq<byte>, c: seq<byte>, d: seq<byte>, post: seq<byte>)
    ensures var m, i := pre + (a + b + c + d) + post, |pre|;
            var j := i + |a|;
            var k := j + |b|;
            m[i..j] == a && m[j..k] == b && m[k..k + |c|] == c && m[k + |c|..k + |c| + |d|] == d
  {
    var m, i, n := pre + (a + b + c + d) + post, |pre|, |a + b + c + d|;
    Within(m, i, a + b + c + d, 0, a);
    Within(m, i, a + b + c + d, |a|, b);
    Within(m, i, a + b + c + d, |a| + |b|, c);
    Within(m, i, a + b + c + d, |a| + |b| + |c|, d);
  }

  lemma Within(m: seq<byte>, i: nat, whole: seq<byte>, j: nat, part: seq<byte>)
    requires i + |whole| <= |m| && m[i..i + |whole|] == whole
    requires j + |part| <= |whole| && whole[j..j + |part|] == part
    ensures m[i + j..i + j + |part|] == part
  {
    forall x | 0 <= x < |part| ensures m[i + j + x] == part[x] {
      assert m[i + j + x] == whole[j + x] == whole[j..j + |part|][x];
    }
  }

  lemma FlagBits(r: Record)
    requires WellFormed(r)
    ensures (Flags(r) / 0x10) % 2 == (if |r.payload| < 256 then 1 else 0)
    ensures (Flags(r) / 0x08) % 2 == 0 && Flags(r) % 8 == r.tnf
    ensures Flags(r) / 0x80 == (if r.mb then 1 else 0) && (Flags(r) / 0x40) % 2 == (if r.me then 1 else 0)
  {
  }

  // ------------------------------------------------------- walking a message

  /** Where the loop of `fix_me_flag` stops: the header of the last record it reaches. */
  function LastHeader(msg: seq<byte>, i: nat): (h: nat)
    requires i < |msg|
    ensures i <= h < |msg|
    decreases |msg| - i
  {
    var r := RecordAt(msg, i);
    if r.None? || r.value.next >= |msg| then i else LastHeader(msg, r.value.next)
  }

  function SetMe(b: byte): byte { if (b / 0x40) % 2 == 1 then b else b + 0x40 }

  function FixMe(msg: seq<byte>): (r: seq<byte>)
    ensures |r| == |msg|
  {
    if msg == [] then msg else var h := LastHeader(msg, 0); msg[h := SetMe(msg[h])]
  }

  /** `fix_me_flag`, with its cursor loop. */
  method FixMeFlag(msg: array<byte>)
    modifies msg
    ensures msg[..] == FixMe(old(msg[..]))
  {
    var i := 0;
    var last: Option<nat> := None;
    while i < msg.Length
      invariant 0 <= i
      invariant msg[..] == old(msg[..])
      invariant msg.Length == 0 ==> last == None
      invariant msg.Length > 0 ==> i < msg.Length && LastHeader(msg[..], 0) == LastHeader(msg[..], i)
      decreases msg.Length - i
    {
      last := Some(i);
      var r := RecordAt(msg[..], i);
      if r.None? || r.value.next <= i || r.value.next >= msg.Length { break; }
      i := r.value.next;
    }
    if last.Some? {
      var h := last.value;
      msg[h] := SetMe(msg[h]);
    }
  }

  // -------------------------------------------------------------- content

  /** The plate's content; the strings are UTF-8. */
  datatype Content = Content(
    name: seq<byte>, email: seq<byte>, github: seq<byte>, x: seq<byte>, note: seq<byte>,
    url: seq<byte>, image: Option<MonoImage>)

  const EMPTY := Content([], [], [], [], [], [], None)

  function TextFields(c: Content): seq<seq<byte>> { [c.name, c.email, c.github, c.x, c.note] }

  function TextPayload(c: Content): seq<byte> { Join(TextFields(c)) }

  /** Every string is UTF-8, as a Rust `String` always is, and an image is a valid one. */
  predicate Typed(c: Content) {
    && (forall i :: 0 <= i < 5 ==> ValidUtf8(TextFields(c)[i]))
    && ValidUtf8(c.url)
    && (c.image.Some? ==> ValidImage(c.image.value))
  }

  /** "en", with its length byte */
  const LANGUAGE: seq<byte> := [0x02, 0x65, 0x6E]

  /** The URI record as written, its one-byte length truncated. */
  function UrlBytes(c: Content): seq<byte> {
    if c.url == [] then [] else [0x91, 0x01, (|c.url| + 1) % 256, 0x55, 0x04] + c.url
  }

  /** The text record as written, its one-byte length truncated. */
  function TextBytes(c: Content, last: bool): seq<byte> {
    [0x11 + (if last then 0x40 else 0) + (if c.url == [] then 0x80 else 0), 0x01, (|TextPayload(c)| + 3) % 256, 0x54]
    + LANGUAGE + TextPayload(c)
  }

  function Head(c: Content, last: bool): seq<byte> { UrlBytes(c) + TextBytes(c, last) }

  predicate TooBig(img: MonoImage) { 4 + |img.bits| > MAX_IMAGE_RECORD }

  function ImageRecord(img: MonoImage): seq<byte>
    requires !TooBig(img)
  {
    var payload := Encode(img);
    (if |payload| < 256 then [0x52, |IMAGE_MIME|, |payload|] else [0x42, |IMAGE_MIME|] + Be32(|payload|))
    + IMAGE_MIME + payload
  }

  /** The message `to_ndef` builds, for every content. */
  function ToNdef(c: Content): seq<byte> {
    match c.image
    case None => Head(c, true)
    case Some(img) => if TooBig(img) then FixMe(Head(c, false)) else Head(c, false) + ImageRecord(img)
  }

  method JoinFields(c: Content) returns (t: seq<byte>)
    ensures t == TextPayload(c)
  {
    var parts := TextFields(c);
    t := parts[0];
    for i := 1 to 5
      invariant Join(parts) == t + (if i == 5 then [] else [LF] + Join(parts[i..]))
    {
      t := t + [LF] + parts[i];
    }
  }

  method PushUrl(msg: seq<byte>, c: Content) returns (m: seq<byte>, first: bool)
    ensures m == msg + UrlBytes(c) && first == (c.url == [])
  {
    m, first := msg, true;
    if c.url != [] {
      m := m + [0x91, 0x01, (|c.url| + 1) % 256, 0x55, 0x04];
      m := m + c.url;
      first := false;
    }
  }

  method PushText(msg: seq<byte>, c: Content, first: bool) returns (m: seq<byte>)
    requires first == (c.url == [])
    ensures m == msg + TextBytes(c, c.image.None?)
  {
    var text := JoinFields(c);
    var hdr: byte := 0x11;
    if c.image.None? { hdr := hdr + 0x40; }
    if first { hdr := hdr + 0x80; }
    m := msg + [hdr, 0x01, (|text| + 3) % 256, 0x54];
    m := m + LANGUAGE;
    m := m + text;
  }

  method PushImage(msg: seq<byte>, img: MonoImage) returns (m: seq<byte>)
    requires !TooBig(img)
    ensures m == msg + ImageRecord(img)
  {
    var payload := Encode(img);
    m := msg + [0x52, |IMAGE_MIME|];
    if |payload| < 256 {
      m := m + [|payload|];
    } else {
      m := m[|m| - 2 := 0x42];
      m := m + Be32(|payload|);
    }
    m := m + IMAGE_MIME;
    m := m + payload;
  }

  method Repaired(msg: seq<byte>) returns (m: seq<byte>)
    ensures m == FixMe(msg)
  {
    var a := new byte[|msg|](i requires 0 <= i < |msg| => msg[i]);
    assert a[..] == msg;
    FixMeFlag(a);
    m := a[..];
  }

  /** `to_ndef`: pushes onto a message buffer, and repairs the last flag when an image stays out. */
  method BuildNdef(c: Content) returns (msg: seq<byte>)
    ensures msg == ToNdef(c)
  {
    hide UrlBytes, TextBytes, ImageRecord, FixMe;
    var first;
    msg, first := PushUrl([], c);
    assert msg == UrlBytes(c);
    msg := PushText(msg, c, first);
    if c.image.Some? {
      if TooBig(c.image.value) {
        msg := Repaired(msg);
        return;
      }
      msg := PushImage(msg, c.image.value);
    }
  }

  // ------------------------------------------------------ the message is sound

  /** Both one-byte record lengths hold: the text (with its separators) and the URL are short enough. */
  predicate ShortLengths(c: Content) { |TextPayload(c)| <= 252 && |c.url| <= 254 }

  predicate Carries(c: Content) { c.image.Some? && !TooBig(c.image.value) }

  /** The records the message is meant to hold. */
  function Records(c: Content): seq<Record> {
    UrlRecords(c)
    + [Record(c.url == [], !Carries(c), 1, TYPE_T, LANGUAGE + TextPayload(c))]
    + (if Carries(c) then [Record(false, true, 2, IMAGE_MIME, Encode(c.image.value))] else [])
  }

  lemma HeadIsPrinted(c: Content, last: bool)
    requires ShortLengths(c)
    ensures c.url != [] ==> UrlBytes(c) == Print(Record(true, false, 1, TYPE_U, [0x04] + c.url))
    ensures TextBytes(c, last) == Print(Record(c.url == [], last, 1, TYPE_T, LANGUAGE + TextPayload(c)))
  {
  }

  function UrlRecords(c: Content): seq<Record> {
    if c.url == [] then [] else [Record(true, false, 1, TYPE_U, [0x04] + c.url)]
  }

  /** In a message of one or two records the walk ends at the last one's header. */
  lemma LastOfPrinted(u: seq<Record>, t: Record)
    requires |u| <= 1 && AllWellFormed(u) && WellFormed(t)
    ensures |Print(t)| > 0 && LastHeader(PrintAll(u) + Print(t), 0) == |PrintAll(u)|
  {
    hide Print;
    hide RecordAt;
    var pu, pt := PrintAll(u), Print(t);
    RecordAtPrinted(pu, t, []);
    assert pu + pt + [] == pu + pt;
    assert LastHeader(pu + pt, |pu|) == |pu|;
    if |u| == 1 {
      assert PrintAll(u[1..]) == [];
      assert pu == Print(u[0]) + [] == Print(u[0]);
      RecordAtPrinted([], u[0], pt);
      assert [] + pu + pt == pu + pt;
    } else {
      assert pu == [];
    }
  }

  lemma SetMeOnly(u: seq<byte>, t: seq<byte>)
    requires t != []
    ensures (u + t)[|u| := SetMe(t[0])] == u + t[0 := SetMe(t[0])]
  {
  }

  /** The repaired header is the text record's, exactly as if no image had been there. */
  lemma RepairedHead(c: Content)
    requires ShortLengths(c)
    ensures LastHeader(Head(c, false), 0) == |UrlBytes(c)|
    ensures FixMe(Head(c, false)) == Head(c, true)
  {
    hide LastHeader, RecordAt, Flags, PayloadLength;
    var u := UrlRecords(c);
    HeadIsPrinted(c, false);
    assert PrintAll(u) == UrlBytes(c) by { hide Print; }
    LastOfPrinted(u, Record(c.url == [], false, 1, TYPE_T, LANGUAGE + TextPayload(c)));
    SetMeOnly(UrlBytes(c), TextBytes(c, false));
    assert TextBytes(c, true) == TextBytes(c, false)[0 := SetMe(TextBytes(c, false)[0])];
  }

  lemma {:induction false} PrintAllConcat(a: seq<Record>, b: seq<Record>)
    requires AllWellFormed(a) && AllWellFormed(b)
    ensures PrintAll(a + b) == PrintAll(a) + PrintAll(b)
  {
    hide Print;
    if a == [] {
      assert a + b == b;
    } else {
      PrintAllConcat(a[1..], b);
      assert (a + b)[1..] == a[1..] + b;
    }
  }

  lemma ImageIsPrinted(img: MonoImage)
    requires !TooBig(img)
    ensures ImageRecord(img) == Print(Record(false, true, 2, IMAGE_MIME, Encode(img)))
  {
  }

  /** What is pushed is the printed form of the intended records. */
  lemma ToNdefPrints(c: Content)
    requires ShortLengths(c)
    ensures AllWellFormed(Records(c))
    ensures ToNdef(c) == PrintAll(Records(c))
  {
    var us := UrlRecords(c);
    var ts := [Record(c.url == [], !Carries(c), 1, TYPE_T, LANGUAGE + TextPayload(c))];
    HeadIsPrinted(c, !Carries(c));
    PrintAllConcat(us, ts);
    assert PrintAll(us + ts) == Head(c, !Carries(c));
    if Carries(c) {
      var img := c.image.value;
      var pics := [Record(false, true, 2, IMAGE_MIME, Encode(img))];
      ImageIsPrinted(img);
      PrintAllConcat(us + ts, pics);
    } else {
      RepairedHead(c);
      assert Records(c) == us + ts;
    }
  }

  /** The records a reader finds from offset `i`, with their offsets; none if
      the walk does not end exactly at the end. */
  function Walk(msg: seq<byte>, i: nat): Option<seq<(nat, Found)>>
    requires i <= |msg|
    decreases |msg| - i
  {
    if i == |msg| then Some([])
    else
      var r := RecordAt(msg, i);
      if r.None? then None
      else
        var rest := Walk(msg, r.value.next);
        if rest.None? then None else Some([(i, r.value)] + rest.value)
  }

  predicate Reads(msg: seq<byte>, hit: (nat, Found), r: Record) {
    && hit.0 < |msg|
    && (msg[hit.0] / 0x80 == 1 <==> r.mb)
    && ((msg[hit.0] / 0x40) % 2 == 1 <==> r.me)
    && hit.1.tnf == r.tnf && hit.1.rtype == r.rtype && hit.1.payload == r.payload
  }

  /** Walking printed records finds each of them, and ends exactly at the end. */
  lemma {:induction false} WalkPrinted(pre: seq<byte>, rs: seq<Record>)
    requires AllWellFormed(rs)
    ensures var msg := pre + PrintAll(rs);
            var w := Walk(msg, |pre|);
            w.Some? && |w.value| == |rs| && forall k :: 0 <= k < |rs| ==> Reads(msg, w.value[k], rs[k])
    decreases |rs|
  {
    hide Print, RecordAt;
    if rs != [] {
      var p, post := Print(rs[0]), PrintAll(rs[1..]);
      var msg := pre + PrintAll(rs);
      assert msg == pre + p + post;
      RecordAtPrinted(pre, rs[0], post);
      FirstFlags(pre, rs[0], post);
      WalkPrinted(pre + p, rs[1..]);
      assert Walk(msg, |pre|).value[0] == (|pre|, RecordAt(msg, |pre|).value);
    }
  }

  lemma FirstFlags(pre: seq<byte>, r: Record, post: seq<byte>)
    requires WellFormed(r)
    ensures var msg := pre + Print(r) + post;
            |msg| > |pre| && (msg[|pre|] / 0x80 == 1 <==> r.mb) && ((msg[|pre|] / 0x40) % 2 == 1 <==> r.me)
  {
    FlagBits(r);
    assert (pre + Print(r) + post)[|pre|] == Flags(r);
  }

  /** The served message is well formed: read from the start it yields exactly
      the intended records and ends at its end; only the first record says
      "message begin" and only the last says "message end", also when an image
      was left out and the flag repaired. */
  lemma MessageWellFormed(c: Content)
    requires ShortLengths(c)
    ensures var msg, rs := ToNdef(c), Records(c);
            var w := Walk(msg, 0);
            && w.Some? && |w.value| == |rs|
            && forall k :: 0 <= k < |rs| ==>
                 && Reads(msg, w.value[k], rs[k])
                 && (msg[w.value[k].0] / 0x80 == 1 <==> k == 0)
                 && ((msg[w.value[k].0] / 0x40) % 2 == 1 <==> k == |rs| - 1)
  {
    hide ToNdef, Walk, PrintAll;
    var rs := Records(c);
    ToNdefPrints(c);
    WalkPrinted([], rs);
    assert [] + PrintAll(rs) == ToNdef(c);
    assert forall k :: 0 <= k < |rs| ==> (rs[k].mb <==> k == 0) && (rs[k].me <==> k == |rs| - 1);
  }

  /** A short record is cut where its length byte says, whatever the length should have been. */
  lemma ShortRecordAt(pre: seq<byte>, hdr: byte, n: byte, kind: byte, body: seq<byte>)
    requires (hdr / 0x10) % 2 == 1 && (hdr / 0x08) % 2 == 0 && n <= |body|
    ensures RecordAt(pre + [hdr, 0x01, n, kind] + body, |pre|)
            == Some(Found(hdr % 8, [kind], body[..n], |pre| + 4 + n))
  {
    var m, i := pre + [hdr, 0x01, n, kind] + body, |pre|;
    assert m[i] == hdr && m[i + 1] == 1;
    assert m[i + 2..i + 3] == [n];
    assert m[i + 3..i + 4] == [kind];
    assert m[i + 4..i + 4 + n] == body[..n];
  }

  lemma TextRecordAt(c: Content, last: bool)
    ensures var n := (|TextPayload(c)| + 3) % 256;
            RecordAt(Head(c, last), |UrlBytes(c)|)
            == Some(Found(1, TYPE_T, (LANGUAGE + TextPayload(c))[..n], |UrlBytes(c)| + 4 + n))
  {
    hide RecordAt, UrlBytes;
    var n := (|TextPayload(c)| + 3) % 256;
    var t, body := TextBytes(c, last), LANGUAGE + TextPayload(c);
    assert t == [t[0], 0x01, n, 0x54] + body;
    assert UrlBytes(c) + [t[0], 0x01, n, 0x54] + body == Head(c, last);
    ShortRecordAt(UrlBytes(c), t[0], n, 0x54, body);
  }

  /** The text record is read back with its whole payload exactly when the
      text is at most 252 bytes: beyond that the length byte wraps around. */
  lemma TextRecordExact(c: Content)
    requires c.image.None?
    ensures var f := RecordAt(ToNdef(c), |UrlBytes(c)|);
            f.Some? && f.value.payload == LANGUAGE + TextPayload(c) <==> |TextPayload(c)| <= 252
  {
    hide RecordAt, UrlBytes, TextBytes;
    TextRecordAt(c, true);
  }

  /** Does a walk over record headers from `i` come to one at `t`? */
  predicate Reaches(msg: seq<byte>, i: nat, t: nat)
    decreases |msg| - i
  {
    i == t
    || (i < |msg| && var r := RecordAt(msg, i); r.Some? && r.value.next < |msg| && Reaches(msg, r.value.next, t))
  }

  /** The walk ends at a header exactly when it comes there and gets no further. */
  lemma {:induction false} EndsWhereReached(msg: seq<byte>, i: nat, t: nat)
    requires i < |msg| && t < |msg|
    ensures LastHeader(msg, i) == t <==> Reaches(msg, i, t) && LastHeader(msg, t) == t
    decreases |msg| - i
  {
    hide RecordAt;
    if i != t {
      var r := RecordAt(msg, i);
      if r.Some? && r.value.next < |msg| { EndsWhereReached(msg, r.value.next, t); }
    }
  }

  /** Does the walk from the first record come to the text record? It does
      unless the URL record's one-byte length wraps around. */
  predicate FindsText(c: Content) { Reaches(Head(c, false), 0, |UrlBytes(c)|) }

  lemma ShortUrlFindsText(c: Content)
    requires |c.url| <= 254
    ensures FindsText(c)
  {
    hide RecordAt, UrlBytes;
    var t := |UrlBytes(c)|;
    assert Reaches(Head(c, false), t, t);
    if c.url != [] {
      UrlRecordAt(c, TextBytes(c, false));
    } else {
      assert t == 0 by { NoUrl(c); }
    }
  }

  lemma NoUrl(c: Content)
    requires c.url == []
    ensures UrlBytes(c) == []
  {
  }

  /** A URL of 255 letters `a`: the record seems empty, and the walk ends in the middle of it. */
  lemma LongUrlHidesText(c: Content)
    requires c.url == seq(255, _ => 97) && |TextPayload(c)| <= MAX_TEXT_PAYLOAD
    ensures !FindsText(c)
  {
    hide Reaches, TextPayload;
    var msg := Head(c, false);
    assert |msg| == 267 + |TextPayload(c)|;
    assert msg[..9] == [0x91, 0x01, 0x00, 0x55, 0x04, 97, 97, 97, 97];
    assert msg[9] == 97;
    var first := RecordAt(msg, 0);
    assert first.Some? && first.value.next == 4;
    StuckAt4(msg);
    ReachesOnce(msg, |UrlBytes(c)|);
  }

  lemma StuckAt4(msg: seq<byte>)
    requires 10 <= |msg| < 0x1000_0000 && msg[4] == 0x04 && msg[5] == msg[6] == msg[7] == msg[8] == msg[9] == 97
    ensures RecordAt(msg, 4) == None
  {
  }

  lemma ReachesOnce(msg: seq<byte>, t: nat)
    requires t > 4 && |msg| > 4
    requires RecordAt(msg, 0).Some? && RecordAt(msg, 0).value.next == 4 && RecordAt(msg, 4) == None
    ensures !Reaches(msg, 0, t)
  {
  }

  /** The repair mends the text record's header exactly when the walk finds
      that record and its own length byte does not wrap around. */
  lemma RepairExact(c: Content)
    ensures FixMe(Head(c, false)) == Head(c, true) <==> FindsText(c) && |TextPayload(c)| <= 252
  {
    hide RecordAt, LastHeader, Reaches, TextPayload, UrlBytes;
    var msg, i := Head(c, false), |UrlBytes(c)|;
    TextIsLast(c);
    EndsWhereReached(msg, 0, i);
    SetMeOnly(UrlBytes(c), TextBytes(c, false));
    assert TextBytes(c, true) == TextBytes(c, false)[0 := SetMe(TextBytes(c, false)[0])];
    if LastHeader(msg, 0) != i {
      assert FixMe(msg)[i] == msg[i] == TextBytes(c, false)[0] != TextBytes(c, true)[0] == Head(c, true)[i];
    }
  }

  lemma TextIsLast(c: Content)
    ensures |UrlBytes(c)| < |Head(c, false)|
    ensures LastHeader(Head(c, false), |UrlBytes(c)|) == |UrlBytes(c)| <==> |TextPayload(c)| <= 252
  {
    hide RecordAt, UrlBytes;
    TextRecordAt(c, false);
  }

  /** An image that stays out of the message leaves no trace in it, whether it
      is in memory or not, exactly when the text record is found and its length
      byte does not wrap around. */
  lemma BigImageLeavesNoTrace(c: Content, img: MonoImage)
    requires TooBig(img)
    ensures ToNdef(c.(image := Some(img))) == ToNdef(c.(image := None)) <==> FindsText(c) && |TextPayload(c)| <= 252
  {
    hide FixMe, Reaches;
    var resident, evicted := c.(image := Some(img)), c.(image := None);
    assert Head(resident, true) == Head(evicted, true) && Head(resident, false) == Head(c, false);
    RepairExact(resident);
  }

  lemma UrlRecordAt(c: Content, post: seq<byte>)
    requires 1 <= |c.url| <= 254
    ensures RecordAt(UrlBytes(c) + post, 0) == Some(Found(1, TYPE_U, [0x04] + c.url, |UrlBytes(c)|))
  {
    hide RecordAt;
    var r := Record(true, false, 1, TYPE_U, [0x04] + c.url);
    assert UrlBytes(c) == Print(r);
    RecordAtPrinted([], r, post);
    assert [] + UrlBytes(c) + post == UrlBytes(c) + post;
  }

  // ------------------------------------------------------ adopting a message

  /** "https://" and "http://" */
  const HTTPS: seq<byte> := [104, 116, 116, 112, 115, 58, 47, 47]
  const HTTP: seq<byte> := [104, 116, 116, 112, 58, 47, 47]
  const WWW: seq<byte> := [119, 119, 119, 46]

  /** `uri_prefix`: the identifier codes of the URI record type the firmware knows. */
  function UriPrefix(code: byte): seq<byte> {
    match code
    case 1 => HTTP + WWW
    case 2 => HTTPS + WWW
    case 3 => HTTP
    case 4 => HTTPS
    case 5 => [116, 101, 108, 58]
    case 6 => [109, 97, 105, 108, 116, 111, 58]
    case _ => []
  }

  function StripScheme(url: seq<byte>): (r: seq<byte>)
    ensures |r| <= |url| && (r == url <==> !(HTTPS <= url) && !(HTTP <= url)) && (|r| == |url| ==> r == url)
    ensures forall b :: Has(r, b) ==> Has(url, b)
  {
    TrimStart(TrimStart(url, HTTPS), HTTP)
  }

  /** The five text fields, line by line, `;` standing for a line feed. */
  function AdoptText(c: Content, text: seq<byte>): Content {
    var t := Replace(text);
    c.(name := Line(t, 0), email := Line(t, 1), github := TrimStart(Line(t, 2), [AT]),
       x := TrimStart(Line(t, 3), [AT]), note := Line(t, 4))
  }

  function AdoptImage(c: Content, payload: seq<byte>): Content {
    var raw := if B64_TAG <= payload then Base64.Decode(payload[4..]) else Some(payload);
    var img := if raw.Some? then Decode(raw.value) else None;
    if img.Some? then c.(image := img) else c
  }

  function AdoptUrl(c: Content, payload: seq<byte>): Content {
    if payload == [] then c else c.(url := StripScheme(UriPrefix(payload[0]) + Lossy(payload[1..])))
  }

  /** The text behind a text record's language code. */
  function TextOf(payload: seq<byte>): Option<seq<byte>> {
    var langLen := if payload == [] then 0 else payload[0] % 0x40;
    if 1 + langLen <= |payload| then Some(payload[1 + langLen..]) else None
  }

  /** The effect of one record on the content; unknown records have none. */
  function Adopt(c: Content, tnf: nat, rtype: seq<byte>, payload: seq<byte>): Content {
    if tnf == 1 && rtype == TYPE_T then
      var text := TextOf(payload);
      if text.Some? then AdoptText(c, Lossy(text.value)) else c
    else if tnf == 2 && rtype == IMAGE_MIME then AdoptImage(c, payload)
    else if tnf == 1 && rtype == TYPE_U then AdoptUrl(c, payload)
    else c
  }

  /** `apply_ndef` from offset `i`. */
  function ApplyFrom(c: Content, msg: seq<byte>, i: nat): Content
    decreases |msg| - i
  {
    var r := RecordAt(msg, i);
    if r.None? then c
    else
      var c' := Adopt(c, r.value.tnf, r.value.rtype, r.value.payload);
      if r.value.next >= |msg| then c' else ApplyFrom(c', msg, r.value.next)
  }

  function ApplyNdef(c: Content, msg: seq<byte>): Content { ApplyFrom(c, msg, 0) }

  /** `apply_ndef`, with its cursor loop. */
  method ApplyNdefLoop(content: Content, msg: seq<byte>) returns (c: Content)
    ensures c == ApplyNdef(content, msg)
  {
    c := content;
    var i := 0;
    while true
      invariant 0 <= i && ApplyFrom(c, msg, i) == ApplyNdef(content, msg)
      decreases |msg| - i
    {
      var r := RecordAt(msg, i);
      if r.None? { return; }
      c := Adopt(c, r.value.tnf, r.value.rtype, r.value.payload);
      if r.value.next <= i || r.value.next >= |msg| { return; }
      i := r.value.next;
    }
  }

  function AdoptAll(c: Content, rs: seq<Record>): Content
    decreases |rs|
  {
    if rs == [] then c else AdoptAll(Adopt(c, rs[0].tnf, rs[0].rtype, rs[0].payload), rs[1..])
  }

  /** Applying printed records applies each of them in turn. */
  lemma {:induction false} ApplyPrinted(c: Content, pre: seq<byte>, rs: seq<Record>)
    requires AllWellFormed(rs)
    ensures ApplyFrom(c, pre + PrintAll(rs), |pre|) == AdoptAll(c, rs)
    decreases |rs|
  {
    hide Print, RecordAt, Adopt;
    var msg := pre + PrintAll(rs);
    if rs == [] {
      NoRecordAtEnd(msg);
      assert msg == pre;
    } else {
      var p, post := Print(rs[0]), PrintAll(rs[1..]);
      assert msg == pre + p + post;
      RecordAtPrinted(pre, rs[0], post);
      ApplyPrinted(Adopt(c, rs[0].tnf, rs[0].rtype, rs[0].payload), pre + p, rs[1..]);
      if rs[1..] == [] { assert |msg| == |pre + p|; }
    }
  }

  lemma NoRecordAtEnd(msg: seq<byte>)
    ensures RecordAt(msg, |msg|) == None
  {
  }

  /** A raw image record can never be taken for base64 text: its width would be 13890 pixels. */
  lemma RawImageIsNotBase64(img: MonoImage)
    requires ValidImage(img)
    ensures !(B64_TAG <= Encode(img))
  {
    assert Encode(img)[0] == img.width % 256 && Encode(img)[1] == img.width / 256;
  }

  lemma AdoptEncoded(c: Content, img: MonoImage)
    requires ValidImage(img)
    ensures Adopt(c, 2, IMAGE_MIME, Encode(img)) == c.(image := Some(img))
  {
    RawImageIsNotBase64(img);
    ImageRoundTrip(img, []);
  }

  /** An image typed as "B64:" and base64 text is adopted just as its raw record is. */
  lemma AdoptBase64(c: Content, img: MonoImage, text: seq<byte>)
    requires ValidImage(img) && Base64.Data(text) == Base64.Symbols(Encode(img))
    ensures Adopt(c, 2, IMAGE_MIME, B64_TAG + text) == Adopt(c, 2, IMAGE_MIME, Encode(img))
  {
    Base64.RoundTrip(text, Encode(img));
    assert (B64_TAG + text)[4..] == text;
    AdoptEncoded(c, img);
    ImageRoundTrip(img, []);
  }

  // ------------------------------------------------------------- round trip

  predicate NoTrailingCr(s: seq<byte>) { s == [] || s[|s| - 1] != CR }

  /** The text fields survive: no line feed or `;` in any, no carriage return
      just before a separator, no `@` in front of an account name. */
  predicate CleanText(c: Content) {
    && (forall i :: 0 <= i < 5 ==> !Has(TextFields(c)[i], LF) && !Has(TextFields(c)[i], SEMICOLON))
    && NoTrailingCr(c.name) && NoTrailingCr(c.email) && NoTrailingCr(c.github) && NoTrailingCr(c.x)
    && !([AT] <= c.github) && !([AT] <= c.x)
  }

  predicate CleanUrl(c: Content) { !(HTTPS <= c.url) && !(HTTP <= c.url) }

  lemma CleanTextAdopted(d: Content, c: Content)
    requires CleanText(c)
    ensures AdoptText(d, TextPayload(c)) == c.(url := d.url, image := d.image)
  {
    var ps, t := TextFields(c), TextPayload(c);
    JoinHas(ps, SEMICOLON);
    SplitJoin(ps);
    assert Replace(t) == t && Split(t) == ps;
  }

  lemma AdoptedTextIsClean(d: Content, c: Content)
    requires TextFields(AdoptText(d, TextPayload(c))) == TextFields(c)
    ensures CleanText(c)
  {
    var ps, t := TextFields(c), TextPayload(c);
    var r := AdoptText(d, t);
    var u := Replace(t);
    assert c.name == Line(u, 0) && c.email == Line(u, 1) && c.note == Line(u, 4)
           && c.github == TrimStart(Line(u, 2), [AT]) && c.x == TrimStart(Line(u, 3), [AT]) by {
      assert TextFields(r)[0] == ps[0] && TextFields(r)[1] == ps[1] && TextFields(r)[2] == ps[2]
             && TextFields(r)[3] == ps[3] && TextFields(r)[4] == ps[4];
    }
    forall i | 0 <= i < 5
      ensures !Has(ps[i], LF) && !Has(ps[i], SEMICOLON)
    {
      assert ps[i] == if i == 2 || i == 3 then TrimStart(Line(u, i), [AT]) else Line(u, i);
    }
    JoinHas(ps, SEMICOLON);
    SplitJoin(ps);
    assert u == t && Split(u) == ps;
  }

  lemma SchemeRestored(url: seq<byte>)
    ensures StripScheme(HTTPS + url) == url <==> !(HTTPS <= url) && !(HTTP <= url)
  {
    assert (HTTPS + url)[|HTTPS|..] == url;
    assert StripScheme(HTTPS + url) == StripScheme(url);
  }

  lemma TextOfPrinted(text: seq<byte>)
    ensures TextOf(LANGUAGE + text) == Some(text)
  {
    var t := LANGUAGE + text;
    assert t[0] == 2;
    assert t[3..] == text;
  }

  lemma AdoptTextRecord(u: Content, text: seq<byte>)
    requires Lossy(text) == text
    ensures Adopt(u, 1, TYPE_T, LANGUAGE + text) == AdoptText(u, text)
  {
    hide AdoptText, Lossy, TextOf;
    TextOfPrinted(text);
  }

  /** What reading back the served message does to any content `d`. */
  lemma ReadBack(d: Content, c: Content)
    requires ShortLengths(c) && Typed(c)
    ensures ApplyNdef(d, ToNdef(c))
            == AdoptText(d, TextPayload(c)).(
                 url := if c.url == [] then d.url else StripScheme(HTTPS + c.url),
                 image := if Carries(c) then c.image else d.image)
  {
    hide ToNdef, ApplyFrom, PrintAll, AdoptText, StripScheme, ValidUtf8, Lossy, Adopt, AdoptAll;
    var rs := Records(c);
    ToNdefPrints(c);
    ApplyPrinted(d, [], rs);
    assert [] + PrintAll(rs) == ToNdef(c);
    assert ApplyNdef(d, ToNdef(c)) == AdoptAll(d, rs);
    var u := AdoptRecordUrl(d, c);
    JoinValid(TextFields(c));
    LossyIsIdentity(TextPayload(c));
    AdoptTextRecord(u, TextPayload(c));
    AdoptTextOnly(u, d, TextPayload(c));
    if Carries(c) { AdoptEncoded(AdoptText(u, TextPayload(c)), c.image.value); }
    AdoptParts(d, rs);
  }

  lemma AdoptParts(d: Content, rs: seq<Record>)
    requires 1 <= |rs| <= 3
    decreases |rs|
    ensures var a := Adopt(d, rs[0].tnf, rs[0].rtype, rs[0].payload);
            && (|rs| == 1 ==> AdoptAll(d, rs) == a)
            && (|rs| > 1 ==>
                  var b := Adopt(a, rs[1].tnf, rs[1].rtype, rs[1].payload);
                  && (|rs| == 2 ==> AdoptAll(d, rs) == b)
                  && (|rs| == 3 ==> AdoptAll(d, rs) == Adopt(b, rs[2].tnf, rs[2].rtype, rs[2].payload)))
  {
    hide Adopt;
    if |rs| > 1 {
      AdoptParts(Adopt(d, rs[0].tnf, rs[0].rtype, rs[0].payload), rs[1..]);
    }
  }

  lemma AdoptRecordUrl(d: Content, c: Content) returns (u: Content)
    requires ValidUtf8(c.url)
    ensures u == if c.url == [] then d else Adopt(d, 1, TYPE_U, [0x04] + c.url)
    ensures u == d.(url := if c.url == [] then d.url else StripScheme(HTTPS + c.url))
  {
    hide ValidUtf8, Lossy, StripScheme, AdoptUrl, AdoptText;
    u := if c.url == [] then d else Adopt(d, 1, TYPE_U, [0x04] + c.url);
    if c.url != [] {
      LossyIsIdentity(c.url);
      AdoptUrlPayload(d, c.url);
    }
  }

  lemma AdoptUrlPayload(d: Content, url: seq<byte>)
    requires Lossy(url) == url
    ensures AdoptUrl(d, [0x04] + url) == d.(url := StripScheme(HTTPS + url))
  {
    hide Lossy, StripScheme;
    assert ([0x04] + url)[1..] == url;
  }

  lemma AdoptTextOnly(u: Content, d: Content, text: seq<byte>)
    ensures AdoptText(u, text) == AdoptText(d, text).(url := u.url, image := u.image)
  {
  }

  /** What the plate serves is what the next reader adopts: an empty plate gets
      the very content back exactly when its strings are clean and its image,
      if any, is small enough to be served. */
  lemma RoundTrip(c: Content)
    requires ShortLengths(c) && Typed(c)
    ensures ApplyNdef(EMPTY, ToNdef(c)) == c
            <==> CleanText(c) && CleanUrl(c) && (c.image.None? || !TooBig(c.image.value))
  {
    hide AdoptText, ToNdef, ApplyNdef;
    ReadBack(EMPTY, c);
    SchemeRestored(c.url);
    var r := ApplyNdef(EMPTY, ToNdef(c));
    if CleanText(c) { CleanTextAdopted(EMPTY, c); }
    if r == c {
      assert TextFields(AdoptText(EMPTY, TextPayload(c))) == TextFields(r);
      AdoptedTextIsClean(EMPTY, c);
    }
  }

  /** Reading a stored message over any content restores the stored one, the
      image aside, exactly when its strings are clean and it has a URL to put
      in the place of another. */
  lemma RestoreOver(d: Content, c: Content)
    requires ShortLengths(c) && Typed(c)
    ensures ApplyNdef(d, ToNdef(c)).(image := None) == c.(image := None)
            <==> CleanText(c) && CleanUrl(c) && (c.url != [] || d.url == [])
    ensures ApplyNdef(d, ToNdef(c)).image == if Carries(c) then c.image else d.image
  {
    hide AdoptText, ToNdef, ApplyNdef;
    ReadBack(d, c);
    SchemeRestored(c.url);
    var r := ApplyNdef(d, ToNdef(c));
    if CleanText(c) { CleanTextAdopted(d, c); }
    if r.(image := None) == c.(image := None) {
      assert TextFields(AdoptText(d, TextPayload(c))) == TextFields(r) == TextFields(c);
      AdoptedTextIsClean(d, c);
    }
  }

  // --------------------------------------------------------- plain-text form

  function AllFields(c: Content): seq<seq<byte>> { TextFields(c) + [c.url] }

  /** `to_plain` */
  function ToPlain(c: Content): seq<byte> { Join(AllFields(c)) }

  function PlainLine(ps: seq<seq<byte>>, i: nat): seq<byte> { if i < |ps| then Trim(ps[i]) else [] }

  /** `apply_plain`: none when the text is rejected. */
  function ApplyPlain(c: Content, text: seq<byte>): (r: Option<Content>)
    ensures r.Some? ==> |TextPayload(r.value)| <= MAX_TEXT_PAYLOAD && |r.value.url| <= MAX_URL_LEN
    ensures r.Some? ==> r.value.image == c.image
  {
    var ps := Split(text);
    var r := Content(PlainLine(ps, 0), PlainLine(ps, 1), TrimStart(PlainLine(ps, 2), [AT]),
                     TrimStart(PlainLine(ps, 3), [AT]), PlainLine(ps, 4), StripScheme(PlainLine(ps, 5)), c.image);
    assert |TextPayload(r)| == |r.name| + |r.email| + |r.github| + |r.x| + |r.note| + 4 by { JoinFive(r); }
    if |r.name| + |r.email| + |r.github| + |r.x| + |r.note| + 4 > MAX_TEXT_PAYLOAD then None
    else if |r.url| > MAX_URL_LEN then None
    else Some(r)
  }

  lemma JoinFive(c: Content)
    ensures |TextPayload(c)| == |c.name| + |c.email| + |c.github| + |c.x| + |c.note| + 4
  {
    var ps := TextFields(c);
    assert Join(ps) == ps[0] + [LF] + Join(ps[1..]);
    assert Join(ps[1..]) == ps[1] + [LF] + Join(ps[2..]) by { assert ps[1..][1..] == ps[2..]; }
    assert Join(ps[2..]) == ps[2] + [LF] + Join(ps[3..]) by { assert ps[2..][1..] == ps[3..]; }
    assert Join(ps[3..]) == ps[3] + [LF] + Join(ps[4..]) by { assert ps[3..][1..] == ps[4..]; }
  }

  /** Neither trimming nor splitting changes the fields, and they fit. */
  predicate CleanPlain(c: Content) {
    && (forall i :: 0 <= i < 6 ==>
          !Has(AllFields(c)[i], LF) && WhiteStart(AllFields(c)[i]) == 0 && WhiteEnd(AllFields(c)[i]) == 0)
    && !([AT] <= c.github) && !([AT] <= c.x) && CleanUrl(c)
    && |TextPayload(c)| <= MAX_TEXT_PAYLOAD && |c.url| <= MAX_URL_LEN
  }

  lemma CleanPlainAdopted(c: Content)
    requires CleanPlain(c)
    ensures ApplyPlain(c, ToPlain(c)) == Some(c)
  {
    hide Join, Split, StripScheme, Trim, TrimStart, WhiteStart, WhiteEnd;
    var ps := AllFields(c);
    assert Split(ToPlain(c)) == ps by { SplitJoin(ps); }
    JoinFive(c);
    forall i | 0 <= i < 6
      ensures PlainLine(ps, i) == ps[i]
    {
    }
    assert c == Content(ps[0], ps[1], ps[2], ps[3], ps[4], ps[5], c.image);
  }

  lemma PlainLineHas(ps: seq<seq<byte>>, i: nat)
    requires forall k :: 0 <= k < |ps| ==> !Has(ps[k], LF)
    ensures !Has(PlainLine(ps, i), LF)
  {
    if i < |ps| { TrimHas(ps[i], LF); }
  }

  lemma PlainFieldsClean(c: Content)
    requires ApplyPlain(c, ToPlain(c)) == Some(c)
    ensures CleanPlain(c)
  {
    hide Join, Split, StripScheme, Trim, TrimStart, WhiteStart, WhiteEnd;
    var ps, qs := AllFields(c), Split(ToPlain(c));
    forall i | 0 <= i < 6
      ensures !Has(ps[i], LF)
    {
      PlainLineHas(qs, i);
    }
    assert qs == ps by { SplitJoin(ps); }
  }

  /** Writing back the text the plate hands out changes nothing exactly when
      the fields are clean and within the caps. */
  lemma PlainRoundTrip(c: Content)
    ensures ApplyPlain(c, ToPlain(c)) == Some(c) <==> CleanPlain(c)
  {
    if CleanPlain(c) { CleanPlainAdopted(c); }
    if ApplyPlain(c, ToPlain(c)) == Some(c) { PlainFieldsClean(c); }
  }
}
