/**
 The plate's formats byte by byte, and what it makes of records other programs
 write: abbreviated URIs, records with an ID, text with other separators.
 */
module PlateLaws {
  import opened Bytes
  import opened Text
  import opened TextLaws
  import opened Plate
  import Base64

  // ------------------------------------------------------------------ layouts

  /** The text of a card: name, mail, GitHub account, X account, note, a line
      feed between each two; the plain form has the URL behind another. */
  lemma TextLayout(c: Content)
    ensures TextPayload(c) == c.name + [10] + c.email + [10] + c.github + [10] + c.x + [10] + c.note
    ensures ToPlain(c) == c.name + [10] + c.email + [10] + c.github + [10] + c.x + [10] + c.note + [10] + c.url
  {
    JoinFiveParts(c.name, c.email, c.github, c.x, [c.note]);
    JoinFiveParts(c.name, c.email, c.github, c.x, [c.note, c.url]);
    assert TextFields(c) == [c.name, c.email, c.github, c.x] + [c.note];
    assert AllFields(c) == [c.name, c.email, c.github, c.x] + [c.note, c.url];
    assert Join([c.note]) == c.note;
    assert Join([c.note, c.url]) == c.note + [10] + c.url by { assert [c.note, c.url][1..] == [c.url]; }
    assert c.name + [10] + c.email + [10] + c.github + [10] + c.x + [10] + (c.note + [10] + c.url)
        == c.name + [10] + c.email + [10] + c.github + [10] + c.x + [10] + c.note + [10] + c.url;
  }

  lemma JoinFiveParts(a: seq<byte>, b: seq<byte>, c: seq<byte>, d: seq<byte>, rest: seq<seq<byte>>)
    requires rest != []
    ensures Join([a, b, c, d] + rest) == a + [10] + b + [10] + c + [10] + d + [10] + Join(rest)
  {
    JoinCons(d, rest);
    JoinCons(c, [d] + rest);
    JoinCons(b, [c, d] + rest);
    JoinCons(a, [b, c, d] + rest);
    assert [c] + ([d] + rest) == [c, d] + rest && [b] + ([c, d] + rest) == [b, c, d] + rest;
    assert [a] + ([b, c, d] + rest) == [a, b, c, d] + rest;
    Regroup(a, b, c, d, Join(rest));
  }

  lemma JoinCons(a: seq<byte>, rest: seq<seq<byte>>)
    requires rest != []
    ensures Join([a] + rest) == a + [10] + Join(rest)
  {
    assert ([a] + rest)[1..] == rest;
  }

  lemma Regroup(a: seq<byte>, b: seq<byte>, c: seq<byte>, d: seq<byte>, e: seq<byte>)
    ensures a + [10] + (b + [10] + (c + [10] + (d + [10] + e))) == a + [10] + b + [10] + c + [10] + d + [10] + e
  {
  }

  /** An image on the wire: width, height, least significant byte first, then the bits. */
  lemma ImageLayout(img: MonoImage)
    ensures Encode(img) == [img.width % 256, img.width / 256, img.height % 256, img.height / 256] + img.bits
  {
  }

  /** Which images are images. */
  lemma ImageSizes(img: MonoImage)
    ensures ValidImage(img)
            <==> 1 <= img.width <= 480 && 1 <= img.height <= 800 && |img.bits| == (img.width + 7) / 8 * img.height
  {
  }

  /** The message of a card without a picture, its strings short enough. */
  lemma MessageBytes(c: Content)
    requires |TextPayload(c)| <= 252 && |c.url| <= 254 && c.image.None?
    ensures ToNdef(c)
            == (if c.url == [] then [] else [0x91, 0x01, 1 + |c.url|, 0x55, 0x04] + c.url)
               + [if c.url == [] then 0xD1 else 0x51, 0x01, 3 + |TextPayload(c)|, 0x54, 0x02, 0x65, 0x6E]
               + TextPayload(c)
  {
    hide TextPayload;
    var t, n := TextPayload(c), |TextPayload(c)|;
    assert [if c.url == [] then 0xD1 else 0x51, 0x01, 3 + n, 0x54] + ([0x02, 0x65, 0x6E] + t)
        == [if c.url == [] then 0xD1 else 0x51, 0x01, 3 + n, 0x54, 0x02, 0x65, 0x6E] + t;
  }

  /** With a picture of at most 696 bytes the text record is not the last, and
      this record follows, in long form from 252 bytes on; a larger picture stays out. */
  lemma PictureBytes(c: Content)
    requires c.image.Some?
    ensures var img := c.image.value;
            Carries(c) <==> 4 + |img.bits| <= 700
    ensures Carries(c) ==>
              var img := c.image.value;
              var n := 4 + |img.bits|;
              ToNdef(c) == UrlBytes(c) + TextBytes(c, false)
                           + (if n < 256 then [0x52, 13, n] else [0x42, 13, 0, 0, n / 256, n % 256])
                           + [0x69, 0x6D, 0x61, 0x67, 0x65, 0x2F, 0x78, 0x2D, 0x70, 0x6C, 0x61, 0x74, 0x65]
                           + Encode(img)
  {
    hide UrlBytes, TextBytes, Encode;
    if Carries(c) {
      var img := c.image.value;
      var n := |Encode(img)|;
      assert n == 4 + |img.bits| by { ImageLayout(img); }
      SmallBe32(n);
      assert [0x42, 13] + Be32(n) == [0x42, 13, 0, 0, n / 256, n % 256];
      var hdr := if n < 256 then [0x52, 13, n] else [0x42, 13, 0, 0, n / 256, n % 256];
      assert ImageRecord(img) == hdr + IMAGE_MIME + Encode(img);
      assert UrlBytes(c) + TextBytes(c, false) + (hdr + IMAGE_MIME + Encode(img))
          == UrlBytes(c) + TextBytes(c, false) + hdr + IMAGE_MIME + Encode(img);
    }
  }

  lemma SmallBe32(n: nat)
    requires n < 0x1_0000
    ensures Be32(n) == [0, 0, n / 256, n % 256]
  {
  }

  // ------------------------------------------------------------------ records

  /** A record of section 3.2 of the NDEF specification: header, type length,
      payload length, ID length if there is an ID, type, ID, payload. */
  function RecordBytes(
    flags: nat, tnf: nat, long: bool, id: Option<seq<byte>>, rtype: seq<byte>, payload: seq<byte>): seq<byte>
    requires flags < 8 && tnf < 8 && |rtype| < 256 && (id.Some? ==> |id.value| < 256)
    requires |payload| < (if long then 0x1_0000_0000 else 256)
  {
    [32 * flags + (if long then 0 else 16) + (if id.Some? then 8 else 0) + tnf, |rtype|]
    + Lengths(long, |payload|, id) + (rtype + Ident(id)) + payload
  }

  function Ident(id: Option<seq<byte>>): seq<byte> { if id.Some? then id.value else [] }

  function Lengths(long: bool, n: nat, id: Option<seq<byte>>): seq<byte>
    requires n < (if long then 0x1_0000_0000 else 256) && (id.Some? ==> |id.value| < 256)
  {
    (if long then [n / 16_777_216, n / 65_536 % 256, n / 256 % 256, n % 256] else [n])
    + (if id.Some? then [|id.value|] else [])
  }

  /** What the program finds of any such record, short or long: its payload
      and its end always; but it looks for the type behind the ID, where the
      standard has it in front. */
  lemma AnyRecordRead(
    pre: seq<byte>, flags: nat, tnf: nat, long: bool, id: Option<seq<byte>>, rtype: seq<byte>, payload: seq<byte>,
    post: seq<byte>)
    requires flags < 8 && tnf < 8 && |rtype| < 256 && (id.Some? ==> |id.value| < 256)
    requires |payload| < (if long then 0x1_0000_0000 else 256)
    ensures var record := RecordBytes(flags, tnf, long, id, rtype, payload);
            RecordAt(pre + record + post, |pre|)
            == Some(Found(tnf, (rtype + Ident(id))[|Ident(id)|..], payload, |pre| + |record|))
  {
    hide RecordAt, Lengths;
    var hdr := 32 * flags + (if long then 0 else 16) + (if id.Some? then 8 else 0) + tnf;
    var a, b, c := [hdr, |rtype|], Lengths(long, |payload|, id), rtype + Ident(id);
    HeaderBits(flags, tnf, long, id.Some?);
    FiveParts(pre, a, b, c, payload, post);
    PlacedRecord(pre + (a + b + c + payload) + post, |pre|, hdr, long, id, rtype, payload);
  }

  lemma PlacedRecord(
    m: seq<byte>, i: nat, hdr: byte, long: bool, id: Option<seq<byte>>, rtype: seq<byte>, payload: seq<byte>)
    requires |rtype| < 256 && (id.Some? ==> |id.value| < 256) && |payload| < (if long then 0x1_0000_0000 else 256)
    requires (hdr / 0x10 % 2 == 1 <==> !long) && (hdr / 0x08 % 2 == 1 <==> id.Some?)
    requires var b, c := Lengths(long, |payload|, id), rtype + Ident(id);
             var k := i + 2 + |b|;
             && k + |c| + |payload| <= |m| && m[i..i + 2] == [hdr, |rtype|] && m[i + 2..k] == b
             && m[k..k + |c|] == c && m[k + |c|..k + |c| + |payload|] == payload
    ensures var next := i + 2 + |Lengths(long, |payload|, id)| + |rtype| + |Ident(id)| + |payload|;
            RecordAt(m, i) == Some(Found(hdr % 8, (rtype + Ident(id))[|Ident(id)|..], payload, next))
  {
    hide RecordAt, Lengths;
    var b, c := Lengths(long, |payload|, id), rtype + Ident(id);
    assert m[i] == m[i..i + 2][0] && m[i + 1] == m[i..i + 2][1];
    LengthsRead(m, i + 2, long, |payload|, id);
    SliceAgain(m, i + 2 + |b|, c, |Ident(id)|);
    RecordReads(m, i, long, |payload|, id.Some?, |Ident(id)|);
  }

  lemma HeaderBits(flags: nat, tnf: nat, long: bool, ided: bool)
    requires flags < 8 && tnf < 8
    ensures var hdr := 32 * flags + (if long then 0 else 16) + (if ided then 8 else 0) + tnf;
            hdr < 256 && hdr % 8 == tnf && (hdr / 0x10 % 2 == 1 <==> !long) && (hdr / 0x08 % 2 == 1 <==> ided)
  {
  }

  lemma LengthsRead(m: seq<byte>, p: nat, long: bool, n: nat, id: Option<seq<byte>>)
    requires n < (if long then 0x1_0000_0000 else 256) && (id.Some? ==> |id.value| < 256)
    requires p + |Lengths(long, n, id)| <= |m| && m[p..p + |Lengths(long, n, id)|] == Lengths(long, n, id)
    ensures var w := if long then 4 else 1;
            && |Lengths(long, n, id)| == w + (if id.Some? then 1 else 0)
            && (if long then FromBe32(m[p..p + 4]) == n else m[p] == n)
            && (id.Some? ==> m[p + w] == |id.value|)
  {
    var l := Lengths(long, n, id);
    assert forall x :: 0 <= x < |l| ==> m[p + x] == m[p..p + |l|][x] == l[x];
    if long {
      LongLength(n);
      assert l[..4] == [n / 16_777_216, n / 65_536 % 256, n / 256 % 256, n % 256];
      assert m[p..p + 4] == m[p..p + |l|][..4];
    }
  }

  lemma LongLength(n: nat)
    requires n < 0x1_0000_0000
    ensures FromBe32([n / 16_777_216, n / 65_536 % 256, n / 256 % 256, n % 256]) == n
  {
    var s: seq<byte> := [n / 16_777_216, n / 65_536 % 256, n / 256 % 256, n % 256];
    assert s[..2] == [s[0], s[1]] && s[2..] == [s[2], s[3]];
    Halves(n, n / 65_536, n % 65_536);
  }

  lemma Halves(n: nat, hi: nat, lo: nat)
    requires n == hi * 65_536 + lo && lo < 65_536
    ensures n / 16_777_216 == hi / 256 && n / 65_536 == hi && n / 256 % 256 == lo / 256 && n % 256 == lo % 256
  {
    assert n / 256 == hi * 256 + lo / 256;
  }

  lemma SliceAgain(m: seq<byte>, k: nat, c: seq<byte>, j: nat)
    requires k + |c| <= |m| && m[k..k + |c|] == c && j <= |c|
    ensures m[k + j..k + |c|] == c[j..]
  {
    assert m[k..k + |c|][j..] == m[k + j..k + |c|];
  }

  /** So a record is understood exactly when it has no ID, an empty one, or one
      that happens to bring the type back to where it is looked for; for the
      one-letter types of text and URI, an ID that ends in that letter. */
  lemma TypeRead(id: Option<seq<byte>>, rtype: seq<byte>)
    ensures Ident(id) == [] ==> (rtype + Ident(id))[|Ident(id)|..] == rtype
    ensures |rtype| == 1 ==>
              ((rtype + Ident(id))[|Ident(id)|..] == rtype
               <==> Ident(id) == [] || Ident(id)[|Ident(id)| - 1] == rtype[0])
  {
    if |rtype| == 1 && Ident(id) != [] {
      assert (rtype + Ident(id))[|Ident(id)|..] == [Ident(id)[|Ident(id)| - 1]];
    }
  }

  /** Text with the ID "a", as a first and only record: read as type "a", and ignored. */
  lemma IdHidesText(d: Content, text: seq<byte>)
    requires 3 + |text| < 256
    ensures var msg := RecordBytes(6, 1, false, Some([0x61]), [0x54], [0x02, 0x65, 0x6E] + text); ApplyNdef(d, msg) == d
  {
    hide RecordAt, RecordBytes;
    var msg := RecordBytes(6, 1, false, Some([0x61]), [0x54], [0x02, 0x65, 0x6E] + text);
    AnyRecordRead([], 6, 1, false, Some([0x61]), [0x54], [0x02, 0x65, 0x6E] + text, []);
    assert [] + msg + [] == msg;
    assert ([0x54] + [0x61])[1..] == [0x61];
  }

  // --------------------------------------------------------------------- URIs

  function Ascii(s: string): (b: seq<byte>)
    requires forall i :: 0 <= i < |s| ==> s[i] < 128 as char
    ensures |b| == |s| && forall i :: 0 <= i < |s| ==> b[i] == s[i] as int < 128
  {
    seq(|s|, i requires 0 <= i < |s| => s[i] as int)
  }

  /** What an identifier code stands for, as far as the program knows. */
  function Meaning(code: byte): string {
    match code
    case 1 => "http://www."
    case 2 => "https://www."
    case 3 => "http://"
    case 4 => "https://"
    case 5 => "tel:"
    case 6 => "mailto:"
    case _ => ""
  }

  lemma MeaningIsAscii(code: byte)
    ensures forall i :: 0 <= i < |Meaning(code)| ==> Meaning(code)[i] < 128 as char
  {
  }

  lemma PrefixExact(code: byte)
    ensures forall i :: 0 <= i < |Meaning(code)| ==> Meaning(code)[i] < 128 as char
    ensures UriPrefix(code) == Ascii(Meaning(code))
  {
    MeaningIsAscii(code);
  }

  /** A URI record that abbreviates is adopted exactly as one that spells the
      URI out; an unknown code adds nothing. */
  lemma UriSpelledOut(d: Content, code: byte, u: seq<byte>)
    ensures forall i :: 0 <= i < |Meaning(code)| ==> Meaning(code)[i] < 128 as char
    ensures Adopt(d, 1, [0x55], [code] + u) == Adopt(d, 1, [0x55], [0x00] + Ascii(Meaning(code)) + u)
    ensures Adopt(d, 1, [0x55], [0x00] + u) == d.(url := StripScheme(Lossy(u)))
    ensures Adopt(d, 1, [0x55], []) == d
  {
    hide Lossy, StripScheme, UriPrefix;
    PrefixExact(code);
    var p := Ascii(Meaning(code));
    AsciiKept(p, u);
    assert ([code] + u)[1..] == u && ([0x00] + u)[1..] == u && ([0x00] + p + u)[1..] == p + u;
    NoPrefix();
    assert [] + Lossy(u) == Lossy(u) && [] + Lossy(p + u) == Lossy(p + u);
  }

  lemma NoPrefix()
    ensures UriPrefix(0) == []
  {
  }

  lemma SchemeBytes()
    ensures Ascii("https://") == HTTPS && Ascii("http://") == HTTP
  {
  }

  /** Schemes are dropped for display, "https://" however often, then
      "http://" however often, and nothing else. */
  lemma SchemeExact(url: seq<byte>) returns (m: nat, n: nat)
    ensures m <= n <= |url| && StripScheme(url) == url[n..]
    ensures Repeats(url[..m], Ascii("https://")) && Repeats(url[m..n], Ascii("http://"))
    ensures !(Ascii("https://") <= url[m..]) && !(Ascii("http://") <= url[n..])
  {
    hide Ascii, Repeats, TrimStart, StripScheme;
    SchemeBytes();
    StripIs(url);
    TrimStartExact(url, HTTPS);
    var t := TrimStart(url, HTTPS);
    TrimStartExact(t, HTTP);
    m, n := |url| - |t|, |url| - |TrimStart(t, HTTP)|;
    TailOfTail(url, t, m, n);
  }

  lemma StripIs(url: seq<byte>)
    ensures StripScheme(url) == TrimStart(TrimStart(url, HTTPS), HTTP)
  {
  }

  lemma TailOfTail(url: seq<byte>, t: seq<byte>, m: nat, n: nat)
    requires m <= n <= |url| && t == url[m..]
    ensures t[..n - m] == url[m..n] && t[n - m..] == url[n..]
  {
  }

  /** "https://www." before an address leaves "www." on the card. */
  lemma WwwKept(d: Content, u: seq<byte>)
    ensures Adopt(d, 1, [0x55], [0x02] + u).url == Ascii("www.") + Lossy(u)
    ensures Adopt(d, 1, [0x55], [0x01] + u).url == Ascii("www.") + Lossy(u)
  {
    hide Lossy;
    var r := Ascii("www.") + Lossy(u);
    assert ([0x02] + u)[1..] == u && ([0x01] + u)[1..] == u;
    assert r[0] == 119 && Ascii("www.") == WWW;
    assert (HTTPS + WWW + Lossy(u))[|HTTPS|..] == r && (HTTP + WWW + Lossy(u))[|HTTP|..] == r;
    assert !(HTTPS <= r) && !(HTTP <= r) && !(HTTPS <= HTTP + WWW + Lossy(u));
    assert HTTPS <= HTTPS + WWW + Lossy(u) && HTTP <= HTTP + WWW + Lossy(u);
  }

  // --------------------------------------------------------------------- text

  /** The text of a text record begins behind its language code, whose length
      is in the low six bits of the first byte. */
  lemma TextBehindLanguage(d: Content, status: byte, language: seq<byte>, text: seq<byte>)
    requires |language| == status % 64
    ensures Adopt(d, 1, [0x54], [status] + language + text) == AdoptText(d, Lossy(text))
  {
    hide AdoptText, Lossy;
    assert ([status] + language + text)[1 + |language|..] == text;
  }

  /** Records of any other kind change nothing. */
  lemma OthersIgnored(d: Content, tnf: nat, rtype: seq<byte>, payload: seq<byte>)
    requires (tnf, rtype) != (1, [0x54]) && (tnf, rtype) != (1, [0x55]) && (tnf, rtype) != (2, Ascii("image/x-plate"))
    ensures Adopt(d, tnf, rtype, payload) == d
  {
    assert Ascii("image/x-plate") == IMAGE_MIME;
  }

  /** An image record holds the image as it is, or "B64:" and its base64 form, padded as usual. */
  lemma ImageAdopted(d: Content, img: MonoImage)
    requires ValidImage(img)
    ensures Adopt(d, 2, Ascii("image/x-plate"), Encode(img)) == d.(image := Some(img))
    ensures Adopt(d, 2, Ascii("image/x-plate"), Ascii("B64:") + Base64.Padded(Encode(img))) == d.(image := Some(img))
  {
    hide Encode, Base64.Padded, Base64.Data, Base64.Symbols, ValidImage, Adopt;
    assert Ascii("image/x-plate") == IMAGE_MIME && Ascii("B64:") == B64_TAG;
    AdoptEncoded(d, img);
    var text := Base64.Padded(Encode(img));
    Base64.PaddedData(Encode(img));
    AdoptBase64(d, img, text);
  }

  /** What may stand between two fields. */
  predicate Separator(s: seq<byte>) { s == [10] || s == [13, 10] || s == [59] }

  /** A field that is not cut or shortened on its way. */
  predicate FieldText(f: seq<byte>) { !Has(f, 10) && !Has(f, 59) && (f == [] || f[|f| - 1] != 13) }

  predicate OnlyAts(s: seq<byte>) { forall i :: 0 <= i < |s| ==> s[i] == 64 }

  /** A card typed into another program: fields one to a line or with ';'
      between them, accounts with or without '@'. */
  lemma TypedCard(
    d: Content, c: Content, seps: seq<seq<byte>>, ats: seq<byte>, ats': seq<byte>)
    requires FieldText(c.name) && FieldText(c.email) && FieldText(c.github) && FieldText(c.x) && FieldText(c.note)
    requires (c.github == [] || c.github[0] != 64) && (c.x == [] || c.x[0] != 64) && OnlyAts(ats) && OnlyAts(ats')
    requires |seps| == 4 && forall i :: 0 <= i < 4 ==> Separator(seps[i])
    ensures var accounts := ats + c.github + seps[2] + (ats' + c.x + seps[3] + c.note);
            var text := c.name + seps[0] + (c.email + seps[1] + accounts);
            AdoptText(d, text) == c.(url := d.url, image := d.image)
  {
    hide Replace, Line, TrimStart, FieldText, Separator;
    var t4 := c.note;
    var t3 := ats' + c.x + seps[3] + t4;
    var t2 := ats + c.github + seps[2] + t3;
    var t1 := c.email + seps[1] + t2;
    var text := c.name + seps[0] + t1;
    AccountField(ats, c.github);
    AccountField(ats', c.x);
    FieldThen(c.name, seps[0], t1);
    FieldThen(c.email, seps[1], t2);
    FieldThen(ats + c.github, seps[2], t3);
    FieldThen(ats' + c.x, seps[3], t4);
    LastField(t4);
    var r := Replace(text);
    assert Line(r, 1) == Line(Replace(t1), 0) && Line(r, 2) == Line(Replace(t2), 0);
    assert Line(r, 3) == Line(Replace(t3), 0) && Line(r, 4) == Line(Replace(t4), 0);
  }

  lemma AccountField(ats: seq<byte>, f: seq<byte>)
    requires OnlyAts(ats) && FieldText(f) && (f == [] || f[0] != 64)
    ensures FieldText(ats + f) && TrimStart(ats + f, [AT]) == f
  {
    AtsTrimmed(ats, f);
  }

  lemma {:induction false} AtsTrimmed(ats: seq<byte>, f: seq<byte>)
    requires OnlyAts(ats) && (f == [] || f[0] != 64)
    ensures TrimStart(ats + f, [AT]) == f
    decreases |ats|
  {
    if ats == [] {
      assert ats + f == f;
    } else {
      AtsTrimmed(ats[1..], f);
      assert [AT] <= ats + f && (ats + f)[1..] == ats[1..] + f;
    }
  }

  /** A field and its separator: the first line is the field, the others follow. */
  lemma FieldThen(f: seq<byte>, sep: seq<byte>, rest: seq<byte>)
    requires FieldText(f) && Separator(sep)
    ensures Line(Replace(f + sep + rest), 0) == f
    ensures forall i: nat :: Line(Replace(f + sep + rest), i + 1) == Line(Replace(rest), i)
  {
    hide Line;
    var cr: seq<byte> := if sep == [13, 10] then [13] else [];
    ReplaceSplit(f, sep, rest);
    assert Replace(f + sep + rest) == (f + cr) + [10] + Replace(rest);
    assert cr == [13] ==> (f + cr)[..|f + cr| - 1] == f;
    assert cr == [] ==> f + cr == f;
    LineLaw(f + cr, Replace(rest), 0);
    forall i: nat ensures Line(Replace(f + sep + rest), i + 1) == Line(Replace(rest), i) {
      LineLaw(f + cr, Replace(rest), i);
    }
  }

  lemma ReplaceSplit(f: seq<byte>, sep: seq<byte>, rest: seq<byte>)
    requires FieldText(f) && Separator(sep)
    ensures Replace(f + sep + rest) == f + (if sep == [13, 10] then [13, 10] else [10]) + Replace(rest)
  {
  }

  lemma LastField(f: seq<byte>)
    requires FieldText(f)
    ensures Line(Replace(f), 0) == f
  {
    LineLaw(f, [], 0);
  }

  // --------------------------------------------------------------- plain text

  function Field(ls: seq<seq<byte>>, i: nat): seq<byte> { if i < |ls| then Trim(ls[i]) else [] }

  /** Plain text, line by line: trimmed, '@' and schemes dropped, missing lines
      empty, further lines ignored; accepted exactly within 240 bytes of text,
      separators included, and 200 of URL. */
  lemma PlainExact(c: Content, ls: seq<seq<byte>>)
    requires |ls| >= 1 && forall i :: 0 <= i < |ls| ==> !Has(ls[i], 10)
    ensures var r := Content(Field(ls, 0), Field(ls, 1), TrimStart(Field(ls, 2), [64]), TrimStart(Field(ls, 3), [64]),
                             Field(ls, 4), StripScheme(Field(ls, 5)), c.image);
            ApplyPlain(c, Join(ls))
            == if |TextPayload(r)| <= 240 && |r.url| <= 200 then Some(r) else None
  {
    hide Trim, TrimStart, StripScheme, TextPayload;
    SplitJoin(ls);
    var r := Content(Field(ls, 0), Field(ls, 1), TrimStart(Field(ls, 2), [64]), TrimStart(Field(ls, 3), [64]),
                     Field(ls, 4), StripScheme(Field(ls, 5)), c.image);
    JoinFive(r);
  }
}
