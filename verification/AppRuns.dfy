/** The evictable image is invisible: the application refines a plate that keeps its image in memory. */
module AppRuns {
  import opened Bytes
  import opened Plate
  import opened ConfigStore
  import opened AppSpec
  import Tlv
  import Text
  import Base64

  // ----------------------------------------- messages and the image beside them

  /** Adopting a record either leaves the image alone, whatever it is, or replaces it, whatever it was. */
  lemma AdoptImageEither(c: Content, x: Option<MonoImage>, tnf: nat, rtype: seq<byte>, payload: seq<byte>)
    ensures var r, r' := Adopt(c, tnf, rtype, payload), Adopt(c.(image := x), tnf, rtype, payload);
            || (r' == r.(image := x) && r.image == c.image)
            || (r' == r && r.image.Some? && ValidImage(r.image.value) && |r.image.value.bits| <= |payload|)
  {
    hide Base64.Decode, Text.Lossy, Text.Replace, Text.Line, Text.TrimStart, StripScheme;
    if B64_TAG <= payload { Base64Shrinks(payload[4..]); }
  }

  lemma Base64Shrinks(s: seq<byte>)
    ensures Base64.Decode(s).Some? ==> |Base64.Decode(s).value| <= |s|
  {
    DecodeFromShrinks(s, 0, 0);
  }

  lemma {:induction false} DecodeFromShrinks(s: seq<byte>, acc: nat, n: nat)
    requires n <= 3
    ensures Base64.DecodeFrom(s, acc, n).Some? ==> |Base64.DecodeFrom(s, acc, n).value| <= |s| + n
    decreases |s|
  {
    if s != [] && Base64.Skipped(s[0]) {
      DecodeFromShrinks(s[1..], acc, n);
    } else if s != [] && Base64.Val(s[0]).Some? {
      var acc' := acc * 64 + Base64.Val(s[0]).value;
      if n == 3 { DecodeFromShrinks(s[1..], 0, 0); } else { DecodeFromShrinks(s[1..], acc', n + 1); }
    }
  }

  lemma {:induction false} ApplyImageEither(c: Content, x: Option<MonoImage>, msg: seq<byte>, i: nat)
    ensures var r, r' := ApplyFrom(c, msg, i), ApplyFrom(c.(image := x), msg, i);
            || (r' == r.(image := x) && r.image == c.image)
            || (r' == r && r.image.Some? && ValidImage(r.image.value) && |r.image.value.bits| <= |msg|)
    decreases |msg| - i
  {
    hide Adopt, ValidImage;
    var f := RecordAt(msg, i);
    if f.Some? {
      var v := f.value;
      RecordWithin(msg, i);
      AdoptImageEither(c, x, v.tnf, v.rtype, v.payload);
      if v.next < |msg| {
        var r := Adopt(c, v.tnf, v.rtype, v.payload);
        if Adopt(c.(image := x), v.tnf, v.rtype, v.payload) == r {
          ApplyImageEither(r, r.image, msg, v.next);
        } else {
          ApplyImageEither(r, x, msg, v.next);
        }
      }
    }
  }

  lemma RecordWithin(msg: seq<byte>, i: nat)
    ensures RecordAt(msg, i).Some? ==> |RecordAt(msg, i).value.payload| <= |msg|
  {
  }

  // ----------------------------------------------------- sizes of the message

  lemma MessageLength(c: Content)
    ensures |ToNdef(c)| == (if c.url == [] then 0 else 5 + |c.url|) + 7 + |TextPayload(c)|
                           + (if Carries(c) then |ImageRecord(c.image.value)| else 0)
    ensures Carries(c) ==> |ImageRecord(c.image.value)| <= 719
  {
  }

  /** Content within the caps and without an image record always fits the tag. */
  lemma CapsFit(c: Content)
    requires |TextPayload(c)| <= MAX_TEXT_PAYLOAD && |c.url| <= MAX_URL_LEN && !Carries(c)
    ensures Tlv.Fits(ToNdef(c))
  {
    MessageLength(c);
  }

  /** With an image record it need not: the tag takes the message exactly up to 883 bytes. */
  lemma FitsExactly(c: Content)
    ensures Tlv.Fits(ToNdef(c)) <==> |ToNdef(c)| <= 883
  {
  }

  /** The caps allow messages the tag must refuse: full text and URL beside a 700-byte image. */
  lemma CapsMayNotFit(c: Content)
    requires |TextPayload(c)| == MAX_TEXT_PAYLOAD && |c.url| == MAX_URL_LEN
    requires c.image.Some? && 4 + |c.image.value.bits| == MAX_IMAGE_RECORD
    ensures !Tlv.Fits(ToNdef(c))
  {
    MessageLength(c);
  }

  /** Evicting a large image changes no byte of the message, exactly when the
      walk that repairs the message finds the text record and that record's
      length byte does not wrap around. */
  lemma EvictionInvisible(c: Content)
    requires c.image.Some? && |c.image.value.bits| > IMAGE_KEEP_MAX
    ensures ToNdef(c.(image := None)) == ToNdef(c) <==> FindsText(c) && |TextPayload(c)| <= 252
  {
    hide ToNdef, FindsText, TextPayload;
    BigImageLeavesNoTrace(c, c.image.value);
    assert c.(image := Some(c.image.value)) == c;
  }

  // --------------------------------------------------------------- refinement

  /** An application about to commit: like the invariant, but for what is on
      screen, and with a resident image possibly new. */
  predicate Adopting(a: App) {
    && Sized(a)
    && (a.content.image.Some? ==> ValidImage(a.content.image.value) && |a.content.image.value.bits| <= IMAGE_KEEP_MAX)
    && (a.inFlash <==> Slot(a.flash).Some?)
    && OnlyLargeEvicted(a)
  }

  lemma CommitRefines(a: App)
    requires Adopting(a)
    ensures var r := CommitContent(a);
            && Inv(r) && Whole(r) == Whole(a) && r.content == a.content
            && (ShortLengths(a.content) ==> Published(r))
  {
    hide Load, Slot, Save, SaveImage, ToNdef, Tlv.SetNdef, Tlv.Ndef, ValidImage, TextPayload;
    var msg := ToNdef(a.content);
    SaveKeeps(a.flash, msg);
    var p := Publish(a);
    if a.content.image.Some? { SaveImageKeeps(p.flash, a.content.image.value); }
    var r := CommitContent(a);
    assert Whole(r) == Whole(a);
    if ShortLengths(a.content) {
      MessageSaved(a.content);
      SameMessage(a, msg);
      if Tlv.Fits(msg) { Tlv.StoredIsServed(a.tag, msg); }
    }
  }

  lemma MessageSaved(c: Content)
    requires ShortLengths(c)
    ensures ToNdef(c) != [] && ToNdef(c)[..Cap(|ToNdef(c)|, MAX_DATA)] == ToNdef(c)
  {
    MessageLength(c);
  }

  /** The message of what is resident is the message of the whole content. */
  lemma SameMessage(a: App, msg: seq<byte>)
    requires Sized(a) && OnlyLargeEvicted(a) && ShortLengths(a.content) && msg == ToNdef(a.content)
    ensures ToNdef(Whole(a)) == msg
  {
    hide Slot, ToNdef;
    var w := Whole(a);
    if w.image != a.content.image {
      assert TextPayload(w) == TextPayload(a.content);
      ShortUrlFindsText(w);
      EvictionInvisible(w);
      assert w.(image := None) == a.content;
    } else {
      assert w == a.content;
    }
  }

  lemma BleImageRefines(a: App, img: MonoImage)
    requires Sized(a) && ValidImage(img)
    ensures var r := OnBleImage(a, img);
            && Inv(r) && Whole(r) == a.content.(image := Some(img))
            && (ShortLengths(a.content) ==> Published(r))
  {
    hide Load, Slot, Save, SaveImage, ToNdef, Tlv.SetNdef, Tlv.Ndef, ValidImage, TextPayload;
    var c := a.content.(image := Some(img));
    SaveImageKeeps(a.flash, img);
    SaveKeeps(SaveImage(a.flash, img), ToNdef(c));
    if ShortLengths(a.content) {
      assert TextPayload(c) == TextPayload(a.content) by { TextIgnoresImage(a.content, Some(img)); }
      MessageSaved(c);
      if Tlv.Fits(ToNdef(c)) { Tlv.StoredIsServed(a.tag, ToNdef(c)); }
    }
  }

  lemma TextIgnoresImage(c: Content, x: Option<MonoImage>)
    ensures TextPayload(c.(image := x)) == TextPayload(c)
  {
  }

  /** What a phone wrote is adopted the same, whether the image is resident or not. */
  lemma AdoptRefines(a: App, m: seq<byte>)
    requires Inv(a) && |m| <= IMAGE_KEEP_MAX
    ensures var b := a.(content := ApplyNdef(a.content, m));
            Adopting(b) && (Logical(b) == ApplyNdef(Whole(a), m).image) && Whole(b) == ApplyNdef(Whole(a), m)
  {
    hide ApplyFrom, Slot, ValidImage;
    ApplyImageEither(a.content, Logical(a), m, 0);
  }

  lemma {:induction false} NdefShort(user: seq<byte>, i: nat)
    ensures Tlv.NdefFrom(user, i).Some? ==> |Tlv.NdefFrom(user, i).value| <= |user|
    decreases |user| - i
  {
    if i < |user| && user[i] == 0x00 {
      NdefShort(user, i + 1);
    } else if i < |user| && user[i] != 0xFE && Tlv.Header(user, i).Some? {
      var (len, hdr) := Tlv.Header(user, i).value;
      if i + hdr + len <= |user| && user[i] != 0x03 { NdefShort(user, i + hdr + len); }
    }
  }

  /** Does this event commit the content (and not merely redraw, or get rejected)? */
  predicate Commits(a: App, ev: Event) {
    match ev
    case Redraw => false
    case BleText(text) => ApplyPlain(a.content, Text.Lossy(text)).Some?
    case _ => true
  }

  lemma PhoneRefines(a: App, mem: seq<byte>)
    requires Inv(a) && |mem| == Tlv.MEM_BYTES
    ensures var r := OnTagWritten(a.(tag := mem));
            && Inv(r) && Whole(r) == PlainStep(Whole(a), PhoneWrote(mem))
            && (ShortLengths(r.content) ==> Published(r))
  {
    hide CommitContent, ApplyNdef, Slot, Tlv.Ndef, ValidImage, ShortLengths;
    var b := a.(tag := mem);
    var m := Tlv.Ndef(mem);
    if m.Some? {
      assert |m.value| <= IMAGE_KEEP_MAX by { NdefFits(mem); }
      AdoptRefines(b, m.value);
      CommitRefines(b.(content := ApplyNdef(b.content, m.value)));
    } else {
      CommitRefines(b);
    }
  }

  lemma NdefFits(mem: seq<byte>)
    requires |mem| == Tlv.MEM_BYTES
    ensures Tlv.Ndef(mem).Some? ==> |Tlv.Ndef(mem).value| <= IMAGE_KEEP_MAX
  {
    NdefShort(Tlv.User(mem), 0);
  }

  lemma TextRefines(a: App, text: seq<byte>)
    requires Inv(a)
    ensures var r := OnBleContent(a, text);
            && Inv(r) && Whole(r) == PlainStep(Whole(a), BleText(text))
            && (Commits(a, BleText(text)) ==> Published(r))
  {
    hide CommitContent, Slot, ValidImage, Text.Lossy;
    var t := Text.Lossy(text);
    PlainIgnoresImage(a.content, Logical(a), t);
    var c := ApplyPlain(a.content, t);
    if c.Some? {
      hide ApplyPlain;
      CommitRefines(a.(content := c.value));
    }
  }

  lemma PlainIgnoresImage(c: Content, x: Option<MonoImage>, t: seq<byte>)
    ensures ApplyPlain(c.(image := x), t)
            == if ApplyPlain(c, t).None? then None else Some(ApplyPlain(c, t).value.(image := x))
  {
  }

  lemma ClearRefines(a: App)
    requires Inv(a)
    ensures var r := OnClearImage(a);
            && Inv(r) && Whole(r) == PlainStep(Whole(a), ClearRequest)
            && (ShortLengths(r.content) ==> Published(r))
  {
    hide CommitContent, Slot, ValidImage, Load, ClearImage;
    ClearImageKeeps(a.flash);
    CommitRefines(a.(content := a.content.(image := None), inFlash := false, flash := ClearImage(a.flash)));
  }

  /** One event on the plate does to the whole content what it would do to a
      plate that keeps its image in memory; the screen shows the outcome; and
      a commit of short enough strings puts the message of the whole content
      into flash and, if it fits, onto the tag. */
  lemma StepRefines(a: App, ev: Event)
    requires Inv(a) && Admissible(ev)
    ensures var r := Step(a, ev);
            && Inv(r) && Whole(r) == PlainStep(Whole(a), ev) && r.drawn == Whole(r)
            && (Commits(a, ev) && ShortLengths(r.content) ==> Published(r))
            && (!Commits(a, ev) && Published(a) ==> Published(r))
  {
    hide OnBleImage, OnTagWritten, OnBleContent, OnClearImage;
    hide Slot, ApplyPlain, ApplyNdef, ShortLengths, Text.Lossy, Load, ToNdef;
    match ev
    case BleImage(img) =>
      BleImageRefines(a, img);
      ShortIgnoresImage(a.content, Some(img));
      ShortIgnoresImage(OnBleImage(a, img).content, Some(img));
    case PhoneWrote(mem) => PhoneRefines(a, mem);
    case BleText(text) =>
      TextRefines(a, text);
      if !Commits(a, ev) { assert OnBleContent(a, text) == a by { TextRejected(a, text); } }
    case ClearRequest => ClearRefines(a);
    case Redraw =>
  }

  lemma ShortIgnoresImage(c: Content, x: Option<MonoImage>)
    ensures ShortLengths(c.(image := x)) == ShortLengths(c)
  {
  }

  lemma TextRejected(a: App, text: seq<byte>)
    requires Sized(a) && !Commits(a, BleText(text))
    ensures OnBleContent(a, text) == a
  {
  }

  function Run(a: App, evs: seq<Event>): (r: App)
    requires Sized(a) && forall i :: 0 <= i < |evs| ==> Admissible(evs[i])
    ensures Sized(r)
  {
    if evs == [] then a else Step(Run(a, evs[..|evs| - 1]), evs[|evs| - 1])
  }

  function PlainRun(c: Content, evs: seq<Event>): Content
    requires forall i :: 0 <= i < |evs| ==> Admissible(evs[i])
  {
    if evs == [] then c else PlainStep(PlainRun(c, evs[..|evs| - 1]), evs[|evs| - 1])
  }

  /** Over every run the plate behaves as if its image had always been in
      memory, and shows just that. */
  lemma {:induction false} RunRefines(a: App, evs: seq<Event>)
    requires Inv(a) && forall i :: 0 <= i < |evs| ==> Admissible(evs[i])
    ensures var r := Run(a, evs);
            Inv(r) && Whole(r) == PlainRun(Whole(a), evs) && r.drawn == PlainRun(Whole(a), evs)
  {
    DrawnIsWhole(a);
    hide Inv, Step, PlainStep;
    if evs != [] {
      RunRefines(a, evs[..|evs| - 1]);
      StepRefines(Run(a, evs[..|evs| - 1]), evs[|evs| - 1]);
    }
    assert Run(a, evs).drawn == Whole(Run(a, evs)) by { DrawnIsWhole(Run(a, evs)); }
  }

  lemma DrawnIsWhole(a: App)
    requires Inv(a)
    ensures Sized(a) && a.drawn == Whole(a)
  {
  }

  // ----------------------------------------------------------------- restart

  /** What a start makes of the message in flash. */
  function Restored(builtIn: Content, flash: seq<byte>): Content
    requires |flash| == FLASH_SIZE
  {
    if Load(flash).Some? then ApplyNdef(builtIn, Load(flash).value) else builtIn
  }

  lemma LoadShort(flash: seq<byte>)
    requires |flash| == FLASH_SIZE
    ensures Load(flash).Some? ==> |Load(flash).value| <= MAX_DATA
  {
  }

  /** A start from any flash content whatever establishes the invariant; the
      image is the one in the slot, or else the one in the message. */
  lemma BootGood(builtIn: Content, flash: seq<byte>, tag: seq<byte>)
    requires |flash| == FLASH_SIZE && |tag| == Tlv.MEM_BYTES && builtIn.image.None?
    ensures var r, c := Boot(builtIn, flash, tag), Restored(builtIn, flash);
            && Inv(r) && r.flash == flash && r.drawn == Whole(r)
            && Whole(r) == c.(image := if Slot(flash).Some? then Slot(flash) else c.image)
  {
    hide ApplyFrom, Slot, Load, ToNdef, Serve, ValidImage;
    if Load(flash).Some? {
      LoadShort(flash);
      ApplyImageEither(builtIn, None, Load(flash).value, 0);
      assert builtIn.(image := None) == builtIn;
    }
    assert Slot(flash).Some? ==> ValidImage(Slot(flash).value);
  }

  /** A restart brings back the very content, image included, that was last
      published, exactly when its strings are clean and it has a URL to put in
      the place of the built-in one. */
  lemma RestartRestores(a: App, builtIn: Content, tag: seq<byte>)
    requires Inv(a) && Published(a) && |tag| == Tlv.MEM_BYTES && builtIn.image.None?
    requires ShortLengths(a.content) && Typed(Whole(a))
    ensures var r := Boot(builtIn, a.flash, tag);
            && Inv(r) && r.drawn == Whole(r) && Logical(r) == Logical(a)
            && (Whole(r) == Whole(a)
                <==> CleanText(a.content) && CleanUrl(a.content) && (a.content.url != [] || builtIn.url == []))
            && (Whole(r) == Whole(a) ==> Published(r))
  {
    hide ApplyNdef, Slot, Load, ToNdef, Typed, CleanText, CleanUrl, Inv, Boot, Serve, ValidImage;
    var w := Whole(a);
    CleanIgnoresImage(a.content, w.image);
    RestoreOver(builtIn, w);
    BootGood(builtIn, a.flash, tag);
    var r := Boot(builtIn, a.flash, tag);
    ImageOnly(Restored(builtIn, a.flash), w, Whole(r));
    if Whole(r) == w { BootPublishes(builtIn, a.flash, tag); }
  }

  /** A start serves the message of its content if the tag has room for it,
      stored message or not, and leaves the tag as it was otherwise. */
  lemma BootServes(builtIn: Content, flash: seq<byte>, tag: seq<byte>)
    requires |flash| == FLASH_SIZE && |tag| == Tlv.MEM_BYTES && builtIn.image.None?
    ensures var r := Boot(builtIn, flash, tag);
            && (Tlv.Fits(ToNdef(r.content)) ==> Tlv.Ndef(r.tag) == Some(ToNdef(r.content)))
            && (!Tlv.Fits(ToNdef(r.content)) ==> r.tag == tag)
            && (ShortLengths(r.content) ==> ToNdef(Whole(r)) == ToNdef(r.content))
            && (Load(flash) == None && Slot(flash) == None ==> Whole(r) == builtIn)
  {
    hide ApplyNdef, Slot, Load, ToNdef, Tlv.SetNdef, Tlv.Ndef, ValidImage, ShortLengths;
    BootGood(builtIn, flash, tag);
    var r := Boot(builtIn, flash, tag);
    if Tlv.Fits(ToNdef(r.content)) { Tlv.StoredIsServed(tag, ToNdef(r.content)); }
    if ShortLengths(r.content) { SameMessage(r, ToNdef(r.content)); }
  }

  /** An image that is in flash is in memory too exactly up to 8192 bytes. */
  lemma ResidentExactly(a: App)
    requires Inv(a) && a.inFlash
    ensures Logical(a).Some? && (a.content.image.Some? <==> |Logical(a).value.bits| <= 8192)
  {
    hide Slot, ValidImage;
  }

  lemma ImageOnly(c: Content, w: Content, r: Content)
    requires r == c.(image := w.image)
    ensures r == w <==> c.(image := None) == w.(image := None)
  {
  }

  /** A start that finds its own message and image in flash has them published. */
  lemma BootPublishes(builtIn: Content, flash: seq<byte>, tag: seq<byte>)
    requires |flash| == FLASH_SIZE && |tag| == Tlv.MEM_BYTES && builtIn.image.None?
    requires var r := Boot(builtIn, flash, tag);
             ShortLengths(Whole(r)) && Slot(flash) == Logical(r) && Load(flash) == Some(ToNdef(Whole(r)))
    ensures Published(Boot(builtIn, flash, tag))
  {
    hide ApplyNdef, Slot, Load, ToNdef, Tlv.SetNdef, Tlv.Ndef, ValidImage, TextPayload;
    BootGood(builtIn, flash, tag);
    var r := Boot(builtIn, flash, tag);
    ShortIgnoresImage(r.content, Logical(r));
    SameMessage(r, ToNdef(r.content));
    if Tlv.Fits(ToNdef(r.content)) { Tlv.StoredIsServed(tag, ToNdef(r.content)); }
  }

  /** A name that can be sent over BLE by itself. */
  predicate PlainName(s: seq<byte>) {
    && Text.ValidUtf8(s) && !Text.Has(s, Text.LF) && |s| + 4 <= MAX_TEXT_PAYLOAD
    && Text.WhiteStart(s) == 0 && Text.WhiteEnd(s) == 0
  }

  function Named(s: seq<byte>, image: Option<MonoImage>): Content { Content(s, [], [], [], [], [], image) }

  lemma NameAdopted(c: Content, s: seq<byte>)
    requires PlainName(s)
    ensures ApplyPlain(c, Text.Lossy(s)) == Some(Named(s, c.image))
  {
    hide Text.Split, Text.Trim, Text.ValidUtf8, Text.Lossy;
    Text.LossyIsIdentity(s);
    Text.SplitWhole(s);
    assert StripScheme([]) == [];
  }

  lemma NamedFields(s: seq<byte>, image: Option<MonoImage>)
    requires PlainName(s) && (image.Some? ==> ValidImage(image.value))
    ensures Typed(Named(s, image)) && ShortLengths(Named(s, image))
    ensures Text.Has(s, Text.SEMICOLON) ==> !CleanText(Named(s, image))
  {
    hide Text.WhiteStart, Text.WhiteEnd, ValidImage;
    var c := Named(s, image);
    JoinFive(c);
    assert TextFields(c)[0] == s;
    assert Text.ValidUtf8([]);
  }

  /** Text the plate accepts, stores and serves, and that a restart does not
      bring back: any name with a semicolon in it. */
  lemma SemicolonNotRestored(a: App, name: seq<byte>, builtIn: Content, tag: seq<byte>)
    requires Inv(a) && PlainName(name) && Text.Has(name, Text.SEMICOLON)
    requires |tag| == Tlv.MEM_BYTES && builtIn.image.None?
    ensures var r := OnBleContent(a, name);
            && Inv(r) && Published(r) && Whole(r) == Named(name, Logical(a))
            && Whole(Boot(builtIn, r.flash, tag)) != Whole(r)
  {
    hide OnBleContent, Boot, Inv, Published, ApplyPlain, Slot, ValidImage, PlainName, Typed, CleanText, ShortLengths;
    LogicalValid(a);
    NameAdopted(a.content, name);
    NameAdopted(Whole(a), name);
    TextRefines(a, name);
    var r := OnBleContent(a, name);
    LogicalValid(r);
    NamedFields(name, Logical(a));
    NamedFields(name, r.content.image);
    RestartRestores(r, builtIn, tag);
  }

  lemma LogicalValid(a: App)
    requires Inv(a)
    ensures Sized(a) && (Logical(a).Some? ==> ValidImage(Logical(a).value))
    ensures a.content.image.Some? ==> ValidImage(a.content.image.value)
  {
    hide ValidImage, Slot;
    assert Slot(a.flash).Some? ==> ValidImage(Slot(a.flash).value);
  }

  /** "A;B" is such a name. */
  lemma SemicolonName()
    ensures var s: seq<byte> := [65, 59, 66]; PlainName(s) && Text.Has(s, Text.SEMICOLON)
  {
    var s: seq<byte> := [65, 59, 66];
    assert Text.Fitting(s) == 1 && s[1..] == [59, 66];
    assert Text.Fitting(s[1..]) == 1 && s[1..][1..] == [66];
  }

  lemma CleanIgnoresImage(c: Content, x: Option<MonoImage>)
    ensures CleanText(c.(image := x)) == CleanText(c) && CleanUrl(c.(image := x)) == CleanUrl(c)
    ensures ShortLengths(c.(image := x)) == ShortLengths(c)
  {
    assert TextFields(c.(image := x)) == TextFields(c);
  }
}
