/**
 The application's content and its large image, which leaves memory after it
 is drawn and is read back from flash; flash writes are taken to succeed.
 */
module AppSpec {
  import opened Bytes
  import opened Plate
  import opened ConfigStore
  import Tlv
  import Text

  const IMAGE_KEEP_MAX := 8192

  /** Content, whether the flash slot is in use, flash, the emulated tag's memory, and what was drawn last. */
  datatype App = App(content: Content, inFlash: bool, flash: seq<byte>, tag: seq<byte>, drawn: Content)

  predicate Sized(a: App) { |a.flash| == FLASH_SIZE && |a.tag| == Tlv.MEM_BYTES }

  // ----------------------------------------------------------- operations

  /** `draw_plate`: an image that is not resident is loaded for the drawing only. */
  function DrawPlate(a: App): App
    requires Sized(a)
  {
    a.(drawn := if a.content.image.None? && a.inFlash then a.content.(image := Slot(a.flash)) else a.content)
  }

  /** `trim_image` */
  function Trim(a: App): App {
    if a.inFlash && a.content.image.Some? && |a.content.image.value.bits| > IMAGE_KEEP_MAX
    then a.(content := a.content.(image := None)) else a
  }

  /** The emulated tag takes a message that fits, and keeps its old one otherwise. */
  function Serve(tag: seq<byte>, msg: seq<byte>): (t: seq<byte>)
    requires |tag| == Tlv.MEM_BYTES
    ensures |t| == Tlv.MEM_BYTES
  {
    if Tlv.Fits(msg) then Tlv.SetNdef(tag, msg) else tag
  }

  /** Serve and store the message of the current content. */
  function Publish(a: App): (r: App)
    requires Sized(a)
    ensures Sized(r)
  {
    a.(tag := Serve(a.tag, ToNdef(a.content)), flash := Save(a.flash, ToNdef(a.content)))
  }

  /** `commit_content` */
  function CommitContent(a: App): (r: App)
    requires Sized(a)
    ensures Sized(r)
  {
    var a1 := Publish(a);
    var img := a1.content.image;
    var a2 := if img.Some? && |img.value.bits| <= IMAGE_KEEP_MAX
              then a1.(flash := SaveImage(a1.flash, img.value), inFlash := true) else a1;
    DrawPlate(a2)
  }

  /** `on_ble_image` */
  function OnBleImage(a: App, img: MonoImage): (r: App)
    requires Sized(a)
    ensures Sized(r)
  {
    var a1 := a.(flash := SaveImage(a.flash, img), inFlash := true, content := a.content.(image := Some(img)));
    var a2 := Publish(a1);
    Trim(a2.(drawn := a2.content))
  }

  /** `on_tag_written`: adopt what the phone left in the tag's memory. */
  function OnTagWritten(a: App): (r: App)
    requires Sized(a)
    ensures Sized(r)
  {
    var m := Tlv.Ndef(a.tag);
    CommitContent(if m.Some? then a.(content := ApplyNdef(a.content, m.value)) else a)
  }

  /** `on_ble_content` */
  function OnBleContent(a: App, text: seq<byte>): (r: App)
    requires Sized(a)
    ensures Sized(r)
  {
    var c := ApplyPlain(a.content, Text.Lossy(text));
    if c.Some? then CommitContent(a.(content := c.value)) else a
  }

  /** `on_clear_image` */
  function OnClearImage(a: App): (r: App)
    requires Sized(a)
    ensures Sized(r)
  {
    CommitContent(a.(content := a.content.(image := None), inFlash := false, flash := ClearImage(a.flash)))
  }

  /** The head of `run`: restore what flash holds over the built-in content, draw, serve. */
  function Boot(builtIn: Content, flash: seq<byte>, tag: seq<byte>): (r: App)
    requires |flash| == FLASH_SIZE && |tag| == Tlv.MEM_BYTES
    ensures Sized(r)
  {
    var stored := Load(flash);
    var c := if stored.Some? then ApplyNdef(builtIn, stored.value) else builtIn;
    var img := Slot(flash);
    var a := if img.Some? then App(c.(image := img), true, flash, tag, c) else App(c, false, flash, tag, c);
    var b := Trim(a.(drawn := a.content));
    b.(tag := Serve(b.tag, ToNdef(b.content)))
  }

  // ------------------------------------------------------- the plain model

  datatype Event =
    | BleImage(img: MonoImage)      // an image arrived over BLE
    | PhoneWrote(mem: seq<byte>)    // a phone wrote the tag's memory and left
    | BleText(text: seq<byte>)      // plate text arrived over BLE
    | ClearRequest                  // the image is to go
    | Redraw

  predicate Admissible(ev: Event) {
    match ev
    case BleImage(img) => ValidImage(img)
    case PhoneWrote(mem) => |mem| == Tlv.MEM_BYTES
    case _ => true
  }

  function Step(a: App, ev: Event): (r: App)
    requires Sized(a) && Admissible(ev)
    ensures Sized(r)
  {
    match ev
    case BleImage(img) => OnBleImage(a, img)
    case PhoneWrote(mem) => OnTagWritten(a.(tag := mem))
    case BleText(text) => OnBleContent(a, text)
    case ClearRequest => OnClearImage(a)
    case Redraw => DrawPlate(a)
  }

  /** The same events on a plate that simply keeps its image. */
  function PlainStep(c: Content, ev: Event): Content
    requires Admissible(ev)
  {
    match ev
    case BleImage(img) => c.(image := Some(img))
    case PhoneWrote(mem) => if Tlv.Ndef(mem).Some? then ApplyNdef(c, Tlv.Ndef(mem).value) else c
    case BleText(text) =>
      var r := ApplyPlain(c, Text.Lossy(text));
      if r.Some? then r.value else c
    case ClearRequest => c.(image := None)
    case Redraw => c
  }

  /** The image the plate stands for: the resident one, else the one in flash. */
  function Logical(a: App): Option<MonoImage>
    requires Sized(a)
  {
    if a.content.image.Some? then a.content.image else if a.inFlash then Slot(a.flash) else None
  }

  function Whole(a: App): Content
    requires Sized(a)
  {
    a.content.(image := Logical(a))
  }

  predicate OnlyLargeEvicted(a: App)
    requires Sized(a)
  {
    a.content.image.None? && Slot(a.flash).Some? ==> |Slot(a.flash).value.bits| > IMAGE_KEEP_MAX
  }

  /** A resident image is a small valid one, and the one in flash if there is
      one in flash; the slot is in use exactly when it holds an image, not
      resident only if large; what is on screen is the whole content. */
  predicate Inv(a: App) {
    && Sized(a)
    && (a.content.image.Some? ==>
          && ValidImage(a.content.image.value) && |a.content.image.value.bits| <= IMAGE_KEEP_MAX
          && (a.inFlash ==> Slot(a.flash) == a.content.image))
    && (a.inFlash <==> Slot(a.flash).Some?)
    && OnlyLargeEvicted(a)
    && a.drawn == Whole(a)
  }

  /** Flash holds the message of the whole content and its image, and the tag serves the message if it fits. */
  predicate Published(a: App) {
    && Sized(a)
    && Slot(a.flash) == Logical(a)
    && Load(a.flash) == Some(ToNdef(Whole(a)))
    && (Tlv.Fits(ToNdef(Whole(a))) ==> Tlv.Ndef(a.tag) == Some(ToNdef(Whole(a))))
  }
}
