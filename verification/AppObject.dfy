/** The application's content handling as the firmware has it, held to AppSpec. */
module AppObject {
  import opened Bytes
  import opened Plate
  import opened ConfigStore
  import opened AppSpec
  import Spec = AppSpec
  import Tlv
  import Text

  class Application {
    const flash: Flash
    const tag: array<byte>
    var content: Content
    var imageInFlash: bool
    /** What `plate::draw` was last given. */
    var drawn: Content

    ghost function View(): App
      reads this, flash, tag
    {
      App(content, imageInFlash, flash.mem, tag[..], drawn)
    }

    ghost predicate Valid()
      reads this, flash, tag
    {
      |flash.mem| == FLASH_SIZE && tag.Length == Tlv.MEM_BYTES
    }

    /** The head of `run`. */
    constructor Boot(builtIn: Content, flash: Flash, tag: array<byte>)
      requires |flash.mem| == FLASH_SIZE && tag.Length == Tlv.MEM_BYTES
      modifies tag
      ensures Valid() && this.flash == flash && this.tag == tag
      ensures View() == Spec.Boot(builtIn, flash.mem, old(tag[..]))
    {
      this.flash, this.tag := flash, tag;
      content, imageInFlash, drawn := builtIn, false, builtIn;
      new;
      hide ApplyNdef, LoadRec, Slot, Serve, ToNdef;
      Restore();
      var img := LoadImage();
      if img.Some? {
        content := content.(image := img);
        imageInFlash := true;
      }
      drawn := content;
      TrimImage();
      ServeContent();
    }

    /** Adopt the stored message, if there is one. */
    method Restore()
      requires Valid()
      modifies this`content
      ensures content == if Load(flash.mem).Some? then ApplyNdef(old(content), Load(flash.mem).value) else old(content)
    {
      hide ApplyNdef, LoadRec;
      var stored := flash.LoadRecord(REGION_OFFSET, MAX_DATA, REGION_SIZE);
      if stored.Some? { content := ApplyNdefLoop(content, stored.value); }
    }

    /** `load_image` and `decode_owned`. */
    method LoadImage() returns (img: Option<MonoImage>)
      requires Valid()
      ensures img == Slot(flash.mem)
    {
      var p := flash.LoadRecord(IMAGE_OFFSET, MAX_IMAGE, IMAGE_REGION);
      if p.None? { return None; }
      img := DecodeOwned(p.value);
    }

    /** `draw_plate` */
    method DrawPlate()
      requires Valid()
      modifies this`content, this`drawn
      ensures Valid() && View() == Spec.DrawPlate(old(View()))
    {
      hide Slot;
      var load := content.image.None? && imageInFlash;
      if load {
        var img := LoadImage();
        content := content.(image := img);
      }
      drawn := content;
      if load { content := content.(image := None); }
    }

    /** `trim_image` */
    method TrimImage()
      modifies this`content
      ensures View() == Spec.Trim(old(View()))
    {
      if imageInFlash && content.image.Some? && |content.image.value.bits| > IMAGE_KEEP_MAX {
        content := content.(image := None);
      }
    }

    /** Hand the message to the emulated tag, whether it fits or not. */
    method ServeContent()
      requires Valid()
      modifies tag
      ensures Valid() && tag[..] == Serve(old(tag[..]), ToNdef(content))
    {
      hide ToNdef, Tlv.SetNdef;
      var canonical := BuildNdef(content);
      var _ := Tlv.StoreNdef(tag, canonical);
    }

    method Publish()
      requires Valid()
      modifies tag, flash
      ensures Valid() && View() == Spec.Publish(old(View()))
    {
      hide ToNdef, SaveRec, Serve;
      ServeContent();
      var canonical := BuildNdef(content);
      flash.SaveRecord(REGION_OFFSET, MAX_DATA, [], canonical);
    }

    method StoreImage(img: MonoImage)
      requires Valid()
      modifies flash
      ensures Valid() && flash.mem == SaveImage(old(flash.mem), img)
    {
      hide SaveRec;
      flash.SaveRecord(IMAGE_OFFSET, MAX_IMAGE, Le16(img.width) + Le16(img.height), img.bits);
    }

    /** `commit_content` */
    method CommitContent()
      requires Valid()
      modifies this, tag, flash
      ensures Valid() && View() == Spec.CommitContent(old(View()))
    {
      hide Spec.Publish, Spec.DrawPlate, SaveImage;
      Publish();
      if content.image.Some? && |content.image.value.bits| <= IMAGE_KEEP_MAX {
        StoreImage(content.image.value);
        imageInFlash := true;
      }
      DrawPlate();
    }

    /** `on_ble_image` */
    method OnBleImage(img: MonoImage)
      requires Valid()
      modifies this, tag, flash
      ensures Valid() && View() == Spec.OnBleImage(old(View()), img)
    {
      hide Spec.Publish, SaveImage;
      content := content.(image := None);
      StoreImage(img);
      imageInFlash := true;
      content := content.(image := Some(img));
      Publish();
      drawn := content;
      TrimImage();
    }

    /** `on_tag_written` */
    method OnTagWritten()
      requires Valid()
      modifies this, tag, flash
      ensures Valid() && View() == Spec.OnTagWritten(old(View()))
    {
      hide Spec.CommitContent, ApplyNdef, Tlv.Ndef;
      var m := Tlv.FindNdef(tag);
      if m.Some? { content := ApplyNdefLoop(content, m.value); }
      CommitContent();
    }

    /** `on_ble_content` */
    method OnBleContent(text: seq<byte>)
      requires Valid()
      modifies this, tag, flash
      ensures Valid() && View() == Spec.OnBleContent(old(View()), text)
    {
      hide Spec.CommitContent, ApplyPlain, Text.Lossy;
      var c := ApplyPlain(content, Text.Lossy(text));
      if c.Some? {
        content := c.value;
        CommitContent();
      }
    }

    /** `on_clear_image` */
    method OnClearImage()
      requires Valid()
      modifies this, tag, flash
      ensures Valid() && View() == Spec.OnClearImage(old(View()))
    {
      hide Spec.CommitContent, Splice;
      content := content.(image := None);
      imageInFlash := false;
      flash.Write(IMAGE_OFFSET, ERASED);
      CommitContent();
    }
  }
}
