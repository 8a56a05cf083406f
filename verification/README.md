# PaperMono name plate: a Dafny model

The PaperMono firmware turns an e-paper badge into a name plate that can be
rewritten by NFC (it emulates a Type 2 tag) or by Bluetooth LE, shows its
content on a four-gray panel, and reads other tags. This project models the
six cores that must each agree with a simple meaning, and proves that they do,
or exactly when they do.

| core | modules | meaning it is held to |
|---|---|---|
| BLE windowed transfer, HCI reassembly, CRC-32 | `BleSpec`, `Ble`, `BleRuns`, `BleLaws`, `BleSender`, `HciSpec`, `Hci`, `HciPdus`, `Crc` | a payload arrives whole or not at all, over a channel that loses, repeats and reorders packets and delays notifications; the host reads whole HCI packets; both CRC programs are one function |
| e-paper driver and its record of the glass | `Frame`, `FrameBuf`, `EpdSpec`, `Epd`, `Panel` | `displayed` is the glass, pixel for pixel, after every run of updates |
| Type 2 tag emulator | `Tlv`, `T2tSpec`, `T2tEmu`, `T2tRuns`, `T2tLaws` | the PICC state diagram of ISO/IEC 14443-3:2011 section 6.3, the TLV rules of section 2.3 of the Type 2 Tag Operation Specification 1.1 |
| ISO-DEP and the Type 4 read | `IsoDepSpec`, `Type4Card`, `Ats`, `IsoDep`, `CardExamples` | the file of a conforming card (ISO/IEC 14443-4 sections 5.2 and 7.5, ISO/IEC 7816-4:2005 section 7.2.3) |
| NDEF and content codecs | `Plate`, `PlateLaws`, `Text`, `TextLaws`, `Base64` | what is served is what the next reader adopts (NDEF 1.0 section 3.2, RFC 4648 section 4) |
| image kept in memory or evicted to flash | `ConfigStore`, `AppSpec`, `AppRuns`, `AppObject` | a plate whose image is always in memory |

Code that changes objects in place is modelled as classes with methods and
loops (`Ble.ImgRx`, `Hci.BufferedHci`, `T2tEmu.Emulator`, `IsoDep.Initiator`,
`ConfigStore.Flash`, `AppObject.Application`, `FrameBuf.FrameBuffer`,
`Epd.Ssd1677`, `Panel.Display`); each method is tied to a function of the old
state, and the laws over whole runs are proved about those functions. The world
outside is explicit: the reader's field, oscillator and air interface are a
function of time (`T2tSpec.World`), the BLE channel is a set of packets any of
which may arrive at any time, the controller's packets and the card's way of
cutting its answers are arbitrary within the stated standard, and time-outs are
nondeterministic choices. Integers are unbounded; the casts and masks where
the program's widths matter are written out.

## Where the code and its promises differ

The code is modelled as it is; each difference is stated as an exact condition.

- `to_ndef` writes the URL and text record lengths as one byte. The text record
  is intact exactly when the five fields with their separators take at most 252
  bytes (`Plate.TextRecordExact`). The limit of 240 that BLE text obeys is not
  applied to what a phone writes in a long text record, so the wrap is reachable,
  and an image too large for the message then does leave a trace in it. A URL
  of more than 254 bytes wraps likewise, and then the repair of such a message
  may not even find the text record (`Plate.BigImageLeavesNoTrace`,
  `Plate.LongUrlHidesText`).
- `to_ndef` and `apply_ndef` undo each other exactly for fields that hold no line
  feed or `;`, no carriage return right before a separator (the note may end in
  one), no leading `@` in the account names, no scheme in the URL, and an image
  small enough to be in the message (`Plate.RoundTrip`).
- A restart reads the stored message over the built-in content, so under the
  same conditions on the strings, and only if there is a URL to put in the place
  of the built-in one, the plate comes back as it was (`AppRuns.RestartRestores`).
  A name with a `;` in it is accepted over BLE, stored and served, and comes back
  as two fields (`AppRuns.SemicolonNotRestored`).
- `record_at` looks for a record's type behind its ID, where section 3.2 of the
  NDEF specification has it in front. A record with an ID is understood exactly
  when the ID is empty or happens to bring the type back to that place; a text
  record with the ID "a" is ignored (`PlateLaws.AnyRecordRead`,
  `PlateLaws.TypeRead`, `PlateLaws.IdHidesText`).
- FAST_READ accepts ranges of up to 128 pages, but the transmit-length register
  keeps nine bits of the byte count, so 128 pages put an empty frame on air
  (`T2tRuns.FastReadExact`).
- The caps on text, URL and image record allow messages the tag has no room for;
  the refusal of `set_ndef` is ignored and the tag keeps serving the old message
  (`AppRuns.FitsExactly`, `AppRuns.CapsMayNotFit`).
- `read_type4` puts the offset into P1 and P2 unchanged; from 0x8000 on bit 8
  of P1 makes that a READ BINARY by short file identifier. The message is
  returned exactly when every chunk starts at or below 0x7FFF
  (`IsoDep.ReadType4`, `Type4Card.ReachableBounds`); a message of 0x8100 bytes
  is one that is not (`CardExamples.ReadFar`).
- A card that gives out fewer than 15 bytes at a time is asked for 15 all the
  same, and refuses (`IsoDep.Outcome`, `IsoDep.ReadType4`).
- A first ACL fragment that ends within the L2CAP header is handed to the host
  as it is; from the fourth byte of the PDU on, any cut is mended
  (`HciPdus.PduReassembled`, `HciPdus.HeaderMustBeWhole`).
- The answer to RATS is received into 32 bytes, CRC included, so a card whose
  answer has more than 30 bytes is refused, although it may send up to 254
  (`Ats.ParseSent`).
- The header comment of `config_store.rs` speaks of a 16-bit CRC after the
  length; the code stores 20 bits of length and the low byte of the CRC. A
  saved empty record loads as none (`ConfigStore.LoadAfterSave`).
- The receiver lives as long as the session. A committed result reaches the
  application exactly when a hand-over, its notification out, comes before any
  START, ABORT or end of the session (`BleSpec.ResultFate`): a client that
  disconnects right after the notification loses what it was told is committed.
- After a wake-up of the board `displayed` is taken from the drawing without a
  look at the glass, which may still show a tag; the first update of the panel
  is then an absolute one and puts it right (`Panel.Display.Baseline`,
  `Panel.Display.RefreshPanelRegion`).

## Model

| member | source | states |
|---|---|---|
| Crc.Bitwise | src/app/ble.rs:227-236 | the firmware's bit-by-bit loop computes the reflected CRC-32 register of the data |
| Crc.ShiftNLinear | src/app/ble.rs:230-233 | any number of shift steps is linear over exclusive or |
| Crc.ShiftHigh | src/app/ble.rs:230-233 | eight steps of a register with a clear low byte only move it down |
| Crc.TableStep | docs/index.html:305-309 | eight steps of `c ^ b` are the eight-step image of the low byte, xored with `c >> 8` |
| Crc.CheckValue | src/app/ble.rs:227-236 | the CRC-32 of the digits 1 to 9 is the catalogue's 0xCBF43926, which pins polynomial, start and complement |
| Crc.BuildTable | docs/index.html:296-304 | entry `n` of the page's table is eight shift steps of `n` |
| Crc.LookupAbsorbs | docs/index.html:305-309 | one table lookup absorbs a byte as the bitwise loop does |
| Crc.TableDriven | docs/index.html:305-309 | the page's CRC equals the firmware's for every byte string |
| BleSpec.CtrlKeeps | src/app/ble.rs:283-385 | every CTRL write keeps the receiver's invariant: caps, image size, counter below its limit, at most one result and only while COMMITTED |
| BleSpec.PushKeeps | src/app/ble.rs:387-408 | every DATA write keeps it, and only ever appends to the data |
| BleSpec.ApplyKeeps | src/app/ble.rs:606-647 | handing a result over leaves a running transfer untouched and yields only valid images and acceptable texts |
| BleSpec.WaitingResultKept | src/app/ble.rs:283-385 | a result waiting to be handed over is lost iff the write starts over or aborts |
| BleSpec.SessionInvariant | src/app/ble.rs:283-442 | the invariant holds after every sequence of writes, notifications, hand-overs and session ends, and every image waiting meets the bound of `draw_image` |
| BleSpec.ResultStep | src/app/ble.rs:590-647 | one event keeps a waiting result, discards it, or hands over exactly it |
| BleSpec.ResultFate | src/app/ble.rs:497-647 | over every run a waiting result reaches the application iff a hand-over with no notification pending comes before any START, ABORT or session end |
| Ble.ImgRx.Ctrl | src/app/ble.rs:283-385 | the object's new state is the specification's, for every CTRL packet |
| Ble.ImgRx.Push | src/app/ble.rs:387-408 | likewise for every DATA packet: acceptance at the exact offset, one NAK per streak, windowed acknowledgement |
| Ble.ImgRx.TakeNotification | src/app/ble.rs:428-434 | a pending notification goes out once, if subscribed |
| Ble.ImgRx.Apply | src/app/ble.rs:606-647 | deferred hand-over, one result at most, back to IDLE |
| BleLaws.StartExact | src/app/ble.rs:286-330 | a START, read byte by byte, begins a transfer iff the announced size is one the plate can use, with the announced parameters; otherwise nothing is left |
| BleLaws.CommitExact | src/app/ble.rs:331-366 | a commit ends INCOMPLETE, CRC ERROR, REJECTED or COMMITTED by length, checksum and text, and only the last leaves a result |
| BleLaws.ResultsMatch | src/app/ble.rs:283-408 | over every event sequence, wrong data included, a waiting result has exactly the length, size and CRC-32 the last START announced |
| BleLaws.RunCommitExact | src/app/ble.rs:283-408 | in every reachable receiving state the commit law holds for the last START |
| BleLaws.PushExact | src/app/ble.rs:387-408 | which DATA packet is taken, and when a notification is asked for |
| BleLaws.WindowAsksOnce | src/app/ble.rs:387-408 | one notification per `ackEvery` packets taken |
| BleLaws.StreakAsksOnce | src/app/ble.rs:387-408 | one notification per streak of packets out of order |
| BleLaws.RequestsReach | src/app/ble.rs:372-434 | status, doze and clear requests, and what a notification says |
| BleRuns.StartAnnounces | docs/index.html:446-466 | from any state, START puts the receiver into RECEIVING with the announced size, CRC and kind |
| BleRuns.DeliverKeepsPrefix | src/app/ble.rs:387-408 | a truthful packet extends the prefix or is dropped; one at the receiver's offset extends it |
| BleRuns.StepKeeps | src/app/ble.rs:283-442 | every step of sender, channel and receiver keeps the joint invariant |
| BleRuns.TransferSafe | tools/ble_send.py:127-161 | over every run with loss, duplication, reordering, late status and a session that may end at any time: the device holds a prefix of the payload, never ends INCOMPLETE or with a CRC error, a sender past its loop means a receiving device holds all, what is handed over is the payload, once |
| BleRuns.CommitSucceeds | docs/index.html:389-444 | a commit after the loop ends COMMITTED with the payload (REJECTED only for text the plate does not accept) |
| BleRuns.ReceivedNeverDecreases | src/app/ble.rs:387-408 | no step shortens what a receiving device holds |
| BleSender.Burst | tools/ble_send.py:130-137 | a burst whose first packet was at the device's offset moves the device |
| BleSender.Link.Sync | tools/ble_send.py:139-146 | the answer to a sync is the oldest notification not yet looked at, or a fresh read; one behind the device is used up |
| BleSender.SendImage | tools/ble_send.py:127-161 | the Python loop terminates and the device ends COMMITTED with exactly the bits sent, whatever else is lost and however old the notifications that answer its syncs |
| BleSender.PageBurst | docs/index.html:399-419 | a failed write only makes packets small, for good; progress otherwise as for `Burst` |
| BleSender.PageTransfer | docs/index.html:389-444 | the page's loop terminates, with the same queue of notifications; on success the device ends with the payload accepted, otherwise it still holds a prefix |
| HciSpec.GatherTakes | src/app/ble.rs:103-149 | gathering takes every fragment and every packet in between, in order, and stops with the PDU |
| HciSpec.FillOne | src/app/ble.rs:103-149 | one `fill` turns a PDU and what came between its fragments into whole packets |
| HciSpec.MergedIsFramed | src/app/ble.rs:130-147 | a reassembled PDU is one ACL packet whose length field matches its L2CAP length and whose bytes are the fragments' |
| HciSpec.FramesFlat | src/app/ble.rs:103-166 | a stream of framed packets is cut back into exactly those packets |
| HciSpec.StreamReassembled | src/app/ble.rs:103-166 | all bytes the host reads are the packets it is to see, whole, in order, nothing lost or repeated |
| HciPdus.PduReassembled | src/app/ble.rs:103-149 | an L2CAP PDU, cut anywhere behind its header, with events and pauses in between, comes out of one `fill` as one ACL packet with exactly that PDU and its length plus 4, the events behind it |
| HciPdus.WholeHandedOn | src/app/ble.rs:103-114 | PDUs that were not cut, and events, come out as they are |
| HciPdus.HeaderMustBeWhole | src/app/ble.rs:107-109 | a first fragment without its whole L2CAP header is handed on alone |
| HciPdus.StreamOfPdus | src/app/ble.rs:103-166 | every PDU and event of a stream is read once, whole and in order, and no byte besides |
| HciSpec.ReadsInStep | src/app/ble.rs:103-166 | after any reads of any sizes, what the host has and what is ready for it are together whole packets |
| HciSpec.EmptyReadsBetweenPackets | src/app/ble.rs:55-70 | a read that comes back empty only ever comes between packets: inside one, every byte is there when asked for |
| Hci.BufferedHci.Fill | src/app/ble.rs:103-149 | the 1024-byte buffer holds exactly what `HciSpec.Fill` makes of the queue, and the queue is what that leaves |
| Hci.BufferedHci.Read | src/app/ble.rs:156-166 | returns and removes exactly the first bytes of what is ready, after a refill if nothing is; never nothing while something is |
| Frame.CoversExact | src/ssd1677/framebuffer.rs:103-113 | the region's pixels, rounded outwards to bytes of eight and cut at the panel's edges |
| Frame.PatchedPixel | src/ssd1677/framebuffer.rs:103-113 | a pixel of a patched plane is the new image's inside the byte-aligned region, the old one's outside |
| Frame.ClassBit | src/ssd1677/mod.rs:478-483 | the byte expression computes, bit by bit, "all old bits set" for a new white and "any set" for a new black |
| Frame.ClassesPixel | src/ssd1677/mod.rs:467-487 | the transition class of every pixel, inside and outside the region |
| FrameBuf.LocateInjective | src/ssd1677/framebuffer.rs:65-69 | every pixel has a bit of its own, for all orientations |
| FrameBuf.PaintReadsBack | src/ssd1677/framebuffer.rs:73-86 | a painted pixel reads back its level, every other keeps its own |
| FrameBuf.PixelAtExact | src/ssd1677/framebuffer.rs:65-69 | without flips pixel (x, y) is bit y % 8 of byte 100x + y/8; each flag mirrors its own axis |
| FrameBuf.LevelBits | src/ssd1677/framebuffer.rs:83-86 | a level is the bit of `lsb` plus twice that of `msb`, bit k being 0x80 >> k |
| FrameBuf.PaintedByte | src/ssd1677/framebuffer.rs:73-80 | painting changes that byte alone |
| FrameBuf.PaintedInRegion | src/ssd1677/framebuffer.rs:118-124 | and it lies in the native region of every rectangle that holds the pixel |
| FrameBuf.NativeRegionCovers | src/ssd1677/framebuffer.rs:118-124 | the native region holds every on-panel pixel of a logical rectangle |
| FrameBuf.FrameBuffer.SetPixel | src/ssd1677/framebuffer.rs:73-80 | in place; out of range changes nothing |
| FrameBuf.FrameBuffer.GetPixel | src/ssd1677/framebuffer.rs:83-86 | the level of the pixel in the two planes |
| FrameBuf.FrameBuffer.CopyFrom | src/ssd1677/framebuffer.rs:94-97 | both planes taken over |
| FrameBuf.FrameBuffer.ApplyMonoRegion | src/ssd1677/framebuffer.rs:103-113 | the row loop patches the region into both planes, and nothing else |
| EpdSpec.PutLands | src/ssd1677/mod.rs:250-266 | through the full window and its wrapping counters, data lands byte after byte |
| EpdSpec.AbsoluteExact | src/ssd1677/mod.rs:390-417 | inverted planes, swapped on the odd face in mode 1, put each pixel's exact level on the glass for both parities |
| EpdSpec.WrongFace | src/ssd1677/mod.rs:14-17 | with the wrong belief about the face exactly the two middle grays come out exchanged |
| EpdSpec.DifferentialExact | src/ssd1677/mod.rs:433-492 | from any of the four old grays a pixel of the region goes to its new endpoint and every other holds, as the patched record says |
| EpdSpec.UpdateKeepsRecord | src/app/mod.rs:819-837 | one update of glass and record keeps them equal |
| EpdSpec.RecordIsGlass | src/app/mod.rs:819-837 | after every run of absolute, differential and resting steps the record equals the glass pixel for pixel |
| Epd.RowSent | src/ssd1677/mod.rs:456-487 | sending one more row extends the part of the plane that is in RAM and changes nothing else |
| Epd.Ssd1677.Init | src/ssd1677/mod.rs:180-204 | face and power known to be off, the glass untouched |
| Epd.Ssd1677.SetPower | src/ssd1677/mod.rs:208-217 | the panel's power follows, the face and the glass do not change |
| Epd.Ssd1677.DeepSleep | src/ssd1677/mod.rs:221-226 | power off, face unknown, glass kept |
| Epd.Ssd1677.WritePlane | src/ssd1677/mod.rs:250-266 | the named RAM holds the whole plane, inverted if asked, and nothing else changed |
| Epd.Ssd1677.Activate | src/ssd1677/mod.rs:309-328 | the clocks are enabled when off, so the waveform runs; afterwards `face_odd` and `screen_on` mirror the controller |
| Epd.Ssd1677.EnsureKnownFace | src/ssd1677/mod.rs:330-335 | afterwards the face is known to the driver and true of the controller |
| Epd.Ssd1677.RefreshMonoFull | src/ssd1677/mod.rs:351-360 | the glass shows the image in black and white |
| Epd.Ssd1677.RefreshGray4 | src/ssd1677/mod.rs:390-417 | the glass shows exactly level (msb, lsb) everywhere, in all three modes and on both faces |
| Epd.Ssd1677.WriteDifference | src/ssd1677/mod.rs:446-487 | the two row loops put the patched image and the transition classes into the two RAMs |
| Epd.Ssd1677.RefreshFastest | src/ssd1677/mod.rs:433-492 | from a glass that shows the old planes, the glass shows the patched ones |
| Panel.Display.Refresh | src/app/mod.rs:651-667 | glass and record are what is drawn |
| Panel.Display.ShowAll | src/app/mod.rs:623-646 | wake, full refresh, record: faithful from any state |
| Panel.Display.Wake | src/app/mod.rs:680-692 | hard reset and init after deep sleep; next panel update is absolute; glass and record unchanged |
| Panel.Display.Rest | src/app/mod.rs:669-678 | deep sleep keeps glass and record |
| Panel.Display.Baseline | src/app/mod.rs:244-254 | after a wake-up of the board the record is the drawing; it is the glass iff the glass shows that drawing, and either way the next panel update does not rely on it |
| Panel.Display.RefreshPanelRegion | src/app/mod.rs:819-837 | one step of the run above, absolute every tenth time; afterwards the record is the glass, if it was or if this update was absolute |
| Panel.ShowPixel | src/app/mod.rs:651-667 | a pixel set at (x, y) shows there after a refresh, and every other shows what was drawn at its own place |
| Panel.TagPanelExtent | src/app/ui.rs:17-20 | the tag panel's region after rounding to bytes |
| Tlv.FindNdef | src/t2t_emu.rs:148-170 | the cursor loop computes the TLV reader |
| Tlv.NdefIsFirstBlock | src/t2t_emu.rs:148-170 | for every layout of TLVs the reader returns the first NDEF value before a terminator, in both length forms |
| Tlv.StoreNdef | src/t2t_emu.rs:120-145 | writes in place exactly when the message fits, else nothing |
| Tlv.StoredIsServed | src/t2t_emu.rs:120-170 | a stored message reads back; memory outside the user area is untouched |
| Tlv.StoredBytes | src/t2t_emu.rs:120-145 | tag, length in one or three bytes, message and terminator, from byte 16 on |
| T2tSpec.BlankTag | src/t2t_emu.rs:87-112 | a new tag shows the UID, its two check bytes cancel their groups out, and it serves an empty message |
| T2tEmu.Emulator.constructor | src/t2t_emu.rs:87-108 | memory is that of a blank tag in every byte, configuration pages included |
| T2tEmu.Emulator.HandleCommand | src/t2t_emu.rs:432-490 | memory, dirty flag, reply on air and outcome as specified for every frame |
| T2tEmu.Emulator.GotoOff | src/t2t_emu.rs:243-263 | specified behaviour; terminates, with the EN bit as measure |
| T2tEmu.Emulator.GotoIdle | src/t2t_emu.rs:265-288 | likewise, with the oscillator poll |
| T2tEmu.Emulator.Update | src/t2t_emu.rs:329-430 | new state, chip registers and event as specified, for every behaviour of the world |
| T2tRuns.OffEnds | src/t2t_emu.rs:243-288 | going off ends in OFF with no field seen last, or in IDLE; EN is set |
| T2tRuns.UpdateFollowsDiagram | src/t2t_emu.rs:329-430 | every update is an edge of the PICC diagram or a seen loss of field, and keeps auto-response off iff active, and no wake-up mark when off or idle |
| T2tLaws.OffExact | src/t2t_emu.rs:243-263 | going off forgets bit rate and interrupts, and ends idle iff the field still shows |
| T2tLaws.OscillatorExact | src/t2t_emu.rs:265-288 | the wait succeeds iff one of 42 looks finds the oscillator running |
| T2tLaws.OffLaw | src/t2t_emu.rs:332-337 | the field is reported, and the tag goes idle, iff it was signalled or the next sample shows it |
| T2tLaws.WaitingLaw | src/t2t_emu.rs:338-366 | idle or halted: ready iff called at 106 kbit/s by the right code with the field still there, and every other outcome |
| T2tLaws.ReadyLaw | src/t2t_emu.rs:367-376 | ready: off or idle, active, or unchanged |
| T2tLaws.ActiveLaw | src/t2t_emu.rs:377-419 | active: which frames keep the tag active, which send it back, and to which state |
| T2tLaws.CommandLaw | src/t2t_emu.rs:432-490 | every frame's reply, effect and outcome, byte by byte |
| T2tLaws.AirLaw | src/t2t_emu.rs:432-490 | exactly the answer to the frame served goes on air |
| T2tRuns.SelectedWhenWoken | src/t2t_emu.rs:367-376 | a selection is reported exactly in READY on the right wake-up interrupt with the field present |
| T2tRuns.CommandEffects | src/t2t_emu.rs:432-490 | memory changes only by a WRITE from page 3 on, and the flag is raised exactly by one to pages 4 to 225 |
| T2tRuns.StepEffects | src/t2t_emu.rs:329-430 | one update changes memory and flag exactly as the frame it serves |
| T2tRuns.DirtyExact | src/t2t_emu.rs:459-473 | over every run the flag is set iff user memory was written since the last field-off event |
| T2tRuns.WrittenFlagExact | src/t2t_emu.rs:243-288 | a field-off event says "written" iff so, also across sessions that fell back to IDLE |
| T2tRuns.UidNeverChanges | src/t2t_emu.rs:459-473 | the first twelve bytes survive every run |
| T2tRuns.StartedGood | src/t2t_emu.rs:178-227 | `start` establishes the invariant |
| T2tRuns.WriteAllLands | src/t2t_emu.rs:459-473 | WRITE commands page after page lay data down as given |
| T2tRuns.PhoneWriteIsServed | src/t2t_emu.rs:148-170 | TLVs a phone writes page by page are then served |
| T2tRuns.FastReadExact | src/t2t_emu.rs:448-457 | FAST_READ delivers its pages iff they are fewer than 128 |
| T2tRuns.ReadSweepReads | src/t2t_emu.rs:435-447 | successive READs return memory as it is |
| T2tRuns.ServedMessageIsRead | src/t2t_emu.rs:120-145 | a message the plate stores reaches a reader that uses READ |
| T2tRuns.ServedMessageIsFastRead | src/t2t_emu.rs:448-457 | and one that uses FAST_READ, in two parts of under 128 pages each |
| Ats.ParseSent | src/isodep.rs:48-77 | for every combination of optional bytes the card's frame size and waiting-time index are found, iff the answer has at most 30 bytes |
| Ats.FrameSizes | src/isodep.rs:38-38 | the frame sizes of section 5.2.3 of ISO/IEC 14443-4 |
| Ats.WaitTable | src/isodep.rs:69-73 | the waiting time of each of the sixteen indexes |
| IsoDepSpec.FrameExact | src/isodep.rs:110-148 | what the reader does with any frame of any card, an I-block with the wrong number included |
| IsoDepSpec.LoopCollects | src/isodep.rs:86-149 | from any point of a chained answer, the loop collects exactly the remaining pieces, or gives up after 32 frames |
| IsoDepSpec.ExchangeDelivers | src/isodep.rs:86-149 | the answer is the card's, and block numbers stay in step, iff it takes at most 32 frames, waiting-time extensions included |
| IsoDepSpec.SessionDelivers | src/isodep.rs:86-149 | over any sequence of commands every answer is the card's and block numbers end in step, iff each answer takes at most 32 frames |
| IsoDep.Activate | src/isodep.rs:48-77 | block number 0, and a frame size that holds every command of the Type 4 read |
| IsoDep.Initiator.Exchange | src/isodep.rs:86-149 | the loop computes the specified exchange, errors included |
| Type4Card.ReachableBounds | src/ndef.rs:84-98 | messages up to 0x7FFE bytes are always within reach, those a chunk longer never |
| IsoDep.ReadChunks | src/ndef.rs:84-98 | the chunk loop terminates with the message, or the refusal of the first chunk out of reach or past the file's end |
| IsoDep.GoodOutcome | src/ndef.rs:42-99 | for a card in order the outcome is its message, for any length and MLe, iff every chunk is within reach; else 6A82 |
| IsoDep.ReadType4 | src/ndef.rs:42-99 | the exact outcome for a conforming card with any files: broken container, missing file, short file, message |
| CardExamples.Present | src/isodep.rs:48-149 | for any files there is a card that meets all that the Type 4 read asks for, with extensions and chained answers |
| CardExamples.ReadCard | src/ndef.rs:42-99 | what the reader gets from that card, for any files |
| CardExamples.ReadFar | src/ndef.rs:84-98 | a message of 0x8100 bytes ends in the card's 6A82 |
| CardExamples.ReadNear | src/ndef.rs:84-98 | one of 0x7FFE bytes is read |
| Base64.DecodeLoop | src/app/plate.rs:123-159 | the accumulator loop computes the decoder |
| Base64.Alphabet | src/app/plate.rs:124-133 | the digits of RFC 4648, A to Z, a to z, 0 to 9, `+`, `/` |
| Base64.PaddedRoundTrip | src/app/plate.rs:123-159 | padded standard base64, broken anywhere by white space, decodes to what was encoded |
| Base64.PassedOver | src/app/plate.rs:134-140 | exactly five white-space characters and `=` are passed over |
| Base64.RoundTrip | src/app/plate.rs:123-159 | RFC 4648 text of `x`, with any padding and white space, decodes to `x` |
| Base64.Accepts | src/app/plate.rs:123-159 | refused exactly: a foreign character, or one character left over |
| Plate.DecodeOwned | src/app/plate.rs:95-111 | the in-place decoder agrees with the copying one |
| Plate.ImageRoundTrip | src/app/plate.rs:79-120 | decode undoes encode exactly for valid images, whatever follows |
| Plate.DrawImageInBounds | src/app/plate.rs:413-429 | every index drawn lies inside the bits |
| Plate.BuildNdef | src/app/plate.rs:189-254 | the pushes and the repair build the specified message, for every content |
| Plate.FixMeFlag | src/app/plate.rs:368-382 | sets the flag in the last header the walk reaches |
| Plate.RecordAtPrinted | src/app/plate.rs:385-410 | a printed record, short or long, is read back wherever it stands |
| Plate.WalkPrinted | src/app/plate.rs:385-410 | walking printed records finds each, and ends at the end |
| Plate.RepairedHead | src/app/plate.rs:368-382 | the repaired message is the one without an image |
| Plate.ToNdefPrints | src/app/plate.rs:189-254 | the message is the printed form of the intended records |
| Plate.MessageWellFormed | src/app/plate.rs:189-254 | it is walked exactly to its end; message begin on the first record only, message end on the last only |
| Plate.TextRecordExact | src/app/plate.rs:209-225 | the text record is intact iff the text is at most 252 bytes |
| PlateLaws.MessageBytes | src/app/plate.rs:189-225 | the message of a card without a picture, byte by byte |
| PlateLaws.PictureBytes | src/app/plate.rs:226-253 | a picture of up to 696 bytes follows in its own record, long form from 256 on; a larger one stays out |
| PlateLaws.ImageLayout | src/app/plate.rs:113-120 | width, height, bits |
| PlateLaws.TextLayout | src/app/plate.rs:256-278 | which field is on which line |
| PlateLaws.AnyRecordRead | src/app/plate.rs:385-410 | what is found of any NDEF record, short or long, with or without ID |
| PlateLaws.TypeRead | src/app/plate.rs:401-406 | when the type of a record with an ID is the one found |
| PlateLaws.IdHidesText | src/app/plate.rs:385-410 | a text record with an ID is ignored |
| Plate.EndsWhereReached | src/app/plate.rs:368-382 | the repair's walk ends at a header iff it comes there and gets no further |
| Plate.LongUrlHidesText | src/app/plate.rs:195-209 | with a URL of 255 letters the walk never comes to the text record |
| Plate.BigImageLeavesNoTrace | src/app/plate.rs:226-237 | for every content, an image too large for the message leaves no trace in it iff the walk finds the text record and the text is at most 252 bytes |
| Plate.ApplyNdefLoop | src/app/plate.rs:314-364 | the record loop computes the specified effect |
| Plate.ApplyPrinted | src/app/plate.rs:314-364 | printed records take effect one by one |
| PlateLaws.UriSpelledOut | src/ndef.rs:159-169 | a URI record with any code is adopted as the one that spells the URI out |
| PlateLaws.WwwKept | src/app/plate.rs:348-356 | "http(s)://www." leaves "www." |
| PlateLaws.SchemeExact | src/app/plate.rs:353-354 | exactly leading "https://", then leading "http://", are dropped |
| PlateLaws.TextBehindLanguage | src/app/plate.rs:318-323 | text begins behind a language code of any length |
| PlateLaws.TypedCard | src/app/plate.rs:318-331 | fields separated by LF, CR LF or `;`, accounts with any number of `@` |
| PlateLaws.ImageAdopted | src/app/plate.rs:332-347 | a raw image, and the same after "B64:" in padded base64 |
| PlateLaws.OthersIgnored | src/app/plate.rs:357-358 | other records change nothing |
| Plate.RawImageIsNotBase64 | src/app/plate.rs:332-347 | a valid raw image never looks like base64 text |
| Plate.AdoptBase64 | src/app/plate.rs:332-347 | an image typed in base64 is adopted as its raw record is |
| Plate.ReadBack | src/app/plate.rs:314-364 | what reading the served message does to any other content |
| Plate.RoundTrip | src/app/plate.rs:189-364 | an empty plate gets the content back iff its strings are clean and its image is in the message |
| Plate.RestoreOver | src/app/plate.rs:314-364 | read over any content the message restores its own iff the strings are clean and there is a URL or none to replace |
| Plate.PlainRoundTrip | src/app/plate.rs:269-311 | writing back the plain text changes nothing iff the fields are trimmed, clean and within the caps |
| PlateLaws.PlainExact | src/app/plate.rs:290-311 | what any plain text does, line by line, and that it is accepted iff within 240 and 200 bytes |
| TextLaws.TrimExact | src/app/plate.rs:290-311 | trimming leaves the middle, white space before and behind it |
| TextLaws.WhiteExact | src/app/plate.rs:290-311 | the characters trimmed, by code point |
| TextLaws.TrimStartExact | src/app/plate.rs:326-327 | exactly the leading repetitions go |
| TextLaws.LineLaw | src/app/plate.rs:324-329 | where lines end |
| TextLaws.LossyIsValid | src/app/plate.rs:323-323 | lossy decoding always yields UTF-8 |
| Text.LossyIsIdentity | src/app/plate.rs:318-331 | lossy decoding keeps well-formed UTF-8 |
| Text.SplitJoin | src/app/plate.rs:290-311 | splitting undoes joining iff no piece holds a line feed |
| ConfigStore.CrcLoop | src/config_store.rs:30-39 | the CRC loops compute the CRC-16 register |
| ConfigStore.CheckValue | src/config_store.rs:30-39 | the CRC-16 of the digits 1 to 9 is 0x29B1 |
| ConfigStore.LoadExact | src/config_store.rs:41-56 | a record is loaded iff mark, length and CRC byte agree; any other loads as none |
| ConfigStore.HeaderBytes | src/config_store.rs:63-90 | the header, byte by byte |
| ConfigStore.LoadAfterSave | src/config_store.rs:41-90 | what is saved is loaded, up to the cap, unless empty |
| ConfigStore.Flash.LoadRecord | src/config_store.rs:41-56 | returns the record iff magic, length and CRC byte agree |
| ConfigStore.Flash.SaveRecord | src/config_store.rs:63-90 | header, prefix and data in two writes, nothing else changed |
| ConfigStore.SaveKeeps | src/config_store.rs:93-103 | saving the message replaces it and keeps the image |
| ConfigStore.SaveImageKeeps | src/config_store.rs:104-125 | saving an image fills the slot and keeps the message |
| ConfigStore.ClearImageKeeps | src/config_store.rs:109-113 | clearing empties the slot and keeps the message |
| AppRuns.CapsFit | src/t2t_emu.rs:120-145 | content within the caps and without an image record always fits the tag |
| AppRuns.FitsExactly | src/t2t_emu.rs:120-145 | in general it fits iff the message has at most 883 bytes |
| AppRuns.CapsMayNotFit | src/app/mod.rs:623-646 | full text and URL beside a 700-byte image record do not |
| AppRuns.EvictionInvisible | src/app/mod.rs:214-220 | the message has the same bytes whether a large image is resident or evicted, iff the text record is found and its length byte does not wrap |
| AppRuns.BleImageRefines | src/app/mod.rs:441-463 | a BLE image becomes the whole content's image, stored and shown |
| AppRuns.PhoneRefines | src/app/mod.rs:587-596 | what a phone wrote is adopted as with a resident image |
| AppRuns.TextRefines | src/app/mod.rs:600-608 | BLE text likewise, or rejected without a change |
| AppRuns.ClearRefines | src/app/mod.rs:611-620 | clearing drops the image from memory and flash |
| AppRuns.StepRefines | src/app/mod.rs:201-254 | every event does to the whole content what it does to a plate that keeps its image, the screen shows it, and a commit publishes it |
| AppRuns.RunRefines | src/app/mod.rs:201-254 | so over every run |
| AppRuns.BootGood | src/app/mod.rs:232-258 | a start from any flash content establishes the invariant; the image is the slot's, or else the message's |
| AppRuns.BootServes | src/app/mod.rs:255-258 | a start serves the message of its content if it fits, stored or built in, and else leaves the tag alone |
| AppRuns.ResidentExactly | src/app/mod.rs:214-220 | an image in flash is in memory too iff it has at most 8192 bytes |
| AppRuns.RestartRestores | src/app/mod.rs:232-258 | a restart brings back the published content iff its strings are clean and it has a URL or none to replace; the image always |
| AppRuns.SemicolonNotRestored | src/app/mod.rs:232-258 | a name with a semicolon is accepted, published, and not brought back |
| AppObject.Application.Boot | src/app/mod.rs:222-258 | the object's state after start is the specified one |
| AppObject.Application.DrawPlate | src/app/mod.rs:201-211 | as specified: load, draw, drop again |
| AppObject.Application.CommitContent | src/app/mod.rs:623-646 | as specified |
| AppObject.Application.OnBleImage | src/app/mod.rs:441-463 | as specified |
| AppObject.Application.OnTagWritten | src/app/mod.rs:587-596 | as specified |
| AppObject.Application.OnBleContent | src/app/mod.rs:600-608 | as specified |
| AppObject.Application.OnClearImage | src/app/mod.rs:611-620 | as specified |

## Left out

- BleSender.SendImage: the start is assumed to be acknowledged and a sync to be answered, by some notification or a read, and a burst's first packet to arrive when it was sent at the device's offset; without that no sender can be shown to end.
- BleSender.PageTransfer: likewise; an answer that is not RECEIVING, which the page turns into an error, cannot come up in this model.
- BleRuns.TransferSafe: STATUS values left over from an earlier session are not in the channel, nobody else writes CTRL during a transfer, and after the session ended no new one is begun.
- AppRuns.StepRefines: flash writes succeed; the message is published for strings short enough for their one-byte record lengths, the exact limit being `AppRuns.EvictionInvisible`.
- AppRuns.RestartRestores: for strings short enough for their one-byte record lengths; what a wrapped length makes of the rest of a message is not characterised.
- Plate.RoundTrip: likewise.
- HciSpec.StreamReassembled: one connection; continuations that come late or exceed the buffers are truncated by `Hci.BufferedHci.Fill` as in the code but nothing is claimed for them here.
- Epd.Ssd1677.RefreshGray4: commands succeed; after a failed call nothing is claimed until the next `init`, and the retry of `epd_refresh` is not modelled.
- Panel.Display.RefreshPanelRegion: the update counter is unbounded where the program's has 32 bits.
- Plate.RecordAt: offsets are unbounded, so an overflow of a 32-bit `usize` by a huge record length is not modelled.
- EpdSpec.Waveform: what the waveform bytes do to the particles is taken from the tables' group meanings and the driver's description of the face; ghosting and temperature are not modelled.
- `refresh_mono_partial` and `write_plane_rect`: they depend on a physical swap of the RAM banks between two writes, and the application does not use them.
- NFC-A activation and anticollision, S(DESELECT), frame waiting times, reader-mode duty cycling: `transceive` is an abstract exchange.
- I2C, SPI and BLE stack errors, timing policies, doze and deep sleep of the board, touch, lights, the heartbeat and diagnostics counters.
- `T2tEmulator::stop`, and chip registers without effect on the states.
- `summarize`, `first_record` and `ascii`: presentation of tags read.
- Fonts, layout, scaling and dithering: of drawing only the index bound of `draw_image` and what content was last drawn are kept.
- The GATT table, advertising, bleak and Web Bluetooth calls, progress display: only the messages exchanged are kept.
