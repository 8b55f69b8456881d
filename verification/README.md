# Verified models of the Lenovo A1000 port

Dafny models of the nine files of the port that hold logic of their own, with proofs of what they are
for. Each file is a group of modules that stands alone; `Options`, `Sequences`, `Bytes` and `Arithmetic` are
shared. Where the code does not do what its own documentation says, the model follows the code, and the exact
condition under which it does is proved.

- **The mmap ring of tinyalsa** (`PcmPointers`, `PcmRing`). Pointers live modulo a boundary in 32-bit
  arithmetic; the meaning of the ring is the unbounded stream of all frames that ever entered and left
  it. The kernel is an oracle consulted at every system call, and moves the hardware side at every
  synchronisation. The code deviates at one point: `pcm.c:1106` corrects with `>` where equality needs it
  too, so a full playback ring lying across the boundary reads as `boundary` free frames instead of 0.
  That state is characterised exactly, it is reached by a stream that is kept full in every buffer of at least
  two frames, and what the next copy then does to the frames still to be played is stated. The loop of a
  transfer is followed up to there, with the outcome `RingMisread`; everything else holds without exception.
- **HCI command flow control** (`HciLayer`, `HciRuns`, `HciAnswers`, `HciTold`, `HciFates`). Every mutex-protected section is one step,
  any number of threads and events interleave, and a log records what becomes of each resource. A credit event
  counts the commands awaiting a response but not those posted to the message loop, so the layer can send more
  than the controller allows; when it does not is proved as an equivalence, and a run in which it does is given.
  `HciTold` says who hears of an event, `HciFates` what becomes of commands, timer and message loop.
- **The boot image tool** (`Bytes`, `Cpio`, `BootImage`). Parser, printer, guard and container on bytes,
  down to Python's reading of hexadecimal numbers. The tool's description says the guard protects a
  ramdisk made of two gzip streams; the code's `decompressobj` stops after the first stream and drops the
  second without a word. The model says what the kernel unpacks, all members of the gzip file one after the
  other, and proves that the replace command leaves the rest as it was if and only if nothing is behind the
  first stream; and it exhibits an image that passes the guard and loses its second stream.
- **HWC2 on HWC1** (`Hwc2Layers`, `Hwc2Order`, `Hwc2Adapter`, `Hwc2Runs`, `Hwc2Overlays`). Z order, layer numbers
  and the rectangle arena of a display; and the frames of all displays, with the device as an adversary bound only
  by the contract that a layer with HWC_SKIP_LAYER stays HWC_FRAMEBUFFER. The rule of this device, no more than
  one overlay on a display, is checked in the first answer only; `Hwc2Overlays` says for which requests it holds
  whatever the device answers.
- **CRC-32** (`Crc32`). The table form against long division of polynomials over GF(2).
- **Colour rotation** (`ColourProcess`, `ColourHash`, `ColourShim`, `ColourForgets`, `ColourNotices`). The NEON block loop with its tail, and the
  24-slot table: an unbounded map up to 24 buffers, and beyond that, or with descriptor 0, exactly when an untouched
  buffer is rotated a second time. A buffer in which one byte was drawn never keeps its hash, so it is rotated.
- **RIL callbacks and ledgers** (`RilCallbacks`, `RilLedger`). The drop-and-recheck protocol with its
  int32_t counter, which the model lets wrap around; and requests under an arbitrary pattern of failing
  allocations.
- **The mini ELF loader** (`ElfLayout`, `ElfRelocs`, `ElfLoader`). From program headers to the last
  relocation, on the bytes of the image.
- **The power HAL** (`PowerHal`). Hints, screen, clock and timer thread in any interleaving.

A method that changes state is proved equal to a function on the old state (`Enqueue` to
`EnqueueCommand`, `Relocate` to `Patched`, `SetDataProfile` to its `Outcome`); the runs and laws are
lemmas about those functions. What such a function means is stated once more without it, with the numbers, names
and branches of the source (`CarriedOut`, `ChangesMean`, `FinishActs`, `SentMeans`, `WindowMeans`), or in terms of
what the kernel answered (`Write`, `Read`, `StartOrWait`).

## Model

| member | source | states |
|---|---|---|
| `PcmPointers.ComputeBoundary` | external/tinyalsa/pcm.c:1013-1019 | the doubling loop ends with buffer size times a power of two, and leaves room for 32-bit signed arithmetic (`Geometry`) exactly when the buffer has at most INT_MAX/3 frames |
| `PcmPointers.ApplForwardAdds` | external/tinyalsa/pcm.c:1129-1138 | advancing the wrapped application pointer is adding to an unbounded counter |
| `PcmPointers.PlaybackAvailExact` | external/tinyalsa/pcm.c:1098-1110 | free space is the counters' exact difference, except that a full ring whose hardware pointer plus the buffer lies beyond the boundary reads as the boundary |
| `PcmPointers.CaptureAvailExact` | external/tinyalsa/pcm.c:1112-1118 | captured frames are the counters' exact difference across every wrap |
| `PcmPointers.RingOffset` | external/tinyalsa/pcm.c:1149 | the cell taken from the wrapped pointer is the counter's own cell |
| `PcmPointers.NoMisreadBeforeFirstWrap` | external/tinyalsa/pcm.c:1104-1107 | the misreading cannot occur before the application counter has passed the boundary |
| `PcmPointers.MisreadIffTwoFrames` | external/tinyalsa/pcm.c:1098-1110 | on every boundary that leaves room for the arithmetic the misread state exists if and only if the buffer has at least two frames |
| `PcmPointers.MisreadIsReachable` | external/tinyalsa/pcm.c:1098-1110 | for every such buffer, frames written and played one at a time that keep the ring full arrive at a full ring that reads as more space than it has |
| `PcmPointers.MisreadOfFour` | external/tinyalsa/pcm.c:1013-1019 | the same for four frames and the boundary the doubling loop computes for them |
| `PcmRing.MisreadOverwrites` | external/tinyalsa/pcm.c:406-424 | a piece copied in the misread state replaces the oldest frames still to be played, one for one, and the queue survives if and only if they are replaced by themselves |
| `PcmRing.Pcm.OverwritePiece` | external/tinyalsa/pcm.c:433-446 | a round in the misread state: which cells are overwritten, where the pointer goes, and that the frames there are lost unless the new ones are the same |
| `PcmRing.FifoOverwrite` | external/tinyalsa/pcm.c:406-424 | cells outside the queue can be overwritten without touching a frame the other side owns |
| `PcmRing.FifoAppend` | external/tinyalsa/pcm.c:1167-1174 | a contiguous piece of free cells joins the end of the stream in order |
| `PcmRing.FifoTake` | external/tinyalsa/pcm.c:1167-1174 | a contiguous piece of filled cells leaves the front of the stream in order |
| `PcmRing.Pcm.Begin` | external/tinyalsa/pcm.c:1140-1165 | hands out the counter's cell and the least of the wish, the available frames and the rest of the ring; with the buffer size in place of the available frames in the misread state |
| `PcmRing.Pcm.AreasCopy` | external/tinyalsa/pcm.c:406-424 | copies exactly the frames between ring cells and buffer, in the stream's direction, and keeps the queue |
| `PcmRing.Pcm.Commit` | external/tinyalsa/pcm.c:1167-1174 | the frames at the pointer change hands: the stream grows by exactly those cells |
| `PcmRing.Pcm.TransferPiece` | external/tinyalsa/pcm.c:433-446 | one round moves the frames up to the end of the ring and keeps the rest available |
| `PcmRing.Pcm.TransferAreas` | external/tinyalsa/pcm.c:426-448 | any available number of frames moves, each once and in order, in at most two pieces, whatever the hardware does meanwhile |
| `PcmRing.Pcm.AvailUpdate` | external/tinyalsa/pcm.c:1176-1180 | the available frames, or the boundary in exactly the misread state |
| `PcmRing.Pcm.Prepare` | external/tinyalsa/pcm.c:1060-1070 | succeeds exactly when the stream was prepared or the kernel prepares it now, and asks the kernel once at most |
| `PcmRing.Pcm.Start` | external/tinyalsa/pcm.c:1072-1086 | succeeds exactly when the kernel prepares the stream, unless it is prepared, and then starts it; failure leaves running as it was |
| `PcmRing.Pcm.Stop` | external/tinyalsa/pcm.c:1088-1096 | succeeds exactly when the kernel drops the stream, which is then neither running nor prepared |
| `PcmRing.Pcm.Write` | external/tinyalsa/pcm.c:519-556 | 0 exactly when the kernel takes the buffer, at once or after one underrun and a successful preparation where restarting is allowed; -32 exactly for an underrun where it is not; -1 for every other failure; underruns are counted, the buffer reaches the kernel once with 0 and never otherwise, and two rounds always end the loop |
| `PcmRing.Pcm.Read` | external/tinyalsa/pcm.c:558-588 | as many overruns are counted as the kernel answered with; the call ends at the first request that comes to another answer, or at the first failed start, with that result; with 0 the caller has the frames of that request and otherwise none |
| `PcmRing.Pcm.ReadSucceedsIff` | external/tinyalsa/pcm.c:558-588 | so 0 is returned if and only if some request succeeds after nothing but overruns and successful restarts |
| `PcmRing.Pcm.StartOrWait` | external/tinyalsa/pcm.c:1265-1308 | the stream is started exactly when it is not running and the threshold is reached; the round sleeps exactly on a running stream with fewer frames than avail_min, of which the caller wants more or is still waiting for; it fails exactly when the start or the sleep fails in the kernel, with that error, and with sane thresholds never goes on to copy without any frames |
| `PcmRing.Pcm.CopyOrWait` | external/tinyalsa/pcm.c:1263-1329 | given the available frames: when the round ends the call, with an error exactly when start or sleep fails, and otherwise how many frames it moves |
| `PcmRing.Pcm.TransferRound` | external/tinyalsa/pcm.c:1256-1329 | one round moves a prefix of what is left and stops at the misreading only in the misread state |
| `PcmRing.Pcm.Transfer` | external/tinyalsa/pcm.c:1246-1332 | what was moved is a prefix of the caller's frames, in order; 0 is returned only when every whole frame was moved, a negative value only as the kernel's last answer with the stream stopped; and every round moves a frame or sleeps |
| `HciLayer.WaitingAnswers` | system/bt/hci/src/hci_layer.cc:659-694 | the entry found for an opcode is the first exact match, or else the first vendor command for a vendor opcode, or there is none |
| `HciLayer.Hci.Enqueue` | system/bt/hci/src/hci_layer.cc:377-394 | posts while there are credits and a message loop, drops without a loop, queues without credits |
| `HciLayer.Hci.CommandReady` | system/bt/hci/src/hci_layer.cc:396-406 | the oldest task joins the commands awaiting a response and is sent |
| `HciLayer.Hci.GetWaitingCommand` | system/bt/hci/src/hci_layer.cc:659-694 | the two passes over the list remove exactly the entry that answers |
| `HciLayer.Hci.ProcessCommandCredits` | system/bt/hci/src/hci_layer.cc:516-534 | the credits less the commands in flight go to the front of the queue, one each, in order |
| `HciLayer.Hci.UpdateCommandResponseTimer` | system/bt/hci/src/hci_layer.cc:701-711 | the timer watches the oldest command awaiting a response |
| `HciLayer.Hci.Intercepted` | system/bt/hci/src/hci_layer.cc:564-646 | callbacks, futures and freeing for both command events, with the rule of this device for Command Status |
| `HciLayer.Hci.FilterIncomingEvent` | system/bt/hci/src/hci_layer.cc:539-647 | the whole handling of a command event when nothing comes between its sections |
| `HciRuns.OrderKept` | system/bt/hci/src/hci_layer.cc:377-406 | every step keeps the accepted commands equal to sent, posted, lost and queued ones, and the queue empty while credits remain |
| `HciRuns.NoPostAboveBound` | system/bt/hci/src/hci_layer.cc:377-394 | no step of any thread posts a command that brings those outstanding above the credits last announced plus the tasks not yet run then |
| `HciRuns.AllowanceHoldsIffDrained` | system/bt/hci/src/hci_layer.cc:516-534 | after a credit event the controller's own limit (section 4.4 of Volume 2, Part E of the Bluetooth Core Specification) holds whatever is enqueued exactly when no posted task was waiting in the loop and the credits cover the commands awaiting a response |
| `HciRuns.AllowanceIsBroken` | system/bt/hci/src/hci_layer.cc:516-534 | a run from the start in which two commands are outstanding on one credit |
| `HciRuns.TimerKept` | system/bt/hci/src/hci_layer.cc:701-711 | with no event between its sections the timer watches the oldest pending command |
| `HciRuns.ConclusionEnds` | system/bt/hci/src/hci_layer.cc:629-646 | concluding an event ends its packet once, and its entry's buffer, wait entry and future once each |
| `HciRuns.EveryRun` | system/bt/hci/src/hci_layer.cc:308-406 | order, credit bound, timer and resource accounts hold after every interleaving of sections |
| `HciRuns.CommandsLeaveInOrder` | system/bt/hci/src/hci_layer.cc:377-406 | in every run what reached the controller is a prefix of what was accepted, and with the loop up nothing is missing |
| `HciRuns.EverythingEndsOnce` | system/bt/hci/src/hci_layer.cc:539-647 | in every run a command's buffer, wait entry and future, and an event's packet, end exactly once or are still held; a futured command is answered, dropped for want of a loop, or alive |
| `HciAnswers.ReceiveMatches` | system/bt/hci/src/hci_layer.cc:659-694 | what receiving an event takes from the list is the command that its opcode answers at that moment |
| `HciAnswers.ReceiveTakes` | system/bt/hci/src/hci_layer.cc:659-694 | an event takes out of the list the entry that its opcode answers, and nothing exactly when it answers none |
| `HciAnswers.VendorIs` | system/bt/hci/src/hci_layer.cc:680-683 | vendor opcodes are those from 0xFC00 on |
| `HciAnswers.RightAnswers` | system/bt/hci/src/hci_layer.cc:539-647 | in every run a complete callback and a future get the packet of an event that was received while its opcode answered their command, and callbacks are called for their own kind of event only |
| `HciTold.FinishActs` | system/bt/hci/src/hci_layer.cc:564-646 | the end of an event, action by action: the complete callback is called if and only if it is a Command Complete and there is one, the status callback likewise, the future is made ready with the packet of either, and packet and command are freed exactly when nobody was given them |
| `HciTold.ToldOnce` | system/bt/hci/src/hci_layer.cc:539-647 | in every run a command whose wait was ended by a Command Complete has had its complete callback called exactly once if it has one, and otherwise never; the same for Command Status and for futures; no command is ended by both |
| `HciFates.FilterIsThreeSteps` | system/bt/hci/src/hci_layer.cc:539-647 | the handling of an event without an interruption is its three steps, one after the other |
| `HciFates.TasksAreSent` | system/bt/hci/src/hci_layer.cc:396-406 | the message loop sends its tasks in the order in which they were posted, each to the end of the pending list, and changes nothing else but the timer |
| `HciFates.PendingInOrder` | system/bt/hci/src/hci_layer.cc:396-406 | in every run the pending commands stand in the order in which they were sent, so the one the timer watches has waited longest |
| `HciFates.TimerUntilFreed` | system/bt/hci/src/hci_layer.cc:255-262 | in every run the timer lives until it is freed and is never armed again |
| `HciFates.SilentAfterLoopDown` | system/bt/hci/src/hci_layer.cc:177-183 | once the message loop is gone its tasks are lost and no later step sends anything |
| `Bytes.HexRoundTrip` | tools/a1000_bootimg_tool.py:57 | the number written by %08X is read back by int(s, 16) |
| `Bytes.LooseNumbers` | tools/a1000_bootimg_tool.py:56-57 | int(s, 16) accepts white space around a number, a sign and a prefix |
| `Bytes.Underscores` | tools/a1000_bootimg_tool.py:56-57 | and a single underscore between digits, but not at an end |
| `Cpio.ParseEmitted` | tools/a1000_bootimg_tool.py:67-79 | an emitted archive parses to its entries |
| `Cpio.HeaderFields` | tools/a1000_bootimg_tool.py:67-79 | a written header has 110 bytes, the magic 070701, the data size in bytes 54 to 62 and the name size in bytes 94 to 102 |
| `Cpio.EntryFormat` | tools/a1000_bootimg_tool.py:67-79 | name and contents stand behind it at the offsets of the newc format |
| `Cpio.EntryPadding` | tools/a1000_bootimg_tool.py:67-79 | each is followed by zeros up to a multiple of four |
| `Cpio.TrailerEnds` | tools/a1000_bootimg_tool.py:62-64 | an archive ends behind the entry named TRAILER!!! and behind no other |
| `Cpio.AcceptedEntry` | tools/a1000_bootimg_tool.py:82-88 | an archive that rebuilding reproduces has canonical entries only |
| `Cpio.EditIsRead` | tools/a1000_bootimg_tool.py:134-150 | for every accepted archive and any data below 2^32 bytes, the rebuilt archive parses to the same entries with the new data and sizes, and the same tail |
| `Cpio.EditIsSafe` | tools/a1000_bootimg_tool.py:82-88 | the guard accepts the edited archive: reproducing is kept by every replacement |
| `Cpio.RefreshedWritesTheSame` | tools/a1000_bootimg_tool.py:67-79 | rewriting the size fields changes nothing in what is built |
| `Cpio.CpioParse` | tools/a1000_bootimg_tool.py:49-64 | the cursor loop computes the archive's meaning |
| `Cpio.CpioBuild` | tools/a1000_bootimg_tool.py:67-79 | the growing buffer holds the archive's meaning |
| `Cpio.ReplaceEntries` | tools/a1000_bootimg_tool.py:139-146 | every entry of the name gets the data, no other entry changes, and a missing name is reported |
| `BootImage.PadToFormula` | tools/a1000_bootimg_tool.py:35-36 | padding by whole pages is the source's formula |
| `BootImage.HeaderIff` | tools/a1000_bootimg_tool.py:26-29 | a header is accepted by its length and its eight letters alone |
| `BootImage.HeaderReads` | tools/a1000_bootimg_tool.py:30-32 | from nine words in any values the five that count are picked |
| `BootImage.AssembleFailsIff` | tools/a1000_bootimg_tool.py:91-105 | assembling gives up exactly when a size does not fit its word or the pages do not fit the partition |
| `BootImage.AssembleImage` | tools/a1000_bootimg_tool.py:91-105 | the growing buffer computes the assembled image or one of the refusals |
| `BootImage.HeaderPageFields` | tools/a1000_bootimg_tool.py:91-97 | the rewritten page parses to the same header with the two new sizes |
| `BootImage.AssembledParts` | tools/a1000_bootimg_tool.py:39-46 | taking an assembled image apart gives back kernel and ramdisk, and looks for the device tree behind a second stage that was not written |
| `BootImage.RoundTrip` | tools/a1000_bootimg_tool.py:91-105 | for every image, kernel, ramdisk and device tree: length, kernel and ramdisk come back, the device tree if and only if it is as long as the header says, cut off at the end of the partition, and there is no second stage or nothing but zeros to find behind its gap; this is also what the kernel command relies on |
| `BootImage.SecondStageHidesDt` | tools/a1000_bootimg_tool.py:39-46 | for every second stage and every device tree that is not all zeros there is an image in which assembling hides the device tree |
| `BootImage.Reassembled` | tools/a1000_bootimg_tool.py:91-105 | an image without second stage whose parts fit is reproduced if and only if its padding is zero |
| `BootImage.ReplacedIsFirst` | tools/a1000_bootimg_tool.py:152-155 | the closing self-check finds the new data under the name |
| `BootImage.OpensIff` | tools/a1000_bootimg_tool.py:82-88 | the command opens exactly the ramdisks whose archive is written back byte by byte |
| `BootImage.RewriteIff` | tools/a1000_bootimg_tool.py:134-150 | and then writes an image exactly when an entry has the name and the new ramdisk fits |
| `BootImage.ReplaceIsSafe` | tools/a1000_bootimg_tool.py:134-155 | whatever the replace command writes has the same length and kernel, a ramdisk that passes the guard with the new data at every entry of the name and the old data elsewhere, and the same device tree under exactly the condition of the round trip |
| `BootImage.OneStreamIff` | tools/a1000_bootimg_tool.py:15-19 | what the kernel unpacked was the archive and then the streams behind the first one; what it unpacks from the written image is the edited archive alone; so the rest stays as it was if and only if nothing is behind the first stream |
| `BootImage.TwoStreams` | tools/a1000_bootimg_tool.py:82-88 | for every codec, every archive the tool can edit and every second stream there is an image that passes the guard, is written, and has lost its second stream |
| `BootImage.SecondStreamIsLost` | tools/a1000_bootimg_tool.py:82-88 | such an image with an archive of one file and a codec written out in full |
| `Hwc2Layers.Display.Create` | frameworks/native/libs/hwc2on1adapter/HWC2On1Adapter.cpp:562-571 | a new layer at Z 0 goes above its equals |
| `Hwc2Layers.Display.Destroy` | frameworks/native/libs/hwc2on1adapter/HWC2On1Adapter.cpp:573-594 | the layer leaves the device and, where the equal range holds it, the display |
| `Hwc2Layers.Display.UpdateZ` | frameworks/native/libs/hwc2on1adapter/HWC2On1Adapter.cpp:992-1027 | the layer moves above its new equals; unknown layers, layers of other displays and an unchanged Z change nothing |
| `Hwc2Layers.Display.AssignHwc1LayerIds` | frameworks/native/libs/hwc2on1adapter/HWC2On1Adapter.cpp:1814-1821 | the map and the layers' own numbers are the positions in Z order |
| `Hwc2Layers.Display.AllocateRequestedContents` | frameworks/native/libs/hwc2on1adapter/HWC2On1Adapter.cpp:1781-1812 | one rectangle for the target, one for each visible and each damaged one |
| `Hwc2Layers.Display.GetRects` | frameworks/native/libs/hwc2on1adapter/HWC2On1Adapter.cpp:1559-1575 | consecutive ranges while they last, nothing for nothing or for too much |
| `Hwc2Layers.Display.ApplyVisibleRegion` | frameworks/native/libs/hwc2on1adapter/HWC2On1Adapter.cpp:2153-2159 | the next rectangles of the arena become the layer's region, and GetRects cannot fail here |
| `Hwc2Layers.Display.PrepareFramebufferTarget` | frameworks/native/libs/hwc2on1adapter/HWC2On1Adapter.cpp:1866-1897 | the target's rectangle is the next one |
| `Hwc2Layers.Display.Prepare` | frameworks/native/libs/hwc2on1adapter/HWC2On1Adapter.cpp:1200-1241 | the whole arena and every region after prepare, as functions of the layers |
| `Hwc2Order.SeatIs` | frameworks/native/libs/hwc2on1adapter/HWC2On1Adapter.cpp:577-585 | the equal range of a layer's Z holds the layer |
| `Hwc2Order.EmplacedIs` | frameworks/native/libs/hwc2on1adapter/HWC2On1Adapter.cpp:1922-1925 | emplacing keeps the order by Z and, among equals, by time |
| `Hwc2Order.SetZKeeps` | frameworks/native/libs/hwc2on1adapter/HWC2On1Adapter.cpp:992-1027 | updateLayerZ keeps the order, succeeds exactly for the display's own layers, sets the Z, and changes nothing when it fails or the Z is the old one |
| `Hwc2Order.CreateMeans` | frameworks/native/libs/hwc2on1adapter/HWC2On1Adapter.cpp:562-571 | a created layer is new, live, and lies at Z 0 above all others there; every other layer is as it was |
| `Hwc2Order.DestroyMeans` | frameworks/native/libs/hwc2on1adapter/HWC2On1Adapter.cpp:573-594 | a destroyed layer is gone from device and display, every other layer is as it was, and only an unknown layer is refused |
| `Hwc2Order.SetZMeans` | frameworks/native/libs/hwc2on1adapter/HWC2On1Adapter.cpp:992-1027 | a layer with a new Z lies above all others of that Z, and no other layer changes or moves |
| `Hwc2Order.EveryOrder` | frameworks/native/libs/hwc2on1adapter/HWC2On1Adapter.cpp:562-594 | over every run of creating, destroying and moving layers, here and on other displays, the order holds exactly the display's live layers, once each, sorted |
| `Hwc2Order.EveryDisplay` | frameworks/native/libs/hwc2on1adapter/HWC2On1Adapter.cpp:562-594 | and so it is in every run of a newly constructed display |
| `Hwc2Order.NumbersAreRanks` | frameworks/native/libs/hwc2on1adapter/HWC2On1Adapter.cpp:1814-1821 | the HWC1 numbers are a bijection onto 0 to n-1, monotone in Z, each the number of layers below |
| `Hwc2Order.ArenaServes` | frameworks/native/libs/hwc2on1adapter/HWC2On1Adapter.cpp:1781-1821 | every region lies in the arena with its own content, null stands only for an empty one, no two overlap, and one rectangle per damaged one is left |
| `Hwc2Order.SpareIs` | frameworks/native/libs/hwc2on1adapter/HWC2On1Adapter.cpp:1781-1812 | what is left is one rectangle for each damaged one of each layer |
| `Hwc2Adapter.Hwc2On1.Prepare` | frameworks/native/libs/hwc2on1adapter/HWC2On1Adapter.cpp:2184-2237 | the composition types and skip flags asked of HWC1 |
| `Hwc2Overlays.AskedMeans` | frameworks/native/libs/hwc2on1adapter/HWC2On1Adapter.cpp:2184-2237 | which layers go out as FRAMEBUFFER with and without the skip flag and which as SIDEBAND, by composition type, alpha, transform, background and HWC1 version |
| `Hwc2Adapter.Hwc2On1.LimitOverlays` | frameworks/native/libs/hwc2on1adapter/HWC2On1Adapter.cpp:2389-2413 | two or more overlays of a display all go back to the GPU with the skip flag, and only they |
| `Hwc2Adapter.Hwc2On1.GenerateChanges` | frameworks/native/libs/hwc2on1adapter/HWC2On1Adapter.cpp:1243-1263 | exactly the changes the device's answer stands for |
| `Hwc2Adapter.Hwc2On1.PrepareAllDisplays` | frameworks/native/libs/hwc2on1adapter/HWC2On1Adapter.cpp:2313-2443 | prepare, the overlay rule, the second prepare where one is needed, and the changes of every display |
| `Hwc2Adapter.Hwc2On1.ValidateDisplay` | frameworks/native/libs/hwc2on1adapter/HWC2On1Adapter.cpp:969-990 | prepares only without changes, and reports changes exactly when there are some |
| `Hwc2Adapter.Hwc2On1.AcceptChanges` | frameworks/native/libs/hwc2on1adapter/HWC2On1Adapter.cpp:534-560 | every change of a layer that still exists is applied, then the changes are empty; an error without validation |
| `Hwc2Adapter.Hwc2On1.SetAllDisplays` | frameworks/native/libs/hwc2on1adapter/HWC2On1Adapter.cpp:2522-2567 | displays are set in order until one is not ready; those before it have lost their changes |
| `Hwc2Adapter.Hwc2On1.PresentDisplay` | frameworks/native/libs/hwc2on1adapter/HWC2On1Adapter.cpp:787-804 | without changes nothing is set, otherwise all displays |
| `Hwc2Runs.GenerateIs` | frameworks/native/libs/hwc2on1adapter/HWC2On1Adapter.cpp:1823-1856 | a layer has a change exactly when the answer stands for another type, and to that type |
| `Hwc2Runs.ChangesMean` | frameworks/native/libs/hwc2on1adapter/HWC2On1Adapter.cpp:1823-1856 | after prepareAllDisplays a layer answered FRAMEBUFFER that is not Client has a change to Client, a layer answered OVERLAY that is not Device a change to Device, and no other layer has one |
| `Hwc2Runs.ClientStays` | frameworks/native/libs/hwc2on1adapter/HWC2On1Adapter.cpp:2184-2206 | a layer sent with the skip flag comes back as FRAMEBUFFER from one or two prepares |
| `Hwc2Runs.ChangesLower` | frameworks/native/libs/hwc2on1adapter/HWC2On1Adapter.cpp:1823-1856 | whatever the device answers under its contract, each change lowers the rank of the layer's type |
| `Hwc2Runs.ChangesAreLive` | frameworks/native/libs/hwc2on1adapter/HWC2On1Adapter.cpp:1243-1263 | every generated change is for a layer that exists |
| `Hwc2Runs.StepKeeps` | frameworks/native/libs/hwc2on1adapter/HWC2On1Adapter.cpp:534-594 | every call, in any order and on any display, keeps ownership, agreement and the account of type changes |
| `Hwc2Runs.ChangesRunOut` | frameworks/native/libs/hwc2on1adapter/HWC2On1Adapter.cpp:534-560 | in every run the accepted type changes are at most twice the layers at the start plus the types the client gives, so a client that gives none sees changes in finitely many frames |
| `Hwc2Runs.PresentMeans` | frameworks/native/libs/hwc2on1adapter/HWC2On1Adapter.cpp:787-804 | a present that reaches the device finds every display validated and accepted, and every layer not retyped since that was answered FRAMEBUFFER is Client and every one answered OVERLAY is Device |
| `Hwc2Runs.PresentFailsIff` | frameworks/native/libs/hwc2on1adapter/HWC2On1Adapter.cpp:1270-1277 | without changes present does nothing; otherwise it succeeds exactly when every display is validated without open changes |
| `Hwc2Runs.FrameIsPresented` | frameworks/native/libs/hwc2on1adapter/HWC2On1Adapter.cpp:787-804 | validating, accepting on every display and presenting succeeds whatever the device answers, and the next frame starts without changes |
| `Hwc2Overlays.OverlaysLeft` | frameworks/native/libs/hwc2on1adapter/HWC2On1Adapter.cpp:2389-2418 | a display with too many overlays ends with exactly those the second prepare promotes, no more than the first left free, and its former overlays on the GPU |
| `Hwc2Overlays.LimitMeans` | frameworks/native/libs/hwc2on1adapter/HWC2On1Adapter.cpp:2389-2413 | a display is limited exactly when two of its layers were answered as overlays, and then every overlay becomes FRAMEBUFFER with the skip flag and nothing else changes |
| `Hwc2Overlays.OneAnswer` | frameworks/native/libs/hwc2on1adapter/HWC2On1Adapter.cpp:2372-2377 | one prepare: every answer that keeps the contract has at most one overlay if and only if the request leaves the device at most one layer |
| `Hwc2Overlays.OneOverlay` | frameworks/native/libs/hwc2on1adapter/HWC2On1Adapter.cpp:2389-2418 | after prepareAllDisplays a display has at most one overlay, whatever the device answers to one or two prepares, if and only if its request leaves the device at most one layer, or at most three with every other display leaving at most one |
| `Hwc2Overlays.FreeAreMovable` | frameworks/native/libs/hwc2on1adapter/HWC2On1Adapter.cpp:2184-2230 | the layers a request leaves to the device are those whose composition type goes out without the skip flag |
| `Hwc2Overlays.AllButTwoLeft` | frameworks/native/libs/hwc2on1adapter/HWC2On1Adapter.cpp:2414-2418 | on every display with two or more such layers the device can leave all of them but two as overlays, since nothing looks at its second answer |
| `Hwc2Overlays.SecondAnswerIsNotLimited` | frameworks/native/libs/hwc2on1adapter/HWC2On1Adapter.cpp:2414-2418 | four ordinary layers, their request, and two answers that keep the contract and leave two overlays |
| `Crc32.SerialIsShifts` | device/lenovo/a1000/tools/fb_dump.c:29-34 | feeding bits one at a time is shifting the register |
| `Crc32.ShiftsAreLinear` | device/lenovo/a1000/tools/fb_dump.c:31-32 | the eight-step shift is linear over exclusive or |
| `Crc32.ByteStepIsSerial` | device/lenovo/a1000/tools/fb_dump.c:38-39 | one table step is eight serial steps |
| `Crc32.SerialIsRemainder` | device/lenovo/a1000/tools/fb_dump.c:37-40 | the serial register is the remainder of long division over GF(2) |
| `Crc32.TableFormIsDivision` | device/lenovo/a1000/tools/fb_dump.c:37-40 | table form, initial value and final complement give the CRC of section 8 of RFC 1952, for every byte string |
| `Crc32.Checksum.TableEntry` | device/lenovo/a1000/tools/fb_dump.c:30-33 | the inner loop computes an entry of the table |
| `Crc32.Checksum.BuildTable` | device/lenovo/a1000/tools/fb_dump.c:27-36 | the first call fills the whole table |
| `Crc32.Checksum.Crc32Of` | device/lenovo/a1000/tools/fb_dump.c:21-41 | on the first and every later call the result is the division's, for every byte string |
| `ColourProcess.ThreeTurns` | external/libui_shim/libsprdshim_ioctl.c:103 | the permutation undoes itself after three times |
| `ColourProcess.BlockIsRotated` | external/libui_shim/libsprdshim_ioctl.c:116-124 | storing the channels in their new order turns each of the sixteen pixels |
| `ColourProcess.TurnWordIsTurn` | external/libui_shim/libsprdshim_ioctl.c:139-141 | the masks and shifts of the tail loop turn a pixel like the block loop |
| `ColourProcess.ProcessBlock` | external/libui_shim/libsprdshim_ioctl.c:113-133 | one block is turned or left alone, nothing else changes, and the accumulator takes what is left there |
| `ColourProcess.ProcessPixel` | external/libui_shim/libsprdshim_ioctl.c:138-143 | the same for one pixel of the tail |
| `ColourProcess.Process` | external/libui_shim/libsprdshim_ioctl.c:104-145 | for any number of pixels: every pixel turned or none, and the hash of what is left, so the rotating pass returns what a plain pass over its result would |
| `ColourHash.MixLaneIs` | external/libui_shim/libsprdshim_ioctl.c:107-133 | a lane takes in one word of each channel by the source's five multipliers, modulo 2^32 |
| `ColourHash.OneByteTells` | external/libui_shim/libsprdshim_ioctl.c:104-145 | two buffers of whole pixels that differ in one byte, in a block or in the tail, have different hashes |
| `ColourShim.Shim.FdSlot` | external/libui_shim/libsprdshim_ioctl.c:151-161 | the loop over the table finds or claims the slot of the specification |
| `ColourShim.Shim.PresentBuffer` | external/libui_shim/libsprdshim_ioctl.c:396-404 | a frame is turned exactly when its hash is not the one left there, and the slot then holds the hash of what is left |
| `ColourShim.Shim.HandleLayer` | external/libui_shim/libsprdshim_ioctl.c:262-279 | only an enabled layer with a descriptor above 0, pitch and height is presented, with pitch times height modulo 2^32 as the pixel count |
| `ColourShim.Shim.HandleOsd` | external/libui_shim/libsprdshim_ioctl.c:293-406 | only an OSD frame whose physical address is recorded is presented, under the recorded descriptor |
| `ColourShim.SlotIsEntry` | external/libui_shim/libsprdshim_ioctl.c:151-161 | with room in the table the slot holds the map's value and no other buffer's value changes |
| `ColourShim.TableIsMap` | external/libui_shim/libsprdshim_ioctl.c:147-161 | over every run with at most 24 descriptors the table behaves as an unbounded map with default 0 |
| `ColourShim.EveryRun` | external/libui_shim/libsprdshim_ioctl.c:147-161 | and so from the empty table on: every buffer of every such run is left as the map leaves it |
| `ColourShim.PresentLeavesHash` | external/libui_shim/libsprdshim_ioctl.c:273-276 | after a present the stored hash is the hash of the buffer |
| `ColourShim.RotatedOnce` | external/libui_shim/libsprdshim_ioctl.c:262-279 | presenting an untouched buffer again changes neither buffer nor table, whatever was presented in between |
| `ColourNotices.NextFrameIsTurned` | external/libui_shim/libsprdshim_ioctl.c:262-279 | whatever the table, a buffer in which one byte was drawn since it was presented is rotated when it is presented next |
| `ColourNotices.LaterFrameIsTurned` | external/libui_shim/libsprdshim_ioctl.c:262-279 | and so it is with other buffers presented in between, 24 descriptors at most in all |
| `ColourNotices.HashOfZeros` | external/libui_shim/libsprdshim_ioctl.c:104-145 | the hash of a black transparent buffer is that of a free slot |
| `ColourNotices.FirstFrameIsTurned` | external/libui_shim/libsprdshim_ioctl.c:262-279 | the first frame of a session is rotated as soon as one byte of it is not zero |
| `ColourForgets.ForgetsIff` | external/libui_shim/libsprdshim_ioctl.c:158-159 | another buffer is forgotten exactly when the descriptor is new, no slot is free and the round robin is at that buffer |
| `ColourForgets.TurnedAgainIff` | external/libui_shim/libsprdshim_ioctl.c:262-279 | an untouched buffer, presented again after one other, is rotated a second time exactly then, unless its hash is 0 |
| `ColourForgets.TurnedTwice` | external/libui_shim/libsprdshim_ioctl.c:151-161 | a run from the empty table in which the first of 25 buffers is rotated a second time |
| `ColourForgets.ForgottenInTurn` | external/libui_shim/libsprdshim_ioctl.c:156-161 | with no slot free, buffers are forgotten in a circle: each of the next 24 new ones takes another slot |
| `ColourForgets.ZeroIsNotRemembered` | external/libui_shim/libsprdshim_ioctl.c:156-159 | what is left for descriptor 0 is kept by the next present if and only if that descriptor is already known, and a new one is given its slot |
| `ColourForgets.EveryTable` | external/libui_shim/libsprdshim_ioctl.c:151-161 | in every table of a session a descriptor other than 0 has one slot at most, and only the first free slot can hold a hash |
| `ColourForgets.ZeroTurnedAgainIff` | external/libui_shim/libsprdshim_ioctl.c:262-279 | for every such table: an untouched buffer with descriptor 0, presented again after one other, is rotated a second time exactly when the other was new, unless its hash is 0 |
| `ColourForgets.ZeroIsTurnedTwice` | external/libui_shim/libsprdshim_ioctl.c:156-159 | so it happens to the first two buffers of a session if one of them has descriptor 0 |
| `RilCallbacks.RadioSlot.NoteCounter` | hardware/ril/libril/ril_service.cpp:742-748 | the counter is noted before the read lock is dropped |
| `RilCallbacks.RadioSlot.ResetUnlessUpdated` | hardware/ril/libril/ril_service.cpp:750-769 | under the write lock the callbacks are reset exactly when the counter is the noted one |
| `RilCallbacks.RadioSlot.CheckReturnStatus` | hardware/ril/libril/ril_service.cpp:735-779 | undisturbed, a failed call resets its service's callbacks and counts the update |
| `RilCallbacks.RadioSlot.SetResponseFunctions` | hardware/ril/libril/ril_service.cpp:785-812 | the slot has the two arguments, and the two casts to the 1.1 interfaces if both succeeded and else neither; one update counted |
| `RilCallbacks.RadioSlot.SetOemHookFunctions` | hardware/ril/libril/ril_service.cpp:2914-2933 | the same for the OEM hook, which has no 1.1 interfaces |
| `RilCallbacks.ShownEqual` | hardware/ril/libril/ril_service.cpp:81 | two counts show the same int32_t exactly when they are a multiple of 2^32 apart |
| `RilCallbacks.EveryRun` | hardware/ril/libril/ril_service.cpp:735-812 | books, notes and resets stay consistent in every interleaving of any number of threads |
| `RilCallbacks.NeverHalfSet` | hardware/ril/libril/ril_service.cpp:797-802 | the two 1.1 pointers are both null or both set in every reachable state |
| `RilCallbacks.SetMeans` | hardware/ril/libril/ril_service.cpp:785-812 | in every reachable state an installation leaves its arguments in place, counts one update of its own service, and leaves the other service alone |
| `RilCallbacks.ResetsIff` | hardware/ril/libril/ril_service.cpp:753-769 | a failed call resets exactly when the updates since are a multiple of 2^32, and below 2^32 what it resets is what it failed on; otherwise nothing changes |
| `RilCallbacks.ResetOnce` | hardware/ril/libril/ril_service.cpp:753-769 | two resets for the same failed callbacks lie at least 2^32 updates apart |
| `RilCallbacks.FreshSurvive` | hardware/ril/libril/ril_service.cpp:753-769 | callbacks no call failed on survive every interleaving of earlier failures if nobody waits with their counter |
| `RilCallbacks.FreshUnmatchedIff` | hardware/ril/libril/ril_service.cpp:785-812 | nobody does just after setResponseFunctions unless it waited through a multiple of 2^32 updates |
| `RilCallbacks.StaleErasure` | hardware/ril/libril/ril_service.cpp:753-769 | a run in which fresh callbacks are erased after exactly 2^32 updates |
| `RilLedger.Ril.Free` | hardware/ril/libril/ril_service.cpp:480-494 | a pointer is freed only if it came from calloc and is still live |
| `RilLedger.Ril.CopyHidlStringToRil` | hardware/ril/libril/ril_service.cpp:506-520 | null for the empty string, a copy, or one NO_MEMORY response |
| `RilLedger.Ril.CopyStrings14` | hardware/ril/libril/ril_service.cpp:2495-2510 | the four strings of the older structure in order until one fails, with the protocol of the roaming state |
| `RilLedger.Ril.CopyRow15` | hardware/ril/libril/ril_service.cpp:2558-2583 | the six strings and the MVNO literal of the newer structure, or one response that names the failure |
| `RilLedger.Ril.FreeSetDataProfileData` | hardware/ril/libril/ril_service.cpp:2431-2455 | field by field over all structures and then the arrays: the heap is what it was before the request |
| `RilLedger.Ril.DispatchStrings` | hardware/ril/libril/ril_service.cpp:600-638 | exactly one answer, decided by the allocations, and the heap as before |
| `RilLedger.Ril.SetDataProfile` | hardware/ril/libril/ril_service.cpp:2457-2615 | exactly one answer in either branch, with the structures the vendor library reads, and the heap as before, under every pattern of failing allocations |
| `RilLedger.RowsPassIff` | hardware/ril/libril/ril_service.cpp:2492-2591 | rows pass exactly when no allocation they need fails and every MVNO type has a name |
| `RilLedger.InvalidIff` | hardware/ril/libril/ril_service.cpp:2579-2583 | INVALID_ARGUMENTS is answered exactly when every allocation up to the first bad row succeeds |
| `RilLedger.ProfilePassesIff` | hardware/ril/libril/ril_service.cpp:2457-2615 | the vendor library gets the profiles exactly when both arrays and all strings could be allocated and every MVNO type is known |
| `RilLedger.ProfileInvalidIff` | hardware/ril/libril/ril_service.cpp:2579-2583 | with an unknown MVNO type in the newer structure the answer is INVALID_ARGUMENTS exactly when every allocation up to its row succeeds, and else NO_MEMORY |
| `RilLedger.ProfileMemory` | hardware/ril/libril/ril_service.cpp:2457-2615 | without one every refusal is NO_MEMORY |
| `RilLedger.SentMeans` | hardware/ril/libril/ril_service.cpp:2492-2591 | member by member what the vendor library reads: APN, the protocol of the roaming state or both, user, password, match data and the name of the MVNO type, null for an empty string |
| `RilLedger.StringsPassIff` | hardware/ril/libril/ril_service.cpp:600-638 | the vendor library gets the strings exactly when the array and every non-empty string could be allocated, and otherwise the answer is NO_MEMORY |
| `ElfLayout.Bounds` | device/lenovo/a1000/camera/elfload.c:154-160 | the lowest and highest address of the loadable segments |
| `ElfLayout.SpanCovers` | device/lenovo/a1000/camera/elfload.c:162 | every segment lies in the mapping, which is whole pages and begins and ends less than a page from a segment |
| `ElfLayout.LoadSegments` | device/lenovo/a1000/camera/elfload.c:168-179 | every segment with file content is copied to its address; a short read fails |
| `ElfLayout.EveryByte` | device/lenovo/a1000/camera/elfload.c:168-179 | every byte of the mapping is a byte of the file, of the last segment that covers it, or zero |
| `ElfLayout.EveryByteIs` | device/lenovo/a1000/camera/elfload.c:168-179 | the same in terms of the program headers alone |
| `ElfLayout.LoadFailsIff` | device/lenovo/a1000/camera/elfload.c:168-179 | loading fails exactly when a segment reaches beyond the end of the file |
| `ElfRelocs.ResolveOrder` | device/lenovo/a1000/camera/elfload.c:100-119 | a name gets the first symbol of the library that defines it, only then the process, only then a stub |
| `ElfRelocs.ResolveSymbol` | device/lenovo/a1000/camera/elfload.c:95-120 | the symbol loop computes that address |
| `ElfRelocs.SymbolReads` | device/lenovo/a1000/camera/elfload.c:100-119 | a symbol entry of sixteen bytes: name, value and section, and when it defines a name |
| `ElfRelocs.NameReads` | device/lenovo/a1000/camera/elfload.c:100-119 | a name is the bytes up to the first zero |
| `ElfRelocs.Stubs` | device/lenovo/a1000/camera/elfload.c:81-90 | the three stubs of the older C++ ABI, each under its own name |
| `ElfRelocs.EntryReads` | device/lenovo/a1000/camera/elfload.c:214-217 | a relocation entry of eight bytes: slot, type and symbol |
| `ElfRelocs.RelocValue` | device/lenovo/a1000/camera/elfload.c:220-237 | the value an entry's type prescribes; unknown types and unresolved names give up |
| `ElfRelocs.PrescribedMeans` | device/lenovo/a1000/camera/elfload.c:220-237 | by the numbers of the ARM supplement: RELATIVE adds the base to the word in the slot, ABS32 the symbol, GLOB_DAT and JUMP_SLOT put the symbol there; only these four types can be carried out, and the last three only with a symbol |
| `ElfRelocs.TablesStay` | device/lenovo/a1000/camera/elfload.c:205-240 | patching well-formed slots leaves symbols, strings and both relocation tables readable |
| `ElfRelocs.NextReads` | device/lenovo/a1000/camera/elfload.c:214-217 | the next entry, its symbol and its slot read as they did before any relocation |
| `ElfRelocs.PatchedMore` | device/lenovo/a1000/camera/elfload.c:220-233 | patching one more slot keeps all earlier ones and every other byte |
| `ElfRelocs.Relocate` | device/lenovo/a1000/camera/elfload.c:205-240 | both passes succeed exactly when every entry has one of the four types and finds its symbol, and then each slot holds base plus word, symbol plus word or symbol, modulo 2^32, as its type says, and every other byte is as loaded |
| `ElfLoader.ReadDynamic` | device/lenovo/a1000/camera/elfload.c:186-199 | the last entry of each tag before the end counts |
| `ElfLoader.DynamicMeans` | device/lenovo/a1000/camera/elfload.c:186-199 | which tags, by their numbers in the System V ABI, say where the tables are and how long |
| `ElfLoader.DynamicHeaderIs` | device/lenovo/a1000/camera/elfload.c:181-184 | the dynamic section is where the last header of its kind says |
| `ElfLoader.TablesMean` | device/lenovo/a1000/camera/elfload.c:200-212 | the tables as positions in the mapping, their lengths in entries of eight bytes, and the number of symbols from the hash table |
| `ElfLoader.LoBaseIs` | device/lenovo/a1000/camera/elfload.c:171 | the base that relocations add is the address of the mapping less the one the library was linked for, modulo 2^32 |
| `ElfLoader.Open` | device/lenovo/a1000/camera/elfload.c:122-240 | loading succeeds exactly when there is something to load, all of it can be read, and every relocation can be carried out; then the mapping is the loaded image with each slot holding what its type prescribes |
| `ElfLoader.OtherBytes` | device/lenovo/a1000/camera/elfload.c:168-240 | after loading and relocating every byte outside the slots is file content or zero |
| `PowerHal.A1000Power.Apply` | device/lenovo/a1000/power/power_sc8830.c:112-147 | the wanted pair, reached by the writes of Moves and no others |
| `PowerHal.A1000Power.BoostLocked` | device/lenovo/a1000/power/power_sc8830.c:194-204 | the stronger frequency and the later deadline win |
| `PowerHal.A1000Power.BoostThreadTurn` | device/lenovo/a1000/power/power_sc8830.c:154-185 | a boost past its deadline ends; otherwise the thread waits |
| `PowerHal.A1000Power.PowerInit` | device/lenovo/a1000/power/power_sc8830.c:207-236 | the first call puts kernel and HAL into the known window, later calls do nothing |
| `PowerHal.A1000Power.Interactive` | device/lenovo/a1000/power/power_sc8830.c:238-252 | screen off ends the boost and its deadline |
| `PowerHal.A1000Power.HintLowPower` | device/lenovo/a1000/power/power_sc8830.c:273-278 | low power changes the ceiling |
| `PowerHal.MovesAreLegal` | device/lenovo/a1000/power/power_sc8830.c:131-146 | between any two legal windows the writes pass through legal windows only and end at the second |
| `PowerHal.MovesMean` | device/lenovo/a1000/power/power_sc8830.c:131-146 | only what changes is written, the ceiling first when it rises and last when it falls |
| `PowerHal.InitIsLegalIff` | device/lenovo/a1000/power/power_sc8830.c:224-225 | the two writes of init are legal exactly when the kernel's floor is not above the highest frequency |
| `PowerHal.StepKeeps` | device/lenovo/a1000/power/power_sc8830.c:149-278 | every locked section and every clock reading keeps the invariants |
| `PowerHal.StepMeans` | device/lenovo/a1000/power/power_sc8830.c:190-278 | what each section does to screen, low power, boost and deadline, in milliseconds and kilohertz |
| `PowerHal.WindowMeans` | device/lenovo/a1000/power/power_sc8830.c:112-147 | in every run the kernel's window in kilohertz: 1300000 with the screen on and low power off and else 1000000 above, and below 768000 or the boost of the strongest hint, as far as the ceiling allows |
| `PowerHal.NeverIllegal` | device/lenovo/a1000/power/power_sc8830.c:112-147 | in every interleaving every single write keeps min <= max, and with the lock free the pair is the one the state asks for |
| `PowerHal.BoostIsStrongest` | device/lenovo/a1000/power/power_sc8830.c:190-205 | the boost is the strongest hint since it was last ended, the deadline the latest since the screen went off, and past without a boost |
| `PowerHal.BoostsEnd` | device/lenovo/a1000/power/power_sc8830.c:149-188 | a turn of the timer 2000 ms after the clock was last read for a hint leaves no boost and the lowest floor |

## Left out

- PcmPointers.PlaybackAvailExact: exact except in the one misread state, which it names.
- PcmRing.Pcm.Transfer: the loops of pcm_read and pcm_mmap_transfer run for a given number of rounds, because nothing in the code bounds how long the kernel keeps them waiting; so does that of pcm_write, for which two always are enough.
- PcmRing.Pcm.TransferRound: stops at the misreading; `OverwritePiece` says what the next copy does, but not how the loop goes on with a queue that is no longer one.
- PcmRing.Pcm.Write: what the kernel does with the frames of the ioctl, in a ring of its own, is not modelled.
- PcmRing.Pcm.Start: what PREPARE and START do to the kernel's own pointers is not modelled; frames are moved as units, not as bytes; a failed synchronisation ioctl is not modelled, as the code ignores it.
- PcmRing.Pcm.StartOrWait: pcm_wait is one answer of the kernel, and the timeout computed for streams without interrupts is left out.
- HciRuns.EverythingEndsOnce: one session that starts with an empty queue; commands left in the queue or in the message loop when the layer is shut down stay alive for ever, which is what the code does with them.
- HCI: fragmenting, the firmware debug log, the start-up and command timeouts, and data packets.
- Cpio.CpioParse: a negative size, which int(s, 16) accepts, counts as malformed, where Python would go on with a cursor that moves backwards.
- BootImage.ReplaceIsSafe: gzip is any codec that reads back what it wrote (`Codec`); the compressed format itself is not modelled.
- BootImage.OneStreamIff: the kernel is taken to unpack gzip members only, as section 2.2 of RFC 1952 describes them, and to stop at the first bytes that are none.
- The info command, file access and messages of the boot image tool.
- Hwc2Layers.Display.Destroy: the run theorem requires that a display is asked to destroy its own layers only; with another display's layer the code leaves a dangling one behind.
- Hwc2Layers.Display.Prepare: displays that HWC1 does not know or that have no active configuration, and the fields of an HWC1 layer that are plain copies.
- Hwc2Adapter.Hwc2On1.Prepare: whether a background colour is supported is an input, for HWC2On1Adapter.h is not part of this model; the displays are the ones HWC1 knows, as records in the adapter's list.
- Hwc2Adapter.Hwc2On1.GenerateChanges: layer requests, fences, buffers and release of fences are left out.
- Hwc2Adapter.Hwc2On1.ValidateDisplay: the number of layer requests it reports is left out with the requests.
- ColourProcess.Process: a change of one byte always changes the hash, but nothing is said about collisions of changes of more; a frame that happens to have the stored hash is not rotated.
- ColourShim.Shim.HandleOsd: pinning, the hardware permutation sweep, the GPU mode, cache flushing and the recording of physical addresses are left out; a mapping is at least as long as the pixels counted, so a recorded length shorter than the frame is not modelled.
- RilCallbacks.RadioSlot.CheckReturnStatus: the whole function with no other thread in it; its two sections, which the runs interleave, are modelled one by one.
- RilCallbacks.ResetsIff: overflow of the signed counter, which C++ leaves undefined, wraps around here.
- RilLedger.Ril.DispatchStrings: the list form; the form with variable arguments runs the same loop. A request that cannot be registered does nothing and is not modelled.
- RilLedger.Ril.SetDataProfile: the numeric members of a profile are plain copies and left out; clearing memory before freeing it is left out.
- ElfLoader.Open: reading the ELF header, memory protection, initialisers and the lookup of wanted symbols are left out; the image must be well formed (`Sound`, `GoodImage`), for the loader checks none of that.
- PowerHal.NeverIllegal: init is the first call and every write to the kernel succeeds.
