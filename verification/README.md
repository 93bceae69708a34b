# Verification of the mobile-config tools

Dafny models of the parts of this repository whose correctness spans many steps, and proofs of what they
promise. `dafny verify dfyconfig.toml` checks everything.

| files | what they model |
|---|---|
| `Lzw.dfy`, `FirmwareIndex.dfy` | the firmware-index decoder and a reference encoder for it |
| `Disk.dfy`, `Layout.dfy`, `LogHeader.dfy`, `BringupLog.dfy` | the raw bring-up log on a block device: writer, reader, power cuts |
| `Deploy.dfy`, `DeploySafety.dfy`, `DeployTool.dfy` | writing a rootfs image in verified chunks over adb or ssh |
| `UpdateApp.dfy`, `Container.dfy`, `Walk.dfy` | the two UPDATE.APP parsers and a writer for the container |
| `Terminal.dfy`, `Frame.dfy`, `Panel.dfy` | the panel's frame buffer and differential renderer |
| `Keys.dfy`, `Views.dfy`, `ByteStreams.dfy` | the panel's keys, views and byte-wise inputs |
| `WmtLoader.dfy` | the connectivity loader's patch search |

Where the source updates variables or a device in place, the model has a method or a class that does the
same and is proved equal to a function of the old state; the theorems are about those functions.

## What the proofs assume

- Bring-up log: a one-block header write is atomic; any other write completes or power is cut during it, and
  then the bytes it covers are arbitrary. Claims start once both headers are invalidated. The uptime is one word
  and the header line fits its block.
- Deploy: equal SHA-256 digests mean equal bytes; a hash reply is faithful, missing or garbled, and a garbled
  one is never the wanted digest. A bulk write lands an arbitrary prefix. The two-byte write that zeroes the
  magic is reliable. The device reaches at least to the log ring. An image that carries a magic has a nonzero
  first byte of it (0x53 on ext4).
- UPDATE.APP: SHA-256 stands for the bytes it is taken of. A buffered read is short only at the end of the
  stream; the looped reads may be cut anywhere.
- Panel: no line is wider than the terminal, the terminal defers the wrap at its last column, one repaint fits
  the 256 KiB output buffer, and an address past the last row is clamped onto it. CUP, EL and ED are as in
  sections 8.3.21, 8.3.41 and 8.3.39 of ECMA-48.
- Keys: a timeout is not delivered before it is due. Writes to the backlight succeed.

## Where the code and its own text disagree

- `modules/bringup-log/default.nix:92-96` says a cut between payload and header leaves a consistent slot. It
  leaves the old header over the new payload, and that header describes it if and only if there is no old
  header, or the two payloads agree as far as both go (`BringupLog.CutBetweenTheWrites`); a boot reaches such a
  cut with any third snapshot that disagrees with the first (`BringupLog.CutCanLeaveWrongHeader`,
  `BringupLog.CommentIsWrong`). A cut inside the payload write can tear the slot if and only if at least two
  snapshots are committed and neither payload is empty (`BringupLog.TornPayloadUnderValidHeader`,
  `BringupLog.CutCanTearPayload`). The reader is right all the same, because that slot never has the greater
  `seq` (`BringupLog.ReaderIsRightWheneverPowerIsCut`).
- `tools/deploy.sh:126` and `tools/deploy-ssh.sh:204` say a failed run leaves the magic at zero. A run leaves it
  set if and only if every trailing chunk can be done and, before the transport gives out, some try at chunk 0
  lands more than 1080 bytes (`DeploySafety.MagicZeroExactlyWhen`). A run that fails that way exists for every
  image that carries a magic, over both transports (`DeploySafety.FailureCanLeaveTheMagic`). The property that
  matters holds regardless: magic shown means the rest of the image is there.
- An image shorter than a chunk passes the deploy tools' checks but can never be deployed, since chunk 0 is
  always hashed whole (`DeploySafety.ExitZeroMeansImage`, `DeploySafety.DeliveredRunFinishes`).
- `modules/console/panel.c:1218` says the logo is tiled edge to edge. Its rows are as wide as the terminal, so
  the erase that follows each takes the last column (`Panel.LogoLosesLastColumn`); any row shows whole if and
  only if it leaves that column free (`Terminal.SeenWholeExactlyWhen`).
- `modules/console/panel.c:1219-1220` says the top half of the logo scrolls right and the bottom half left. The
  top half moves left and the bottom half right (`Frame.HalvesScroll`).
- `modules/console/panel.c:1281-1283` never ends on a screen of more than 128 rows
  (`Frame.PaddingEndsExactlyWhen`); the layout results are for screens of at most 128.
- `modules/console/panel.c:2202-2203` says the introducer of an escape sequence reaches the dispatcher. The code
  drops it with the rest: none is left in what is dispatched (`ByteStreams.NoIntroducerIsDispatched`).

## Model

| member | source | states |
|---|---|---|
| `Lzw.RoundTrip` | devices/huawei-marie/tools/decode-firmware-index.py:54-74 | For every byte string and every cap of at least 257, decoding its greedy LZW encoding returns it, through codes the decoder has not inserted yet and any number of dictionary resets; all codes stay below the cap. |
| `Lzw.LzwDecode` | devices/huawei-marie/tools/decode-firmware-index.py:54-74 | The decoding loop over `table`, `nxt`, `out` and `prev` computes the decoder run the lemmas are about, first unresolvable code included; from codes that start with a byte it yields exactly the pieces they stand for. |
| `Lzw.DecodesToPieces` | devices/huawei-marie/tools/decode-firmware-index.py:54-74 | Without a table: every code adds a byte, or an addition since the last drop of the table and the first byte of the next, or the last addition and its first byte; decoding is the concatenation, for any codes, any cap and any number of drops. |
| `Lzw.LearntPhraseIsUsable` | devices/huawei-marie/tools/decode-firmware-index.py:67-69 | Until the table is full, code 255 + i adds what code i - 1 added and the first byte of what code i added. |
| `Lzw.FullTableIsDropped` | devices/huawei-marie/tools/decode-firmware-index.py:70-72 | The code that fills the table drops it: 256 after it is unknown again. |
| `Lzw.EmittedPhraseDecodes` | devices/huawei-marie/tools/decode-firmware-index.py:60-66 | Whatever dictionary phrase the encoder picks for the front of the text, the decoder answers with that phrase, even when the code equals `nxt`. |
| `Lzw.StepKeepsSync` | devices/huawei-marie/tools/decode-firmware-index.py:67-73 | Encoder and decoder grow or drop their dictionaries in the same step, with `prev` carried across the reset. |
| `Lzw.LongestMatch` | devices/huawei-marie/tools/decode-firmware-index.py:54-74 | The encoder's choice is the longest dictionary prefix of the remaining text. |
| `Lzw.FailsExactlyOnFirstCode` | devices/huawei-marie/tools/decode-firmware-index.py:59-65 | Decoding fails if and only if the first code is 256 or more, and then names it. |
| `Lzw.DecoderInvariant` | devices/huawei-marie/tools/decode-firmware-index.py:54-74 | After any codes that start with a byte: the table's domain is exactly the codes below `nxt`, 256 <= `nxt` < cap, every longer phrase occurs in the output, and n codes yield at most n(n+1)/2 bytes. |
| `Lzw.BoundIsAttained` | devices/huawei-marie/tools/decode-firmware-index.py:62-66 | For every n some n codes, none above the cap, yield exactly n(n+1)/2 bytes. |
| `FirmwareIndex.SextetInvertsAlphabet` | devices/huawei-marie/tools/decode-firmware-index.py:39-40 | The 64 symbols and the sextet lookup are inverse to each other. |
| `FirmwareIndex.OrIsSum` | devices/huawei-marie/tools/decode-firmware-index.py:48-50 | The shifted sextets put together by OR are their base-64 number, below 2^18. |
| `FirmwareIndex.WriteThenRead` | devices/huawei-marie/tools/decode-firmware-index.py:45-51 | Reading the triples written for any 18-bit codes gives the codes back. |
| `FirmwareIndex.ReadThenWrite` | devices/huawei-marie/tools/decode-firmware-index.py:45-51 | Writing the codes read from a whole number of good triples gives the payload back. |
| `FirmwareIndex.BadExactlyOnForeignSymbol` | devices/huawei-marie/tools/decode-firmware-index.py:45-51 | Reading fails if and only if some complete triple holds a character outside the alphabet; a last partial group is ignored. |
| `FirmwareIndex.StackRoundTrip` | devices/huawei-marie/tools/decode-firmware-index.py:45-79 | Shifting, compressing and writing any bytes, with any whitespace around the file, is undone by decoding. |
| `FirmwareIndex.DecodePayload` | devices/huawei-marie/tools/decode-firmware-index.py:77-80 | The decoder up to the JSON parser: what every payload of good symbols that starts with a byte decodes to, and that it undoes the encoder. |
| `FirmwareIndex.BytesInThePayload` | devices/huawei-marie/tools/decode-firmware-index.py:77-80 | A payload of codes below 256 decodes to those bytes, each less 24. |
| `FirmwareIndex.LearntPhraseInThePayload` | devices/huawei-marie/tools/decode-firmware-index.py:77-80 | The same of learnt phrases at the tool's own cap, 262143, and shift. |
| `FirmwareIndex.FullTableInThePayload` | devices/huawei-marie/tools/decode-firmware-index.py:77-80 | The same of the drop of a full table. |
| `FirmwareIndex.AlphabetIs` | devices/huawei-marie/tools/decode-firmware-index.py:39 | The 64 symbols, spelt out. |
| `FirmwareIndex.AsciiSpaces` | devices/huawei-marie/tools/decode-firmware-index.py:78 | Which ASCII characters are stripped from the ends. |
| `LogHeader.DecimalReadsBack` | modules/bringup-log/default.nix:99-100 | A printed number is digits only and reads back as itself. |
| `LogHeader.DecimalIsBaseTen` | modules/bringup-log/default.nix:99-100 | A printed number's digits are those of base ten. |
| `LogHeader.LineWords` | modules/bringup-log/default.nix:99-100 | The words of a printed header, spelt out. |
| `LogHeader.FieldsReadBack` | tools/lib.sh:182-184 | From any printed header the `seq` and `bytes` fields are found and are the numbers printed. |
| `LogHeader.FirstLineStops` | tools/lib.sh:177-179 | The first line of a block is the line printed at its start, whatever follows. |
| `BringupLog.HeadedReads` | modules/bringup-log/default.nix:99-102 | Printed over any old header block, the new line is the one the reader gets, however long the old one was. |
| `BringupLog.RunKeepsRing` | modules/bringup-log/default.nix:79-106 | In every state of every run the newest slot is whole and the other carries the header of the snapshot before, or none. |
| `BringupLog.ReaderIsRightWheneverPowerIsCut` | tools/read-log.sh:14-51 | In every state a boot can reach once both headers are invalidated, inside a payload write included, the reader returns the payload of the last committed snapshot, and refuses when there is none or it is empty. |
| `BringupLog.SelectsNewest` | tools/read-log.sh:14-35 | The slot chosen is that of the last committed snapshot, with its `seq` and `bytes`. |
| `BringupLog.HigherNumberWins` | tools/read-log.sh:14-35 | On any device at all the slot with the higher number is chosen, slot A on a tie, and none only if neither has a number. |
| `BringupLog.ReadsWhatItChose` | tools/read-log.sh:36-51 | On any device, what is read or refused for the `bytes` field of the chosen header. |
| `BringupLog.NewestInNumbers` | modules/bringup-log/layout.nix:43-55 | In every state of every run the newest snapshot's header and payload lie at the blocks the layout names. |
| `BringupLog.ReadStaysInItsSlot` | modules/bringup-log/layout.nix:43-55 | The whole blocks read for the payload cover it and lie inside the slot it was chosen from. |
| `BringupLog.CutBetweenTheWrites` | modules/bringup-log/default.nix:92-96 | A cut between payload and header leaves the old header, if there is one, over its own payload if and only if the payload that landed and the one it replaced agree as far as both go. |
| `BringupLog.TornPayloadUnderValidHeader` | modules/bringup-log/default.nix:97-98 | A cut inside the payload write can leave a header over a payload it does not describe if and only if at least two snapshots are committed and neither the new payload nor the one it replaces is empty. |
| `BringupLog.CutCanLeaveWrongHeader` | modules/bringup-log/default.nix:92-96 | Against the comment there: from any device the invalidations leave and any three snapshots of which the third disagrees with the first, a run to a cut between the two writes that leaves a header over a payload it does not describe. |
| `BringupLog.CutCanTearPayload` | modules/bringup-log/default.nix:97-98 | From any such device and any three snapshots of which the first and third are not empty, a run to a cut that leaves a torn payload under a header. |
| `BringupLog.CommentIsWrong` | modules/bringup-log/default.nix:92-96 | Such a run exists outright: an empty ring and captures of x, nothing and y. |
| `BringupLog.ReadSeesOnlyTheRing` | modules/bringup-log/layout.nix:43-55 | What is read depends on nothing below the ring. |
| `BringupLog.BetweenInvalidations` | modules/bringup-log/default.nix:67-77 | After the first invalidation alone, the reader picks the previous boot's slot B exactly if that boot had written it. |
| `BringupLog.ReadLog` | tools/read-log.sh:10-51 | The reader's loop and read-back compute the selection and the bytes the lemmas are about. |
| `BringupLog.WriteLog` | modules/bringup-log/default.nix:61-107 | The writer passes only through states of a run, commits each text, up to 16383 blocks of it, in order, changes nothing outside the ring, and leaves the last text for the reader. |
| `BringupLog.SampledPayloads` | modules/bringup-log/default.nix:87-88 | A snapshot's payload is its whole text if that fits 16383 blocks, and otherwise as much as fits. |
| `BringupLog.WriteSnapshot` | modules/bringup-log/default.nix:80-102 | One round is a begun, a landed and a committed payload, in that order, in the slot of its parity. |
| `BringupLog.PayloadWriteKeepsRing` | modules/bringup-log/default.nix:97-98 | No content of a half-done payload write can be seen in either header or in the newest payload. |
| `BringupLog.CommitKeepsRing` | modules/bringup-log/default.nix:99-102 | The header write makes the other slot the newest. |
| `DeployTool.Target.Deploy` | tools/deploy.sh:27-129 | The whole tool against any transport script. A failed guard, a size in no whole blocks or one that reaches the log ring fails with the device as it was; otherwise it exits 0 if and only if the image is at least a chunk and each chunk can be done, and then the device is the image and the old rest. The log ring is untouched in any case. |
| `DeployTool.Target.TryChunk` | tools/deploy.sh:53-87 | One chunk with its first look and five tries, over either transport. |
| `DeployTool.Target.Attempt` | tools/deploy-ssh.sh:149-168 | One try: what is sent, what lands, and what the host concludes from the answer. |
| `DeployTool.Target.TrailingChunks` | tools/deploy.sh:100-115 | The loop over every chunk but the first, stopping at the first that fails. |
| `DeploySafety.ExitZeroMeansImage` | tools/deploy.sh:53-129 | Exit status 0 implies the device holds the image, for every pattern of truncated writes, lost transports and empty or wrong hash replies; it never happens for an image shorter than a chunk. |
| `DeploySafety.MagicMeansTheRestIsThere` | tools/deploy.sh:13-19 | At every moment after the magic is zeroed, mid-write included, a device showing nonzero magic bytes already holds every block from the second chunk to the end of the image. |
| `DeploySafety.NothingPastTheImage` | tools/deploy.sh:35-44 | At every moment nothing past the image's last block has changed; with an empty image, nothing but the two bytes of the magic. |
| `DeploySafety.LogRingUntouched` | tools/deploy.sh:35-44 | At every moment of a run with any image the checks accept, the log ring is as it was. |
| `DeploySafety.LogReadsTheSame` | tools/deploy.sh:35-44 | At every moment of such a run the log reader answers as it would have before. |
| `DeploySafety.OnlyWrongChunksAreWritten` | tools/deploy.sh:57-64 | Every bulk write goes to a chunk that was wrong, or whose first hash did not come back. |
| `DeploySafety.ChunkZeroIsAlwaysWritten` | tools/deploy.sh:117-120 | A run that succeeds with an image that carries a magic has written chunk 0. |
| `DeploySafety.SucceedsExactlyWhen` | tools/deploy.sh:53-120 | Over the script, exit status 0 comes if and only if the image is at least a chunk and each chunk either matches and says so or, by some try the transport survives to and whose hash comes back faithfully, has had every wrong byte covered. |
| `DeploySafety.TriesSucceedExactlyWhen` | tools/deploy-ssh.sh:146-172 | The same of one chunk and any number of tries. |
| `DeploySafety.FifthTryIsTheLast` | tools/deploy.sh:66-86 | A chunk only the fifth try delivers is done; one that none of five delivers is given up after five writes. |
| `DeploySafety.DeliveredRunFinishes` | tools/deploy.sh:53-120 | From any device contents, if every chunk that needs writing is delivered and verified within its five tries, the run exits 0 with the image and the old rest exactly if the image is at least a chunk long. |
| `DeploySafety.MagicZeroExactlyWhen` | tools/deploy.sh:125-127 | After a run the magic is set if and only if every trailing chunk matches and says so or is covered and verified by its tries, and some try at chunk 0 that the transport lets happen lands more than the bytes before the magic. |
| `DeploySafety.MagicSetOnlyByReaching` | tools/deploy.sh:117-127 | The same by what was written: the magic is set if and only if some write to chunk 0 got as far as it. |
| `DeploySafety.FailureCanLeaveTheMagic` | tools/deploy-ssh.sh:203-205 | Against the message printed: over either transport, for any image that carries a magic, a failed run that leaves it set. |
| `DeploySafety.ChunkEffect` | tools/deploy-ssh.sh:137-172 | One chunk step writes only the image's own bytes in their own place, and is right if it reports success. |
| `DeploySafety.TrailingEffect` | tools/deploy.sh:100-115 | The trailing chunks, once all reported done, hold the image, and only they were written. |
| `UpdateApp.Stream.FindMagic` | devices/huawei-marie/tools/inspect-ota.py:45-57 | For any splitting into blocks the windowed search returns the least offset of the magic, and fails exactly when there is none. |
| `UpdateApp.WindowSeesMagic` | devices/huawei-marie/tools/inspect-ota.py:49-56 | A window holds the magic exactly where the file does. |
| `UpdateApp.Stream.DigestStream` | devices/huawei-marie/tools/inspect-ota.py:30-42 | The digest is of exactly the next `limit` bytes, or an error if there are fewer. |
| `UpdateApp.Stream.InspectUpdateApp` | devices/huawei-marie/tools/inspect-ota.py:64-129 | The inspection over the stream, with every error condition, is the one the container lemmas are about, and every entry it reports says what the file does. |
| `UpdateApp.ReportIsSaid` | devices/huawei-marie/tools/inspect-ota.py:69-111 | Field by field, an entry of an accepted file holds the bytes at the packet's own offset, texts up to their first NUL. |
| `UpdateApp.RefusedExactlyWhen` | devices/huawei-marie/tools/inspect-ota.py:70-104 | Which packets are refused and why, in the order the reasons are looked for. |
| `UpdateApp.FieldStopsAtNul` | devices/huawei-marie/tools/inspect-ota.py:60-61 | A text field is what precedes its first NUL. |
| `UpdateApp.Stream.InspectPacket` | devices/huawei-marie/tools/inspect-ota.py:70-113 | One packet: header checks in order, payload, zero padding, and the position it leaves the stream at. |
| `Container.WrittenFileIsRead` | devices/huawei-marie/tools/inspect-ota.py:64-129 | Any packets written after any magic-free lead-in are returned by the inspection, with the lead-in's length. |
| `Container.WrittenNameIsReported` | devices/huawei-marie/tools/inspect-ota.py:106-108 | A packet written under a name padded with zeros is reported under that name, with its payload. |
| `Container.AcceptedFileIsWritten` | devices/huawei-marie/tools/inspect-ota.py:64-129 | Every accepted file is, from the first magic to its size, exactly the packets reported as a writer would lay them out. |
| `Container.EntriesTile` | devices/huawei-marie/tools/inspect-ota.py:89-113 | Packets tile the file: each starts where the one before ends, all later ones on a multiple of four, with padding below four. |
| `Container.MagicDoesNotOverlap` | devices/huawei-marie/tools/inspect-ota.py:45-57 | No magic straddles the end of a magic-free lead-in. |
| `Container.LittleEndianOfWord` | devices/huawei-marie/tools/inspect-ota.py:75-76 | Little-endian words and their four bytes determine each other. |
| `Container.ReadPacketIsWritten` | devices/huawei-marie/tools/inspect-ota.py:69-113 | An accepted packet is, byte for byte, one the writer makes. |
| `Walk.WalkAgrees` | devices/huawei-marie/tools/extract-ota-packet.py:48-77 | On every file the inspector accepts, the walk yields the same names, payload offsets and lengths in the same order and stops at the same offset. |
| `Walk.Walker.Next` | devices/huawei-marie/tools/extract-ota-packet.py:72-77 | A later step of the generator depends on its own offset only, wherever the consumer left the stream. |
| `Walk.Walker.First` | devices/huawei-marie/tools/extract-ota-packet.py:50-70 | The first step starts at the first magic of the stream. |
| `Walk.CopyPayload` | devices/huawei-marie/tools/extract-ota-packet.py:80-98 | The copy is of exactly the packet's bytes, or an error if the stream ends first. |
| `Walk.ExtractPackets` | devices/huawei-marie/tools/extract-ota-packet.py:101-127 | The extraction loop: what is kept, when it stops, and which error it ends with. |
| `Walk.ExtractionMatchesInspection` | devices/huawei-marie/tools/extract-ota-packet.py:101-127 | From an accepted file extraction succeeds exactly when every wanted name is in it, reports exactly the absent ones otherwise, and copies the bytes the inspection saw. |
| `Walk.ExtractsByName` | devices/huawei-marie/tools/extract-ota-packet.py:101-127 | From an accepted file, asking for a name extracts the bytes of the first packet whose name field holds it padded with zeros. |
| `Walk.KeptPackets` | devices/huawei-marie/tools/extract-ota-packet.py:104-124 | Only wanted packets are kept, every wanted name among them, and all packets if none is named. |
| `Terminal.LineShows` | modules/console/panel.c:339 | Addressing a row, writing over it and erasing its rest leaves on that row what is seen of the text there, and no other row changed. |
| `Terminal.SeenWholeExactlyWhen` | modules/console/panel.c:339 | A text no wider than the terminal is seen whole if and only if it leaves the last column free. |
| `Panel.LogoLosesLastColumn` | modules/console/panel.c:1215-1265 | Against the comment there: every row of the logo is seen without its last character. |
| `Panel.RepaintShowsFrame` | modules/console/panel.c:324-358 | An unforced repaint over the last frame, or a forced one over anything, leaves every physical row showing the new frame, for frames of any height. |
| `Panel.DifferencesAreEnough` | modules/console/panel.c:324-358 | Over any run of frames that starts forced, the differential output leaves the screen that full repaints would. |
| `Panel.RunShowsLastFrame` | modules/console/panel.c:324-358 | After any run of frames the screen shows the last one. |
| `Panel.OnlyDifferencesAreSent` | modules/console/panel.c:334-339 | Unforced, only rows that differ from the last frame are addressed. |
| `Panel.SameFrameSendsNothing` | modules/console/panel.c:324-358 | A frame that is the last one over again sends nothing. |
| `Panel.Display.Render` | modules/console/panel.c:324-358 | The repaint keeps the terminal in step with `prev` and swaps the two buffers. |
| `Panel.Display.Emit` | modules/console/panel.c:325-349 | What is sent is the differing rows in order, then the erase below the frame. |
| `Panel.Display.Print` | modules/console/panel.c:281-303 | The character loop into the current buffer, with its two caps and the length of one call. |
| `Frame.PutAllJoins` | modules/console/panel.c:288-302 | Printing a concatenation is printing its parts in turn. |
| `Frame.FrameIsItsText` | modules/console/panel.c:281-303 | Within the caps the frame is the concatenation of everything printed, cut at its newlines: nothing is lost. |
| `Frame.LongLinesAreCut` | modules/console/panel.c:281-303 | Up to 128 lines, a line past 2046 characters is cut there and no other line is touched. |
| `Frame.TaglineOnLastRow` | modules/console/panel.c:1224-1285 | On screens of at most 128 rows the tagline lands on the last row if and only if the body leaves at least two rows beyond the gaps, or the screen has 128 rows. |
| `Frame.TaglineIsTheLastLine` | modules/console/panel.c:1276-1285 | With that room the last physical row is the tagline and nothing else, if it is within the line cap. |
| `Frame.LayoutLies` | modules/console/panel.c:1224-1285 | With that room: the body on its rows, a blank row, the fire half, two blank rows, the frost half, two blank rows, the tagline. |
| `Frame.HalvesScroll` | modules/console/panel.c:1217-1270 | Against the comment there: from one animation frame to the next the fire half moves two columns left and the frost half two right, but for one frame in 2^31. |
| `Frame.RampRuns` | modules/console/panel.c:1209-1215 | Along a logo row every printable character comes in turn. |
| `Frame.HorizonIsBrightest` | modules/console/panel.c:1243-1270 | Both halves are brightest where they meet. |
| `Frame.TagIsCentred` | modules/console/panel.c:1276-1285 | The tagline is centred to within a column. |
| `Frame.PaddingEndsExactlyWhen` | modules/console/panel.c:1281-1283 | The padding loop reaches the last row if and only if the screen has at most 128 rows. |
| `Frame.StaleLinesDoNotShow` | modules/console/panel.c:1929-1940 | The dashboard's frame does not depend on stale lines of the buffer it is built in. |
| `Panel.LogoOnlyEqualsFullRepaint` | modules/console/panel.c:1929-1940 | A logo-only repaint shows the screen a full rebuild over the same body and animation frame would. |
| `Panel.Display.RepaintDashboard` | modules/console/panel.c:1532-1540 | The full dashboard repaint: the body cached as printed, the frame laid out below it, the terminal in step. |
| `Panel.Display.RepaintLogoOnly` | modules/console/panel.c:1929-1940 | The animation tick lays out the cached body, or repaints in full before there is one. |
| `Panel.Display.Tagline` | modules/console/panel.c:1276-1285 | Blank lines to the last row, then the tagline. |
| `Keys.InvHolds` | modules/console/panel.c:2152-2200 | Under any interleaving `pending` holds exactly while a key is held that is repeating or unannounced. |
| `Keys.PowerNeverDecodesTwice` | modules/console/panel.c:2152-2200 | From each press of the power key to the next it decodes at most once, whatever comes in between and in whatever reachable state it was pressed. |
| `Keys.PowerDecodesNoMoreThanPresses` | modules/console/panel.c:2152-2200 | Over any run the power key decodes no more often than it was pressed. |
| `Keys.PowerPressDecodesOnce` | modules/console/panel.c:2152-2200 | An undisturbed power press decodes exactly once: a hold if its threshold passed, else a click. |
| `Keys.PowerPressIsHeard` | modules/console/panel.c:2101-2150 | A connected client of a lit panel hears m for a held power key and a full stop for a click, once a press. |
| `Keys.VolumeIsHeard` | modules/console/panel.c:2101-2150 | It hears + or - at once and again at every repeat. |
| `Keys.ClientHears` | modules/console/panel.c:2101-2150 | A click on a dark panel only wakes it; everything else is sent, and the panel ends up lit. |
| `Keys.NobodyHears` | modules/console/panel.c:2127-2150 | With nobody to hear, a power click puts a lit panel out and everything else leaves it lit. |
| `Keys.VolumeHoldIsBounded` | modules/console/panel.c:2152-2199 | A volume key held for D decodes one step if D is below the threshold, else at most 2 + floor((D - hold) / repeat). |
| `Keys.VolumeHoldAttainsBound` | modules/console/panel.c:2152-2199 | For every D the bound is attained, by a timeout exactly when each falls due. |
| `Keys.TapsToggle` | modules/console/panel.c:2127-2150 | With no client attached n short taps flip the panel between lit and dark n times. |
| `Keys.Daemon.KeysReadable` | modules/console/panel.c:2167-2200 | One key event on the daemon's variables. |
| `Keys.Daemon.KeysTimeout` | modules/console/panel.c:2152-2164 | One timeout on the daemon's variables. |
| `Keys.Daemon.KeysDeliver` | modules/console/panel.c:2101-2150 | Wake guard, token, client, and the fallback to the on/off switch. |
| `Keys.Daemon.ClientGone` | modules/console/panel.c:2466-2472 | A client that hangs up is forgotten. |
| `Views.InvHolds` | modules/console/panel.c:1982-2078 | In every reachable view state the selection is an entry, the pager's window lies on its text, a live source exists only in the pager, and its parent is never the pager. |
| `Views.TwoTokensReachDashboard` | modules/console/panel.c:2024-2041 | From any other view at most two menu tokens lead back to the dashboard. |
| `Views.MenuMovesInvert` | modules/console/panel.c:2004-2011 | Moving up and down the menu are inverse, wrap-around included. |
| `Views.MenuByKeys` | modules/console/panel.c:1957-1978 | Opening the menu, going down k entries and selecting does what the k-th entry is for, and nothing else. |
| `Views.DashboardKeys` | modules/console/panel.c:2046-2078 | What each character does on the dashboard. |
| `Views.LettersAreKeys` | modules/console/panel.c:2046-2078 | Outside the dashboard letters and Return stand for the keys' characters. |
| `Views.PagerMovesInvert` | modules/console/panel.c:2024-2032 | Away from the ends down moves half a window and up moves back, and the other way round. |
| `Views.OpenedShowsEnd` | modules/console/panel.c:1877-1893 | A pager just opened shows the last line of its text. |
| `Views.LeavesPager` | modules/console/panel.c:2024-2041 | Any other character leaves the pager for where it was opened from and lets its source go. |
| `Views.ScrollingShowsEveryLine` | modules/console/panel.c:1833-1873 | Scrolling down from the top shows every line of any text, within a bound on presses. |
| `Views.Panel.HandleChar` | modules/console/panel.c:2046-2078 | A typed or decoded character on the panel's variables. |
| `Views.Panel.HandleAction` | modules/console/panel.c:1982-2042 | An action on the panel's variables, view by view. |
| `Views.Panel.PagerClamp` | modules/console/panel.c:1865-1873 | The pager's first line, brought back onto the text. |
| `Views.Panel.OnTick` | modules/console/panel.c:1895-1903 | A live pager reads its source again and shows its end. |
| `ByteStreams.PeerCounter.DrainAll` | modules/console/panel.c:1150-1175 | The peer count is the number of newline-terminated lines that begin "100.", for every way the stream is cut into reads. |
| `ByteStreams.LinesMakeText` | modules/console/panel.c:1155-1165 | The lines counted and what follows them make up the text. |
| `ByteStreams.PeersAreAddresses` | modules/console/panel.c:1160-1165 | A line counts if and only if its first four characters are 100 and a full stop. |
| `ByteStreams.Keyboard.ReadAll` | modules/console/panel.c:2206-2225 | The characters handled are the input without its escape sequences, for every way it is cut into reads. |
| `ByteStreams.DispatchedIsPlain` | modules/console/panel.c:2212-2224 | Stripping a character at a time is taking whole escape sequences out. |
| `ByteStreams.EscapeIsTakenOut` | modules/console/panel.c:2212-2224 | An escape sequence goes whole, up to the letter or tilde that ends it. |
| `ByteStreams.PlainTextIsDispatched` | modules/console/panel.c:2212-2224 | What precedes the first escape character is dispatched as it is. |
| `ByteStreams.UnendedEscapeTakesAll` | modules/console/panel.c:2212-2224 | A sequence that never ends takes the rest with it. |
| `ByteStreams.NoIntroducerIsDispatched` | modules/console/panel.c:2202-2224 | No escape character is left in what is dispatched. |
| `WmtLoader.Collect` | modules/connectivity/wmt-loader.c:153-186 | The matching names, sorted in place, or an error if there are more than there is room for. |
| `WmtLoader.AnnouncedExactly` | modules/connectivity/wmt-loader.c:164-185 | The names are exactly the matching ones, ascending, strictly if the listing has no duplicates. |
| `WmtLoader.OrderDoesNotMatter` | modules/connectivity/wmt-loader.c:147-186 | Every permutation of the directory listing gives the same names, or the same error. |
| `WmtLoader.CountedOnceBeforeAnyPatch` | modules/connectivity/wmt-loader.c:216-268 | Over any command sequence and any failures the patch count is accepted at most once and precedes every patch. |
| `WmtLoader.SearchTellsAll` | modules/connectivity/wmt-loader.c:216-254 | A patch search answered with success has named every matching file in order, numbered 1 to the count, whatever the order of the directory. |
| `WmtLoader.SearchSucceedsExactlyWhen` | modules/connectivity/wmt-loader.c:216-254 | A patch search succeeds if and only if one to ten files match, the count has been or is accepted, every header is read and every call accepted. |
| `WmtLoader.RomSearchSucceedsExactlyWhen` | modules/connectivity/wmt-loader.c:188-214 | A ROM search succeeds if and only if one to ten files match, every header is read and every call accepted; it tells of each once, in order, and makes no count. |
| `WmtLoader.MatchesMeans` | modules/connectivity/wmt-loader.c:164-172 | Which names match, spelt out. |
| `WmtLoader.LeqMeans` | modules/connectivity/wmt-loader.c:139-141 | The order is by the first character that differs, or by length. |
| `WmtLoader.Loader.HandleCommand` | modules/connectivity/wmt-loader.c:256-268 | One command on the loader's state, with the calls it issues. |

## Left out

- Lzw.Encode: the repository has no encoder; this one is the reference for the decoder, greedy and in lock step with it.
- Parsing the decoded index as JSON, its record schemas, and the command lines of all the tools.
- BringupLog.ReadLog: header fields are read as plain digit strings; what a shell makes of signs, of numbers past 64 bits or of a `bytes` field that is no number is one refusal here. No state of a boot has such a header.
- BringupLog.WriteLog: the ring-buffer texts and uptimes are given; sampling them, sleeping between snapshots and a `dd` that fails without power being cut are not modelled.
- DeployTool.Target.Deploy: the identity, mount and battery checks are one flag, and delays between tries are dropped.
- Hexadecimal and ASCII rendering of UPDATE.APP fields (they are kept as bytes up to the first NUL), ZIP handling and the SHA-256 of whole files.
- Panel.Display.Print: colour sequences are part of a row's text, and the 256 KiB output buffer is taken never to overflow.
- Panel.Display.RepaintDashboard: the body is a list of printed texts; collecting it from procfs, sysfs, the bus and sockets is not modelled.
- Keys.Daemon.KeysDeliver: the backlight is lit or dark; saving and restoring its level is not modelled, nor is the panel's own key handling without the daemon.
- Views.Panel.HandleChar: the redraw after each action is the renderer's matter, and a log source is whatever lines it yields.
- WmtLoader.Loader.HandleCommand: reading a patch header is a success or a failure; addresses, types and the module-init calls are not modelled.
- One-shot device scripts, Nix modules and options, kernel and systemd patches, firmware and partition data.
