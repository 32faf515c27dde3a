# SLP frame codec in Dafny

A model of the frame codec of genie-slp, a reader and writer for the SLP
sprite format of Age of Empires II. An SLP frame is an image stored as two
tables and a byte stream:

- a per-row outline table, holding the transparent pixels at either edge of each row;
- a per-row offset table;
- a run-length opcode stream, whose colours are indices into a 256-entry palette.

Both halves of the codec meet in one value: a list of render commands
(`NextLine`, `Color(i)`, `Skip(n)`, `PlayerColor(i)`, `Shadow(n)`,
`Outline(t)`, `Fill(n, c)`, `PlayerFill(n, c)`).

Reading a file (`src/SLP.js`):

- **Decoder** (`Decoder`, decoder.dfy). `parseFrame` reads the outline table, then walks the opcode stream with a byte cursor. It dispatches each byte through its low two bits, low nibble and high nibble, in the source's order. `DecodeFrameSpec` is the functional specification. `DecodeFrame` and its helpers are the cursor loops, each proved equal to it.
- **Opcode dispatch** (`Opcodes`, opcodes.dfy). `Classify` is the dispatch. `OpcodeByte` is its inverse.
- **Renderer** (`Renderer`, renderer.dfy). `renderFrame` writes RGBA bytes into a freshly zeroed array through a write cursor. It opens and closes every row with its outline counts; a left outline of 0x8000 marks an empty row. `RenderSpec` is the specification and `RenderImage` is the method on an `array`.
- **File object** (`SlpFile`, slpfile.dfy). The `Slp` class holds the file's bytes and its frame records. `getFrame` caches a frame's decode on its record, and `renderFrame` draws from that record.

Writing a file (`src/SLPEncoder.js`):

- **Command builder** (`CommandBuilder`, builder.dfy). `pixelsToRenderCommands` turns RGBA pixels into commands in one greedy pass. Transparent pixels merge into skips, and repeated colours merge into fills. The colour table built by the encoder's constructor is modelled here too.
- **Serialiser** (`Serializer`, serializer.dfy). `renderCommandsToSlpFrame` allocates a buffer and walks the commands with an output cursor. It folds each row's edge skips into the row's outline pair and writes the other commands as inline or extended opcodes. It then back-fills both tables and cuts the buffer at the cursor.
- **Encoder object** (`Encoder`, encoder.dfy). The `SlpEncoder` class holds the palette, the colour table and the frames. `encode` places each frame's tables behind the header and behind the frames before it. `padSlice` is modelled here.

The encoder's three defects are modelled both ways. A `Variant` parameter (`AsWritten` or `Corrected`) is threaded through the builder and the serialiser; see "## Findings".

The round trip is proved in the remaining files:

- rowparts.dfy: a row's split into outline pair and middle;
- streamwrite.dfy: the serialiser's stream for a list of rows;
- streamread.dfy: the decoder reading that stream back;
- streampaint.dfy: the renderer drawing it;
- roundtrip.dfy: the composition of the four.

The result: pixels built, serialised, decoded and rendered come back as themselves. An opaque pixel returns in its palette colour at alpha 255, and a transparent pixel returns as four zero bytes.

Buffers are `seq<byte>` values, or `array<byte>` where the source writes in place. Node `Buffer` stores are modelled as the runtime performs them:

- a value stored into a byte is kept modulo 256;
- an index store outside the buffer is dropped;
- `writeUInt16LE` and `writeUInt32LE` throw a `RangeError` for a value or offset out of range.

An exception the source throws becomes an `Err` of a `Result`.

## Model

| member | source | states |
|---|---|---|
| Opcodes.Classify | src/SLP.js:120-186 | every byte has exactly one reading: end-of-row first, then the two low-bit forms, then one branch per remaining low nibble; the reading is well formed and rebuilds the byte, so the "unrecognized opcode" throw is unreachable |
| Opcodes.ClassifyOpcodeByte | src/SLP.js:120-186 | every well-formed opcode is read back from its byte (the other direction of Classify) |
| Opcodes.LowBitForms | src/SLP.js:124-137 | low nibbles 0, 4, 8, C are colour lists and 1, 5, 9, D are skips, through the low-bit tests |
| Decoder.ReadOutlines | src/SLP.js:104-113 | exactly `height` pairs, pair i being the little-endian 16-bit values at offset+4i and offset+4i+2; a RangeError exactly when the table runs past the buffer |
| Decoder.OrNext | src/SLP.js:106 | a non-zero inline count is kept with the cursor unmoved; a zero count reads the next byte and moves the cursor onto it |
| Decoder.ListAfter | src/SLP.js:130-134 | a colour list of n emits n Colors (or PlayerColors) of the n bytes after the cursor and moves past them |
| Decoder.Counted | src/SLP.js:135-165 | the five orNext forms (skip, player colour, fill, player fill, shadow) emit no NextLine, never end a row, always move the cursor forward, and fail only by reading past the buffer |
| Decoder.ExtendedStep | src/SLP.js:166-183 | the extended opcodes emit no NextLine, never end a row, move the cursor forward, and fail only by reading past the buffer |
| Decoder.Step | src/SLP.js:121-187 | one pass of the loop ends a row exactly when the low nibble is 0x0F, emitting exactly [NextLine] then; any other opcode emits no NextLine; the cursor always moves forward |
| Decoder.DecodeOpsRows | src/SLP.js:115-128 | the scan stops right after the `height`-th end-of-row byte: exactly `height` NextLines, the last command being one |
| Decoder.DecodedFrameShape | src/SLP.js:99-193 | a decoded frame has one outline pair per row, one NextLine per row, and ends with a NextLine |
| Decoder.ExtendedCountEquivalence | src/SLP.js:106 | for the skip, player-colour, fill, player-fill and shadow forms, an inline count n (1 to 63 for the skip, 1 to 15 for the nibble-count forms) reads the same commands as a zero count followed by the byte n, one byte later |
| Decoder.ColorListZero | src/SLP.js:129-134 | a colour list with inline count 0 emits nothing and does not read the next byte (no orNext) |
| Decoder.UnknownExtendedIsNoOp | src/SLP.js:166-183 | an extended opcode whose high nibble is not 4 to 7 emits nothing and consumes one byte |
| Decoder.ExtendedCounts | src/SLP.js:138-162 | extended colour list and extended skip count `(cmd >> 4) * 256` plus the next byte; a fill and a player fill each emit one command (Fill, PlayerFill) whose count is the high nibble or, when that is 0, the next byte, and whose colour is the byte after the count |
| Decoder.DecodeFrame | src/SLP.js:99-193 | the two loops of parseFrame compute DecodeFrameSpec |
| Decoder.ReadOutlineTable | src/SLP.js:108-113 | the outline loop computes ReadOutlines |
| Decoder.DecodeOpcodes | src/SLP.js:115-188 | the opcode loop with its byte cursor computes DecodeOps |
| Renderer.EffectivePlayer | src/SLP.js:217 | a falsy player becomes 1; any other is kept |
| Renderer.PlayerColorAt | src/SLP.js:56 | getPlayerColor reads the palette 16 entries per player above the index |
| Renderer.PaletteAt | src/SLP.js:265 | a palette entry is found exactly when the index is in range; otherwise the error names the index |
| Renderer.OpenRow | src/SLP.js:234-237 | a row opens with its left outline count, or with the whole width for 0x8000 |
| Renderer.Fit | src/SLP.js:221-223 | the image array is `width * height * 4` bytes: the written bytes where written, zero elsewhere, writes past the end dropped |
| Renderer.PixelConventions | src/SLP.js:227-232 | every pixel is 4 bytes; colour, fill, player and shadow pixels have alpha 255; shadow is (255, 0, 0, 255); skip and row-edge pixels are zero; outline pixels are black, opaque exactly when drawOutline is set |
| Renderer.PlayerPixels | src/SLP.js:275-277 | a player-colour pixel draws palette entry `i + 16 * player` at alpha 255 |
| Renderer.FitZeros | src/SLP.js:238 | filling zeros at the cursor leaves the zeroed array unchanged |
| Renderer.FitPush | src/SLP.js:227-232 | one byte pushed at the cursor sets exactly one cell, or none past the end |
| Renderer.RenderImage | src/SLP.js:215-291 | the method writing the zeroed array through the cursor fails exactly when RenderSpec does, with the same error, and otherwise leaves RenderSpec's bytes in a fresh array |
| Renderer.PaintAll | src/SLP.js:241-288 | the command walk writes Paint's bytes after the row-0 opening, or fails with Paint's error |
| SlpFile.BodyOffset | src/SLP.js:91 | frame data may start after the 32-byte header and one 32-byte entry per frame |
| SlpFile.RenderFrameSpec | src/SLP.js:215-219 | no palette gives NoPalette before any lookup; a palette with an unknown frame gives NoSuchFrame |
| SlpFile.Slp.constructor | src/SLP.js:72-92 | the file object holds the buffer and one uncached record per directory entry, and bodyOffset is 32 + 32 per frame |
| SlpFile.Slp.ParseFrame | src/SLP.js:99-193 | the frame's record gains the decode of its entry on success; a failed decode or an unknown id leaves every record as it was |
| SlpFile.Slp.GetFrame | src/SLP.js:200-205 | parses only a frame with no commands yet: the answer is always the decode of the frame's entry, a cached record is left alone, and no other record changes |
| SlpFile.Slp.RenderFrame | src/SLP.js:215-291 | the result is RenderFrameSpec's; without a palette nothing is cached; otherwise the frame's record holds its decode afterwards and no other record changes |
| SlpFile.RenderTwice | src/SLP.js:200-219 | two renders of one frame with the same options give the same result, whatever the cache held |
| CommandBuilder.Pack | src/SLPEncoder.js:75 | the key `(r << 16) + (g << 8) + b` is below 2^24 |
| CommandBuilder.PackInjective | src/SLPEncoder.js:75 | two colours share a key exactly when they are equal |
| CommandBuilder.ColorIndices | src/SLPEncoder.js:72-77 | every palette colour's key is in the table, and each key maps to an index of a colour with that key |
| CommandBuilder.LaterIndexWins | src/SLPEncoder.js:72-77 | a colour listed more than once maps to its last index: no later entry repeats it |
| CommandBuilder.LookupColor | src/SLPEncoder.js:107-111 | looking up a colour the palette lists gives an index of that very colour |
| CommandBuilder.Lookup | src/SLPEncoder.js:110-114 | a pixel is found exactly when its key is in the table and, as written, its index is not 0; otherwise Missing color |
| CommandBuilder.Absorb | src/SLPEncoder.js:97-125 | a pixel fails exactly when it is opaque and its lookup fails, and otherwise changes only the last command of the list |
| CommandBuilder.AbsorbCells | src/SLPEncoder.js:97-125 | absorbing a pixel adds exactly that pixel's cell to what the list covers |
| CommandBuilder.AbsorbKeepsShape | src/SLPEncoder.js:97-125 | absorbing never adds a NextLine, never puts two skips side by side, makes every fill at least 2 long, and never puts a Color after a Color or Fill of the same index |
| CommandBuilder.BuildFrom | src/SLPEncoder.js:93-126 | the pass fails, with Missing color, exactly when some opaque pixel has no index |
| CommandBuilder.RowShape | src/SLPEncoder.js:93-126 | a row's commands hold no NextLine, are well built, and cover one cell per pixel of the row, in order |
| CommandBuilder.RowBreaksAt | src/SLPEncoder.js:94-96 | inside a row of a `w`-wide image no NextLine is pushed; one is pushed at each next row's first pixel |
| CommandBuilder.BuildByRows | src/SLPEncoder.js:93-128 | a `w`-wide image builds to its rows' commands joined by NextLines: `height - 1` NextLines, the pass succeeding exactly when every row does |
| CommandBuilder.BuildCells | src/SLPEncoder.js:82-129 | the command list covers exactly one cell per pixel, in pixel order |
| CommandBuilder.BuildVariantsAgree | src/SLPEncoder.js:111-114 | where no opaque pixel maps to index 0, the builder as written and the corrected builder agree |
| CommandBuilder.IndexZeroRejected | src/SLPEncoder.js:112-114 | an opaque pixel whose colour has index 0 is rejected as written, and becomes Color(0) when corrected |
| CommandBuilder.FirstColorIndexZero | src/SLPEncoder.js:72-77 | the first palette colour gets index 0 unless a later entry repeats it |
| CommandBuilder.PixelsToRenderCommands | src/SLPEncoder.js:82-129 | the loop with its prevCommand state computes the builder as written |
| CommandBuilder.PushPixel | src/SLPEncoder.js:97-125 | the loop body for one pixel computes Absorb as written |
| Serializer.Put | src/SLPEncoder.js:152 | a store keeps its value modulo 256 at that index only, and a store outside the buffer is dropped |
| Serializer.WriteU16At | src/SLPEncoder.js:200-201 | a 16-bit value written little-endian reads back and changes no other byte |
| Serializer.WriteU32At | src/SLPEncoder.js:204 | a 32-bit value written little-endian reads back and changes no other byte |
| Serializer.Slice | src/SLPEncoder.js:207 | the cut is a prefix of the buffer, at most the buffer's length |
| Serializer.RunBytes | src/SLPEncoder.js:157-167 | a colour run becomes its count shifted by two (modulo 256, so not split at 64), then one index byte per pixel |
| Serializer.RunLengthColors | src/SLPEncoder.js:158-161 | the scan stops at the first command that is not a Color |
| Serializer.Step | src/SLPEncoder.js:150-193 | one loop pass consumes at least one command and writes at most 3 bytes per command; as written it fails exactly when a colour run reaches the end of the list |
| Serializer.Ser | src/SLPEncoder.js:149-194 | the walk fails exactly when the list as written ends in a Color; it writes at most 3 bytes per command |
| Serializer.SerRows | src/SLPEncoder.js:151-156 | each NextLine opens exactly one row, with one outline pair and one start offset |
| Serializer.SerVariantsAgree | src/SLPEncoder.js:157-161 | wherever the walk as written succeeds, the corrected walk gives the same result |
| Serializer.FlushOutlinesOk | src/SLPEncoder.js:199-202 | the outline flush succeeds exactly when every entry lies in the buffer and both halves fit 16 bits |
| Serializer.FlushOutlinesLayout | src/SLPEncoder.js:199-202 | row j's pair lands as two little-endian 16-bit values at 4j, and no byte outside the table changes |
| Serializer.FlushOffsetsOk | src/SLPEncoder.js:203-205 | the offset flush succeeds exactly when every entry lies in the buffer and fits 32 bits |
| Serializer.FlushOffsetsLayout | src/SLPEncoder.js:203-205 | row j's entry is baseOffset plus the row's start in the frame, at `4 * height + 4j`, and no byte outside that table changes |
| Serializer.FrameLayout | src/SLPEncoder.js:131-208 | a serialised frame has one outline pair and one row offset per row opened, the stream and its trailing 0x0F from `8 * height` on, and is exactly as long as what was written unless the buffer ran out |
| Serializer.FrameOk | src/SLPEncoder.js:131-208 | a frame is produced exactly when the walk succeeds and every table entry fits its width |
| Serializer.CorrectedFrameKeepsStream | src/SLPEncoder.js:132-137 | with the corrected capacity, the frame is the tables followed by the whole stream and its final end-of-row byte |
| Serializer.UndersizedFill | src/SLPEncoder.js:132-137 | a 16-pixel fill on a 16-wide, one-row frame needs 12 bytes but as written gets 10; corrected, it keeps all 12 |
| Serializer.TrailingColorRun | src/SLPEncoder.js:158-161 | a frame whose last command is a Color fails as written; corrected, it holds the count byte, the index and 0x0F after the tables |
| Serializer.RenderCommandsToSlpFrame | src/SLPEncoder.js:131-208 | the method on a preallocated array computes FrameBytes as written |
| Serializer.WriteStream | src/SLPEncoder.js:147-194 | the command loop fails exactly when the walk does, and otherwise leaves the walk's stream in the buffer from `8 * height` on, with its locals in step with the walk |
| Serializer.ColorRun | src/SLPEncoder.js:157-167 | the colour branch writes the run's bytes and moves past the run |
| Serializer.WriteOutlines | src/SLPEncoder.js:199-202 | the outline loop on the array computes FlushOutlines |
| Serializer.WriteOffsets | src/SLPEncoder.js:203-205 | the offset loop on the array computes FlushOffsets |
| Encoder.Pad | src/SLPEncoder.js:37-41 | exactly `len` characters: the string's own up to `len`, then NULs |
| Encoder.PadSlice | src/SLPEncoder.js:37-41 | the slice-then-pad loop computes Pad |
| Encoder.PlaceLayout | src/SLPEncoder.js:241-253 | when every frame serialises: frame k's outline table starts where frame k-1's bytes end (the first right behind the header); its offset table is 4 bytes per row after that; its bytes in the body are the frame serialised for that very offset; the last frame ends the body |
| Encoder.PlaceFails | src/SLPEncoder.js:241-253 | the first frame that fails to serialise stops the pass with its error, later records untouched |
| Encoder.SlpEncoder.constructor | src/SLPEncoder.js:60-78 | version defaults to "1.00", no frames, and the colour table is ColorIndices of the palette |
| Encoder.NewEncoder | src/SLPEncoder.js:63-65 | construction fails exactly when no palette is given |
| Encoder.SlpEncoder.AddFrame | src/SLPEncoder.js:210-231 | returns the builder's commands as written; on success one record with zero table offsets is appended, on failure nothing is stored |
| Encoder.SlpEncoder.Encode | src/SLPEncoder.js:233-259 | the header has the version and comment padded to 4 and 24; the records and body are those of the placement pass from 32 + 32 per frame; it fails with the first frame's error |
| Encoder.PlaceFrames | src/SLPEncoder.js:241-253 | the map loop with its running offset computes the placement pass |
| RowParts.SplitRow | src/SLPEncoder.js:177-186 | a row is its opening skip, its middle and its closing skip; the three cover the width |
| StreamWrite.SerJoin | src/SLPEncoder.js:149-196 | the corrected walk over rows joined by NextLines writes each row's middle bytes, ended by 0x0F, and records each row's outline pair |
| StreamRead.DecodeRows | src/SLP.js:120-188 | the decoder reads that stream back as each row's middle followed by NextLine |
| StreamPaint.PaintRows | src/SLP.js:234-288 | the renderer draws those commands as each row's opening zeros, middle pixels and closing zeros |
| StreamPaint.PartPixelsRow | src/SLP.js:234-288 | a drawn row is the bytes of the cells its commands cover |
| RoundTrip.RowOut | src/SLPEncoder.js:107-125 | the cells of a row built from the encoder's palette draw as the row's own pixels |
| RoundTrip.FitsNarrow | src/SLPEncoder.js:157-193 | a row middle narrower than 64 pixels from a palette of at most 256 colours fits the inline and extended opcode forms |
| RoundTrip.NarrowRowsFit | src/SLPEncoder.js:157-193 | every row of an image narrower than 64 pixels fits those forms |
| RoundTrip.OutlinesRead | src/SLP.js:108-113 | the outline table the serialiser writes reads back as the rows' outline pairs |
| RoundTrip.FrameDecodes | src/SLP.js:99-193 | the frame serialised for an image decodes to the rows' outline pairs and commands |
| RoundTrip.ImageRender | src/SLP.js:215-291 | those outlines and commands render as the image |
| RoundTrip.ImageRoundTrip | src/SLP.js:215-291 | an image built, serialised at `base` and reached through its directory entry renders as its own pixels (opaque in palette colour at alpha 255, transparent as zeros), for either variant, given that the rows fit the opcode forms and the buffer holds the whole stream |
| RoundTrip.NarrowRoundTrip | src/SLPEncoder.js:82-208 | for the corrected encoder, an image narrower than 64 pixels from a palette of at most 256 colours renders back as itself whenever the builder and serialiser succeed |
| RoundTrip.AsWrittenRoundTrip | src/SLPEncoder.js:82-208 | the same for the encoder as written, when its buffer holds the whole stream |

## Left out

- Decoder.DecodeFrameSpec: a read past the end of the buffer becomes `Err(ReadPastEnd)`. The source reads `undefined` there (src/SLP.js:121, 133). A missing opcode byte gives `undefined & 0x03 == 0`, an empty colour list, so the loop never ends. A missing colour pushes `Color(undefined)`. Neither behaviour is a value the model can carry.
- Decoder.DecodeOps: the same `Err(ReadPastEnd)` where the source's loop runs on with `undefined` opcodes forever.
- Decoder.Step: the same `Err(ReadPastEnd)` for an operand byte past the buffer, where the source reads `undefined`.
- Decoder.ListAfter: the same `Err(ReadPastEnd)` for a colour list running past the buffer, where the source pushes `Color(undefined)`.
- Decoder.Counted: the same `Err(ReadPastEnd)` for an orNext count or fill colour past the buffer, where the source uses `undefined`.
- Decoder.DecodeFrame, Decoder.DecodeOpcodes: as Decoder.DecodeFrameSpec, whose result they compute.
- SlpFile.Slp.constructor: the header and frame-directory parse (src/header.js, executed by the awestruct library) is not part of this model. The constructor takes the parsed directory as `entries`. paletteOffset, properties and the hotspot are carried but never read.
- Encoder.PadSlice: strings are sequences of Unicode scalar values, not UTF-16 code units. padSlice's `padding` argument (src/SLPEncoder.js:37) is not modelled, since `encode` only calls it with the default NUL.
- Encoder.Pad: the same two limits as Encoder.PadSlice, whose result it states.
- CommandBuilder.PixelsToRenderCommands: the RGBA `data` is taken as whole pixels (`seq<Pixel>`), so a byte length that is not a multiple of 4 cannot be expressed. The source then reads `undefined` for the missing bytes of the last pixel (src/SLPEncoder.js:93-114): the partial pixel counts as opaque, and it either adds a Color looked up by its RGB (3 bytes left over) or throws "Missing color" on a `NaN` key (1 or 2 bytes left over). That trailing partial pixel is not modelled; the same holds for CommandBuilder.Build and CommandBuilder.BuildFrom.
- Encoder.SlpEncoder.Encode: the header encoding (`headerStruct.encode`) and `Buffer.concat` are left out. The result is an `Encoded` record: the header fields, the directory records with their offsets, and the concatenated frame bytes. The header length is the fixed 32 + 32 per frame of src/SLP.js:91, in place of `headerStruct.encodingLength`.
- Encoder.NewEncoder and Encoder.SlpEncoder.constructor: `options` is a record whose empty version string stands for JavaScript's falsy value.
- RoundTrip.ImageRoundTrip: the round trip needs hypotheses the code does not check:
  - every row fits the opcode forms (`RowsFit`: no colour run reaching 64, no fill or inner-skip count reaching 256, indices below 256);
  - the frame is narrower than 0x8000;
  - the buffer holds the whole stream (`Unclipped`; always true for the corrected capacity).
- RoundTrip.NarrowRoundTrip and RoundTrip.AsWrittenRoundTrip: proved for images narrower than 64 pixels, where `RowsFit` follows from the width. Wider images are covered only through ImageRoundTrip's explicit `RowsFit` hypothesis.
- `createImageData` (src/createImageData.js) is modelled only by its result: a zero-filled array of `width * height * 4` bytes.
- `detectPalette` and src/Palette.js wrap the jascpal library and are not part of this model. The palette is a given sequence of RGB triples.
- `polyFill` is covered by the zero-filled array; filling zeros at the cursor changes nothing (Renderer.FitZeros).
- A frame record's `hotspot` is carried as two numbers and never read. File I/O is outside the modelled logic.

## Findings

| source | as written | input that shows it | evidently intended | confidence | as-written member | corrected member |
|---|---|---|---|---|---|---|
| src/SLPEncoder.js:112-114 | `if (!index)` rejects a colour whose palette index is 0, as if it were missing | a one-pixel opaque image whose colour is palette entry 0 (the first palette colour, when no later entry repeats it) | only a colour absent from the table is missing | high (not executed) | CommandBuilder.IndexZeroRejected | CommandBuilder.BuildVariantsAgree |
| src/SLPEncoder.js:158-161 | the scan for the end of a colour run reads `commands[end].command` past the last command | the command list `[Color(c)]`, which any image ending in an opaque pixel unlike its left neighbour builds | the run ends with the list | high (not executed) | Serializer.TrailingColorRun | Serializer.SerVariantsAgree |
| src/SLPEncoder.js:132-137 | the buffer reserves 2 bytes per command; a long fill takes 3, and the final 0x0F none, so the frame is cut short | one row of 16 pixels of one colour: `[Fill(16, c)]` needs 12 bytes, the buffer holds 10 | room for every byte written: 3 per command and 1 for the final end-of-row byte | high (not executed) | Serializer.UndersizedFill | Serializer.CorrectedFrameKeepsStream |
