/** The round trip through both halves of the codec: pixels built into
    render commands (src/SLPEncoder.js:82-129), serialised into a frame
    (src/SLPEncoder.js:131-208), read back by the frame decoder
    (src/SLP.js:99-193) and drawn by the renderer (src/SLP.js:215-291) come
    back as the pixels themselves, every opaque pixel at full opacity and
    every transparent one as four zero bytes. */
module RoundTrip {
  import opened SlpTypes
  import opened CommandBuilder
  import opened Serializer
  import opened Decoder
  import opened Renderer
  import opened RowParts
  import opened StreamRead
  import opened StreamWrite
  import opened StreamPaint
  import Encoder
  import SlpFile

  // ---------------------------------------------------------------------
  // What the round trip should give back

  /** The four bytes a pixel should come back as: the encoder keeps only
      whether a pixel is transparent, so an opaque pixel returns with alpha
      255 and a transparent one as zeros. */
  function PixelOut(px: Pixel): (s: seq<byte>)
    ensures |s| == 4
    ensures px.a == 0 ==> s == Zeros(4)
    ensures px.a != 0 ==> s[0] == px.r && s[1] == px.g && s[2] == px.b && s[3] == 255
  {
    if px.a == 0 then Zeros(4) else [px.r, px.g, px.b, 255]
  }

  /** The bytes of a run of pixels, four per pixel. */
  function ImageBytes(pxs: seq<Pixel>): (s: seq<byte>)
    ensures |s| == 4 * |pxs|
    decreases |pxs|
  {
    if pxs == [] then [] else PixelOut(pxs[0]) + ImageBytes(pxs[1..])
  }

  lemma {:induction false} ImageBytesAppend(a: seq<Pixel>, b: seq<Pixel>)
    ensures ImageBytes(a + b) == ImageBytes(a) + ImageBytes(b)
    decreases |a|
  {
    if a == [] {
      assert a + b == b;
    } else {
      assert (a + b)[0] == a[0] && (a + b)[1..] == a[1..] + b;
      ImageBytesAppend(a[1..], b);
      AppendAssoc(PixelOut(a[0]), ImageBytes(a[1..]), ImageBytes(b));
    }
  }

  /** Pixel `k` of a run sits at bytes `4k` to `4k + 3`. */
  lemma {:induction false} ImageBytesAt(pxs: seq<Pixel>, k: nat)
    requires k < |pxs|
    ensures ImageBytes(pxs)[4 * k..4 * k + 4] == PixelOut(pxs[k])
    decreases k
  {
    if k > 0 {
      ImageBytesAt(pxs[1..], k - 1);
      var head := PixelOut(pxs[0]);
      var tail := ImageBytes(pxs[1..]);
      assert ImageBytes(pxs) == head + tail;
      SliceRight(head, tail, 4 * k - 4, 4 * k);
    }
  }

  // ---------------------------------------------------------------------
  // Cells against pixels

  /** The cell the builder makes for a pixel it accepts draws as that pixel:
      the colour table maps its key to an entry with the same colour. */
  lemma CellOut(variant: Variant, palette: seq<RGB>, px: Pixel)
    requires px.a == 0 || Lookup(variant, ColorIndices(palette), px).Ok?
    ensures PaintableCell(palette, CellOf(ColorIndices(palette), px))
    ensures CellPixel(palette, CellOf(ColorIndices(palette), px)) == PixelOut(px)
  {
    var indices := ColorIndices(palette);
    if px.a != 0 {
      var i := indices[Key(px)];
      PackInjective(palette[i], RGB(px.r, px.g, px.b));
    }
  }

  /** The cells of a row the builder accepts draw as the row's pixels. */
  lemma {:induction false} RowOut(variant: Variant, palette: seq<RGB>, pxs: seq<Pixel>)
    requires Inked(variant, ColorIndices(palette), pxs)
    ensures Paintable(palette, PixelCells(ColorIndices(palette), pxs))
    ensures CellBytes(palette, PixelCells(ColorIndices(palette), pxs)) == ImageBytes(pxs)
    decreases |pxs|
  {
    var indices := ColorIndices(palette);
    var cells := PixelCells(indices, pxs);
    if pxs != [] {
      assert Inked(variant, indices, pxs[1..]) by {
        assert forall j :: 0 <= j < |pxs[1..]| ==> pxs[1..][j] == pxs[j + 1];
      }
      RowOut(variant, palette, pxs[1..]);
      CellOut(variant, palette, pxs[0]);
      assert cells[1..] == PixelCells(indices, pxs[1..]);
      assert cells[0] == CellOf(indices, pxs[0]);
    }
  }
  /** A row the builder accepts, split at its edge skips, draws as the
      row's pixels. */
  lemma RowPart(variant: Variant, palette: seq<RGB>, w: nat, row: seq<Pixel>, rc: seq<Command>)
    requires 0 < w < LINE_EMPTY && |row| == w && BuildRow(variant, ColorIndices(palette), row) == Ok(rc)
    ensures ValidRow(w, rc)
    ensures var p := Split(w, rc);
      MidShape(p.mid) && Paintable(palette, Expand(p.mid)) && PartPixels(palette, w, p) == ImageBytes(row)
  {
    var indices := ColorIndices(palette);
    RowShape(variant, indices, row);
    assert Inked(variant, indices, row);
    RowOut(variant, palette, row);
    SplitRow(w, rc);
    PartPixelsRow(palette, w, rc);
  }

  /** Every row of an image the builder accepts has the builder's row shape. */
  lemma RowsValid(variant: Variant, palette: seq<RGB>, w: nat, image: seq<seq<Pixel>>)
    requires 0 < w < LINE_EMPTY && Rectangular(image, w) && RowsBuild(variant, ColorIndices(palette), image)
    ensures forall r :: 0 <= r < |image| ==> ValidRow(w, RowCommands(variant, ColorIndices(palette), image)[r])
  {
    var rows := RowCommands(variant, ColorIndices(palette), image);
    forall r | 0 <= r < |image| ensures ValidRow(w, rows[r]) {
      RowPart(variant, palette, w, image[r], rows[r]);
    }
  }

  /** The parts of such an image hold row commands the palette can draw,
      with no skip at either end. */
  lemma {:induction false} ImageDrawable(variant: Variant, palette: seq<RGB>, w: nat, image: seq<seq<Pixel>>)
    requires 0 < w < LINE_EMPTY && Rectangular(image, w) && RowsBuild(variant, ColorIndices(palette), image)
    ensures var parts := SplitAll(w, RowCommands(variant, ColorIndices(palette), image));
      PartsPaintable(palette, parts) && forall r :: 0 <= r < |parts| ==> MidShape(parts[r].mid)
  {
    var rows := RowCommands(variant, ColorIndices(palette), image);
    var parts := SplitAll(w, rows);
    forall r | 0 <= r < |parts|
      ensures MidShape(parts[r].mid) && Paintable(palette, Expand(parts[r].mid))
    {
      RowPart(variant, palette, w, image[r], rows[r]);
    }
  }

  /** The rows of an image the builder accepts, split at their edge skips,
      draw as the image's pixels in row order. */
  lemma {:induction false} ImagePixels(variant: Variant, palette: seq<RGB>, w: nat, image: seq<seq<Pixel>>)
    requires 0 < w < LINE_EMPTY && Rectangular(image, w) && RowsBuild(variant, ColorIndices(palette), image)
    requires PartsPaintable(palette, SplitAll(w, RowCommands(variant, ColorIndices(palette), image)))
    ensures PartsPixels(palette, w, SplitAll(w, RowCommands(variant, ColorIndices(palette), image))) == ImageBytes(Flatten(image))
    decreases |image|
  {
    var indices := ColorIndices(palette);
    var rows := RowCommands(variant, indices, image);
    var parts := SplitAll(w, rows);
    if image != [] {
      RowsTail(variant, indices, w, image);
      var tail := SplitAll(w, rows[1..]);
      assert parts[1..] == tail;
      PaintableSuffix(palette, parts, 1);
      ImagePixels(variant, palette, w, image[1..]);
      RowPart(variant, palette, w, image[0], rows[0]);
      assert PartsPixels(palette, w, parts) == PartPixels(palette, w, parts[0]) + PartsPixels(palette, w, tail);
      ImageBytesAppend(image[0], Flatten(image[1..]));
    }
  }
  // ---------------------------------------------------------------------
  // Narrow images fit the opcode formats

  /** A run of colours covers one inked cell per colour. */
  lemma {:induction false} ColorsExpand(run: seq<Command>)
    requires forall j :: 0 <= j < |run| ==> run[j].Color?
    ensures |Expand(run)| == |run| && forall j :: 0 <= j < |run| ==> Expand(run)[j] == Ink(run[j].index)
    decreases |run|
  {
    if run != [] {
      var init := run[..|run| - 1];
      ColorsExpand(init);
      assert forall j :: 0 <= j < |init| ==> init[j] == run[j];
    }
  }

  /** Cutting a middle after its first `g` commands cuts its cells. */
  lemma NarrowSplit(palette: seq<RGB>, mid: seq<Command>, g: nat)
    requires g <= |mid| && (forall j :: 0 <= j < |mid| ==> RowCommand(mid[j])) && Paintable(palette, Expand(mid))
    ensures Expand(mid) == Expand(mid[..g]) + Expand(mid[g..])
    ensures Paintable(palette, Expand(mid[..g])) && Paintable(palette, Expand(mid[g..]))
    ensures forall j :: 0 <= j < |mid[g..]| ==> RowCommand(mid[g..][j])
  {
    assert mid[..g] + mid[g..] == mid;
    ExpandAppend(mid[..g], mid[g..]);
    PaintableAppend(palette, Expand(mid[..g]), Expand(mid[g..]));
    assert forall j :: 0 <= j < |mid[g..]| ==> mid[g..][j] == mid[g + j];
  }

  /** A colour run the palette can draw, of fewer than 64 colours, fits. */
  lemma RunFitsNarrow(palette: seq<RGB>, mid: seq<Command>)
    requires mid != [] && mid[0].Color? && |palette| <= 256
    requires Paintable(palette, Expand(mid[..RunLength(mid)])) && |Expand(mid[..RunLength(mid)])| < 64
    ensures GroupFits(mid)
  {
    var g := RunLength(mid);
    var group := mid[..g];
    RunLengthColors(mid);
    assert forall j :: 0 <= j < g ==> group[j] == mid[j];
    ColorsExpand(group);
    forall j | 0 <= j < g ensures mid[j].index < 256 {
      assert PaintableCell(palette, Expand(group)[j]);
    }
  }

  /** A skip or fill the palette can draw, covering fewer than 64 cells,
      fits. */
  lemma SingleFitsNarrow(palette: seq<RGB>, mid: seq<Command>)
    requires mid != [] && RowCommand(mid[0]) && !mid[0].Color? && |palette| <= 256
    requires Paintable(palette, Expand(mid[..1])) && |Expand(mid[..1])| < 64
    ensures GroupFits(mid)
  {
    assert mid[..1] == [mid[0]];
    ExpandCons(mid[0], []);
    assert Expand(mid[..1]) == Cells(mid[0]) + Expand([]);
    if mid[0].Fill? {
      assert PaintableCell(palette, Expand(mid[..1])[0]);
    }
  }

  /** The first group of a middle the palette can draw, covering fewer
      than 64 cells, fits its opcode format, and so does what follows it. */
  lemma GroupFitsNarrow(palette: seq<RGB>, mid: seq<Command>)
    requires mid != [] && (forall j :: 0 <= j < |mid| ==> RowCommand(mid[j]))
    requires |palette| <= 256 && Paintable(palette, Expand(mid)) && |Expand(mid)| < 64
    ensures GroupFits(mid)
    ensures var rest := mid[GroupLen(mid)..];
      (forall j :: 0 <= j < |rest| ==> RowCommand(rest[j])) && Paintable(palette, Expand(rest)) && |Expand(rest)| < 64
  {
    var g := GroupLen(mid);
    NarrowSplit(palette, mid, g);
    if mid[0].Color? {
      RunFitsNarrow(palette, mid);
    } else {
      SingleFitsNarrow(palette, mid);
    }
  }

  /** A middle the palette can draw, covering fewer than 64 cells, fits
      the opcode formats group by group. */
  lemma {:induction false} FitsNarrow(palette: seq<RGB>, mid: seq<Command>)
    requires (forall j :: 0 <= j < |mid| ==> RowCommand(mid[j]))
    requires |palette| <= 256 && Paintable(palette, Expand(mid)) && |Expand(mid)| < 64
    ensures Fits(mid)
    decreases |mid|
  {
    if mid != [] {
      GroupFitsNarrow(palette, mid);
      FitsNarrow(palette, mid[GroupLen(mid)..]);
    }
  }

  /** An image narrower than 64 pixels, built with a palette of at most 256
      colours, fits the opcode formats: no colour run reaches 64, no fill
      or skip count reaches 256, every index fits a byte. */
  lemma {:induction false} NarrowRowsFit(variant: Variant, palette: seq<RGB>, w: nat, image: seq<seq<Pixel>>)
    requires 0 < w < 64 && |palette| <= 256 && Rectangular(image, w)
    requires RowsBuild(variant, ColorIndices(palette), image)
    ensures RowsFit(variant, palette, w, image)
  {
    var rows := RowCommands(variant, ColorIndices(palette), image);
    forall r | 0 <= r < |image| ensures Fits(Split(w, rows[r]).mid) {
      RowPart(variant, palette, w, image[r], rows[r]);
      SplitRow(w, rows[r]);
      FitsNarrow(palette, Split(w, rows[r]).mid);
    }
  }

  // ---------------------------------------------------------------------
  // The frame the serialiser writes for an image

  /** The walk succeeds and the buffer holds its whole stream: always so for
      the corrected capacity, not always for the one the source allocates. */
  predicate Unclipped(variant: Variant, w: nat, h: nat, cmds: seq<Command>) {
    Ser(variant, w, cmds, Start).Ok? &&
    8 * h + |Ser(variant, w, cmds, Start).value.body| + 1 <= Capacity(variant, h, |cmds|)
  }

  lemma CorrectedUnclipped(w: nat, h: nat, cmds: seq<Command>)
    requires Ser(Corrected, w, cmds, Start).Ok?
    ensures Unclipped(Corrected, w, h, cmds)
  {
  }

  /** Every row builds and every row's middle fits the opcode formats. */
  predicate RowsFit(variant: Variant, palette: seq<RGB>, w: nat, image: seq<seq<Pixel>>) {
    RowsBuild(variant, ColorIndices(palette), image) &&
    forall r :: 0 <= r < |image| ==> Fits(Split(w, RowCommands(variant, ColorIndices(palette), image)[r]).mid)
  }

  /** Either variant of the walk over joined rows of the builder's shape
      writes the rows' streams and outline pairs. */
  lemma RowsSer(variant: Variant, w: nat, rows: seq<seq<Command>>, cmds: seq<Command>)
    requires 0 < w < LINE_EMPTY && rows != [] && forall r :: 0 <= r < |rows| ==> ValidRow(w, rows[r])
    requires cmds == JoinRows(rows) && Ser(variant, w, cmds, Start).Ok?
    ensures Ser(variant, w, cmds, Start).value.body + [0x0F] == RowsStream(SplitAll(w, rows))
    ensures Ser(variant, w, cmds, Start).value.outlines == OutlinesOf(SplitAll(w, rows))
  {
    SerJoin(w, rows);
    if variant.AsWritten? {
      SerVariantsAgree(w, cmds, Start);
    }
  }

  /** A frame whose buffer held the whole stream: the stream from
      `8 * height` on and the outline pairs in the outline table. */
  lemma FrameHolds(variant: Variant, w: nat, h: nat, cmds: seq<Command>, base: int, frame: seq<byte>)
    requires CountNextLines(cmds) < h
    requires FrameBytes(variant, w, h, cmds, base) == Ok(frame) && Unclipped(variant, w, h, cmds)
    ensures var st := Ser(variant, w, cmds, Start).value;
      8 * h <= |frame| && frame[8 * h..] == st.body + [0x0F] && |st.outlines| == CountNextLines(cmds) + 1 &&
      forall j :: 0 <= j < |st.outlines| ==>
        U16At(frame, 4 * j) == st.outlines[j].left && U16At(frame, 4 * j + 2) == st.outlines[j].right
  {
    var st := Ser(variant, w, cmds, Start).value;
    FrameLayout(variant, w, h, cmds, base, st, frame);
    assert frame[8 * h..] == st.body + [0x0F];
  }

  /** The frame the serialiser writes for an image's commands holds each
      row's outline pair in its outline table and the rows' opcode streams
      from `8 * height` on. */
  lemma FrameOfImage(variant: Variant, palette: seq<RGB>, w: nat, image: seq<seq<Pixel>>,
                     cmds: seq<Command>, base: int, frame: seq<byte>)
    requires 0 < w < LINE_EMPTY && image != [] && Rectangular(image, w)
    requires RowsBuild(variant, ColorIndices(palette), image)
    requires Build(variant, ColorIndices(palette), Flatten(image), w) == Ok(cmds)
    requires FrameBytes(variant, w, |image|, cmds, base) == Ok(frame) && Unclipped(variant, w, |image|, cmds)
    ensures var parts := SplitAll(w, RowCommands(variant, ColorIndices(palette), image));
      8 * |image| <= |frame| && frame[8 * |image|..] == RowsStream(parts) &&
      forall j :: 0 <= j < |image| ==> U16At(frame, 4 * j) == parts[j].left && U16At(frame, 4 * j + 2) == parts[j].right
  {
    var rows := RowCommands(variant, ColorIndices(palette), image);
    BuildByRows(variant, ColorIndices(palette), w, image);
    RowsValid(variant, palette, w, image);
    RowsSer(variant, w, rows, cmds);
    FrameHolds(variant, w, |image|, cmds, base, frame);
  }
  // ---------------------------------------------------------------------
  // Reading the frame back

  /** A 16-bit value of a frame placed at `base` of a file reads the same in
      the file. */
  lemma U16Shift(file: seq<byte>, base: nat, frame: seq<byte>, o: nat)
    requires Encoder.HoldsAt(file, base, frame) && o + 2 <= |frame|
    ensures U16At(file, base + o) == U16At(frame, o)
  {
    assert file[base..base + |frame|][o] == file[base + o];
    assert file[base..base + |frame|][o + 1] == file[base + o + 1];
  }

  /** The outline table of a frame placed at `base` reads back as the
      outline pairs it holds. */
  lemma OutlinesRead(file: seq<byte>, base: nat, frame: seq<byte>, outs: seq<RowOutline>)
    requires Encoder.HoldsAt(file, base, frame) && 4 * |outs| <= |frame|
    requires forall j :: 0 <= j < |outs| ==> U16At(frame, 4 * j) == outs[j].left && U16At(frame, 4 * j + 2) == outs[j].right
    ensures ReadOutlines(file, base, |outs|) == Ok(outs)
  {
    var r := ReadOutlines(file, base, |outs|);
    assert r.Ok?;
    forall j | 0 <= j < |outs| ensures r.value[j] == outs[j] {
      U16Shift(file, base, frame, 4 * j);
      U16Shift(file, base, frame, 4 * j + 2);
    }
    assert r.value == outs;
  }

  /** The opcode stream of a frame placed at `base` sits in the file from
      `base + 8 * height` on. */
  lemma StreamAt(file: seq<byte>, base: nat, frame: seq<byte>, h: nat, stream: seq<byte>)
    requires Encoder.HoldsAt(file, base, frame) && 8 * h <= |frame| && frame[8 * h..] == stream
    ensures BytesAt(file, base + 8 * h, stream)
  {
    assert file[base + 8 * h..base + 8 * h + |stream|] == stream by {
      assert file[base + 8 * h..base + |frame|] == file[base..base + |frame|][8 * h..];
    }
    HoldsSlice(file, base + 8 * h, stream);
  }

  /** The encoder's slice form of "these bytes sit at this offset" and the
      decoder's byte-by-byte form are one notion. */
  lemma HoldsAtIsBytesAt(file: seq<byte>, base: nat, frame: seq<byte>)
    ensures Encoder.HoldsAt(file, base, frame) <==> BytesAt(file, base, frame)
  {
    if Encoder.HoldsAt(file, base, frame) {
      HoldsSlice(file, base, frame);
    }
    if BytesAt(file, base, frame) {
      HoldsLength(file, base, frame);
      forall j | 0 <= j < |frame| ensures file[base..base + |frame|][j] == frame[j] {
        HoldsByte(file, base, frame, j);
      }
      assert file[base..base + |frame|] == frame;
    }
  }

  /** Every part of such an image is one the decoder reads back. */
  lemma PartsFit(variant: Variant, palette: seq<RGB>, w: nat, image: seq<seq<Pixel>>)
    requires 0 < w < LINE_EMPTY && Rectangular(image, w) && RowsFit(variant, palette, w, image)
    ensures var parts := SplitAll(w, RowCommands(variant, ColorIndices(palette), image));
      forall r :: 0 <= r < |parts| ==> MidShape(parts[r].mid) && Fits(parts[r].mid)
  {
    ImageDrawable(variant, palette, w, image);
  }

  lemma EntryDecodes(file: seq<byte>, entry: FrameEntry, outs: seq<RowOutline>, cmds: seq<Command>)
    requires ReadOutlines(file, entry.outlineTableOffset, Rows(entry.height)) == Ok(outs)
    requires DecodeOps(file, entry.cmdTableOffset + 4 * Rows(entry.height), Rows(entry.height)) == Ok(cmds)
    ensures DecodeFrameSpec(file, entry) == Ok(Decoded(outs, cmds))
  {
  }

  /** An entry that points at a frame holding stored rows in its outline
      table and opcode stream decodes to those rows. */
  lemma PartsDecode(file: seq<byte>, base: nat, frame: seq<byte>, parts: seq<Part>, entry: FrameEntry)
    requires Encoder.HoldsAt(file, base, frame)
    requires 8 * |parts| <= |frame| && frame[8 * |parts|..] == RowsStream(parts)
    requires forall j :: 0 <= j < |parts| ==> U16At(frame, 4 * j) == parts[j].left && U16At(frame, 4 * j + 2) == parts[j].right
    requires forall r :: 0 <= r < |parts| ==> MidShape(parts[r].mid) && Fits(parts[r].mid)
    requires entry.outlineTableOffset == base && entry.cmdTableOffset == base + 4 * |parts| && entry.height == |parts|
    ensures DecodeFrameSpec(file, entry) == Ok(Decoded(OutlinesOf(parts), RowsCommands(parts)))
  {
    var h := |parts|;
    OutlinesRead(file, base, frame, OutlinesOf(parts));
    StreamAt(file, base, frame, h, RowsStream(parts));
    DecodeRows(file, base + 8 * h, parts);
    EntryDecodes(file, entry, OutlinesOf(parts), RowsCommands(parts));
  }

  /** An entry that points at a frame of an image the builder accepts and
      whose rows fit the opcode formats decodes to each row's outline pair
      and the commands between each row's edge skips, each row closed by a
      NextLine. */
  lemma FrameDecodes(variant: Variant, palette: seq<RGB>, w: nat, image: seq<seq<Pixel>>, cmds: seq<Command>,
                     base: nat, frame: seq<byte>, file: seq<byte>, entry: FrameEntry)
    requires 0 < w < LINE_EMPTY && image != [] && Rectangular(image, w) && RowsFit(variant, palette, w, image)
    requires Build(variant, ColorIndices(palette), Flatten(image), w) == Ok(cmds)
    requires FrameBytes(variant, w, |image|, cmds, base) == Ok(frame) && Unclipped(variant, w, |image|, cmds)
    requires Encoder.HoldsAt(file, base, frame)
    requires entry.outlineTableOffset == base && entry.cmdTableOffset == base + 4 * |image| && entry.height == |image|
    ensures var parts := SplitAll(w, RowCommands(variant, ColorIndices(palette), image));
      DecodeFrameSpec(file, entry) == Ok(Decoded(OutlinesOf(parts), RowsCommands(parts)))
  {
    var parts := SplitAll(w, RowCommands(variant, ColorIndices(palette), image));
    FrameOfImage(variant, palette, w, image, cmds, base, frame);
    PartsFit(variant, palette, w, image);
    PartsDecode(file, base, frame, parts, entry);
  }
  // ---------------------------------------------------------------------
  // Drawing the decoded frame

  /** The renderer draws decoded stored rows as their pixels, fitted into
      the image array. */
  lemma PartsRender(w: nat, parts: seq<Part>, style: Style)
    requires parts != [] && PartsPaintable(style.palette, parts)
    ensures RenderSpec(w, |parts|, OutlinesOf(parts), RowsCommands(parts), style) ==
      Ok(Fit(PartsPixels(style.palette, w, parts), w * |parts| * 4))
  {
    PaintRows(w, style, parts);
  }

  /** The image array of such an image's frame is exactly its pixels. */
  lemma ImageRender(variant: Variant, palette: seq<RGB>, w: nat, image: seq<seq<Pixel>>, style: Style)
    requires 0 < w < LINE_EMPTY && image != [] && Rectangular(image, w)
    requires RowsBuild(variant, ColorIndices(palette), image) && style.palette == palette
    ensures var parts := SplitAll(w, RowCommands(variant, ColorIndices(palette), image));
      RenderSpec(w, |image|, OutlinesOf(parts), RowsCommands(parts), style) == Ok(ImageBytes(Flatten(image)))
  {
    var parts := SplitAll(w, RowCommands(variant, ColorIndices(palette), image));
    ImageDrawable(variant, palette, w, image);
    ImagePixels(variant, palette, w, image);
    PartsRender(w, parts, style);
    FlattenSize(image, w);
    var bytes := ImageBytes(Flatten(image));
    assert |bytes| == w * |image| * 4;
    FitWhole(bytes);
  }

  // ---------------------------------------------------------------------
  // The round trip

  /** An image the builder accepts, whose rows fit the opcode formats and
      whose frame the buffer holds whole, serialised for a frame at `base`
      of a file whose directory entry points there, is drawn by renderFrame
      with the encoder's palette as its own pixels: opaque pixels with their
      colour at alpha 255, transparent pixels as zeros. */
  lemma ImageRoundTrip(variant: Variant, palette: seq<RGB>, w: nat, image: seq<seq<Pixel>>, cmds: seq<Command>,
                       base: nat, frame: seq<byte>, file: seq<byte>, entries: seq<FrameEntry>, id: nat,
                       player: int, drawOutline: bool)
    requires 0 < w < LINE_EMPTY && image != [] && Rectangular(image, w) && RowsFit(variant, palette, w, image)
    requires Build(variant, ColorIndices(palette), Flatten(image), w) == Ok(cmds)
    requires FrameBytes(variant, w, |image|, cmds, base) == Ok(frame) && Unclipped(variant, w, |image|, cmds)
    requires Encoder.HoldsAt(file, base, frame)
    requires id < |entries| && entries[id].outlineTableOffset == base && entries[id].cmdTableOffset == base + 4 * |image|
    requires entries[id].width == w && entries[id].height == |image|
    ensures SlpFile.RenderFrameSpec(file, entries, id, Some(palette), player, drawOutline) == Ok(ImageBytes(Flatten(image)))
  {
    var parts := SplitAll(w, RowCommands(variant, ColorIndices(palette), image));
    var style := Style(palette, EffectivePlayer(player), drawOutline);
    FrameDecodes(variant, palette, w, image, cmds, base, frame, file, entries[id]);
    ImageRender(variant, palette, w, image, style);
  }
  /** The round trip of the corrected encoder for an image narrower than 64
      pixels and a palette of at most 256 colours: whenever the builder and
      the serialiser succeed, renderFrame gives the image back. */
  lemma NarrowRoundTrip(palette: seq<RGB>, w: nat, image: seq<seq<Pixel>>, cmds: seq<Command>,
                        base: nat, frame: seq<byte>, file: seq<byte>, entries: seq<FrameEntry>, id: nat,
                        player: int, drawOutline: bool)
    requires 0 < w < 64 && |palette| <= 256 && image != [] && Rectangular(image, w)
    requires Build(Corrected, ColorIndices(palette), Flatten(image), w) == Ok(cmds)
    requires FrameBytes(Corrected, w, |image|, cmds, base) == Ok(frame)
    requires Encoder.HoldsAt(file, base, frame)
    requires id < |entries| && entries[id].outlineTableOffset == base && entries[id].cmdTableOffset == base + 4 * |image|
    requires entries[id].width == w && entries[id].height == |image|
    ensures SlpFile.RenderFrameSpec(file, entries, id, Some(palette), player, drawOutline) == Ok(ImageBytes(Flatten(image)))
  {
    BuildByRows(Corrected, ColorIndices(palette), w, image);
    NarrowRowsFit(Corrected, palette, w, image);
    FrameOk(Corrected, w, |image|, cmds, base);
    CorrectedUnclipped(w, |image|, cmds);
    ImageRoundTrip(Corrected, palette, w, image, cmds, base, frame, file, entries, id, player, drawOutline);
  }
  /** The same for the encoder as the source writes it, for an image narrower
      than 64 pixels: whenever its builder and serialiser succeed (so no
      opaque pixel has palette index 0 and no row ends in a colour run) and
      its buffer holds the whole stream, renderFrame gives the image back. */
  lemma AsWrittenRoundTrip(palette: seq<RGB>, w: nat, image: seq<seq<Pixel>>, cmds: seq<Command>,
                           base: nat, frame: seq<byte>, file: seq<byte>, entries: seq<FrameEntry>, id: nat,
                           player: int, drawOutline: bool)
    requires 0 < w < 64 && |palette| <= 256 && image != [] && Rectangular(image, w)
    requires Build(AsWritten, ColorIndices(palette), Flatten(image), w) == Ok(cmds)
    requires FrameBytes(AsWritten, w, |image|, cmds, base) == Ok(frame) && Unclipped(AsWritten, w, |image|, cmds)
    requires Encoder.HoldsAt(file, base, frame)
    requires id < |entries| && entries[id].outlineTableOffset == base && entries[id].cmdTableOffset == base + 4 * |image|
    requires entries[id].width == w && entries[id].height == |image|
    ensures SlpFile.RenderFrameSpec(file, entries, id, Some(palette), player, drawOutline) == Ok(ImageBytes(Flatten(image)))
  {
    BuildByRows(AsWritten, ColorIndices(palette), w, image);
    NarrowRowsFit(AsWritten, palette, w, image);
    ImageRoundTrip(AsWritten, palette, w, image, cmds, base, frame, file, entries, id, player, drawOutline);
  }
}
