/** The `SLPEncoder` object (src/SLPEncoder.js:60-78, 210-259): it keeps a
    palette, the colour table built from it and the frames added so far, and
    `encode` lays the frames out one after the other behind the file header,
    recording in each frame where its tables start. */
module Encoder {
  import opened SlpTypes
  import opened CommandBuilder
  import opened Serializer
  import SlpFile

  /** A frame as `addFrame` stores it: its directory fields (the two table
      offsets stay 0 until `encode` sets them) and its pixels and commands. */
  datatype FrameRecord = FrameRecord(
    cmdTableOffset: int,
    outlineTableOffset: int,
    paletteOffset: int,
    properties: int,
    width: int,
    height: int,
    hotspotX: int,
    hotspotY: int,
    pixels: seq<Pixel>,
    commands: seq<Command>)

  /** The options the constructor reads; an empty string is JavaScript's
      falsy string and selects the default. */
  datatype Options = Options(palette: Option<seq<RGB>>, version: string, comment: string)

  /** The header fields `encode` hands to the header schema. */
  datatype Header = Header(version: string, numFrames: nat, comment: string)

  /** What `encode` produces: the header fields, the directory (the frame
      records with their offsets set) and the frame bytes that follow the
      header, concatenated. */
  datatype Encoded = Encoded(header: Header, directory: seq<FrameRecord>, body: seq<byte>)

  // ---------------------------------------------------------------------
  // padSlice

  /** `s` cut to `len` characters and padded with NUL up to `len`. */
  function Pad(s: string, len: nat): (r: string)
    ensures |r| == len
    ensures forall i :: 0 <= i < len ==> r[i] == if i < |s| then s[i] else '\0'
  {
    if |s| >= len then s[..len] else s + seq(len - |s|, _ => '\0')
  }

  /** padSlice (src/SLPEncoder.js:37-41): the slice, then one padding
      character at a time. */
  method PadSlice(s: string, len: nat) returns (r: string)
    ensures r == Pad(s, len)
  {
    r := if |s| >= len then s[..len] else s;
    while |r| < len
      invariant |r| <= len && (|s| >= len ==> r == s[..len])
      invariant |s| < len ==> |s| <= |r| && r == s + seq(|r| - |s|, _ => '\0')
      decreases len - |r|
    {
      r := r + ['\0'];
    }
  }

  // ---------------------------------------------------------------------
  // encode as a function

  /** A frame record with its tables placed at `offset`: the outline table
      there and the row-offset table right after it. */
  function PlaceAt(f: FrameRecord, offset: int): FrameRecord {
    f.(outlineTableOffset := offset, cmdTableOffset := offset + f.height * 4)
  }

  /** What the `map` in `encode` leaves behind when `bytesOf` serialises a
      placed record: the records with their offsets set, the frame bytes,
      and the error of the frame whose serialisation threw, if any (the
      record of that frame already has its offsets).  The encoder passes
      `BytesOf`; the layout lemmas hold for any serialiser. */
  datatype Pass = Pass(frames: seq<FrameRecord>, body: seq<byte>, failure: Option<Error>)

  /** The pass from frame `k` on, the frames before `k` already placed, their
      bytes in `body` and the next frame's tables due at `offset`. */
  function Place(frames: seq<FrameRecord>, k: nat, offset: int, body: seq<byte>, bytesOf: FrameRecord -> Result<seq<byte>>): (p: Pass)
    requires k <= |frames|
    ensures |p.frames| == |frames|
    decreases |frames| - k, 2
  {
    if k == |frames| then Pass(frames, body, None) else PlaceFrame(frames, k, offset, body, bytesOf)
  }

  /** Frame `k` gets its outline table at `offset` and its row-offset table
      right after it. */
  function PlaceFrame(frames: seq<FrameRecord>, k: nat, offset: int, body: seq<byte>, bytesOf: FrameRecord -> Result<seq<byte>>): (p: Pass)
    requires k < |frames|
    ensures |p.frames| == |frames|
    decreases |frames| - k, 1
  {
    EmitFrame(frames[k := PlaceAt(frames[k], offset)], k, body, bytesOf)
  }

  /** Frame `k`, already placed, is serialised; the pass stops at its error
      or goes on behind its bytes. */
  function EmitFrame(frames: seq<FrameRecord>, k: nat, body: seq<byte>, bytesOf: FrameRecord -> Result<seq<byte>>): (p: Pass)
    requires k < |frames|
    ensures |p.frames| == |frames|
    decreases |frames| - k, 0
  {
    var bytes := bytesOf(frames[k]);
    if bytes.Err? then Pass(frames, body, Some(bytes.error))
    else Place(frames, k + 1, frames[k].outlineTableOffset + |bytes.value|, body + bytes.value, bytesOf)
  }

  /** One step of the pass, on either outcome of serialising frame `k`. */
  lemma PlaceStep(frames: seq<FrameRecord>, k: nat, offset: int, body: seq<byte>, bytesOf: FrameRecord -> Result<seq<byte>>, bytes: Result<seq<byte>>)
    requires k < |frames| && bytesOf(PlaceAt(frames[k], offset)) == bytes
    ensures bytes.Err? ==>
      Place(frames, k, offset, body, bytesOf) == Pass(frames[k := PlaceAt(frames[k], offset)], body, Some(bytes.error))
    ensures bytes.Ok? ==>
      Place(frames, k, offset, body, bytesOf) ==
      Place(frames[k := PlaceAt(frames[k], offset)], k + 1, offset + |bytes.value|, body + bytes.value, bytesOf)
  {
    var placed := frames[k := PlaceAt(frames[k], offset)];
    assert Place(frames, k, offset, body, bytesOf) == EmitFrame(placed, k, body, bytesOf);
    assert placed[k] == PlaceAt(frames[k], offset);
  }

  /** The bytes of frame `f`, serialised for its own outline-table offset. */
  function BytesOf(f: FrameRecord): Result<seq<byte>> {
    FrameBytes(AsWritten, f.width, f.height, f.commands, f.outlineTableOffset)
  }

  /** `body` holds `frame` from position `at` on. */
  predicate HoldsAt(body: seq<byte>, at: int, frame: seq<byte>) {
    0 <= at && at + |frame| <= |body| && body[at..at + |frame|] == frame
  }

  /** The pass keeps the number of frames, the frames already placed and the
      bytes already written. */
  lemma {:induction false} PlaceKeeps(frames: seq<FrameRecord>, k: nat, offset: int, body: seq<byte>, bytesOf: FrameRecord -> Result<seq<byte>>)
    requires k <= |frames|
    ensures var p := Place(frames, k, offset, body, bytesOf);
      |p.frames| == |frames| && p.frames[..k] == frames[..k] && |body| <= |p.body| && p.body[..|body|] == body
    decreases |frames| - k
  {
    if k < |frames| {
      var f := PlaceAt(frames[k], offset);
      var bytes := bytesOf(f);
      PlaceStep(frames, k, offset, body, bytesOf, bytes);
      if bytes.Err? {
        assert frames[k := f][..k] == frames[..k];
      } else {
        var next := frames[k := f];
        PlaceKeeps(next, k + 1, offset + |bytes.value|, body + bytes.value, bytesOf);
        var p := Place(next, k + 1, offset + |bytes.value|, body + bytes.value, bytesOf);
        assert p.frames[..k] == p.frames[..k + 1][..k];
        assert p.body[..|body|] == p.body[..|body + bytes.value|][..|body|];
      }
    }
  }

  /** When every frame serialises, frame `j` keeps its size, commands and
      pixels, its row-offset table follows its outline table, frame `k`
      starts at `offset`, each next one where the previous one's bytes end,
      and the bytes there are the frame serialised for that very offset;
      the last frame ends the body. */
  lemma {:induction false} PlaceLayout(frames: seq<FrameRecord>, k: nat, offset: int, body: seq<byte>, bytesOf: FrameRecord -> Result<seq<byte>>, j: nat)
    requires k <= j < |frames| && Place(frames, k, offset, body, bytesOf).failure.None?
    ensures var p := Place(frames, k, offset, body, bytesOf); var g := p.frames[j];
      g == PlaceAt(frames[j], g.outlineTableOffset) && bytesOf(g).Ok? &&
      HoldsAt(p.body, g.outlineTableOffset - offset + |body|, bytesOf(g).value) &&
      (j == k ==> g.outlineTableOffset == offset) &&
      (j + 1 < |frames| ==> p.frames[j + 1].outlineTableOffset == g.outlineTableOffset + |bytesOf(g).value|) &&
      (j + 1 == |frames| ==> g.outlineTableOffset - offset + |body| + |bytesOf(g).value| == |p.body|)
    decreases |frames| - k
  {
    var f := PlaceAt(frames[k], offset);
    PlaceStep(frames, k, offset, body, bytesOf, bytesOf(f));
    var b := bytesOf(f).value;
    var next := frames[k := f];
    var p := Place(next, k + 1, offset + |b|, body + b, bytesOf);
    PlaceKeeps(next, k + 1, offset + |b|, body + b, bytesOf);
    if j == k {
      assert p.frames[k] == p.frames[..k + 1][k] == f;
      assert p.body[|body|..|body| + |b|] == p.body[..|body| + |b|][|body|..];
      if j + 1 < |frames| {
        PlaceLayout(next, k + 1, offset + |b|, body + b, bytesOf, k + 1);
      }
    } else {
      PlaceLayout(next, k + 1, offset + |b|, body + b, bytesOf, j);
    }
  }

  /** The first frame that does not serialise stops the pass with its error. */
  lemma {:induction false} PlaceFails(frames: seq<FrameRecord>, k: nat, offset: int, body: seq<byte>, bytesOf: FrameRecord -> Result<seq<byte>>) returns (j: nat)
    requires k <= |frames| && Place(frames, k, offset, body, bytesOf).failure.Some?
    ensures k <= j < |frames|
    ensures var p := Place(frames, k, offset, body, bytesOf);
      p.frames[j] == PlaceAt(frames[j], p.frames[j].outlineTableOffset) && bytesOf(p.frames[j]) == Err(p.failure.value) &&
      p.frames[j + 1..] == frames[j + 1..]
    decreases |frames| - k
  {
    var f := PlaceAt(frames[k], offset);
    PlaceStep(frames, k, offset, body, bytesOf, bytesOf(f));
    if bytesOf(f).Err? {
      j := k;
    } else {
      var b := bytesOf(f).value;
      j := PlaceFails(frames[k := f], k + 1, offset + |b|, body + b, bytesOf);
    }
  }

  // ---------------------------------------------------------------------
  // The encoder object

  class SlpEncoder {
    var version: string
    var comment: string
    var palette: seq<RGB>
    var frames: seq<FrameRecord>
    var colorIndices: map<nat, nat>

    /** The constructor once the palette is known to be given: the version
        and comment defaults, then the colour table loop. */
    constructor (palette: seq<RGB>, version: string, comment: string)
      ensures this.version == (if version == "" then "1.00" else version)
      ensures this.comment == comment && this.palette == palette && this.frames == []
      ensures this.colorIndices == ColorIndices(palette)
    {
      this.version := if version == "" then "1.00" else version;
      this.comment := comment;
      this.palette := palette;
      this.frames := [];
      var indices: map<nat, nat> := map[];
      var i := 0;
      while i < |palette|
        invariant i <= |palette| && indices == ColorIndices(palette[..i])
      {
        var c := palette[i];
        var key := (c.r * 0x1_0000) + (c.g * 0x100) + c.b;
        assert key == Pack(c);
        assert palette[..i + 1][..i] == palette[..i] && palette[..i + 1][i] == c;
        assert ColorIndices(palette[..i + 1]) == ColorIndices(palette[..i])[key := i];
        indices := indices[key := i];
        i := i + 1;
      }
      assert palette[..i] == palette;
      this.colorIndices := indices;
    }

    /** addFrame (src/SLPEncoder.js:210-231): the commands of the pixels, and
        a new record with both table offsets 0.  A missing colour throws
        before anything is stored. */
    method AddFrame(width: int, height: int, pixels: seq<Pixel>, hotspotX: int, hotspotY: int)
      returns (r: Result<seq<Command>>)
      modifies this
      ensures r == Build(AsWritten, colorIndices, pixels, width)
      ensures r.Ok? ==> frames == old(frames) + [FrameRecord(0, 0, 0, 0, width, height, hotspotX, hotspotY, pixels, r.value)]
      ensures r.Err? ==> frames == old(frames)
      ensures version == old(version) && comment == old(comment) && palette == old(palette)
      ensures colorIndices == old(colorIndices)
    {
      r := PixelsToRenderCommands(colorIndices, pixels, width);
      if r.Ok? {
        frames := frames + [FrameRecord(0, 0, 0, 0, width, height, hotspotX, hotspotY, pixels, r.value)];
      }
    }

    /** encode (src/SLPEncoder.js:233-259): the header fields, then each frame
        in turn gets its table offsets and is serialised for its outline
        table's position, the running offset advancing by the frame's size.
        The header itself is 32 bytes plus 32 per frame. */
    method Encode() returns (r: Result<Encoded>)
      modifies this
      ensures var p := Place(old(frames), 0, SlpFile.BodyOffset(|old(frames)|), [], BytesOf);
        frames == p.frames &&
        (r.Ok? <==> p.failure.None?) &&
        (r.Err? ==> r.error == p.failure.value) &&
        (r.Ok? ==> r.value == Encoded(Header(Pad(version, 4), |frames|, Pad(comment, 24)), frames, p.body))
      ensures version == old(version) && comment == old(comment) && palette == old(palette)
      ensures colorIndices == old(colorIndices)
    {
      var v := PadSlice(version, 4);
      var c := PadSlice(comment, 24);
      var header := Header(v, |frames|, c);
      var placed, body, failure := PlaceFrames(frames);
      frames := placed;
      if failure.Some? {
        return Err(failure.value);
      }
      r := Ok(Encoded(header, frames, body));
    }
  }

  /** The `map` in `encode` (src/SLPEncoder.js:241-251): each frame in turn
      gets its table offsets and is serialised for its outline table's
      position, the running offset starting behind the header (32 bytes
      plus 32 per frame) and advancing by each frame's size; the first frame
      that throws ends the pass. */
  method PlaceFrames(frames: seq<FrameRecord>) returns (placed: seq<FrameRecord>, body: seq<byte>, failure: Option<Error>)
    ensures Pass(placed, body, failure) == Place(frames, 0, SlpFile.BodyOffset(|frames|), [], BytesOf)
  {
    placed := frames;
    ghost var pass := Place(frames, 0, SlpFile.BodyOffset(|frames|), [], BytesOf);
    var offset := 32 + 32 * |frames|;
    body := [];
    var k := 0;
    while k < |placed|
      invariant k <= |placed| && Place(placed, k, offset, body, BytesOf) == pass
      decreases |placed| - k
    {
      var f := PlaceAt(placed[k], offset);
      var buffer := RenderCommandsToSlpFrame(f.width, f.height, f.commands, offset);
      assert buffer == BytesOf(f);
      PlaceStep(placed, k, offset, body, BytesOf, buffer);
      if buffer.Err? {
        placed := placed[k := f];
        return placed, body, Some(buffer.error);
      }
      placed := placed[k := f];
      body := body + buffer.value;
      offset := offset + |buffer.value|;
      k := k + 1;
    }
    failure := None;
  }

  /** The constructor as the caller sees it: it throws without a palette. */
  method NewEncoder(options: Options) returns (r: Result<SlpEncoder>)
    ensures options.palette.None? <==> r.Err?
    ensures r.Err? ==> r.error == NoPalette
    ensures r.Ok? ==>
      fresh(r.value) && r.value.frames == [] && r.value.palette == options.palette.value &&
      r.value.colorIndices == ColorIndices(options.palette.value)
  {
    if options.palette.None? {
      return Err(NoPalette);
    }
    var e := new SlpEncoder(options.palette.value, options.version, options.comment);
    return Ok(e);
  }
}
