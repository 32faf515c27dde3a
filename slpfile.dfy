/** An opened SLP file: the `SLP` object of src/SLP.js.  It keeps the file's
    bytes and its frame directory; a frame record gains its decoded outlines
    and commands the first time it is asked for (getFrame), and renderFrame
    draws a frame from that record. */
module SlpFile {
  import opened SlpTypes
  import opened Decoder
  import opened Renderer

  /** A frame record: the directory entry and, once parsed, what parseFrame
      attached to it. */
  datatype Frame = Frame(entry: FrameEntry, decoded: Option<Decoded>)

  /** The byte offset where frame data may start: a 32-byte file header and
      a 32-byte directory entry per frame (src/SLP.js:91). */
  function BodyOffset(numFrames: int): (n: int)
    ensures numFrames >= 0 ==> n >= 32 && (n - 32) % 32 == 0 && (n - 32) / 32 == numFrames
    ensures forall k :: 0 <= k < numFrames ==> 32 + 32 * k + 32 <= n
  {
    32 + 32 * numFrames
  }

  /** renderFrame as a function of the file: the palette check, the player
      default, the frame lookup, then the renderer. */
  function RenderFrameSpec(buf: seq<byte>, entries: seq<FrameEntry>, id: int, palette: Option<seq<RGB>>,
                           player: int, drawOutline: bool): (r: Result<seq<byte>>)
    ensures palette.None? ==> r == Err(NoPalette)
    ensures palette.Some? && !(0 <= id < |entries|) ==> r == Err(NoSuchFrame(id))
  {
    if palette.None? then Err(NoPalette)
    else if !(0 <= id < |entries|) then Err(NoSuchFrame(id))
    else
      var d :- DecodeFrameSpec(buf, entries[id]);
      DecodedFrameShape(buf, entries[id]);
      RenderSpec(entries[id].width, entries[id].height, d.outlines, d.commands,
                 Style(palette.value, EffectivePlayer(player), drawOutline))
  }

  class Slp {
    /** The file's bytes. */
    const buf: seq<byte>
    var frames: seq<Frame>
    var numFrames: int
    var bodyOffset: int

    /** Every cached decode is the decode of the frame's own entry. */
    ghost predicate Valid()
      reads this
    {
      numFrames == |frames| &&
      forall k :: 0 <= k < |frames| && frames[k].decoded.Some? ==>
        DecodeFrameSpec(buf, frames[k].entry) == Ok(frames[k].decoded.value)
    }

    /** The directory entries, which nothing changes after construction. */
    ghost function Entries(): (es: seq<FrameEntry>)
      reads this
      ensures |es| == |frames| && forall k :: 0 <= k < |frames| ==> es[k] == frames[k].entry
    {
      seq(|frames|, k requires 0 <= k < |frames| reads this => frames[k].entry)
    }

    /** `new SLP(buf)`: the header parse, given here as its result. */
    constructor (buf: seq<byte>, entries: seq<FrameEntry>)
      ensures Valid() && this.buf == buf && Entries() == entries
      ensures forall k :: 0 <= k < |frames| ==> frames[k].decoded.None?
      ensures bodyOffset == BodyOffset(|entries|)
    {
      this.buf := buf;
      frames := seq(|entries|, k requires 0 <= k < |entries| => Frame(entries[k], None));
      numFrames := |entries|;
      bodyOffset := 32 + 32 * |entries|;
    }

    /** parseFrame (src/SLP.js:99-193): decode the frame and attach the
        result to its record; a failed decode leaves the record alone. */
    method ParseFrame(id: int) returns (r: Result<Frame>)
      requires Valid()
      modifies this`frames
      ensures Valid() && Entries() == old(Entries())
      ensures !(0 <= id < |frames|) ==> r == Err(NoSuchFrame(id)) && frames == old(frames)
      ensures 0 <= id < |frames| ==>
        match DecodeFrameSpec(buf, frames[id].entry)
        case Ok(d) => r == Ok(Frame(frames[id].entry, Some(d))) && frames == old(frames)[id := r.value]
        case Err(e) => r == Err(e) && frames == old(frames)
    {
      if !(0 <= id < |frames|) {
        return Err(NoSuchFrame(id));
      }
      var d := DecodeFrame(buf, frames[id].entry);
      if d.Err? {
        return Err(d.error);
      }
      var frame := Frame(frames[id].entry, Some(d.value));
      frames := frames[id := frame];
      return Ok(frame);
    }

    /** getFrame (src/SLP.js:200-205): parse only a frame that has no
        commands yet.  Whether cached or not, the answer is the decode of the
        frame's entry, so repeated calls return the same commands. */
    method GetFrame(id: int) returns (r: Result<Frame>)
      requires Valid()
      modifies this`frames
      ensures Valid() && Entries() == old(Entries())
      ensures !(0 <= id < |frames|) ==> r == Err(NoSuchFrame(id))
      ensures 0 <= id < |frames| ==>
        match DecodeFrameSpec(buf, frames[id].entry)
        case Ok(d) => r == Ok(Frame(frames[id].entry, Some(d))) && frames[id] == r.value
        case Err(e) => r == Err(e)
      ensures 0 <= id < |old(frames)| && old(frames)[id].decoded.Some? ==> frames == old(frames)
      ensures forall k :: 0 <= k < |frames| && k != id ==> frames[k] == old(frames)[k]
    {
      if 0 <= id < |frames| && frames[id].decoded.Some? {
        return Ok(frames[id]);
      }
      r := ParseFrame(id);
    }

    /** renderFrame (src/SLP.js:215-291): the palette check comes before the
        frame lookup, so without a palette nothing is cached; otherwise the
        frame's record holds its decode afterwards, as getFrame leaves it. */
    method RenderFrame(id: int, palette: Option<seq<RGB>>, player: int, drawOutline: bool)
      returns (r: Result<array<byte>>)
      requires Valid()
      modifies this`frames
      ensures Valid() && Entries() == old(Entries())
      ensures palette.None? ==> frames == old(frames)
      ensures palette.Some? && 0 <= id < |frames| && DecodeFrameSpec(buf, frames[id].entry).Ok? ==>
        frames[id].decoded == Some(DecodeFrameSpec(buf, frames[id].entry).value)
      ensures 0 <= id < |old(frames)| && old(frames)[id].decoded.Some? ==> frames == old(frames)
      ensures forall k :: 0 <= k < |frames| && k != id ==> frames[k] == old(frames)[k]
      ensures r.Ok? <==> RenderFrameSpec(buf, Entries(), id, palette, player, drawOutline).Ok?
      ensures r.Ok? ==> fresh(r.value) && r.value[..] == RenderFrameSpec(buf, Entries(), id, palette, player, drawOutline).value
      ensures r.Err? ==> r.error == RenderFrameSpec(buf, Entries(), id, palette, player, drawOutline).error
    {
      if palette.None? {
        return Err(NoPalette);
      }
      var p := EffectivePlayer(player);
      var frame := GetFrame(id);
      if frame.Err? {
        return Err(frame.error);
      }
      var f := frame.value;
      DecodedFrameShape(buf, f.entry);
      r := RenderImage(f.entry.width, f.entry.height, f.decoded.value.outlines, f.decoded.value.commands,
                       Style(palette.value, p, drawOutline));
    }
  }

  /** Two renders of the same frame with the same options give the same
      image, whatever the cache held before. */
  method RenderTwice(s: Slp, id: int, palette: Option<seq<RGB>>, player: int, drawOutline: bool)
    returns (a: Result<array<byte>>, b: Result<array<byte>>)
    requires s.Valid()
    modifies s
    ensures a.Ok? <==> b.Ok?
    ensures a.Ok? ==> a.value[..] == b.value[..]
    ensures a.Err? ==> a.error == b.error
  {
    a := s.RenderFrame(id, palette, player, drawOutline);
    b := s.RenderFrame(id, palette, player, drawOutline);
  }
}
