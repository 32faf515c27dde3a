/** The frame renderer: the pixel writer of `SLP.prototype.renderFrame`
    (src/SLP.js:215-291).  It walks the commands with a write cursor `idx`
    into a zero-filled RGBA array, opening and closing each row with that
    row's outline counts. */
module Renderer {
  import opened SlpTypes

  /** The rendering options after their defaults are applied. */
  datatype Style = Style(palette: seq<RGB>, player: int, drawOutline: bool)

  /** A falsy `player` (absent, or 0) becomes 1 (src/SLP.js:217). */
  function EffectivePlayer(player: int): (p: int)
    ensures player == 0 ==> p == 1
    ensures player != 0 ==> p == player
  {
    if player == 0 then 1 else player
  }

  /** `palette[i]`, which is `undefined` out of range; the renderer then
      throws when it reads the first channel. */
  function PaletteAt(palette: seq<RGB>, i: int): (r: Result<RGB>)
    ensures r.Ok? <==> 0 <= i < |palette|
    ensures r.Ok? ==> r.value == palette[i]
    ensures r.Err? ==> r.error == NoPaletteEntry(i)
  {
    if 0 <= i < |palette| then Ok(palette[i]) else Err(NoPaletteEntry(i))
  }

  /** getPlayerColor (src/SLP.js:56): the entry 16 places per player above `idx`. */
  function PlayerColorAt(palette: seq<RGB>, idx: nat, player: int): (r: Result<RGB>)
    ensures r == PaletteAt(palette, idx + 16 * player)
  {
    PaletteAt(palette, idx + 16 * player)
  }

  /** The four bytes pushColor writes. */
  function PixelBytes(c: RGB, alpha: byte): (s: seq<byte>)
    ensures |s| == 4
  {
    [c.r, c.g, c.b, alpha]
  }

  /** `n` pixels of one colour. */
  function RepeatPixel(c: RGB, alpha: byte, n: nat): (s: seq<byte>)
    ensures |s| == 4 * n
    ensures forall k :: 0 <= k < |s| ==> s[k] == PixelBytes(c, alpha)[k % 4]
  {
    if n == 0 then [] else RepeatPixel(c, alpha, n - 1) + PixelBytes(c, alpha)
  }

  const SHADOW := RGB(255, 0, 0)
  const BLACK := RGB(0, 0, 0)

  /** The number of transparent pixels that open a row: the left outline, or
      the whole width for the empty-row sentinel. */
  function OpenRow(width: nat, left: nat): (n: nat)
    ensures left == LINE_EMPTY ==> n == width
    ensures left != LINE_EMPTY ==> n == left
  {
    if left == LINE_EMPTY then width else left
  }

  /** The bytes one command writes at the cursor, in row `y`. */
  function PaintOne(width: nat, height: int, outlines: seq<RowOutline>, style: Style, c: Command, y: nat): (r: Result<seq<byte>>)
  {
    match c
    case Skip(n) => Ok(Zeros(4 * n))
    case NextLine =>
      if y >= |outlines| then Err(NoOutline(y))
      else if y + 1 < height then
        if y + 1 >= |outlines| then Err(NoOutline(y + 1))
        else Ok(Zeros(4 * outlines[y].right) + Zeros(4 * OpenRow(width, outlines[y + 1].left)))
      else Ok(Zeros(4 * outlines[y].right))
    case Color(i) =>
      var col :- PaletteAt(style.palette, i);
      Ok(PixelBytes(col, 255))
    case Fill(n, i) =>
      if n == 0 then Ok([])
      else
        var col :- PaletteAt(style.palette, i);
        Ok(RepeatPixel(col, 255, n))
    case Outline(_) => Ok(PixelBytes(BLACK, if style.drawOutline then 255 else 0))
    case PlayerColor(i) =>
      var col :- PlayerColorAt(style.palette, i, style.player);
      Ok(PixelBytes(col, 255))
    case PlayerFill(n, i) =>
      if n == 0 then Ok([])
      else
        var col :- PlayerColorAt(style.palette, i, style.player);
        Ok(RepeatPixel(col, 255, n))
    case Shadow(n) => Ok(RepeatPixel(SHADOW, 255, n))
  }

  /** The bytes the command walk writes from row `y` on. */
  function Paint(width: nat, height: int, outlines: seq<RowOutline>, style: Style, cmds: seq<Command>, y: nat): (r: Result<seq<byte>>)
    decreases |cmds|
  {
    if cmds == [] then Ok([])
    else
      var head :- PaintOne(width, height, outlines, style, cmds[0], y);
      Prepend(head, Paint(width, height, outlines, style, cmds[1..], if cmds[0].NextLine? then y + 1 else y))
  }

  /** The array the written bytes leave behind: it starts zeroed, the cursor
      only moves forward, and writes past its end are dropped. */
  function Fit(s: seq<byte>, len: nat): (a: seq<byte>)
    ensures |a| == len
    ensures forall k :: 0 <= k < len ==> a[k] == if k < |s| then s[k] else 0
  {
    seq(len, k requires 0 <= k < len => if k < |s| then s[k] else 0)
  }

  lemma NonNegativeWidth(width: int, height: int)
    requires height > 0 && width * height >= 0
    ensures width >= 0
  {
    if width < 0 {
      assert false;
    }
  }

  /** renderFrame after the palette check: the image allocation, the opening
      outline of row 0, then the command walk. */
  function RenderSpec(width: int, height: int, outlines: seq<RowOutline>, cmds: seq<Command>, style: Style): Result<seq<byte>>
    requires |outlines| == Rows(height)
  {
    if width * height < 0 then Err(RangeError)
    else if |outlines| == 0 then Err(NoOutline(0))
    else
      NonNegativeWidth(width, height);
      var body :- Paint(width, height, outlines, style, cmds, 0);
      Ok(Fit(Zeros(4 * OpenRow(width, outlines[0].left)) + body, width * height * 4))
  }

  // ---------------------------------------------------------------------
  // Properties of the specification

  /** Writing zeros at the cursor changes nothing in the array. */
  lemma FitZeros(s: seq<byte>, n: nat, len: nat)
    ensures Fit(s + Zeros(n), len) == Fit(s, len)
  {
  }

  /** Writing one byte at the cursor sets one array cell, or none past the end. */
  lemma FitPush(s: seq<byte>, v: byte, len: nat)
    ensures Fit(s + [v], len) == if |s| < len then Fit(s, len)[|s| := v] else Fit(s, len)
  {
  }

  /** Every colour, fill and player pixel is opaque, shadow pixels are
      (255, 0, 0, 255), skip pixels are zero, and outline pixels are black,
      opaque exactly when outlines are drawn. */
  lemma PixelConventions(width: nat, height: int, outlines: seq<RowOutline>, style: Style, c: Command, y: nat)
    requires PaintOne(width, height, outlines, style, c, y).Ok?
    ensures var s := PaintOne(width, height, outlines, style, c, y).value;
      |s| % 4 == 0 &&
      (c.Color? || c.Fill? || c.PlayerColor? || c.PlayerFill? || c.Shadow? ==>
         forall k :: 0 <= k < |s| && k % 4 == 3 ==> s[k] == 255) &&
      (c.Shadow? ==> forall k :: 0 <= k < |s| ==> s[k] == [255, 0, 0, 255][k % 4]) &&
      (c.Skip? || c.NextLine? ==> forall k :: 0 <= k < |s| ==> s[k] == 0) &&
      (c.Outline? ==> s == [0, 0, 0, if style.drawOutline then 255 else 0])
  {
  }

  /** Player pixels read the palette `16 * player` entries above their index. */
  lemma PlayerPixels(width: nat, height: int, outlines: seq<RowOutline>, style: Style, i: nat, y: nat)
    requires 0 <= i + 16 * style.player < |style.palette|
    ensures PaintOne(width, height, outlines, style, PlayerColor(i), y) ==
      Ok(PixelBytes(style.palette[i + 16 * style.player], 255))
  {
  }

  // ---------------------------------------------------------------------
  // The imperative renderer

  /** renderFrame from `createImageData` on: a fresh zeroed array of
      `width * height * 4` bytes, written through the cursor `idx`. */
  method RenderImage(width: int, height: int, outlines: seq<RowOutline>, cmds: seq<Command>, style: Style)
    returns (r: Result<array<byte>>)
    requires |outlines| == Rows(height)
    ensures r.Ok? <==> RenderSpec(width, height, outlines, cmds, style).Ok?
    ensures r.Ok? ==> fresh(r.value) && r.value[..] == RenderSpec(width, height, outlines, cmds, style).value
    ensures r.Err? ==> r.error == RenderSpec(width, height, outlines, cmds, style).error
  {
    if width * height < 0 {
      return Err(RangeError);
    }
    if |outlines| == 0 {
      return Err(NoOutline(0));
    }
    NonNegativeWidth(width, height);
    var len := width * height * 4;
    var pixels := new byte[len](_ => 0);
    ghost var opening := Zeros(4 * OpenRow(width, outlines[0].left));
    var idx := 0;
    idx := FillZero(pixels, idx, 4 * OpenRow(width, outlines[0].left), []);
    assert [] + opening == opening;
    FitZeros([], 4 * OpenRow(width, outlines[0].left), len);

    var walked := PaintAll(pixels, idx, width, height, outlines, style, cmds, opening);
    if walked.Err? {
      return Err(walked.error);
    }
    return Ok(pixels);
  }

  /** The command walk of src/SLP.js:240-289, writing after the bytes `opening`. */
  method PaintAll(pixels: array<byte>, idx: nat, width: nat, height: int, outlines: seq<RowOutline>,
                  style: Style, cmds: seq<Command>, ghost opening: seq<byte>) returns (r: Result<()>)
    requires idx == |opening| && pixels[..] == Fit(opening, pixels.Length)
    modifies pixels
    ensures r.Ok? <==> Paint(width, height, outlines, style, cmds, 0).Ok?
    ensures r.Err? ==> r.error == Paint(width, height, outlines, style, cmds, 0).error
    ensures r.Ok? ==> pixels[..] == Fit(opening + Paint(width, height, outlines, style, cmds, 0).value, pixels.Length)
  {
    ghost var written: seq<byte> := [];
    var cursor := idx;
    var y := 0;
    var i := 0;
    PrependNil(Paint(width, height, outlines, style, cmds, 0));
    assert opening + [] == opening;
    while i < |cmds|
      invariant 0 <= i <= |cmds|
      invariant cursor == |opening + written| && pixels[..] == Fit(opening + written, pixels.Length)
      invariant Paint(width, height, outlines, style, cmds, 0) ==
        Prepend(written, Paint(width, height, outlines, style, cmds[i..], y))
    {
      var head := PaintOne(width, height, outlines, style, cmds[i], y);
      if head.Err? {
        return Err(head.error);
      }
      cursor := PaintCommand(pixels, cursor, width, height, outlines, style, cmds[i], y, opening + written);
      PrependAssoc(written, head.value, Paint(width, height, outlines, style, cmds[i + 1..], if cmds[i].NextLine? then y + 1 else y));
      assert opening + written + head.value == opening + (written + head.value);
      written := written + head.value;
      if cmds[i].NextLine? {
        y := y + 1;
      }
      i := i + 1;
    }
    assert written + [] == written;
    return Ok(());
  }

  /** One command of the walk at src/SLP.js:241-288, for a command whose
      palette lookups succeed. */
  method PaintCommand(pixels: array<byte>, idx: nat, width: nat, height: int, outlines: seq<RowOutline>,
                      style: Style, c: Command, y: nat, ghost done: seq<byte>) returns (idx': nat)
    requires PaintOne(width, height, outlines, style, c, y).Ok?
    requires idx == |done| && pixels[..] == Fit(done, pixels.Length)
    modifies pixels
    ensures idx' == |done + PaintOne(width, height, outlines, style, c, y).value|
    ensures pixels[..] == Fit(done + PaintOne(width, height, outlines, style, c, y).value, pixels.Length)
  {
    match c {
      case Skip(n) =>
        idx' := FillZero(pixels, idx, 4 * n, done);
      case NextLine =>
        idx' := FillZero(pixels, idx, 4 * outlines[y].right, done);
        if y + 1 < height {
          idx' := FillZero(pixels, idx', 4 * OpenRow(width, outlines[y + 1].left), done + Zeros(4 * outlines[y].right));
          assert done + Zeros(4 * outlines[y].right) + Zeros(4 * OpenRow(width, outlines[y + 1].left))
              == done + (Zeros(4 * outlines[y].right) + Zeros(4 * OpenRow(width, outlines[y + 1].left)));
        }
      case Color(i) =>
        idx' := PushColor(pixels, idx, style.palette[i], 255, done);
      case Fill(n, i) =>
        if n == 0 {
          idx' := idx;
          assert done + [] == done;
        } else {
          idx' := PushColors(pixels, idx, style.palette[i], 255, n, done);
        }
      case Outline(_) =>
        idx' := PushColor(pixels, idx, BLACK, if style.drawOutline then 255 else 0, done);
      case PlayerColor(i) =>
        idx' := PushColor(pixels, idx, style.palette[i + 16 * style.player], 255, done);
      case PlayerFill(n, i) =>
        if n == 0 {
          idx' := idx;
          assert done + [] == done;
        } else {
          idx' := PushColors(pixels, idx, style.palette[i + 16 * style.player], 255, n, done);
        }
      case Shadow(n) =>
        idx' := PushColors(pixels, idx, SHADOW, 255, n, done);
    }
  }

  /** `fill(0, idx, idx + n)` followed by `idx += n`. */
  method FillZero(pixels: array<byte>, idx: nat, n: nat, ghost done: seq<byte>) returns (idx': nat)
    requires idx == |done| && pixels[..] == Fit(done, pixels.Length)
    modifies pixels
    ensures idx' == |done + Zeros(n)| && pixels[..] == Fit(done + Zeros(n), pixels.Length)
  {
    var k := idx;
    while k < idx + n && k < pixels.Length
      invariant idx <= k && pixels[..] == Fit(done, pixels.Length)
    {
      pixels[k] := 0;
      k := k + 1;
    }
    FitZeros(done, n, pixels.Length);
    idx' := idx + n;
  }

  /** pushColor (src/SLP.js:227-232): four bytes at the cursor; a write past
      the end of a typed array is dropped. */
  method PushColor(pixels: array<byte>, idx: nat, col: RGB, alpha: byte, ghost done: seq<byte>) returns (idx': nat)
    requires idx == |done| && pixels[..] == Fit(done, pixels.Length)
    modifies pixels
    ensures idx' == |done + PixelBytes(col, alpha)| && pixels[..] == Fit(done + PixelBytes(col, alpha), pixels.Length)
  {
    idx' := PushByte(pixels, idx, col.r, done);
    idx' := PushByte(pixels, idx', col.g, done + [col.r]);
    idx' := PushByte(pixels, idx', col.b, done + [col.r, col.g]);
    idx' := PushByte(pixels, idx', alpha, done + [col.r, col.g, col.b]);
    assert done + [col.r, col.g] == done + [col.r] + [col.g];
    assert done + [col.r, col.g, col.b] == done + [col.r, col.g] + [col.b];
    assert done + PixelBytes(col, alpha) == done + [col.r, col.g, col.b] + [alpha];
  }

  /** `while (i--) pushColor(color, alpha)`. */
  method PushColors(pixels: array<byte>, idx: nat, col: RGB, alpha: byte, n: nat, ghost done: seq<byte>) returns (idx': nat)
    requires idx == |done| && pixels[..] == Fit(done, pixels.Length)
    modifies pixels
    ensures idx' == |done + RepeatPixel(col, alpha, n)| && pixels[..] == Fit(done + RepeatPixel(col, alpha, n), pixels.Length)
  {
    idx' := idx;
    var i: nat := n;
    while i > 0
      invariant i <= n
      invariant idx' == |done + RepeatPixel(col, alpha, n - i)|
      invariant pixels[..] == Fit(done + RepeatPixel(col, alpha, n - i), pixels.Length)
    {
      idx' := PushColor(pixels, idx', col, alpha, done + RepeatPixel(col, alpha, n - i));
      assert done + RepeatPixel(col, alpha, n - i) + PixelBytes(col, alpha) == done + RepeatPixel(col, alpha, n - i + 1);
      i := i - 1;
    }
  }

  /** `pixels[idx++] = v`. */
  method PushByte(pixels: array<byte>, idx: nat, v: byte, ghost done: seq<byte>) returns (idx': nat)
    requires idx == |done| && pixels[..] == Fit(done, pixels.Length)
    modifies pixels
    ensures idx' == idx + 1 && pixels[..] == Fit(done + [v], pixels.Length)
  {
    FitPush(done, v, pixels.Length);
    if idx < pixels.Length {
      pixels[idx] := v;
    }
    idx' := idx + 1;
  }
}
