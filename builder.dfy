/** The command builder of the encoder: `pixelsToRenderCommands`
    (src/SLPEncoder.js:82-129) and the colour table the `SLPEncoder`
    constructor builds for it (src/SLPEncoder.js:72-77).  One greedy pass over
    RGBA pixels turns transparent pixels into skips and repeated colours into
    fills, starting a new row every `width` pixels. */
module CommandBuilder {
  import opened SlpTypes

  // ---------------------------------------------------------------------
  // Colour keys and the colour table

  /** The key `(r << 16) + (g << 8) + b` of a colour. */
  function Pack(c: RGB): (p: nat)
    ensures p < 0x100_0000
  {
    c.r * 0x1_0000 + c.g * 0x100 + c.b
  }

  /** The colour a key stands for. */
  function Unpack(p: nat): (c: RGB)
    requires p < 0x100_0000
  {
    RGB(p / 0x1_0000, p / 0x100 % 0x100, p % 0x100)
  }

  /** No two colours share a key. */
  lemma UnpackPack(c: RGB)
    ensures Unpack(Pack(c)) == c
  {
    var p := Pack(c);
    assert p == (c.r * 0x100 + c.g) * 0x100 + c.b;
    assert p / 0x100 == c.r * 0x100 + c.g;
  }

  lemma PackInjective(a: RGB, b: RGB)
    ensures Pack(a) == Pack(b) <==> a == b
  {
    UnpackPack(a);
    UnpackPack(b);
  }

  /** The key of a pixel's colour channels. */
  function Key(px: Pixel): nat {
    Pack(RGB(px.r, px.g, px.b))
  }

  /** `colorIndices`: each palette colour's key mapped to its index, a later
      index overwriting an earlier one. */
  function ColorIndices(palette: seq<RGB>): (m: map<nat, nat>)
    ensures forall c :: c in m ==> m[c] < |palette| && Pack(palette[m[c]]) == c
    ensures forall i :: 0 <= i < |palette| ==> Pack(palette[i]) in m
  {
    if palette == [] then map[]
    else ColorIndices(palette[..|palette| - 1])[Pack(palette[|palette| - 1]) := |palette| - 1]
  }

  /** A colour the palette lists more than once maps to its last index. */
  lemma {:induction false} LaterIndexWins(palette: seq<RGB>, i: nat)
    requires i < |palette|
    ensures i <= ColorIndices(palette)[Pack(palette[i])]
    ensures forall j :: ColorIndices(palette)[Pack(palette[i])] < j < |palette| ==> palette[j] != palette[i]
  {
    var n := |palette| - 1;
    var key := Pack(palette[i]);
    if palette[n] == palette[i] {
      assert ColorIndices(palette)[key] == n;
    } else {
      PackInjective(palette[n], palette[i]);
      var m := ColorIndices(palette[..n]);
      assert ColorIndices(palette)[key] == m[key];
      assert palette[..n][i] == palette[i];
      LaterIndexWins(palette[..n], i);
      forall j | m[key] < j < |palette|
        ensures palette[j] != palette[i]
      {
        if j < n {
          assert palette[..n][j] == palette[j];
        }
      }
    }
  }

  /** Looking a listed colour up gives back an index of that very colour. */
  lemma LookupColor(palette: seq<RGB>, c: RGB)
    requires c in palette
    ensures Pack(c) in ColorIndices(palette) && palette[ColorIndices(palette)[Pack(c)]] == c
  {
    var i :| 0 <= i < |palette| && palette[i] == c;
    PackInjective(palette[ColorIndices(palette)[Pack(c)]], c);
  }

  /** The palette lookup of an opaque pixel.  As written (`!index`), index 0
      counts as missing; corrected, only an absent key does. */
  function Lookup(variant: Variant, indices: map<nat, nat>, px: Pixel): (r: Result<nat>)
    ensures r.Ok? <==> Key(px) in indices && (variant.AsWritten? ==> indices[Key(px)] != 0)
    ensures r.Ok? ==> r.value == indices[Key(px)]
    ensures r.Err? ==> r.error == MissingColor(px.r, px.g, px.b)
  {
    var key := Key(px);
    if key !in indices || (variant.AsWritten? && indices[key] == 0) then Err(MissingColor(px.r, px.g, px.b))
    else Ok(indices[key])
  }

  // ---------------------------------------------------------------------
  // What commands draw

  /** One pixel as the builder sees it. */
  datatype Cell = Clear | Ink(index: nat) | Other

  /** The cell a pixel should become. */
  function CellOf(indices: map<nat, nat>, px: Pixel): Cell {
    if px.a == 0 then Clear
    else if Key(px) in indices then Ink(indices[Key(px)])
    else Other
  }

  /** The cells one command covers; a NextLine covers none. */
  function Cells(c: Command): seq<Cell> {
    match c
    case NextLine => []
    case Skip(n) => Repeat(Clear, n)
    case Color(i) => [Ink(i)]
    case Fill(n, i) => Repeat(Ink(i), n)
    case PlayerColor(_) => [Other]
    case PlayerFill(n, _) => Repeat(Other, n)
    case Shadow(n) => Repeat(Other, n)
    case Outline(_) => [Other]
  }

  /** The cells a command list covers, in order. */
  function Expand(cmds: seq<Command>): seq<Cell> {
    if cmds == [] then [] else Expand(cmds[..|cmds| - 1]) + Cells(cmds[|cmds| - 1])
  }

  lemma {:induction false} ExpandAppend(a: seq<Command>, b: seq<Command>)
    ensures Expand(a + b) == Expand(a) + Expand(b)
    decreases |b|
  {
    if b == [] {
      assert a + b == a;
    } else {
      var init := b[..|b| - 1];
      assert (a + b)[..|a + b| - 1] == a + init;
      assert (a + b)[|a + b| - 1] == b[|b| - 1];
      ExpandAppend(a, init);
      AppendAssoc(Expand(a), Expand(init), Cells(b[|b| - 1]));
    }
  }

  /** The commands a row may hold as the builder writes it: skips, colours and
      fills, each covering at least one pixel. */
  predicate RowCommand(c: Command) {
    (c.Skip? && c.count >= 1) || c.Color? || (c.Fill? && c.count >= 2)
  }

  // ---------------------------------------------------------------------
  // The pass

  /** Before pixel `k` a new row starts when `k` is a positive multiple of
      the width; a zero width (`k % 0` is NaN) never starts one. */
  predicate RowBreak(k: nat, width: int) {
    k > 0 && width != 0 && k % Abs(width) == 0
  }

  /** The last command, which `prevCommand` and `prevArg` mirror. */
  function Last(cmds: seq<Command>): Option<Command> {
    if cmds == [] then None else Some(cmds[|cmds| - 1])
  }

  /** A transparent pixel: extend the last skip, or start `Skip(1)`. */
  function AddSkip(cmds: seq<Command>): seq<Command> {
    if Last(cmds).Some? && Last(cmds).value.Skip? then cmds[..|cmds| - 1] + [Skip(Last(cmds).value.count + 1)]
    else cmds + [Skip(1)]
  }

  /** An opaque pixel of palette index `i`: extend a fill of `i`, turn a
      colour `i` into a fill of two, or push a colour. */
  function AddColor(cmds: seq<Command>, i: nat): seq<Command> {
    if Last(cmds).Some? && Last(cmds).value.Fill? && Last(cmds).value.color == i then
      cmds[..|cmds| - 1] + [Fill(Last(cmds).value.count + 1, i)]
    else if Last(cmds) == Some(Color(i)) then cmds[..|cmds| - 1] + [Fill(2, i)]
    else cmds + [Color(i)]
  }

  /** One pixel added to the command list, inside a row.  It touches only the
      last command, and the list covers exactly one more cell: the pixel's. */
  function Absorb(variant: Variant, indices: map<nat, nat>, cmds: seq<Command>, px: Pixel): (r: Result<seq<Command>>)
    ensures r.Ok? <==> px.a == 0 || Lookup(variant, indices, px).Ok?
    ensures r.Err? ==> r.error == MissingColor(px.r, px.g, px.b)
    ensures r.Ok? ==> |r.value| > 0
    ensures r.Ok? ==> (r.value[..|r.value| - 1] == cmds) ||
                      (cmds != [] && r.value[..|r.value| - 1] == cmds[..|cmds| - 1])
  {
    if px.a == 0 then
      var s := AddSkip(cmds);
      assert s[..|s| - 1] == cmds || s[..|s| - 1] == cmds[..|cmds| - 1];
      Ok(s)
    else
      var i :- Lookup(variant, indices, px);
      var s := AddColor(cmds, i);
      assert s[..|s| - 1] == cmds || s[..|s| - 1] == cmds[..|cmds| - 1];
      Ok(s)
  }

  /** The pass from pixel `k` on, with `cmds` built so far.  It fails exactly
      when some opaque pixel from `k` on has no palette index. */
  function BuildFrom(variant: Variant, indices: map<nat, nat>, width: int, pixels: seq<Pixel>, k: nat, cmds: seq<Command>)
    : (r: Result<seq<Command>>)
    requires k <= |pixels|
    ensures r.Ok? <==> forall j :: k <= j < |pixels| ==> pixels[j].a == 0 || Lookup(variant, indices, pixels[j]).Ok?
    ensures r.Err? ==> r.error.MissingColor?
    decreases |pixels| - k
  {
    if k == |pixels| then Ok(cmds)
    else
      var started := if RowBreak(k, width) then cmds + [NextLine] else cmds;
      var next :- Absorb(variant, indices, started, pixels[k]);
      BuildFrom(variant, indices, width, pixels, k + 1, next)
  }

  /** pixelsToRenderCommands as a function of the colour table, the pixels
      and the width. */
  function Build(variant: Variant, indices: map<nat, nat>, pixels: seq<Pixel>, width: int): Result<seq<Command>> {
    BuildFrom(variant, indices, width, pixels, 0, [])
  }

  // ---------------------------------------------------------------------
  // Properties of the pass

  /** No two skips are adjacent, and no colour directly follows a colour or
      fill of the same index. */
  predicate WellBuilt(cmds: seq<Command>) {
    (forall i :: 0 <= i < |cmds| ==> cmds[i].NextLine? || RowCommand(cmds[i])) &&
    (forall i :: 0 < i < |cmds| ==> !(cmds[i - 1].Skip? && cmds[i].Skip?)) &&
    (forall i :: 0 < i < |cmds| && cmds[i].Color? ==> !SameInk(cmds[i - 1], cmds[i].index))
  }

  predicate SameInk(c: Command, i: nat) {
    (c.Color? && c.index == i) || (c.Fill? && c.color == i)
  }

  /** The cells the pixels should become. */
  function PixelCells(indices: map<nat, nat>, pixels: seq<Pixel>): (cells: seq<Cell>)
    ensures |cells| == |pixels|
  {
    seq(|pixels|, j requires 0 <= j < |pixels| => CellOf(indices, pixels[j]))
  }

  /** Absorbing a pixel adds exactly that pixel's cell. */
  lemma AbsorbCells(variant: Variant, indices: map<nat, nat>, cmds: seq<Command>, px: Pixel)
    requires Absorb(variant, indices, cmds, px).Ok?
    ensures Expand(Absorb(variant, indices, cmds, px).value) == Expand(cmds) + [CellOf(indices, px)]
  {
    if px.a == 0 {
      AddSkipCells(cmds);
    } else {
      AddColorCells(cmds, Lookup(variant, indices, px).value);
    }
  }

  lemma AddSkipCells(cmds: seq<Command>)
    ensures Expand(AddSkip(cmds)) == Expand(cmds) + [Clear]
  {
    var n := |cmds|;
    if Last(cmds).Some? && Last(cmds).value.Skip? {
      var k := cmds[n - 1].count;
      GrowLast(cmds, Skip(k + 1), Clear);
    } else {
      ExpandLast(cmds, Skip(1));
    }
  }

  lemma AddColorCells(cmds: seq<Command>, i: nat)
    ensures Expand(AddColor(cmds, i)) == Expand(cmds) + [Ink(i)]
  {
    var n := |cmds|;
    if Last(cmds).Some? && Last(cmds).value.Fill? && Last(cmds).value.color == i {
      GrowLast(cmds, Fill(cmds[n - 1].count + 1, i), Ink(i));
    } else if Last(cmds) == Some(Color(i)) {
      GrowLast(cmds, Fill(2, i), Ink(i));
    } else {
      ExpandLast(cmds, Color(i));
    }
  }

  /** Replacing the last command by one that covers one more cell `x`. */
  lemma GrowLast(cmds: seq<Command>, c: Command, x: Cell)
    requires cmds != [] && Cells(c) == Cells(cmds[|cmds| - 1]) + [x]
    ensures Expand(cmds[..|cmds| - 1] + [c]) == Expand(cmds) + [x]
  {
    var init := cmds[..|cmds| - 1];
    ExpandLast(init, c);
    AppendAssoc(Expand(init), Cells(cmds[|cmds| - 1]), [x]);
  }

  lemma ExpandLast(cmds: seq<Command>, c: Command)
    ensures Expand(cmds + [c]) == Expand(cmds) + Cells(c)
  {
    assert (cmds + [c])[..|cmds|] == cmds;
  }

  /** Absorbing a pixel never adds a NextLine and keeps the list well built. */
  lemma AbsorbKeepsShape(variant: Variant, indices: map<nat, nat>, cmds: seq<Command>, px: Pixel)
    requires Absorb(variant, indices, cmds, px).Ok?
    ensures var s := Absorb(variant, indices, cmds, px).value;
      (NextLine !in cmds ==> NextLine !in s) && (WellBuilt(cmds) ==> WellBuilt(s))
  {
    var s := Absorb(variant, indices, cmds, px).value;
    var n := |cmds|;
    if px.a == 0 {
      if Last(cmds).Some? && Last(cmds).value.Skip? {
        assert s == cmds[..n - 1] + [Skip(cmds[n - 1].count + 1)];
      } else {
        assert s == cmds + [Skip(1)];
      }
    } else {
      var i := Lookup(variant, indices, px).value;
      if Last(cmds).Some? && Last(cmds).value.Fill? && Last(cmds).value.color == i {
        assert s == cmds[..n - 1] + [Fill(cmds[n - 1].count + 1, i)];
      } else if Last(cmds) == Some(Color(i)) {
        assert s == cmds[..n - 1] + [Fill(2, i)];
      } else {
        assert s == cmds + [Color(i)];
      }
    }
  }

  /** The pass over a row's pixels from a given list. */
  function AbsorbAll(variant: Variant, indices: map<nat, nat>, cmds: seq<Command>, pxs: seq<Pixel>): (r: Result<seq<Command>>)
    ensures r.Ok? <==> forall j :: 0 <= j < |pxs| ==> pxs[j].a == 0 || Lookup(variant, indices, pxs[j]).Ok?
    decreases |pxs|
  {
    if pxs == [] then Ok(cmds)
    else
      var next :- Absorb(variant, indices, cmds, pxs[0]);
      AbsorbAll(variant, indices, next, pxs[1..])
  }

  /** The commands of one row, built from an empty list. */
  function BuildRow(variant: Variant, indices: map<nat, nat>, row: seq<Pixel>): Result<seq<Command>> {
    AbsorbAll(variant, indices, [], row)
  }

  /** The pass over a row's pixels adds exactly their cells. */
  lemma {:induction false} AbsorbAllCells(variant: Variant, indices: map<nat, nat>, cmds: seq<Command>, pxs: seq<Pixel>)
    requires AbsorbAll(variant, indices, cmds, pxs).Ok?
    ensures Expand(AbsorbAll(variant, indices, cmds, pxs).value) == Expand(cmds) + PixelCells(indices, pxs)
    decreases |pxs|
  {
    if pxs == [] {
      assert Expand(cmds) + PixelCells(indices, pxs) == Expand(cmds);
    } else {
      var next := Absorb(variant, indices, cmds, pxs[0]).value;
      AbsorbCells(variant, indices, cmds, pxs[0]);
      AbsorbAllCells(variant, indices, next, pxs[1..]);
      PixelCellsCons(indices, pxs, 0);
      assert pxs[0..] == pxs;
      AppendAssoc(Expand(cmds), [CellOf(indices, pxs[0])], PixelCells(indices, pxs[1..]));
    }
  }

  /** The pass over a row's pixels adds no NextLine and keeps the list well
      built. */
  lemma {:induction false} AbsorbAllShape(variant: Variant, indices: map<nat, nat>, cmds: seq<Command>, pxs: seq<Pixel>)
    requires AbsorbAll(variant, indices, cmds, pxs).Ok?
    ensures var s := AbsorbAll(variant, indices, cmds, pxs).value;
      (NextLine !in cmds ==> NextLine !in s) && (WellBuilt(cmds) ==> WellBuilt(s))
    decreases |pxs|
  {
    if pxs != [] {
      var next := Absorb(variant, indices, cmds, pxs[0]).value;
      AbsorbKeepsShape(variant, indices, cmds, pxs[0]);
      AbsorbAllShape(variant, indices, next, pxs[1..]);
    }
  }

  /** A row as the pass writes it: no NextLine, skips, colours and fills that
      cover one cell per pixel of the row, no two skips side by side, every
      fill of at least two pixels, and no colour repeating the index of the
      command before it. */
  lemma RowShape(variant: Variant, indices: map<nat, nat>, row: seq<Pixel>)
    requires BuildRow(variant, indices, row).Ok?
    ensures var cmds := BuildRow(variant, indices, row).value;
      NextLine !in cmds && WellBuilt(cmds) && Expand(cmds) == PixelCells(indices, row)
  {
    AbsorbAllCells(variant, indices, [], row);
    AbsorbAllShape(variant, indices, [], row);
    assert [] + PixelCells(indices, row) == PixelCells(indices, row);
  }

  /** Absorbing looks only at the last command. */
  lemma AbsorbFrame(variant: Variant, indices: map<nat, nat>, p: seq<Command>, q: seq<Command>, px: Pixel)
    requires q != [] || Last(p) == Some(NextLine) || p == []
    ensures Absorb(variant, indices, p + q, px) == Prepend(p, Absorb(variant, indices, q, px))
  {
    var pq := p + q;
    if q != [] {
      assert Last(pq) == Last(q);
      assert pq[..|pq| - 1] == p + q[..|q| - 1];
    } else {
      assert pq == p + q && p + q == p;
    }
    if Absorb(variant, indices, q, px).Ok? {
      var s := Absorb(variant, indices, q, px).value;
      if q != [] {
        assert s == AddSkip(q) || s == AddColor(q, Lookup(variant, indices, px).value);
        if px.a == 0 {
          if Last(q).value.Skip? {
            assert p + (q[..|q| - 1] + [Skip(Last(q).value.count + 1)]) == (p + q[..|q| - 1]) + [Skip(Last(q).value.count + 1)];
          } else {
            assert p + (q + [Skip(1)]) == p + q + [Skip(1)];
          }
        } else {
          var i := Lookup(variant, indices, px).value;
          if Last(q).value.Fill? && Last(q).value.color == i {
            assert p + (q[..|q| - 1] + [Fill(Last(q).value.count + 1, i)]) == (p + q[..|q| - 1]) + [Fill(Last(q).value.count + 1, i)];
          } else if Last(q) == Some(Color(i)) {
            assert p + (q[..|q| - 1] + [Fill(2, i)]) == (p + q[..|q| - 1]) + [Fill(2, i)];
          } else {
            assert p + (q + [Color(i)]) == p + q + [Color(i)];
          }
        }
      }
    }
  }

  lemma {:induction false} AbsorbAllFrame(variant: Variant, indices: map<nat, nat>, p: seq<Command>, q: seq<Command>, pxs: seq<Pixel>)
    requires q != [] || Last(p) == Some(NextLine) || p == []
    ensures AbsorbAll(variant, indices, p + q, pxs) == Prepend(p, AbsorbAll(variant, indices, q, pxs))
    decreases |pxs|
  {
    if pxs != [] {
      AbsorbFrame(variant, indices, p, q, pxs[0]);
      var r := Absorb(variant, indices, q, pxs[0]);
      if r.Ok? {
        AbsorbAllFrame(variant, indices, p, r.value, pxs[1..]);
      }
    }
  }

  /** The pass across a stretch of pixels with no row start after its first
      pixel is the row pass over that stretch. */
  lemma {:induction false} BuildFromSpan(variant: Variant, indices: map<nat, nat>, width: int, pixels: seq<Pixel>,
                                         k: nat, end: nat, cmds: seq<Command>)
    requires k < end <= |pixels|
    requires forall j :: k < j < end ==> !RowBreak(j, width)
    ensures BuildFrom(variant, indices, width, pixels, k, cmds) ==
      match AbsorbAll(variant, indices, if RowBreak(k, width) then cmds + [NextLine] else cmds, pixels[k..end])
      case Ok(d) => BuildFrom(variant, indices, width, pixels, end, d)
      case Err(e) => Err(e)
    decreases end - k
  {
    var started := if RowBreak(k, width) then cmds + [NextLine] else cmds;
    assert pixels[k..end][0] == pixels[k] && pixels[k..end][1..] == pixels[k + 1..end];
    var r := Absorb(variant, indices, started, pixels[k]);
    if r.Ok? && k + 1 < end {
      BuildFromSpan(variant, indices, width, pixels, k + 1, end, r.value);
    }
  }

  lemma RowIndex(w: nat, r: nat, i: nat)
    requires i < w
    ensures (r * w + i) % w == i && (r * w + i) / w == r
  {
    var n := r * w + i;
    var q, m := n / w, n % w;
    assert n == q * w + m;
    assert (r - q) * w == m - i;
    if r > q {
      assert (r - q) * w >= w by { MulAtLeast(r - q, w); }
    } else if r < q {
      assert (q - r) * w >= w by { MulAtLeast(q - r, w); }
    }
  }

  lemma MulAtLeast(a: int, w: nat)
    requires a >= 1
    ensures a * w >= w
  {
  }

  /** Where a row of a `w`-wide image starts: a row break at its first pixel
      (unless it is the first row), none inside it, and one at the next row's
      first pixel. */
  lemma RowBreaksAt(w: nat, start: nat)
    requires w > 0 && start % w == 0
    ensures start > 0 ==> RowBreak(start, w)
    ensures forall j :: start < j < start + w ==> !RowBreak(j, w)
    ensures RowBreak(start + w, w) && (start + w) % w == 0
  {
    var q := start / w;
    assert start == q * w;
    forall j | start < j < start + w
      ensures !RowBreak(j, w)
    {
      RowIndex(w, q, j - start);
    }
    RowIndex(w, q + 1, 0);
    assert (q + 1) * w == start + w;
  }

  /** An image given row by row, every row `w` pixels wide. */
  predicate Rectangular(image: seq<seq<Pixel>>, w: nat) {
    forall r :: 0 <= r < |image| ==> |image[r]| == w
  }

  /** The rows laid end to end: the order of the RGBA pixel array. */
  function Flatten(image: seq<seq<Pixel>>): seq<Pixel> {
    if image == [] then [] else image[0] + Flatten(image[1..])
  }

  lemma {:induction false} FlattenSize(image: seq<seq<Pixel>>, w: nat)
    requires Rectangular(image, w)
    ensures |Flatten(image)| == w * |image|
    decreases |image|
  {
    if image != [] {
      FlattenSize(image[1..], w);
      assert w * |image| == w + w * |image[1..]|;
    }
  }

  /** Every opaque pixel has a palette index. */
  predicate Inked(variant: Variant, indices: map<nat, nat>, pxs: seq<Pixel>) {
    forall j :: 0 <= j < |pxs| ==> pxs[j].a == 0 || Lookup(variant, indices, pxs[j]).Ok?
  }

  lemma {:induction false} InkedFlatten(variant: Variant, indices: map<nat, nat>, image: seq<seq<Pixel>>)
    ensures Inked(variant, indices, Flatten(image)) <==> forall r :: 0 <= r < |image| ==> Inked(variant, indices, image[r])
    decreases |image|
  {
    if image != [] {
      InkedFlatten(variant, indices, image[1..]);
      InkedAppend(variant, indices, image[0], Flatten(image[1..]));
      assert forall r :: 0 < r < |image| ==> image[r] == image[1..][r - 1];
    }
  }

  lemma InkedAppend(variant: Variant, indices: map<nat, nat>, a: seq<Pixel>, b: seq<Pixel>)
    ensures Inked(variant, indices, a + b) <==> Inked(variant, indices, a) && Inked(variant, indices, b)
  {
    assert forall j :: 0 <= j < |a| ==> (a + b)[j] == a[j];
    assert forall j :: |a| <= j < |a + b| ==> (a + b)[j] == b[j - |a|];
    if Inked(variant, indices, a + b) {
      forall j | 0 <= j < |b|
        ensures b[j].a == 0 || Lookup(variant, indices, b[j]).Ok?
      {
        assert (a + b)[|a| + j] == b[j];
      }
    }
  }

  /** Every row builds. */
  predicate RowsBuild(variant: Variant, indices: map<nat, nat>, image: seq<seq<Pixel>>) {
    forall r :: 0 <= r < |image| ==> BuildRow(variant, indices, image[r]).Ok?
  }

  /** The commands each row builds to. */
  function RowCommands(variant: Variant, indices: map<nat, nat>, image: seq<seq<Pixel>>): (rows: seq<seq<Command>>)
    requires RowsBuild(variant, indices, image)
    ensures |rows| == |image|
    ensures forall r :: 0 <= r < |image| ==> BuildRow(variant, indices, image[r]) == Ok(rows[r])
  {
    if image == [] then []
    else [BuildRow(variant, indices, image[0]).value] + RowCommands(variant, indices, image[1..])
  }

  /** One row of the pass: from the row's first pixel to the next row's. */
  lemma BuildRowStep(variant: Variant, indices: map<nat, nat>, pixels: seq<Pixel>, w: nat, start: nat,
                     done: seq<Command>, row: seq<Command>)
    requires w > 0 && start + w <= |pixels|
    requires BuildRow(variant, indices, pixels[start..start + w]) == Ok(row)
    requires start == 0 ==> done == [] && !RowBreak(start, w)
    requires start > 0 ==> RowBreak(start, w)
    requires forall j :: start < j < start + w ==> !RowBreak(j, w)
    ensures BuildFrom(variant, indices, w, pixels, start, done) ==
            BuildFrom(variant, indices, w, pixels, start + w, if start == 0 then row else done + [NextLine] + row)
  {
    var newRow := RowBreak(start, w);
    assert newRow <==> start > 0;
    RowSpanAbsorbs(variant, indices, pixels[start..start + w], newRow, done, row);
    BuildFromSpan(variant, indices, w, pixels, start, start + w, done);
  }

  /** The row pass over a row's pixels, after the commands so far and the
      NextLine that opens every row but the first. */
  lemma RowSpanAbsorbs(variant: Variant, indices: map<nat, nat>, span: seq<Pixel>, newRow: bool,
                       done: seq<Command>, row: seq<Command>)
    requires BuildRow(variant, indices, span) == Ok(row)
    requires !newRow ==> done == []
    ensures AbsorbAll(variant, indices, if newRow then done + [NextLine] else done, span) ==
            Ok(if newRow then done + [NextLine] + row else row)
  {
    if newRow {
      AbsorbAllFrame(variant, indices, done + [NextLine], [], span);
      assert done + [NextLine] + [] == done + [NextLine];
    }
  }

  /** From the first pixel of a row after the first, the pass appends each
      remaining row opened by a NextLine. */
  lemma {:induction false} BuildRowsFrom(variant: Variant, indices: map<nat, nat>, w: nat, pixels: seq<Pixel>,
                                         start: nat, image: seq<seq<Pixel>>, done: seq<Command>)
    requires w > 0 && start > 0 && start % w == 0
    requires start <= |pixels| && pixels[start..] == Flatten(image)
    requires Rectangular(image, w) && RowsBuild(variant, indices, image)
    ensures BuildFrom(variant, indices, w, pixels, start, done) == Ok(done + Lines(RowCommands(variant, indices, image)))
    decreases |image|
  {
    if image == [] {
      assert done + [] == done;
    } else {
      var rows := RowCommands(variant, indices, image);
      var row := rows[0];
      RowsTail(variant, indices, w, image);
      FlattenRows(pixels, w, start, image);
      assert pixels[start..start + w] == image[0];
      LaterRowStep(variant, indices, w, pixels, start, done, row);
      BuildRowsFrom(variant, indices, w, pixels, start + w, image[1..], done + [NextLine] + row);
      LinesCons(done, rows);
    }
  }

  /** The pass over a row after the first opens it with a NextLine and stops
      at the next row. */
  lemma LaterRowStep(variant: Variant, indices: map<nat, nat>, w: nat, pixels: seq<Pixel>, start: nat,
                     done: seq<Command>, row: seq<Command>)
    requires w > 0 && start > 0 && start % w == 0 && start + w <= |pixels|
    requires BuildRow(variant, indices, pixels[start..start + w]) == Ok(row)
    ensures (start + w) % w == 0
    ensures BuildFrom(variant, indices, w, pixels, start, done) ==
            BuildFrom(variant, indices, w, pixels, start + w, done + [NextLine] + row)
  {
    RowBreaksAt(w, start);
    BuildRowStep(variant, indices, pixels, w, start, done, row);
  }

  /** The pass over the first row stops at the second with that row's
      commands. */
  lemma BuildFirstRow(variant: Variant, indices: map<nat, nat>, w: nat, pixels: seq<Pixel>, row: seq<Command>)
    requires 0 < w <= |pixels| && BuildRow(variant, indices, pixels[..w]) == Ok(row)
    ensures BuildFrom(variant, indices, w, pixels, 0, []) == BuildFrom(variant, indices, w, pixels, w, row)
  {
    assert pixels[0..0 + w] == pixels[..w];
    RowBreaksAt(w, 0);
    BuildRowStep(variant, indices, pixels, w, 0, [], row);
  }

  /** From the second row on, the pass appends the other rows opened by
      NextLines. */
  lemma BuildLaterRows(variant: Variant, indices: map<nat, nat>, w: nat, pixels: seq<Pixel>, image: seq<seq<Pixel>>,
                       row: seq<Command>)
    requires w > 0 && image != [] && pixels == Flatten(image)
    requires Rectangular(image, w) && RowsBuild(variant, indices, image)
    ensures BuildFrom(variant, indices, w, pixels, w, row) ==
            Ok(row + Lines(RowCommands(variant, indices, image[1..])))
  {
    assert pixels[0..] == pixels;
    FlattenRows(pixels, w, 0, image);
    RowsTail(variant, indices, w, image);
    RowBreaksAt(w, 0);
    BuildRowsFrom(variant, indices, w, pixels, w, image[1..], row);
  }

  /** The rows after the first keep the shape and build to the rest of the
      rows' commands. */
  lemma RowsTail(variant: Variant, indices: map<nat, nat>, w: nat, image: seq<seq<Pixel>>)
    requires image != [] && Rectangular(image, w) && RowsBuild(variant, indices, image)
    ensures Rectangular(image[1..], w) && RowsBuild(variant, indices, image[1..])
    ensures |image[0]| == w && BuildRow(variant, indices, image[0]) == Ok(RowCommands(variant, indices, image)[0])
    ensures RowCommands(variant, indices, image)[1..] == RowCommands(variant, indices, image[1..])
  { }

  /** The first row of an image sits at `start`, the rest after it. */
  lemma FlattenRows(pixels: seq<Pixel>, w: nat, start: nat, image: seq<seq<Pixel>>)
    requires image != [] && Rectangular(image, w)
    requires start <= |pixels| && pixels[start..] == Flatten(image)
    ensures start + w <= |pixels| && pixels[start..start + w] == image[0]
    ensures pixels[start + w..] == Flatten(image[1..])
  {
    assert pixels[start..] == image[0] + Flatten(image[1..]);
  }

  /** Appending a row opened by a NextLine, then the rest. */
  lemma LinesCons(done: seq<Command>, rows: seq<seq<Command>>)
    requires rows != []
    ensures done + [NextLine] + rows[0] + Lines(rows[1..]) == done + Lines(rows)
  {
    AppendAssoc(done, [NextLine], rows[0]);
    AppendAssoc(done, [NextLine] + rows[0], Lines(rows[1..]));
  }

  /** A `w`-wide image is built row by row: before pixel k a NextLine is
      pushed exactly when k is a positive multiple of `w`, so the list is the
      rows' commands joined by NextLines, one fewer than there are rows, and
      the pass succeeds exactly when every row does. */
  lemma BuildByRows(variant: Variant, indices: map<nat, nat>, w: nat, image: seq<seq<Pixel>>)
    requires w > 0 && Rectangular(image, w)
    ensures Build(variant, indices, Flatten(image), w).Ok? <==> RowsBuild(variant, indices, image)
    ensures Build(variant, indices, Flatten(image), w).Ok? ==>
      Build(variant, indices, Flatten(image), w).value == JoinRows(RowCommands(variant, indices, image)) &&
      CountNextLines(Build(variant, indices, Flatten(image), w).value) == if image == [] then 0 else |image| - 1
  {
    InkedFlatten(variant, indices, image);
    if RowsBuild(variant, indices, image) {
      var rows := RowCommands(variant, indices, image);
      if image != [] {
        var row := rows[0];
        assert Flatten(image)[0..] == Flatten(image);
        FlattenRows(Flatten(image), w, 0, image);
        assert Flatten(image)[..w] == image[0];
        BuildFirstRow(variant, indices, w, Flatten(image), row);
        BuildLaterRows(variant, indices, w, Flatten(image), image, row);
        RowsTail(variant, indices, w, image);
      }
      forall r | 0 <= r < |image|
        ensures NextLine !in rows[r]
      {
        RowShape(variant, indices, image[r]);
      }
      JoinRowsNextLines(rows);
    }
  }

  /** The command list covers one cell per pixel, in pixel order. */
  lemma {:induction false} BuildFromCells(variant: Variant, indices: map<nat, nat>, width: int, pixels: seq<Pixel>, k: nat, cmds: seq<Command>)
    requires k <= |pixels| && BuildFrom(variant, indices, width, pixels, k, cmds).Ok?
    ensures Expand(BuildFrom(variant, indices, width, pixels, k, cmds).value) == Expand(cmds) + PixelCells(indices, pixels[k..])
    decreases |pixels| - k
  {
    if k == |pixels| {
      assert PixelCells(indices, pixels[k..]) == [];
    } else {
      var started := if RowBreak(k, width) then cmds + [NextLine] else cmds;
      assert Expand(started) == Expand(cmds) by {
        if RowBreak(k, width) {
          ExpandLast(cmds, NextLine);
          assert Expand(cmds) + [] == Expand(cmds);
        }
      }
      var next := Absorb(variant, indices, started, pixels[k]).value;
      var whole := BuildFrom(variant, indices, width, pixels, k + 1, next).value;
      assert BuildFrom(variant, indices, width, pixels, k, cmds).value == whole;
      AbsorbCells(variant, indices, started, pixels[k]);
      BuildFromCells(variant, indices, width, pixels, k + 1, next);
      PixelCellsCons(indices, pixels, k);
      var e, c, rest := Expand(cmds), CellOf(indices, pixels[k]), PixelCells(indices, pixels[k + 1..]);
      assert Expand(whole) == (e + [c]) + rest;
      AppendAssoc(e, [c], rest);
    }
  }

  lemma PixelCellsCons(indices: map<nat, nat>, pixels: seq<Pixel>, k: nat)
    requires k < |pixels|
    ensures PixelCells(indices, pixels[k..]) == [CellOf(indices, pixels[k])] + PixelCells(indices, pixels[k + 1..])
  {
  }

  lemma BuildCells(variant: Variant, indices: map<nat, nat>, pixels: seq<Pixel>, width: int)
    requires Build(variant, indices, pixels, width).Ok?
    ensures Expand(Build(variant, indices, pixels, width).value) == PixelCells(indices, pixels)
  {
    BuildFromCells(variant, indices, width, pixels, 0, []);
    assert pixels[0..] == pixels;
  }

  /** Where no opaque pixel maps to palette index 0, the pass as written
      and the corrected pass agree. */
  lemma {:induction false} BuildVariantsAgree(indices: map<nat, nat>, width: int, pixels: seq<Pixel>, k: nat, cmds: seq<Command>)
    requires k <= |pixels|
    requires forall j :: k <= j < |pixels| && pixels[j].a != 0 && Key(pixels[j]) in indices ==> indices[Key(pixels[j])] != 0
    ensures BuildFrom(AsWritten, indices, width, pixels, k, cmds) == BuildFrom(Corrected, indices, width, pixels, k, cmds)
    decreases |pixels| - k
  {
    if k < |pixels| {
      var started := if RowBreak(k, width) then cmds + [NextLine] else cmds;
      if pixels[k].a != 0 {
        assert Lookup(AsWritten, indices, pixels[k]) == Lookup(Corrected, indices, pixels[k]);
      }
      var r := Absorb(Corrected, indices, started, pixels[k]);
      if r.Ok? {
        BuildVariantsAgree(indices, width, pixels, k + 1, r.value);
      }
    }
  }

  /** The defect: an opaque pixel whose colour has palette index 0 is
      rejected, because index 0 reads as missing; the corrected lookup finds
      it.  A one-pixel image shows it. */
  lemma IndexZeroRejected(indices: map<nat, nat>, px: Pixel, w: int)
    requires px.a != 0 && Key(px) in indices && indices[Key(px)] == 0
    ensures Build(AsWritten, indices, [px], w) == Err(MissingColor(px.r, px.g, px.b))
    ensures Build(Corrected, indices, [px], w) == Ok([Color(0)])
  {
    assert !RowBreak(0, w);
    assert Absorb(Corrected, indices, [], px) == Ok([Color(0)]);
    assert BuildFrom(Corrected, indices, w, [px], 1, [Color(0)]) == Ok([Color(0)]);
  }

  /** The colour table gives index 0 to the first palette colour when no
      later entry repeats it, so every palette has a colour the pass as
      written rejects. */
  lemma FirstColorIndexZero(palette: seq<RGB>)
    requires |palette| > 0 && forall j :: 0 < j < |palette| ==> palette[j] != palette[0]
    ensures Pack(palette[0]) in ColorIndices(palette) && ColorIndices(palette)[Pack(palette[0])] == 0
  {
    var m := ColorIndices(palette);
    LaterIndexWins(palette, 0);
    PackInjective(palette[m[Pack(palette[0])]], palette[0]);
  }

  // ---------------------------------------------------------------------
  // The imperative builder

  /** The loop at src/SLPEncoder.js:93-126, with `prev` standing for
      `prevCommand` and `prevArg`. */
  method PixelsToRenderCommands(indices: map<nat, nat>, pixels: seq<Pixel>, width: int) returns (r: Result<seq<Command>>)
    ensures r == Build(AsWritten, indices, pixels, width)
  {
    var commands: seq<Command> := [];
    var prev: Option<Command> := None;
    var k := 0;
    while k < |pixels|
      invariant k <= |pixels| && prev == Last(commands)
      invariant Build(AsWritten, indices, pixels, width) == BuildFrom(AsWritten, indices, width, pixels, k, commands)
    {
      if k > 0 && width != 0 && k % Abs(width) == 0 {
        commands := commands + [NextLine];
        prev := Some(NextLine);
      }
      var next := PushPixel(indices, commands, prev, pixels[k]);
      if next.Err? {
        return Err(next.error);
      }
      commands := next.value;
      prev := Some(commands[|commands| - 1]);
      k := k + 1;
    }
    return Ok(commands);
  }

  /** The body of that loop for one pixel, after the row check. */
  method PushPixel(indices: map<nat, nat>, commands: seq<Command>, prev: Option<Command>, px: Pixel)
    returns (r: Result<seq<Command>>)
    requires prev == Last(commands)
    ensures r == Absorb(AsWritten, indices, commands, px)
  {
    if px.a == 0 {
      if prev.Some? && prev.value.Skip? {
        return Ok(commands[..|commands| - 1] + [Skip(prev.value.count + 1)]);
      }
      return Ok(commands + [Skip(1)]);
    }
    var key := (px.r * 0x1_0000) + (px.g * 0x100) + px.b;
    if key !in indices || indices[key] == 0 {
      return Err(MissingColor(px.r, px.g, px.b));
    }
    var index := indices[key];
    if prev.Some? && prev.value.Fill? && prev.value.color == index {
      return Ok(commands[..|commands| - 1] + [Fill(prev.value.count + 1, index)]);
    } else if prev == Some(Color(index)) {
      return Ok(commands[..|commands| - 1] + [Fill(2, index)]);
    }
    return Ok(commands + [Color(index)]);
  }
}
