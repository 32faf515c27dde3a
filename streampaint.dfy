/** The renderer's side of the round trip: what `renderFrame`
    (src/SLP.js:215-291) writes for the commands of a frame whose rows are
    split at their edge skips, cell by cell. */
module StreamPaint {
  import opened SlpTypes
  import opened CommandBuilder
  import opened Renderer
  import opened RowParts

  /** A cell the renderer can draw from `palette`: clear, or inked with an
      index the palette has. */
  predicate PaintableCell(palette: seq<RGB>, x: Cell) {
    x.Clear? || (x.Ink? && x.index < |palette|)
  }

  predicate Paintable(palette: seq<RGB>, cells: seq<Cell>) {
    forall k :: 0 <= k < |cells| ==> PaintableCell(palette, cells[k])
  }

  /** The four bytes of one cell: zero where it is clear, its palette colour
      at full opacity where it is inked. */
  function CellPixel(palette: seq<RGB>, x: Cell): (s: seq<byte>)
    requires PaintableCell(palette, x)
    ensures |s| == 4
  {
    if x.Clear? then Zeros(4) else PixelBytes(palette[x.index], 255)
  }

  /** The bytes of a run of cells, four per cell. */
  function CellBytes(palette: seq<RGB>, cells: seq<Cell>): (s: seq<byte>)
    requires Paintable(palette, cells)
    ensures |s| == 4 * |cells|
    decreases |cells|
  {
    if cells == [] then [] else CellPixel(palette, cells[0]) + CellBytes(palette, cells[1..])
  }

  lemma PaintableAppend(palette: seq<RGB>, a: seq<Cell>, b: seq<Cell>)
    ensures Paintable(palette, a + b) <==> Paintable(palette, a) && Paintable(palette, b)
  {
    if Paintable(palette, a + b) {
      forall k | 0 <= k < |b| ensures PaintableCell(palette, b[k]) {
        assert (a + b)[|a| + k] == b[k];
      }
      forall k | 0 <= k < |a| ensures PaintableCell(palette, a[k]) {
        assert (a + b)[k] == a[k];
      }
    }
  }

  lemma {:induction false} CellBytesAppend(palette: seq<RGB>, a: seq<Cell>, b: seq<Cell>)
    requires Paintable(palette, a) && Paintable(palette, b)
    ensures Paintable(palette, a + b)
    ensures CellBytes(palette, a + b) == CellBytes(palette, a) + CellBytes(palette, b)
    decreases |a|
  {
    PaintableAppend(palette, a, b);
    if a == [] {
      assert a + b == b;
    } else {
      assert (a + b)[1..] == a[1..] + b;
      assert (a + b)[0] == a[0];
      CellBytesAppend(palette, a[1..], b);
      AppendAssoc(CellPixel(palette, a[0]), CellBytes(palette, a[1..]), CellBytes(palette, b));
    }
  }

  /** Clear cells are zero bytes. */
  lemma {:induction false} CellBytesClear(palette: seq<RGB>, n: nat)
    ensures Paintable(palette, Repeat(Clear, n)) && CellBytes(palette, Repeat(Clear, n)) == Zeros(4 * n)
    decreases n
  {
    if n > 0 {
      assert Repeat(Clear, n)[1..] == Repeat(Clear, n - 1);
      CellBytesClear(palette, n - 1);
      assert Zeros(4) + Zeros(4 * (n - 1)) == Zeros(4 * n);
    }
  }

  /** Cells of one ink are that palette colour, repeated. */
  lemma {:induction false} CellBytesInk(palette: seq<RGB>, i: nat, n: nat)
    requires i < |palette|
    ensures Paintable(palette, Repeat(Ink(i), n))
    ensures CellBytes(palette, Repeat(Ink(i), n)) == RepeatPixel(palette[i], 255, n)
    decreases n
  {
    if n > 0 {
      var cells := Repeat(Ink(i), n);
      assert cells == Repeat(Ink(i), n - 1) + [Ink(i)];
      CellBytesInk(palette, i, n - 1);
      assert CellBytes(palette, [Ink(i)]) == PixelBytes(palette[i], 255);
      CellBytesAppend(palette, Repeat(Ink(i), n - 1), [Ink(i)]);
    }
  }

  /** A skip, colour or fill of a row is drawn as its cells. */
  lemma PaintOneCells(width: nat, height: int, outlines: seq<RowOutline>, style: Style, c: Command, y: nat)
    requires RowCommand(c) && Paintable(style.palette, Cells(c))
    ensures PaintOne(width, height, outlines, style, c, y) == Ok(CellBytes(style.palette, Cells(c)))
  {
    match c {
      case Skip(n) => CellBytesClear(style.palette, n);
      case Color(i) =>
        assert PaintableCell(style.palette, Cells(c)[0]);
        assert Cells(c) == [Ink(i)] && [Ink(i)][1..] == [];
        assert CellBytes(style.palette, Cells(c)) == PixelBytes(style.palette[i], 255) + [];
        assert PixelBytes(style.palette[i], 255) + [] == PixelBytes(style.palette[i], 255);
      case Fill(n, i) =>
        assert PaintableCell(style.palette, Cells(c)[0]);
        CellBytesInk(style.palette, i, n);
    }
  }

  /** The commands between a row's edge skips are drawn as their cells, and
      the walk goes on in the same row. */
  lemma {:induction false} PaintMid(width: nat, height: int, outlines: seq<RowOutline>, style: Style,
                                    mid: seq<Command>, rest: seq<Command>, y: nat)
    requires (forall j :: 0 <= j < |mid| ==> RowCommand(mid[j])) && Paintable(style.palette, Expand(mid))
    ensures Paint(width, height, outlines, style, mid + rest, y) ==
      Prepend(CellBytes(style.palette, Expand(mid)), Paint(width, height, outlines, style, rest, y))
    decreases |mid|
  {
    var after := Paint(width, height, outlines, style, rest, y);
    if mid == [] {
      assert mid + rest == rest;
      PrependNil(after);
    } else {
      var c := mid[0];
      var tail := mid[1..];
      assert mid == [c] + tail;
      ExpandCons(c, tail);
      PaintableAppend(style.palette, Cells(c), Expand(tail));
      assert (mid + rest)[0] == c && (mid + rest)[1..] == tail + rest;
      PaintOneCells(width, height, outlines, style, c, y);
      PaintMid(width, height, outlines, style, tail, rest, y);
      PrependAssoc(CellBytes(style.palette, Cells(c)), CellBytes(style.palette, Expand(tail)), after);
      CellBytesAppend(style.palette, Cells(c), Expand(tail));
    }
  }

  // ---------------------------------------------------------------------
  // Whole frames

  /** The bytes of one stored row: its left outline of clear pixels (the
      whole width for an empty row), its middle, its right outline. */
  function PartPixels(palette: seq<RGB>, w: nat, p: Part): seq<byte>
    requires Paintable(palette, Expand(p.mid))
  {
    Zeros(4 * OpenRow(w, p.left)) + CellBytes(palette, Expand(p.mid)) + Zeros(4 * p.right)
  }

  /** Every stored row holds row commands whose cells the palette can draw. */
  predicate PartsPaintable(palette: seq<RGB>, parts: seq<Part>) {
    forall r :: 0 <= r < |parts| ==>
      (forall j :: 0 <= j < |parts[r].mid| ==> RowCommand(parts[r].mid[j])) && Paintable(palette, Expand(parts[r].mid))
  }

  /** The bytes of the stored rows, one after the other. */
  function PartsPixels(palette: seq<RGB>, w: nat, parts: seq<Part>): seq<byte>
    requires PartsPaintable(palette, parts)
    decreases |parts|
  {
    if parts == [] then [] else PartPixels(palette, w, parts[0]) + PartsPixels(palette, w, parts[1..])
  }

  /** From row `y` on, the walk draws row `y`'s middle and right outline,
      then each later row whole: a NextLine closes a row with its right
      outline and opens the next with its left one. */
  lemma {:induction false} PaintRowsFrom(w: nat, style: Style, parts: seq<Part>, y: nat)
    requires y < |parts| && PartsPaintable(style.palette, parts)
    ensures PartsPaintable(style.palette, parts[y + 1..])
    ensures Paint(w, |parts|, OutlinesOf(parts), style, RowsCommands(parts[y..]), y) ==
      Ok(CellBytes(style.palette, Expand(parts[y].mid)) + Zeros(4 * parts[y].right) +
         PartsPixels(style.palette, w, parts[y + 1..]))
    decreases |parts| - y
  {
    var h := |parts|;
    var outlines := OutlinesOf(parts);
    var later := parts[y + 1..];
    var tail := [NextLine] + RowsCommands(later);
    RowsFrom(parts, y);
    LaterPaintable(style.palette, parts, y);
    PaintMid(w, h, outlines, style, parts[y].mid, tail, y);
    var open := if y + 1 < h then Zeros(4 * OpenRow(w, parts[y + 1].left)) else [];
    NextLineStep(w, style, parts, y);
    if y + 1 < h {
      PaintRowsFrom(w, style, parts, y + 1);
      assert later[0] == parts[y + 1] && later[1..] == parts[y + 2..];
      PixelsCons(style.palette, w, later);
    }
    var rest := if y + 1 < h then Paint(w, h, outlines, style, RowsCommands(later), y + 1).value else [];
    assert Paint(w, h, outlines, style, tail, y) == Ok(Zeros(4 * parts[y].right) + open + rest);
    assert PartsPixels(style.palette, w, later) == open + rest;
    Regroup(CellBytes(style.palette, Expand(parts[y].mid)), Zeros(4 * parts[y].right), open, rest);
  }

  lemma Regroup(cells: seq<byte>, close: seq<byte>, open: seq<byte>, rest: seq<byte>)
    ensures cells + (close + open + rest) == cells + close + (open + rest)
  {
  }

  lemma RowsFrom(parts: seq<Part>, y: nat)
    requires y < |parts|
    ensures RowsCommands(parts[y..]) == parts[y].mid + ([NextLine] + RowsCommands(parts[y + 1..]))
  {
    assert parts[y..][0] == parts[y] && parts[y..][1..] == parts[y + 1..];
    AppendAssoc(parts[y].mid, [NextLine], RowsCommands(parts[y + 1..]));
  }

  lemma LaterPaintable(palette: seq<RGB>, parts: seq<Part>, y: nat)
    requires y < |parts| && PartsPaintable(palette, parts)
    ensures PartsPaintable(palette, parts[y + 1..])
    ensures (forall j :: 0 <= j < |parts[y].mid| ==> RowCommand(parts[y].mid[j])) && Paintable(palette, Expand(parts[y].mid))
  {
    PaintableSuffix(palette, parts, y + 1);
  }

  /** Row `y`'s NextLine closes it with its right outline and, unless it is
      the last row, opens row `y + 1` with that row's left outline. */
  lemma NextLineStep(w: nat, style: Style, parts: seq<Part>, y: nat)
    requires y < |parts|
    ensures var open := if y + 1 < |parts| then Zeros(4 * OpenRow(w, parts[y + 1].left)) else [];
      Paint(w, |parts|, OutlinesOf(parts), style, [NextLine] + RowsCommands(parts[y + 1..]), y) ==
      Prepend(Zeros(4 * parts[y].right) + open, Paint(w, |parts|, OutlinesOf(parts), style, RowsCommands(parts[y + 1..]), y + 1))
    ensures y + 1 == |parts| ==> Paint(w, |parts|, OutlinesOf(parts), style, RowsCommands(parts[y + 1..]), y + 1) == Ok([])
  {
    var tail := [NextLine] + RowsCommands(parts[y + 1..]);
    assert tail[0] == NextLine && tail[1..] == RowsCommands(parts[y + 1..]);
    if y + 1 == |parts| {
      assert parts[y + 1..] == [];
      assert Zeros(4 * parts[y].right) + [] == Zeros(4 * parts[y].right);
    }
  }

  /** The stored rows: the first one whole, then the rest. */
  lemma PixelsCons(palette: seq<RGB>, w: nat, q: seq<Part>)
    requires q != [] && PartsPaintable(palette, q)
    ensures PartsPaintable(palette, q[1..])
    ensures PartsPixels(palette, w, q) ==
      Zeros(4 * OpenRow(w, q[0].left)) +
      (CellBytes(palette, Expand(q[0].mid)) + Zeros(4 * q[0].right) + PartsPixels(palette, w, q[1..]))
  {
    PaintableSuffix(palette, q, 1);
    var open := Zeros(4 * OpenRow(w, q[0].left));
    var cells := CellBytes(palette, Expand(q[0].mid));
    var close := Zeros(4 * q[0].right);
    var rest := PartsPixels(palette, w, q[1..]);
    assert open + cells + close + rest == open + (cells + close + rest);
  }

  lemma PaintableSuffix(palette: seq<RGB>, parts: seq<Part>, k: nat)
    requires k <= |parts| && PartsPaintable(palette, parts)
    ensures PartsPaintable(palette, parts[k..])
  {
    assert forall r :: 0 <= r < |parts[k..]| ==> parts[k..][r] == parts[k + r];
  }

  /** The opening outline of row 0 and the walk draw every stored row whole. */
  lemma PaintRows(w: nat, style: Style, parts: seq<Part>)
    requires parts != [] && PartsPaintable(style.palette, parts)
    ensures Paint(w, |parts|, OutlinesOf(parts), style, RowsCommands(parts), 0).Ok?
    ensures Zeros(4 * OpenRow(w, parts[0].left)) + Paint(w, |parts|, OutlinesOf(parts), style, RowsCommands(parts), 0).value ==
      PartsPixels(style.palette, w, parts)
  {
    assert parts[0..] == parts;
    PaintRowsFrom(w, style, parts, 0);
    var open := Zeros(4 * OpenRow(w, parts[0].left));
    var cells := CellBytes(style.palette, Expand(parts[0].mid));
    var close := Zeros(4 * parts[0].right);
    var rest := PartsPixels(style.palette, w, parts[1..]);
    AppendAssoc(open, cells + close, rest);
    AppendAssoc(open, cells, close);
  }

  /** A row split at its edge skips draws as the row's cells. */
  lemma PartPixelsRow(palette: seq<RGB>, w: nat, rc: seq<Command>)
    requires 0 < w < LINE_EMPTY && ValidRow(w, rc) && Paintable(palette, Expand(rc))
    ensures var p := Split(w, rc);
      (forall j :: 0 <= j < |p.mid| ==> RowCommand(p.mid[j])) && Paintable(palette, Expand(p.mid)) &&
      PartPixels(palette, w, p) == CellBytes(palette, Expand(rc))
  {
    var p := Split(w, rc);
    SplitRow(w, rc);
    var open := Repeat(Clear, OpenRow(w, p.left));
    var right := Repeat(Clear, p.right);
    PaintableAppend(palette, open + Expand(p.mid), right);
    PaintableAppend(palette, open, Expand(p.mid));
    CellBytesClear(palette, OpenRow(w, p.left));
    CellBytesClear(palette, p.right);
    CellBytesAppend(palette, open, Expand(p.mid));
    CellBytesAppend(palette, open + Expand(p.mid), right);
  }

  /** Fitting bytes of exactly the array's length into it changes nothing. */
  lemma FitWhole(s: seq<byte>)
    ensures Fit(s, |s|) == s
  {
  }
}
