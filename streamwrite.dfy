/** The serialiser's walk over the builder's rows (src/SLPEncoder.js:149-196),
    corrected: each row leaves its outline pair in the outline table and its
    middle commands, grouped, in the opcode stream. */
module StreamWrite {
  import opened SlpTypes
  import opened CommandBuilder
  import opened Serializer
  import opened Renderer
  import opened RowParts

  /** Appending a list that does not start with a Color does not lengthen
      the run at the front of a list that ends in one. */
  lemma {:induction false} RunLengthAppend(a: seq<Command>, b: seq<Command>)
    requires RunLength(a) < |a| || b == [] || !b[0].Color?
    ensures RunLength(a + b) == RunLength(a)
    decreases |a|
  {
    if a == [] {
      assert a + b == b;
    } else if a[0].Color? {
      assert (a + b)[1..] == a[1..] + b;
      RunLengthAppend(a[1..], b);
    }
  }

  /** A run of colours covers one cell per command. */
  lemma {:induction false} ExpandColors(run: seq<Command>)
    requires forall j :: 0 <= j < |run| ==> run[j].Color?
    ensures |Expand(run)| == |run|
    decreases |run|
  {
    if run != [] {
      ExpandColors(run[..|run| - 1]);
    }
  }

  /** The cells of a group: one per colour of a run, the count of a fill or
      skip. */
  function GroupWidth(mid: seq<Command>): nat
    requires mid != []
  {
    match mid[0]
    case Color(_) => RunLength(mid)
    case Fill(n, _) => n
    case Skip(n) => n
    case _ => 0
  }

  lemma GroupCells(mid: seq<Command>)
    requires mid != [] && RowCommand(mid[0])
    ensures |Expand(mid)| == GroupWidth(mid) + |Expand(mid[GroupLen(mid)..])|
  {
    if mid[0].Color? {
      RunCells(mid);
      ExpandAt(mid, RunLength(mid));
    } else {
      assert mid == [mid[0]] + mid[1..];
      ExpandCons(mid[0], mid[1..]);
    }
  }

  lemma ExpandAt(cmds: seq<Command>, g: nat)
    requires g <= |cmds|
    ensures |Expand(cmds)| == |Expand(cmds[..g])| + |Expand(cmds[g..])|
  {
    ExpandAppend(cmds[..g], cmds[g..]);
    assert cmds[..g] + cmds[g..] == cmds;
  }

  lemma RunCells(mid: seq<Command>)
    requires mid != [] && mid[0].Color?
    ensures |Expand(mid[..RunLength(mid)])| == RunLength(mid)
  {
    RunLengthColors(mid);
    ExpandColors(mid[..RunLength(mid)]);
  }

  /** The walk's state after a group of bytes and cells. */
  function Advanced(st: SerState, bytes: seq<byte>, cells: nat): (r: SerState)
    ensures r.outlines == st.outlines && r.rowStarts == st.rowStarts
    ensures r.body == st.body + bytes && r.x == st.x + cells
  {
    st.(body := st.body + bytes, x := st.x + cells)
  }

  lemma AdvancedTwice(st: SerState, a: seq<byte>, b: seq<byte>, ab: seq<byte>, m: nat, n: nat, mn: nat)
    requires ab == a + b && mn == m + n
    ensures Advanced(Advanced(st, a, m), b, n) == Advanced(st, ab, mn)
  {
    AppendAssoc(st.body, a, b);
  }

  /** One step of the walk over a middle group: the group's bytes go to the
      stream and the column moves past its cells. */
  lemma MidStep(w: nat, mid: seq<Command>, tail: seq<Command>, st: SerState)
    requires st.outlines != [] && mid != [] && RowCommand(mid[0])
    requires mid[0].Skip? ==> st.x > 0 && st.x + mid[0].count != w
    requires RunLength(mid) < |mid| || tail == [] || !tail[0].Color?
    ensures Ser(Corrected, w, mid + tail, st) ==
      Ser(Corrected, w, mid[GroupLen(mid)..] + tail, Advanced(st, GroupBytes(mid), GroupWidth(mid)))
  {
    var cmds := mid + tail;
    var g := GroupLen(mid);
    var next := Advanced(st, GroupBytes(mid), GroupWidth(mid));
    assert cmds[0] == mid[0];
    assert cmds[g..] == mid[g..] + tail;
    if mid[0].Color? {
      RunLengthAppend(mid, tail);
      ColorStep(w, mid, tail, st);
    } else {
      OneStep(w, mid, tail, st);
    }
    SerUnfold(w, cmds, st, g, next);
  }

  lemma OneStep(w: nat, mid: seq<Command>, tail: seq<Command>, st: SerState)
    requires st.outlines != [] && mid != []
    requires mid[0].Fill? || (mid[0].Skip? && st.x > 0 && st.x + mid[0].count != w)
    ensures Step(Corrected, w, mid + tail, st) == Ok((1, Advanced(st, GroupBytes(mid), GroupWidth(mid))))
  {
    assert (mid + tail)[0] == mid[0];
  }

  lemma ColorStep(w: nat, mid: seq<Command>, tail: seq<Command>, st: SerState)
    requires st.outlines != [] && mid != [] && mid[0].Color?
    requires RunLength(mid + tail) == RunLength(mid)
    ensures Step(Corrected, w, mid + tail, st) == Ok((RunLength(mid), Advanced(st, GroupBytes(mid), GroupWidth(mid))))
  {
    var k := RunLength(mid);
    RunLengthColors(mid);
    assert (mid + tail)[0] == mid[0];
    assert (mid + tail)[..k] == mid[..k];
    assert GroupBytes(mid) == RunBytes(mid[..k]);
  }

  lemma SerUnfold(w: nat, cmds: seq<Command>, st: SerState, g: nat, next: SerState)
    requires st.outlines != [] && cmds != [] && Step(Corrected, w, cmds, st) == Ok((g, next))
    ensures g <= |cmds| && next.outlines != [] &&
      Ser(Corrected, w, cmds, st) == Ser(Corrected, w, cmds[g..], next)
  {
  }

  /** The walk over the middle of a row: the middle bytes go to the stream,
      the column moves past the middle's cells and the outline pair stays. */
  lemma {:induction false} SerMid(w: nat, mid: seq<Command>, tail: seq<Command>, st: SerState)
    requires st.outlines != []
    requires forall j :: 0 <= j < |mid| ==> RowCommand(mid[j])
    requires mid != [] ==> !mid[|mid| - 1].Skip? && (mid[0].Skip? ==> st.x > 0)
    requires st.x + |Expand(mid)| <= w
    requires mid == [] || !mid[|mid| - 1].Color? || tail == [] || !tail[0].Color?
    ensures Ser(Corrected, w, mid + tail, st) == Ser(Corrected, w, tail, Advanced(st, MidBytes(mid), |Expand(mid)|))
    decreases |mid|
  {
    if mid == [] {
      assert mid + tail == tail;
      assert Advanced(st, MidBytes(mid), |Expand(mid)|) == st;
    } else {
      var rest := mid[GroupLen(mid)..];
      var next := Advanced(st, GroupBytes(mid), GroupWidth(mid));
      RestShape(w, mid, st.x);
      MidStep(w, mid, tail, st);
      SerMid(w, rest, tail, next);
      assert MidBytes(mid) == GroupBytes(mid) + MidBytes(rest);
      AdvancedTwice(st, GroupBytes(mid), MidBytes(rest), MidBytes(mid), GroupWidth(mid), |Expand(rest)|, |Expand(mid)|);
    }
  }

  /** What the walk needs of the middle is kept after its first group. */
  lemma RestShape(w: nat, mid: seq<Command>, x: nat)
    requires forall j :: 0 <= j < |mid| ==> RowCommand(mid[j])
    requires mid != [] && !mid[|mid| - 1].Skip? && (mid[0].Skip? ==> x > 0)
    requires x + |Expand(mid)| <= w
    ensures var rest := mid[GroupLen(mid)..];
      (forall j :: 0 <= j < |rest| ==> RowCommand(rest[j])) &&
      (rest != [] ==> rest[|rest| - 1] == mid[|mid| - 1]) &&
      GroupWidth(mid) > 0 &&
      |Expand(mid)| == GroupWidth(mid) + |Expand(rest)| &&
      (mid[0].Skip? ==> x + mid[0].count != w) &&
      (!mid[|mid| - 1].Color? ==> RunLength(mid) < |mid|)
  {
    var g := GroupLen(mid);
    DropCommands(mid, g);
    GroupCells(mid);
    if mid[0].Skip? {
      ExpandNonEmpty(mid[1..]);
    }
    RunLengthColors(mid);
  }

  /** The run at the front of a list is the run at the front of any prefix
      that holds it. */
  lemma {:induction false} RunLengthPrefix(cmds: seq<Command>, k: nat)
    requires k == RunLength(cmds)
    ensures RunLength(cmds[..k]) == k
    decreases |cmds|
  {
    if k > 0 {
      assert cmds[..k][1..] == cmds[1..][..k - 1];
      RunLengthPrefix(cmds[1..], k - 1);
    }
  }
  // ---------------------------------------------------------------------
  // Rows

  /** The walk's state with the current row's outline pair set and the
      column moved to `x`. */
  function SetOutline(st: SerState, o: RowOutline, x: nat): (r: SerState)
    requires st.outlines != []
    ensures r.outlines != [] && |r.outlines| == |st.outlines| && r.outlines[|r.outlines| - 1] == o
    ensures r.body == st.body && r.rowStarts == st.rowStarts && r.x == x
  {
    st.(outlines := st.outlines[|st.outlines| - 1 := o], x := x)
  }

  /** The state after a whole row: its middle bytes written and its outline
      pair set. */
  function RowWritten(st: SerState, p: Part, w: nat): SerState
    requires st.outlines != []
  {
    SerState(st.body + MidBytes(p.mid), st.outlines[|st.outlines| - 1 := RowOutline(p.left, p.right)], st.rowStarts, w)
  }

  /** A skip at the start of a row sets the left outline, or the empty-row
      sentinel when it spans the width (src/SLPEncoder.js:178-181). */
  lemma LeadStep(w: nat, n: nat, rest: seq<Command>, st: SerState)
    requires st.outlines != [] && st.x == 0 && st.outlines[|st.outlines| - 1] == RowOutline(0, 0)
    ensures Ser(Corrected, w, [Skip(n)] + rest, st) ==
      Ser(Corrected, w, rest, SetOutline(st, RowOutline(if n == w then LINE_EMPTY else n, 0), n))
  {
    var cmds := [Skip(n)] + rest;
    assert cmds[1..] == rest;
    var next := SetOutline(st, RowOutline(if n == w then LINE_EMPTY else n, 0), n);
    assert Step(Corrected, w, cmds, st) == Ok((1, next));
    SerUnfold(w, cmds, st, 1, next);
  }

  /** A skip that reaches the end of the row sets the right outline
      (src/SLPEncoder.js:182-184). */
  lemma TrailStep(w: nat, n: nat, rest: seq<Command>, st: SerState)
    requires st.outlines != [] && st.x > 0 && st.x + n == w
    ensures Ser(Corrected, w, [Skip(n)] + rest, st) ==
      Ser(Corrected, w, rest, SetOutline(st, RowOutline(st.outlines[|st.outlines| - 1].left, n), w))
  {
    var cmds := [Skip(n)] + rest;
    assert cmds[1..] == rest;
    var next := SetOutline(st, RowOutline(st.outlines[|st.outlines| - 1].left, n), w);
    assert Step(Corrected, w, cmds, st) == Ok((1, next));
    SerUnfold(w, cmds, st, 1, next);
  }

  /** The leading skip of a row, if any, sets its left outline. */
  lemma RowLead(w: nat, left: nat, rest: seq<Command>, st: SerState)
    requires 0 < w && (left == LINE_EMPTY || left < w)
    requires st.outlines != [] && st.x == 0 && st.outlines[|st.outlines| - 1] == RowOutline(0, 0)
    requires OpenRow(w, left) == 0 ==> left == 0
    ensures Ser(Corrected, w, Skips(OpenRow(w, left)) + rest, st) ==
      Ser(Corrected, w, rest, SetOutline(st, RowOutline(left, 0), OpenRow(w, left)))
  {
    var open := OpenRow(w, left);
    if open > 0 {
      LeadStep(w, open, rest, st);
    } else {
      assert Skips(open) + rest == rest;
      assert st.outlines[|st.outlines| - 1 := RowOutline(0, 0)] == st.outlines;
      assert SetOutline(st, RowOutline(left, 0), open) == st;
    }
  }

  /** The trailing skip of a row, if any, sets its right outline. */
  lemma RowTrail(w: nat, right: nat, tail: seq<Command>, st: SerState)
    requires st.outlines != [] && st.x + right == w && (right > 0 ==> st.x > 0)
    requires st.outlines[|st.outlines| - 1].right == 0
    ensures Ser(Corrected, w, Skips(right) + tail, st) ==
      Ser(Corrected, w, tail, SetOutline(st, RowOutline(st.outlines[|st.outlines| - 1].left, right), w))
  {
    if right > 0 {
      TrailStep(w, right, tail, st);
    } else {
      var last := |st.outlines| - 1;
      assert Skips(right) + tail == tail;
      assert st.outlines[last := RowOutline(st.outlines[last].left, right)] == st.outlines;
      assert SetOutline(st, RowOutline(st.outlines[last].left, right), w) == st;
    }
  }

  /** The three steps of a row leave the state a whole row leaves. */
  lemma RowState(st: SerState, p: Part, w: nat, open: nat, s1: SerState, s2: SerState, s3: SerState)
    requires st.outlines != []
    requires s1 == SetOutline(st, RowOutline(p.left, 0), open)
    requires s2 == Advanced(s1, MidBytes(p.mid), |Expand(p.mid)|)
    requires s3 == SetOutline(s2, RowOutline(s2.outlines[|s2.outlines| - 1].left, p.right), w)
    ensures s3 == RowWritten(st, p, w)
  {
  }

  /** The walk over a row given as its edge skips and its middle. */
  lemma SerParts(w: nat, p: Part, open: nat, tail: seq<Command>, st: SerState)
    requires 0 < w && (p.left == LINE_EMPTY || p.left < w) && open == OpenRow(w, p.left)
    requires open == 0 ==> p.left == 0
    requires st.outlines != [] && st.x == 0 && st.outlines[|st.outlines| - 1] == RowOutline(0, 0)
    requires MidShape(p.mid) && open + |Expand(p.mid)| + p.right == w
    requires p.right > 0 ==> open + |Expand(p.mid)| > 0
    requires tail == [] || tail[0].NextLine?
    ensures Ser(Corrected, w, Skips(open) + (p.mid + (Skips(p.right) + tail)), st) ==
      Ser(Corrected, w, tail, RowWritten(st, p, w))
  {
    var rest := Skips(p.right) + tail;
    RowLead(w, p.left, p.mid + rest, st);
    var s1 := SetOutline(st, RowOutline(p.left, 0), open);
    SerMid(w, p.mid, rest, s1);
    var s2 := Advanced(s1, MidBytes(p.mid), |Expand(p.mid)|);
    RowTrail(w, p.right, tail, s2);
    var s3 := SetOutline(s2, RowOutline(s2.outlines[|s2.outlines| - 1].left, p.right), w);
    RowState(st, p, w, open, s1, s2, s3);
  }

  /** The walk over one row of the builder's output, from the state a new row
      starts in: the row's middle bytes go to the stream and its edge skips
      become its outline pair. */
  lemma SerRow(w: nat, rc: seq<Command>, tail: seq<Command>, st: SerState)
    requires 0 < w < LINE_EMPTY && ValidRow(w, rc)
    requires st.outlines != [] && st.x == 0 && st.outlines[|st.outlines| - 1] == RowOutline(0, 0)
    requires tail == [] || tail[0].NextLine?
    ensures Ser(Corrected, w, rc + tail, st) == Ser(Corrected, w, tail, RowWritten(st, Split(w, rc), w))
  {
    var p := Split(w, rc);
    var open := OpenRow(w, p.left);
    SplitRow(w, rc);
    AppendAssoc(Skips(open) + p.mid, Skips(p.right), tail);
    AppendAssoc(Skips(open), p.mid, Skips(p.right) + tail);
    SerParts(w, p, open, tail, st);
  }

  // ---------------------------------------------------------------------
  // Whole frames

  /** The state after an end-of-row command: the byte written, a new row
      opened with a zero outline pair at the next stream position. */
  function NewRow(st: SerState): (r: SerState)
    ensures r.body == st.body + [0x0F] && r.outlines == st.outlines + [RowOutline(0, 0)] && r.x == 0
  {
    var body := st.body + [0x0F];
    SerState(body, st.outlines + [RowOutline(0, 0)], st.rowStarts + [|body|], 0)
  }

  lemma NewRowStep(w: nat, rest: seq<Command>, st: SerState)
    requires st.outlines != []
    ensures Ser(Corrected, w, [NextLine] + rest, st) == Ser(Corrected, w, rest, NewRow(st))
  {
    var cmds := [NextLine] + rest;
    assert Step(Corrected, w, cmds, st) == Ok((1, NewRow(st)));
    assert cmds[1..] == rest;
  }

  /** A row opened by an end-of-row command and then written whole. */
  lemma LineState(st: SerState, p: Part, w: nat, s1: SerState, s2: SerState)
    requires st.outlines != [] && s1 == NewRow(st) && s2 == RowWritten(s1, p, w)
    ensures s2.body == st.body + [0x0F] + MidBytes(p.mid)
    ensures s2.outlines == st.outlines + [RowOutline(p.left, p.right)]
  {
  }

  lemma LinesHead(rows: seq<seq<Command>>)
    ensures Lines(rows) == [] || Lines(rows)[0].NextLine?
  {
  }

  lemma SplitAllTail(w: nat, rows: seq<seq<Command>>)
    requires rows != []
    ensures SplitAll(w, rows) == [Split(w, rows[0])] + SplitAll(w, rows[1..])
  {
  }

  lemma OutlinesTail(parts: seq<Part>)
    requires parts != []
    ensures OutlinesOf(parts) == [RowOutline(parts[0].left, parts[0].right)] + OutlinesOf(parts[1..])
  {
  }

  lemma StreamJoin(a: seq<byte>, m: seq<byte>, r: seq<byte>, total: seq<byte>)
    requires total == m + [0x0F] + r
    ensures a + [0x0F] + m + [0x0F] + r == a + [0x0F] + total
  {
  }

  /** The walk over rows each opened by an end-of-row command: every row's
      middle bytes follow an end-of-row byte, and every row adds its outline
      pair to the table. */
  lemma {:induction false} SerLines(w: nat, rows: seq<seq<Command>>, st: SerState)
    requires 0 < w < LINE_EMPTY && forall r :: 0 <= r < |rows| ==> ValidRow(w, rows[r])
    requires st.outlines != []
    ensures Ser(Corrected, w, Lines(rows), st).Ok?
    ensures Ser(Corrected, w, Lines(rows), st).value.body + [0x0F] == st.body + [0x0F] + RowsStream(SplitAll(w, rows))
    ensures Ser(Corrected, w, Lines(rows), st).value.outlines == st.outlines + OutlinesOf(SplitAll(w, rows))
    decreases |rows|
  {
    if rows == [] {
      assert SplitAll(w, rows) == [];
    } else {
      var tail := Lines(rows[1..]);
      var s1 := NewRow(st);
      var p := Split(w, rows[0]);
      AppendAssoc([NextLine], rows[0], tail);
      NewRowStep(w, rows[0] + tail, st);
      LinesHead(rows[1..]);
      SerRow(w, rows[0], tail, s1);
      var s2 := RowWritten(s1, p, w);
      LineState(st, p, w, s1, s2);
      SerLines(w, rows[1..], s2);
      var parts := SplitAll(w, rows);
      SplitAllTail(w, rows);
      OutlinesTail(parts);
      StreamJoin(st.body, MidBytes(p.mid), RowsStream(parts[1..]), RowsStream(parts));
      AppendAssoc(st.outlines, [RowOutline(p.left, p.right)], OutlinesOf(parts[1..]));
    }
  }

  /** The walk over a whole frame of the builder's rows from the start state:
      the stream with its final end-of-row byte is the rows' streams in
      order, and the outline table holds each row's pair. */
  lemma SerJoin(w: nat, rows: seq<seq<Command>>)
    requires 0 < w < LINE_EMPTY && rows != [] && forall r :: 0 <= r < |rows| ==> ValidRow(w, rows[r])
    ensures Ser(Corrected, w, JoinRows(rows), Start).Ok?
    ensures Ser(Corrected, w, JoinRows(rows), Start).value.body + [0x0F] == RowsStream(SplitAll(w, rows))
    ensures Ser(Corrected, w, JoinRows(rows), Start).value.outlines == OutlinesOf(SplitAll(w, rows))
  {
    var tail := Lines(rows[1..]);
    var p := Split(w, rows[0]);
    LinesHead(rows[1..]);
    SerRow(w, rows[0], tail, Start);
    var s1 := RowWritten(Start, p, w);
    assert s1.body == MidBytes(p.mid) && s1.outlines == [RowOutline(p.left, p.right)];
    SerLines(w, rows[1..], s1);
    var parts := SplitAll(w, rows);
    SplitAllTail(w, rows);
    OutlinesTail(parts);
    AppendAssoc(MidBytes(p.mid), [0x0F], RowsStream(parts[1..]));
  }
}
