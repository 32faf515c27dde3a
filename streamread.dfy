/** The decoder's side of the round trip: the opcode stream the encoder
    writes for a frame of the builder's rows is read back by the frame
    decoder (src/SLP.js:120-188) as exactly the commands between each row's
    edge skips, each row closed by its end-of-row command. */
module StreamRead {
  import opened SlpTypes
  import opened Opcodes
  import opened Decoder
  import Serializer
  import opened CommandBuilder
  import opened RowParts

  /** `bytes` sit in `buf` from offset `o` on, stated byte by byte (the
      encoder's slice form, `Encoder.HoldsAt`, is the same notion:
      `RoundTrip.HoldsAtIsBytesAt`). */
  predicate BytesAt(buf: seq<byte>, o: nat, bytes: seq<byte>)
    decreases |bytes|
  {
    if bytes == [] then o <= |buf|
    else o < |buf| && buf[o] == bytes[0] && BytesAt(buf, o + 1, bytes[1..])
  }

  lemma {:induction false} HoldsSplit(buf: seq<byte>, o: nat, a: seq<byte>, b: seq<byte>)
    requires BytesAt(buf, o, a + b)
    ensures BytesAt(buf, o, a) && BytesAt(buf, o + |a|, b)
    decreases |a|
  {
    if a == [] {
      assert a + b == b;
    } else {
      assert (a + b)[1..] == a[1..] + b;
      HoldsSplit(buf, o + 1, a[1..], b);
    }
  }

  lemma {:induction false} HoldsByte(buf: seq<byte>, o: nat, bytes: seq<byte>, j: nat)
    requires BytesAt(buf, o, bytes) && j < |bytes|
    ensures o + j < |buf| && buf[o + j] == bytes[j]
    decreases j
  {
    if j > 0 {
      HoldsByte(buf, o + 1, bytes[1..], j - 1);
    }
  }

  lemma {:induction false} HoldsLength(buf: seq<byte>, o: nat, bytes: seq<byte>)
    requires BytesAt(buf, o, bytes)
    ensures o + |bytes| <= |buf|
    decreases |bytes|
  {
    if bytes != [] {
      HoldsLength(buf, o + 1, bytes[1..]);
    }
  }

  /** The slice form of the same. */
  lemma {:induction false} HoldsSlice(buf: seq<byte>, o: nat, bytes: seq<byte>)
    requires o + |bytes| <= |buf| && buf[o..o + |bytes|] == bytes
    ensures BytesAt(buf, o, bytes)
    decreases |bytes|
  {
    if bytes != [] {
      assert buf[o + 1..o + 1 + |bytes[1..]|] == bytes[1..];
      HoldsSlice(buf, o + 1, bytes[1..]);
    }
  }

  lemma PrependPrepend<T>(a: seq<T>, b: seq<T>, r: Result<seq<T>>)
    ensures Prepend(a, Prepend(b, r)) == Prepend(a + b, r)
  {
    if r.Ok? {
      AppendAssoc(a, b, r.value);
    }
  }

  // ---------------------------------------------------------------------
  // One opcode at a time

  /** The scan over an opcode that does not end a row. */
  lemma DecodeAt(buf: seq<byte>, o: nat, rows: nat, cmds: seq<Command>, next: nat)
    requires rows > 0 && o < |buf| && Decoder.Step(buf, o) == Ok(Emitted(cmds, next, false))
    ensures DecodeOps(buf, o, rows) == Prepend(cmds, DecodeOps(buf, next, rows))
  {
  }

  /** The scan over an end-of-row byte. */
  lemma DecodeEnd(buf: seq<byte>, o: nat, rows: nat)
    requires rows > 0 && o < |buf| && buf[o] == 0x0F
    ensures DecodeOps(buf, o, rows) == Prepend([NextLine], DecodeOps(buf, o + 1, rows - 1))
  {
    ClassifyOpcodeByte(EndOfRow(0));
  }

  /** A colour list of fewer than 64 entries is one opcode with the count in
      its upper six bits, read back as the same colours. */
  lemma ColorGroup(buf: seq<byte>, o: nat, run: seq<Command>)
    requires 0 < |run| < 64 && forall j :: 0 <= j < |run| ==> run[j].Color? && run[j].index < 256
    requires BytesAt(buf, o, Serializer.RunBytes(run))
    ensures o < |buf| && Decoder.Step(buf, o) == Ok(Emitted(run, o + |Serializer.RunBytes(run)|, false))
  {
    HoldsByte(buf, o, Serializer.RunBytes(run), 0);
    HoldsLength(buf, o, Serializer.RunBytes(run));
    ListByte(buf[o], |run|);
    ColorsRead(buf, o, run);
    StepColorList(buf, o, |run|);
  }

  lemma ListByte(b: byte, n: nat)
    requires n < 64 && b == (4 * n) % 256
    ensures Classify(b) == ColorList(n)
  {
    assert b == 4 * n by { SmallMod(4 * n); }
    ClassifyOpcodeByte(ColorList(n));
  }

  lemma SmallMod(k: nat)
    requires k < 256
    ensures k % 256 == k
  {
  }

  lemma StepColorList(buf: seq<byte>, o: nat, n: nat)
    requires o + n < |buf| && Classify(buf[o]) == ColorList(n)
    ensures Decoder.Step(buf, o) == Ok(Emitted(Colors(buf[o + 1..o + n + 1]), o + n + 1, false))
  {
  }

  /** The index bytes of a run of one-byte indices are read back as the run. */
  lemma ColorsRead(buf: seq<byte>, o: nat, run: seq<Command>)
    requires forall j :: 0 <= j < |run| ==> run[j].Color? && run[j].index < 256
    requires BytesAt(buf, o, Serializer.RunBytes(run))
    ensures o + |run| + 1 <= |buf| && Colors(buf[o + 1..o + |run| + 1]) == run
  {
    var bytes := Serializer.RunBytes(run);
    HoldsLength(buf, o, bytes);
    var read := buf[o + 1..o + |run| + 1];
    forall j | 0 <= j < |run| ensures Colors(read)[j] == run[j] {
      HoldsByte(buf, o, bytes, j + 1);
    }
  }

  /** A fill is its count (inline below 16, else in the next byte) and its
      colour. */
  lemma FillGroup(buf: seq<byte>, o: nat, n: nat, c: nat)
    requires 0 < n < 256 && c < 256 && BytesAt(buf, o, Serializer.FillBytes(n, c))
    ensures o < |buf| && Decoder.Step(buf, o) == Ok(Emitted([Fill(n, c)], o + |Serializer.FillBytes(n, c)|, false))
  {
    var bytes := Serializer.FillBytes(n, c);
    HoldsByte(buf, o, bytes, 0);
    HoldsByte(buf, o, bytes, 1);
    if n < 16 {
      assert buf[o] == 16 * n + 0x07 && buf[o + 1] == c;
      ClassifyOpcodeByte(FillRun(n));
      StepFill(buf, o, n);
    } else {
      HoldsByte(buf, o, bytes, 2);
      assert buf[o] == 0x07 && buf[o + 1] == n && buf[o + 2] == c;
      ClassifyOpcodeByte(FillRun(0));
      StepFillLong(buf, o);
    }
  }

  lemma StepFill(buf: seq<byte>, o: nat, n: nat)
    requires 0 < n && o + 1 < |buf| && Classify(buf[o]) == FillRun(n)
    ensures Decoder.Step(buf, o) == Ok(Emitted([Fill(n, buf[o + 1])], o + 2, false))
  {
  }

  lemma StepFillLong(buf: seq<byte>, o: nat)
    requires o + 2 < |buf| && Classify(buf[o]) == FillRun(0)
    ensures Decoder.Step(buf, o) == Ok(Emitted([Fill(buf[o + 1], buf[o + 2])], o + 3, false))
  {
  }

  /** A skip inside a row is its count, inline below 64, else in the next
      byte. */
  lemma SkipGroup(buf: seq<byte>, o: nat, n: nat)
    requires 0 < n < 256 && BytesAt(buf, o, Serializer.SkipBytes(n))
    ensures o < |buf| && Decoder.Step(buf, o) == Ok(Emitted([Skip(n)], o + |Serializer.SkipBytes(n)|, false))
  {
    var bytes := Serializer.SkipBytes(n);
    HoldsByte(buf, o, bytes, 0);
    if n < 64 {
      assert buf[o] == 4 * n + 0x01;
      ClassifyOpcodeByte(SkipShort(n));
      StepSkip(buf, o, n);
    } else {
      HoldsByte(buf, o, bytes, 1);
      assert buf[o] == 0x01 && buf[o + 1] == n;
      ClassifyOpcodeByte(SkipShort(0));
      StepSkipLong(buf, o);
    }
  }

  lemma StepSkip(buf: seq<byte>, o: nat, n: nat)
    requires 0 < n && o < |buf| && Classify(buf[o]) == SkipShort(n)
    ensures Decoder.Step(buf, o) == Ok(Emitted([Skip(n)], o + 1, false))
  {
  }

  lemma StepSkipLong(buf: seq<byte>, o: nat)
    requires o + 1 < |buf| && Classify(buf[o]) == SkipShort(0)
    ensures Decoder.Step(buf, o) == Ok(Emitted([Skip(buf[o + 1])], o + 2, false))
  {
  }

  /** The bytes of one group are one opcode, read back as the group's
      commands. */
  lemma DecodeGroup(buf: seq<byte>, o: nat, mid: seq<Command>)
    requires mid != [] && RowCommand(mid[0]) && GroupFits(mid)
    requires BytesAt(buf, o, GroupBytes(mid))
    ensures o < |buf| && Decoder.Step(buf, o) == Ok(Emitted(mid[..GroupLen(mid)], o + |GroupBytes(mid)|, false))
  {
    if mid[0].Color? {
      ColorGroupAt(buf, o, mid);
    } else if mid[0].Fill? {
      FillGroupAt(buf, o, mid);
    } else {
      SkipGroupAt(buf, o, mid);
    }
  }

  lemma ColorGroupAt(buf: seq<byte>, o: nat, mid: seq<Command>)
    requires mid != [] && mid[0].Color? && GroupFits(mid)
    requires BytesAt(buf, o, GroupBytes(mid))
    ensures o < |buf| && Decoder.Step(buf, o) == Ok(Emitted(mid[..GroupLen(mid)], o + |GroupBytes(mid)|, false))
  {
    ColorRunFacts(mid);
    ColorGroup(buf, o, mid[..GroupLen(mid)]);
  }

  /** The group at the front of a row that starts with a colour is its run
      of colours. */
  lemma ColorRunFacts(mid: seq<Command>)
    requires mid != [] && mid[0].Color? && GroupFits(mid)
    ensures var run := mid[..GroupLen(mid)];
      0 < |run| < 64 && (forall j :: 0 <= j < |run| ==> run[j].Color? && run[j].index < 256) &&
      GroupBytes(mid) == Serializer.RunBytes(run)
  {
    Serializer.RunLengthColors(mid);
  }

  lemma FillGroupAt(buf: seq<byte>, o: nat, mid: seq<Command>)
    requires mid != [] && mid[0].Fill? && mid[0].count > 0 && GroupFits(mid)
    requires BytesAt(buf, o, GroupBytes(mid))
    ensures o < |buf| && Decoder.Step(buf, o) == Ok(Emitted(mid[..GroupLen(mid)], o + |GroupBytes(mid)|, false))
  {
    assert mid[..1] == [mid[0]];
    FillGroup(buf, o, mid[0].count, mid[0].color);
  }

  lemma SkipGroupAt(buf: seq<byte>, o: nat, mid: seq<Command>)
    requires mid != [] && mid[0].Skip? && mid[0].count > 0 && GroupFits(mid)
    requires BytesAt(buf, o, GroupBytes(mid))
    ensures o < |buf| && Decoder.Step(buf, o) == Ok(Emitted(mid[..GroupLen(mid)], o + |GroupBytes(mid)|, false))
  {
    assert mid[..1] == [mid[0]];
    SkipGroup(buf, o, mid[0].count);
  }

  // ---------------------------------------------------------------------
  // Rows

  /** Starting at `o`, the decoder's steps read the groups of `mid` one
      opcode each, and the last one ends at `e`. */
  predicate ReadsGroups(buf: seq<byte>, o: nat, mid: seq<Command>, e: nat)
    decreases |mid|
  {
    if mid == [] then o == e
    else
      o < |buf| && Decoder.Step(buf, o).Ok? &&
      var em := Decoder.Step(buf, o).value;
      em.cmds == mid[..GroupLen(mid)] && !em.endOfRow && ReadsGroups(buf, em.next, mid[GroupLen(mid)..], e)
  }

  /** The bytes of a row's middle, which end at `e`, are read group by
      group. */
  lemma {:induction false} MidReadable(buf: seq<byte>, o: nat, mid: seq<Command>, e: nat)
    requires (forall j :: 0 <= j < |mid| ==> RowCommand(mid[j])) && Fits(mid)
    requires BytesAt(buf, o, MidBytes(mid)) && e == o + |MidBytes(mid)|
    ensures ReadsGroups(buf, o, mid, e)
    decreases |mid|
  {
    if mid != [] {
      var next := MidStep(buf, o, mid, e);
      MidReadable(buf, next, mid[GroupLen(mid)..], e);
    }
  }

  /** The first group of a row's middle is one opcode; the rest of the
      middle follows it in the buffer. */
  lemma MidStep(buf: seq<byte>, o: nat, mid: seq<Command>, e: nat) returns (next: nat)
    requires mid != [] && (forall j :: 0 <= j < |mid| ==> RowCommand(mid[j])) && Fits(mid)
    requires BytesAt(buf, o, MidBytes(mid))
    ensures ReadsGroups(buf, next, mid[GroupLen(mid)..], e) ==> ReadsGroups(buf, o, mid, e)
    ensures var rest := mid[GroupLen(mid)..];
      (forall j :: 0 <= j < |rest| ==> RowCommand(rest[j])) && Fits(rest) &&
      BytesAt(buf, next, MidBytes(rest)) && next + |MidBytes(rest)| == o + |MidBytes(mid)|
  {
    var g := GroupLen(mid);
    var rest := mid[g..];
    var gb := GroupBytes(mid);
    next := o + |gb|;
    assert MidBytes(mid) == gb + MidBytes(rest);
    DropCommands(mid, g);
    HoldsSplit(buf, o, gb, MidBytes(rest));
    DecodeGroup(buf, o, mid);
    if ReadsGroups(buf, next, rest, e) {
      ReadsCons(buf, o, mid, next, e);
    }
  }

  lemma ReadsCons(buf: seq<byte>, o: nat, mid: seq<Command>, next: nat, e: nat)
    requires mid != [] && o < |buf| && Decoder.Step(buf, o) == Ok(Emitted(mid[..GroupLen(mid)], next, false))
    requires ReadsGroups(buf, next, mid[GroupLen(mid)..], e)
    ensures ReadsGroups(buf, o, mid, e)
  {
  }

  /** What the steps read is what the scan returns, for a row's middle. */
  lemma {:induction false} DecodeMid(buf: seq<byte>, o: nat, rows: nat, mid: seq<Command>, e: nat)
    requires rows > 0 && ReadsGroups(buf, o, mid, e)
    ensures DecodeOps(buf, o, rows) == Prepend(mid, DecodeOps(buf, e, rows))
    decreases |mid|
  {
    if mid == [] {
      assert forall s: seq<Command> :: [] + s == s;
    } else {
      var next := DecodeFirst(buf, o, rows, mid, e);
      DecodeMid(buf, next, rows, mid[GroupLen(mid)..], e);
    }
  }

  /** The scan over the first group of a row's middle. */
  lemma DecodeFirst(buf: seq<byte>, o: nat, rows: nat, mid: seq<Command>, e: nat) returns (next: nat)
    requires rows > 0 && mid != [] && ReadsGroups(buf, o, mid, e)
    ensures ReadsGroups(buf, next, mid[GroupLen(mid)..], e)
    ensures DecodeOps(buf, next, rows) == Prepend(mid[GroupLen(mid)..], DecodeOps(buf, e, rows)) ==>
      DecodeOps(buf, o, rows) == Prepend(mid, DecodeOps(buf, e, rows))
  {
    var g := GroupLen(mid);
    next := Decoder.Step(buf, o).value.next;
    var cmds := mid[..g];
    assert cmds + mid[g..] == mid;
    assert Decoder.Step(buf, o) == Ok(Emitted(cmds, next, false));
    DecodeAt(buf, o, rows, cmds, next);
    PrependPrepend(cmds, mid[g..], DecodeOps(buf, e, rows));
  }

  /** The rows' opcode streams, in order, are read back as the rows' middles
      each closed by an end-of-row command; the scan stops right after the
      last row's end-of-row byte. */
  lemma {:induction false} DecodeRows(buf: seq<byte>, o: nat, parts: seq<Part>)
    requires forall r :: 0 <= r < |parts| ==> MidShape(parts[r].mid) && Fits(parts[r].mid)
    requires BytesAt(buf, o, RowsStream(parts))
    ensures DecodeOps(buf, o, |parts|) == Ok(RowsCommands(parts))
    decreases |parts|
  {
    if parts != [] {
      var tail := parts[1..];
      assert |tail| == |parts| - 1;
      assert RowsCommands(parts) == parts[0].mid + [NextLine] + RowsCommands(tail);
      var e, next := RowRead(buf, o, parts);
      DecodeRows(buf, next, tail);
      RowDecodes(buf, o, |parts|, parts[0].mid, e, next);
    }
  }

  /** The first row of the stream is read as its middle, up to its
      end-of-row byte at `e`; the other rows follow from `next` on. */
  lemma RowRead(buf: seq<byte>, o: nat, parts: seq<Part>) returns (e: nat, next: nat)
    requires parts != []
    requires forall r :: 0 <= r < |parts| ==> MidShape(parts[r].mid) && Fits(parts[r].mid)
    requires BytesAt(buf, o, RowsStream(parts))
    ensures ReadsGroups(buf, o, parts[0].mid, e) && e < |buf| && buf[e] == 0x0F && next == e + 1
    ensures BytesAt(buf, next, RowsStream(parts[1..]))
    ensures forall r :: 0 <= r < |parts[1..]| ==> MidShape(parts[1..][r].mid) && Fits(parts[1..][r].mid)
  {
    e := o + |MidBytes(parts[0].mid)|;
    next := e + 1;
    RowBytes(buf, o, parts, e, next);
    TailShapes(parts);
    MidReadable(buf, o, parts[0].mid, e);
  }

  /** What holds of every row holds of every later row. */
  lemma TailShapes(parts: seq<Part>)
    requires parts != [] && forall r :: 0 <= r < |parts| ==> MidShape(parts[r].mid) && Fits(parts[r].mid)
    ensures MidShape(parts[0].mid) && Fits(parts[0].mid)
    ensures forall r :: 0 <= r < |parts[1..]| ==> MidShape(parts[1..][r].mid) && Fits(parts[1..][r].mid)
  {
    forall r | 0 <= r < |parts[1..]|
      ensures MidShape(parts[1..][r].mid) && Fits(parts[1..][r].mid)
    {
      assert parts[1..][r] == parts[r + 1];
    }
  }

  /** The first row's stream is its middle's bytes and its end-of-row byte. */
  lemma RowBytes(buf: seq<byte>, o: nat, parts: seq<Part>, e: nat, next: nat)
    requires parts != [] && e == o + |MidBytes(parts[0].mid)| && next == e + 1
    requires BytesAt(buf, o, RowsStream(parts))
    ensures BytesAt(buf, o, MidBytes(parts[0].mid)) && e < |buf| && buf[e] == 0x0F
    ensures BytesAt(buf, next, RowsStream(parts[1..]))
  {
    var mb := MidBytes(parts[0].mid);
    var head := mb + [0x0F];
    assert RowsStream(parts) == head + RowsStream(parts[1..]);
    HoldsSplit(buf, o, head, RowsStream(parts[1..]));
    HoldsSplit(buf, o, mb, [0x0F]);
    HoldsByte(buf, e, [0x0F], 0);
  }

  /** The scan over a row: its middle, then its end-of-row byte. */
  lemma RowDecodes(buf: seq<byte>, o: nat, rows: nat, mid: seq<Command>, e: nat, next: nat)
    requires rows > 0 && ReadsGroups(buf, o, mid, e) && e < |buf| && buf[e] == 0x0F && next == e + 1
    ensures DecodeOps(buf, o, rows) == Prepend(mid + [NextLine], DecodeOps(buf, next, rows - 1))
  {
    DecodeMid(buf, o, rows, mid, e);
    DecodeEnd(buf, e, rows);
    PrependPrepend(mid, [NextLine], DecodeOps(buf, next, rows - 1));
  }
}
