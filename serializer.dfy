/** The frame serialiser of the encoder: `renderCommandsToSlpFrame`
    (src/SLPEncoder.js:131-208).  It walks the render commands with an
    output cursor, folding the skips at either edge of a row into the row's
    outline pair and writing every other command as opcode bytes, then
    back-fills the outline table and the row-offset table at the front of a
    buffer allocated up front. */
module Serializer {
  import opened SlpTypes

  // ---------------------------------------------------------------------
  // Node Buffer stores

  /** `buffer[o] = v`: the value is stored modulo 256, and a store outside
      the buffer is dropped. */
  function Put(buf: seq<byte>, o: int, v: int): (r: seq<byte>)
    ensures |r| == |buf|
    ensures forall j :: 0 <= j < |buf| ==> r[j] == if j == o then v % 256 else buf[j]
  {
    if 0 <= o < |buf| then buf[o := v % 256] else buf
  }

  /** The bytes stored one after another from `o`, as the cursor loop
      `buffer[offset++] = b` does. */
  function PutAll(buf: seq<byte>, o: int, bytes: seq<byte>): (r: seq<byte>)
    ensures |r| == |buf|
    decreases |bytes|
  {
    if bytes == [] then buf else PutAll(Put(buf, o, bytes[0]), o + 1, bytes[1..])
  }

  /** Byte `j` after the stores is the stored byte inside the stored range
      and the old byte outside it. */
  lemma {:induction false} PutAllAt(buf: seq<byte>, o: int, bytes: seq<byte>)
    ensures forall j :: 0 <= j < |buf| ==>
      PutAll(buf, o, bytes)[j] == if o <= j < o + |bytes| then bytes[j - o] else buf[j]
    decreases |bytes|
  {
    if bytes != [] {
      PutAllAt(Put(buf, o, bytes[0]), o + 1, bytes[1..]);
    }
  }

  /** Storing `a` and then `b` right after it stores `a + b`. */
  lemma {:induction false} PutAllAppend(buf: seq<byte>, o: int, a: seq<byte>, b: seq<byte>)
    ensures PutAll(PutAll(buf, o, a), o + |a|, b) == PutAll(buf, o, a + b)
    decreases |a|
  {
    if a == [] {
      assert a + b == b;
    } else {
      PutAllAppend(Put(buf, o, a[0]), o + 1, a[1..], b);
      assert (a + b)[1..] == a[1..] + b;
    }
  }

  /** `buf.writeUInt16LE(v, o)`: a RangeError unless `v` fits 16 bits and
      both bytes lie inside the buffer. */
  function WriteU16(buf: seq<byte>, v: int, o: int): (r: Result<seq<byte>>)
    ensures r.Ok? <==> 0 <= v < 0x1_0000 && 0 <= o && o + 2 <= |buf|
    ensures r.Err? ==> r.error == RangeError
    ensures r.Ok? ==> |r.value| == |buf|
  {
    if 0 <= v < 0x1_0000 && 0 <= o && o + 2 <= |buf| then Ok(buf[..o] + LE16(v) + buf[o + 2..])
    else Err(RangeError)
  }

  /** After a successful 16-bit write the value reads back and every other
      byte is as before. */
  lemma WriteU16At(buf: seq<byte>, v: int, o: int)
    requires WriteU16(buf, v, o).Ok?
    ensures var r := WriteU16(buf, v, o).value;
      U16At(r, o) == v && forall j :: 0 <= j < |buf| && (j < o || o + 2 <= j) ==> r[j] == buf[j]
  {
    var r := WriteU16(buf, v, o).value;
    assert r[o..o + 2] == LE16(v);
  }

  /** The little-endian unsigned 32-bit value at `o`. */
  function U32At(buf: seq<byte>, o: nat): nat
    requires o + 4 <= |buf|
  {
    U16At(buf, o) + 0x1_0000 * U16At(buf, o + 2)
  }

  /** `buf.writeUInt32LE(v, o)`: a RangeError unless `v` fits 32 bits and
      all four bytes lie inside the buffer. */
  function WriteU32(buf: seq<byte>, v: int, o: int): (r: Result<seq<byte>>)
    ensures r.Ok? <==> 0 <= v < 0x1_0000_0000 && 0 <= o && o + 4 <= |buf|
    ensures r.Err? ==> r.error == RangeError
    ensures r.Ok? ==> |r.value| == |buf|
  {
    if 0 <= v < 0x1_0000_0000 && 0 <= o && o + 4 <= |buf| then Ok(buf[..o] + LE32(v) + buf[o + 4..])
    else Err(RangeError)
  }

  /** After a successful 32-bit write the value reads back and every other
      byte is as before. */
  lemma WriteU32At(buf: seq<byte>, v: int, o: int)
    requires WriteU32(buf, v, o).Ok?
    ensures var r := WriteU32(buf, v, o).value;
      U32At(r, o) == v && forall j :: 0 <= j < |buf| && (j < o || o + 4 <= j) ==> r[j] == buf[j]
  {
    var r := WriteU32(buf, v, o).value;
    assert r[o..o + 4] == LE32(v);
    assert U16At(r, o) == U16At(LE32(v), 0) && U16At(r, o + 2) == U16At(LE32(v), 2);
  }

  /** `buf.slice(0, end)` for an `end` that is never negative here: it
      stops at the end of the buffer. */
  function Slice(buf: seq<byte>, end: int): (r: seq<byte>)
    ensures |r| == if end < 0 then 0 else if end > |buf| then |buf| else end
    ensures r == buf[..|r|]
  {
    buf[..if end < 0 then 0 else if end > |buf| then |buf| else end]
  }

  // ---------------------------------------------------------------------
  // Opcode bytes

  /** A run of colours: the count shifted left by two (stored modulo 256,
      so a run of 64 or more loses its high bits), then one index per pixel. */
  function RunBytes(run: seq<Command>): (bytes: seq<byte>)
    requires forall j :: 0 <= j < |run| ==> run[j].Color?
    ensures |bytes| == |run| + 1 && bytes[0] == (4 * |run|) % 256
    ensures forall j :: 0 <= j < |run| ==> bytes[j + 1] == run[j].index % 256
  {
    [(4 * |run|) % 256] + IndexBytes(run)
  }

  /** The palette indices of a run, one byte each. */
  function IndexBytes(run: seq<Command>): (bytes: seq<byte>)
    requires forall j :: 0 <= j < |run| ==> run[j].Color?
    ensures |bytes| == |run|
    ensures forall j :: 0 <= j < |run| ==> bytes[j] == run[j].index % 256
  {
    if run == [] then [] else IndexBytes(run[..|run| - 1]) + [run[|run| - 1].index % 256]
  }

  /** A fill: the count in the high nibble when below 16, else in a byte of
      its own after 0x07; then the colour. */
  function FillBytes(n: nat, c: nat): seq<byte> {
    if n < 16 then [0x07 + 16 * n, c % 256] else [0x07, n % 256, c % 256]
  }

  /** A skip inside a row: the count in the upper six bits when below 64,
      else in a byte of its own after 0x01. */
  function SkipBytes(n: nat): seq<byte> {
    if n >= 64 then [0x01, n % 256] else [0x01 + 4 * n]
  }

  // ---------------------------------------------------------------------
  // The command walk

  /** What the walk has produced: the opcode bytes written from the start of
      the stream, the outline pair of every row opened so far, where each
      row's bytes start (relative to the stream) and the column `x`. */
  datatype SerState = SerState(body: seq<byte>, outlines: seq<RowOutline>, rowStarts: seq<nat>, x: nat)

  /** Before the first command: one row open, starting at the stream's
      first byte, with a zero outline pair. */
  const Start: SerState := SerState([], [RowOutline(0, 0)], [0], 0)

  /** The number of Color commands at the front of `cmds`: where the scan
      at src/SLPEncoder.js:159 stops. */
  function RunLength(cmds: seq<Command>): (k: nat)
    ensures k <= |cmds|
  {
    if cmds == [] || !cmds[0].Color? then 0 else 1 + RunLength(cmds[1..])
  }

  /** The run is all Colors and stops at the first command that is not one. */
  lemma {:induction false} RunLengthColors(cmds: seq<Command>)
    ensures forall j :: 0 <= j < RunLength(cmds) ==> cmds[j].Color?
    ensures RunLength(cmds) < |cmds| ==> !cmds[RunLength(cmds)].Color?
    decreases |cmds|
  {
    if cmds != [] && cmds[0].Color? {
      RunLengthColors(cmds[1..]);
    }
  }

  /** One pass of the loop body at src/SLPEncoder.js:150-193 on the front of
      `cmds`: how many commands it consumes and the new state.  As written, a
      colour run that reaches the end of the list dereferences the missing
      command after it; corrected, the run ends with the list. */
  function Step(variant: Variant, width: int, cmds: seq<Command>, st: SerState): (r: Result<(nat, SerState)>)
    requires cmds != [] && st.outlines != []
    ensures r.Ok? ==> 0 < r.value.0 <= |cmds| && r.value.1.outlines != []
    ensures r.Ok? ==> |r.value.1.body| <= |st.body| + 3 * r.value.0
    ensures r.Ok? ==> r.value.0 < |cmds| || !cmds[|cmds| - 1].Color? || variant.Corrected?
    ensures r.Err? <==> variant.AsWritten? && RunLength(cmds) == |cmds|
    ensures r.Err? ==> r.error == CommandsEnded
  {
    match cmds[0]
    case NextLine =>
      var body := st.body + [0x0F];
      Ok((1, SerState(body, st.outlines + [RowOutline(0, 0)], st.rowStarts + [|body|], 0)))
    case Color(_) =>
      var k := RunLength(cmds);
      RunLengthColors(cmds);
      if k == |cmds| && variant.AsWritten? then Err(CommandsEnded)
      else Ok((k, st.(body := st.body + RunBytes(cmds[..k]), x := st.x + k)))
    case Fill(n, c) => Ok((1, st.(body := st.body + FillBytes(n, c), x := st.x + n)))
    case Skip(n) =>
      var last := |st.outlines| - 1;
      if st.x == 0 then
        var left := if n == width then LINE_EMPTY else n;
        Ok((1, st.(outlines := st.outlines[last := st.outlines[last].(left := left)], x := n)))
      else if st.x + n == width then
        Ok((1, st.(outlines := st.outlines[last := st.outlines[last].(right := n)], x := st.x + n)))
      else Ok((1, st.(body := st.body + SkipBytes(n), x := st.x + n)))
    case _ => Ok((1, st))
  }

  /** The walk over the whole list.  It fails exactly when the walk as
      written meets a list that ends in a Color; the stream grows by at most
      three bytes per command and keeps what was written before. */
  function Ser(variant: Variant, width: int, cmds: seq<Command>, st: SerState): (r: Result<SerState>)
    requires st.outlines != []
    ensures r.Err? <==> variant.AsWritten? && cmds != [] && cmds[|cmds| - 1].Color?
    ensures r.Err? ==> r.error == CommandsEnded
    ensures r.Ok? ==> r.value.outlines != [] && |r.value.body| <= |st.body| + 3 * |cmds|
    decreases |cmds|
  {
    if cmds == [] then Ok(st)
    else
      RunLengthColors(cmds);
      var p :- Step(variant, width, cmds, st);
      Ser(variant, width, cmds[p.0..], p.1)
  }

  // ---------------------------------------------------------------------
  // The frame buffer

  /** The size of `Buffer.alloc`: as written, four bytes per row for each
      table and two per command for the stream; corrected, three per
      command and one for the final end-of-row byte. */
  function Capacity(variant: Variant, height: int, n: nat): int {
    if variant.AsWritten? then height * 4 + height * 4 + n * 2 else height * 8 + n * 3 + 1
  }

  /** The outline table back-filled from row `i` on (src/SLPEncoder.js:199-202). */
  function FlushOutlines(buf: seq<byte>, outlines: seq<RowOutline>, i: nat): (r: Result<seq<byte>>)
    requires i <= |outlines|
    ensures r.Err? ==> r.error == RangeError
    ensures r.Ok? ==> |r.value| == |buf|
    decreases |outlines| - i
  {
    if i == |outlines| then Ok(buf)
    else
      var b1 :- WriteU16(buf, outlines[i].left, 4 * i);
      var b2 :- WriteU16(b1, outlines[i].right, 4 * i + 2);
      FlushOutlines(b2, outlines, i + 1)
  }

  /** The table fits and takes every pair exactly when every row's entry
      lies inside the buffer and both halves fit 16 bits. */
  lemma {:induction false} FlushOutlinesOk(buf: seq<byte>, outlines: seq<RowOutline>, i: nat)
    requires i <= |outlines|
    ensures FlushOutlines(buf, outlines, i).Ok? <==> forall j :: i <= j < |outlines| ==>
      4 * j + 4 <= |buf| && outlines[j].left < 0x1_0000 && outlines[j].right < 0x1_0000
    decreases |outlines| - i
  {
    if i < |outlines| {
      var w1 := WriteU16(buf, outlines[i].left, 4 * i);
      if w1.Ok? {
        var w2 := WriteU16(w1.value, outlines[i].right, 4 * i + 2);
        if w2.Ok? {
          FlushOutlinesOk(w2.value, outlines, i + 1);
        }
      }
    }
  }

  /** Each row's outline pair lands as two 16-bit values at four times the
      row number, and no byte outside the table changes. */
  lemma {:induction false} FlushOutlinesLayout(buf: seq<byte>, outlines: seq<RowOutline>, i: nat)
    requires i <= |outlines| && FlushOutlines(buf, outlines, i).Ok?
    ensures var r := FlushOutlines(buf, outlines, i).value;
      (forall j :: i <= j < |outlines| ==>
         (4 * j + 4 <= |r| && U16At(r, 4 * j) == outlines[j].left && U16At(r, 4 * j + 2) == outlines[j].right)) &&
      (forall p :: 0 <= p < |buf| && (p < 4 * i || 4 * |outlines| <= p) ==> r[p] == buf[p])
    decreases |outlines| - i
  {
    if i < |outlines| {
      var b1 := WriteU16(buf, outlines[i].left, 4 * i).value;
      var b2 := WriteU16(b1, outlines[i].right, 4 * i + 2).value;
      WriteU16At(buf, outlines[i].left, 4 * i);
      WriteU16At(b1, outlines[i].right, 4 * i + 2);
      FlushOutlinesLayout(b2, outlines, i + 1);
      var r := FlushOutlines(b2, outlines, i + 1).value;
      assert U16At(r, 4 * i) == U16At(b2, 4 * i) == U16At(b1, 4 * i);
    }
  }

  /** The row-offset table back-filled from row `i` on (src/SLPEncoder.js:203-205):
      entry `i` is `baseOffset` plus the absolute position of row `i`'s first byte. */
  function FlushOffsets(buf: seq<byte>, height: int, base: int, starts: seq<nat>, i: nat): (r: Result<seq<byte>>)
    requires i <= |starts|
    ensures r.Err? ==> r.error == RangeError
    ensures r.Ok? ==> |r.value| == |buf|
    decreases |starts| - i
  {
    if i == |starts| then Ok(buf)
    else
      var b1 :- WriteU32(buf, base + 8 * height + starts[i], 4 * height + 4 * i);
      FlushOffsets(b1, height, base, starts, i + 1)
  }

  lemma FlushOffsetsStep(buf: seq<byte>, height: int, base: int, starts: seq<nat>, i: nat)
    requires i < |starts|
    ensures var w := WriteU32(buf, base + 8 * height + starts[i], 4 * height + 4 * i);
      FlushOffsets(buf, height, base, starts, i) == if w.Err? then w else FlushOffsets(w.value, height, base, starts, i + 1)
  {
  }

  /** The table fits exactly when every row's entry lies inside the buffer
      and every offset fits 32 bits. */
  lemma {:induction false} FlushOffsetsOk(buf: seq<byte>, height: int, base: int, starts: seq<nat>, i: nat)
    requires i <= |starts|
    ensures FlushOffsets(buf, height, base, starts, i).Ok? <==> forall j :: i <= j < |starts| ==>
      0 <= 4 * height + 4 * j && 4 * height + 4 * j + 4 <= |buf| && 0 <= base + 8 * height + starts[j] < 0x1_0000_0000
    decreases |starts| - i
  {
    if i < |starts| {
      var w := WriteU32(buf, base + 8 * height + starts[i], 4 * height + 4 * i);
      if w.Ok? {
        FlushOffsetsOk(w.value, height, base, starts, i + 1);
      }
    }
  }

  /** Row `j`'s offset lands as a 32-bit value in the second table, and no
      byte outside that table changes. */
  lemma {:induction false} FlushOffsetsLayout(buf: seq<byte>, height: int, base: int, starts: seq<nat>, i: nat)
    requires i <= |starts| && FlushOffsets(buf, height, base, starts, i).Ok?
    ensures var r := FlushOffsets(buf, height, base, starts, i).value;
      (forall j :: i <= j < |starts| ==>
         (0 <= 4 * height + 4 * j && 4 * height + 4 * j + 4 <= |r| &&
          U32At(r, 4 * height + 4 * j) == base + 8 * height + starts[j])) &&
      (forall p :: 0 <= p < |buf| && (p < 4 * height + 4 * i || 4 * height + 4 * |starts| <= p) ==> r[p] == buf[p])
    decreases |starts| - i
  {
    if i < |starts| {
      var b1 := WriteU32(buf, base + 8 * height + starts[i], 4 * height + 4 * i).value;
      WriteU32At(buf, base + 8 * height + starts[i], 4 * height + 4 * i);
      FlushOffsetsLayout(b1, height, base, starts, i + 1);
      var r := FlushOffsets(b1, height, base, starts, i + 1).value;
      assert r[4 * height + 4 * i..4 * height + 4 * i + 4] == b1[4 * height + 4 * i..4 * height + 4 * i + 4];
    }
  }

  /** renderCommandsToSlpFrame as a function of its arguments. */
  function FrameBytes(variant: Variant, width: int, height: int, cmds: seq<Command>, base: int): Result<seq<byte>> {
    var cap := Capacity(variant, height, |cmds|);
    if cap < 0 then Err(RangeError)
    else
      var st :- Ser(variant, width, cmds, Start);
      Tables(PutAll(Zeros(cap), 8 * height, st.body + [0x0F]), height, base, st)
  }

  /** The two tables back-filled into the buffer that holds the stream, and
      the buffer cut after the stream's final end-of-row byte. */
  function Tables(written: seq<byte>, height: int, base: int, st: SerState): Result<seq<byte>> {
    var withOutlines :- FlushOutlines(written, st.outlines, 0);
    var withOffsets :- FlushOffsets(withOutlines, height, base, st.rowStarts, 0);
    Ok(Slice(withOffsets, 8 * height + |st.body| + 1))
  }

  // ---------------------------------------------------------------------
  // The imperative serialiser

  /** The allocated buffer holds `body` stored from `origin` and zeros
      elsewhere. */
  ghost predicate Holds(buffer: array<byte>, origin: int, body: seq<byte>)
    reads buffer
  {
    buffer[..] == PutAll(Zeros(buffer.Length), origin, body)
  }

  /** Row `j` starts at `offsets[j]`, that is `origin` plus `starts[j]`. */
  ghost predicate Located(offsets: seq<int>, origin: int, starts: seq<nat>) {
    |offsets| == |starts| && forall j :: 0 <= j < |offsets| ==> offsets[j] == origin + starts[j]
  }

  /** Each start moved by `origin`. */
  function Shift(origin: int, starts: seq<nat>): (offsets: seq<int>)
    ensures |offsets| == |starts|
  {
    if starts == [] then [] else Shift(origin, starts[..|starts| - 1]) + [origin + starts[|starts| - 1]]
  }

  lemma ShiftSnoc(origin: int, starts: seq<nat>, s: nat)
    ensures Shift(origin, starts + [s]) == Shift(origin, starts) + [origin + s]
  {
    assert (starts + [s])[..|starts|] == starts;
  }

  lemma {:induction false} ShiftLocated(origin: int, starts: seq<nat>)
    ensures Located(Shift(origin, starts), origin, starts)
    decreases |starts|
  {
    if starts != [] {
      ShiftLocated(origin, starts[..|starts| - 1]);
    }
  }

  /** `buffer[offset++] = v`. */
  method Emit(buffer: array<byte>, origin: int, ghost body: seq<byte>, offset: int, v: int) returns (next: int)
    requires Holds(buffer, origin, body) && offset == origin + |body|
    modifies buffer
    ensures Holds(buffer, origin, body + [v % 256]) && next == offset + 1
  {
    if 0 <= offset < buffer.Length {
      buffer[offset] := v % 256;
    }
    PutAllAppend(Zeros(buffer.Length), origin, body, [v % 256]);
    assert PutAll(old(buffer[..]), offset, [v % 256]) == Put(old(buffer[..]), offset, v % 256);
    next := offset + 1;
  }

  /** The colour branch (src/SLPEncoder.js:157-167): the scan for the end of
      the run, which as written reads the command after the list when the
      run is last, then the count byte and one byte per index, advancing
      `x` per pixel.  The result is the index after the run, the cursor and
      `x`. */
  method ColorRun(buffer: array<byte>, origin: int, ghost body: seq<byte>, commands: seq<Command>, i: nat,
                  offset: int, x: nat)
    returns (r: Result<(nat, int, nat)>, ghost written: seq<byte>)
    requires i < |commands| && commands[i].Color?
    requires Holds(buffer, origin, body) && offset == origin + |body|
    modifies buffer
    ensures var k := RunLength(commands[i..]);
      (r.Err? <==> i + k == |commands|) &&
      (r.Err? ==> r.error == CommandsEnded) &&
      (r.Ok? ==> (RunLengthColors(commands[i..]); written == body + RunBytes(commands[i..][..k])) &&
                 Holds(buffer, origin, written) &&
                 r.value == (i + k, offset + k + 1, x + k))
  {
    var end := ScanRun(commands, i);
    if end == |commands| {
      return Err(CommandsEnded), body;
    }
    var o := Emit(buffer, origin, body, offset, (end - i) * 4);
    var xs;
    o, xs := WriteIndices(buffer, origin, body + [((end - i) * 4) % 256], commands, i, end, o, x);
    ghost var run := commands[i..][..end - i];
    assert run == commands[i..end];
    assert (4 * |run|) % 256 == ((end - i) * 4) % 256;
    written := body + RunBytes(run);
    assert RunBytes(run) == [((end - i) * 4) % 256] + IndexBytes(run);
    AppendAssoc(body, [((end - i) * 4) % 256], IndexBytes(run));
    return Ok((end, o, xs)), written;
  }

  /** The loop `for (; i < end; i++)` of the colour branch: one byte per
      index, `x` advancing per pixel. */
  method WriteIndices(buffer: array<byte>, origin: int, ghost done: seq<byte>, commands: seq<Command>, i: nat, end: nat,
                      offset: int, x: nat)
    returns (o: int, xs: nat)
    requires i <= end <= |commands| && forall j :: i <= j < end ==> commands[j].Color?
    requires Holds(buffer, origin, done) && offset == origin + |done|
    modifies buffer
    ensures Holds(buffer, origin, done + IndexBytes(commands[i..end]))
    ensures o == offset + (end - i) && xs == x + (end - i)
  {
    var p;
    p, o, xs := i, offset, x;
    assert done + IndexBytes(commands[i..p]) == done;
    while p < end
      invariant i <= p <= end && xs == x + (p - i) && o == offset + (p - i)
      invariant Holds(buffer, origin, done + IndexBytes(commands[i..p]))
    {
      o := Emit(buffer, origin, done + IndexBytes(commands[i..p]), o, commands[p].index);
      IndexBytesStep(commands, i, p);
      AppendAssoc(done, IndexBytes(commands[i..p]), [commands[p].index % 256]);
      xs := xs + 1;
      p := p + 1;
    }
  }

  lemma IndexBytesStep(commands: seq<Command>, i: nat, p: nat)
    requires i <= p < |commands| && forall j :: i <= j <= p ==> commands[j].Color?
    ensures IndexBytes(commands[i..p + 1]) == IndexBytes(commands[i..p]) + [commands[p].index % 256]
  {
    assert commands[i..p + 1][..p - i] == commands[i..p];
  }

  /** The index of the first command after the run starting at `i`. */
  method ScanRun(commands: seq<Command>, i: nat) returns (end: nat)
    requires i <= |commands|
    ensures end == i + RunLength(commands[i..])
    ensures forall j :: i <= j < end ==> commands[j].Color?
  {
    end := i;
    while end < |commands| && commands[end].Color?
      invariant i <= end <= |commands|
      invariant forall j :: i <= j < end ==> commands[j].Color?
    {
      end := end + 1;
    }
    RunLengthIs(commands[i..], end - i);
  }

  lemma {:induction false} RunLengthIs(cmds: seq<Command>, k: nat)
    requires k <= |cmds| && forall j :: 0 <= j < k ==> cmds[j].Color?
    requires k < |cmds| ==> !cmds[k].Color?
    ensures RunLength(cmds) == k
    decreases k
  {
    if k > 0 {
      RunLengthIs(cmds[1..], k - 1);
    }
  }

  /** renderCommandsToSlpFrame as written: the buffer is allocated, the
      command walk fills the stream, the final end-of-row byte follows, the
      two tables are back-filled and the buffer is cut at the cursor. */
  method RenderCommandsToSlpFrame(width: int, height: int, commands: seq<Command>, baseOffset: int)
    returns (r: Result<seq<byte>>)
    ensures r == FrameBytes(AsWritten, width, height, commands, baseOffset)
  {
    var cap := height * 4 + height * 4 + |commands| * 2;
    if cap < 0 {
      return Err(RangeError);
    }
    var buffer := new byte[cap](_ => 0);
    assert buffer[..] == Zeros(cap);
    var walk, st := WriteStream(buffer, width, height, commands);
    if walk.Err? {
      return Err(walk.error);
    }
    r := Finish(buffer, height, baseOffset, walk.value, st);
  }

  /** The end of renderCommandsToSlpFrame (src/SLPEncoder.js:196-207): the
      final end-of-row byte, the flush loops and the cut at the cursor. */
  method Finish(buffer: array<byte>, height: int, baseOffset: int, cur: Cursor, ghost st: SerState)
    returns (r: Result<seq<byte>>)
    requires Holds(buffer, 8 * height, st.body) && Tracks(cur, 8 * height, st)
    modifies buffer
    ensures r == Tables(PutAll(Zeros(buffer.Length), 8 * height, st.body + [0x0F]), height, baseOffset, st)
  {
    var offset := Emit(buffer, 8 * height, st.body, cur.offset, 0x0F);
    ShiftLocated(8 * height, st.rowStarts);
    r := WriteTables(buffer, height, baseOffset, cur.outlines, cur.offsets, offset, st);
  }

  /** The locals of the command loop: the outline pair of every row opened
      so far, where each row starts in the frame, the write cursor, the
      column and the row. */
  datatype Cursor = Cursor(outlines: seq<RowOutline>, offsets: seq<int>, offset: int, x: nat, y: nat)

  /** The loop's locals agree with the walk's state `st`, for a stream
      written from `origin`. */
  ghost predicate Tracks(cur: Cursor, origin: int, st: SerState) {
    && cur.outlines == st.outlines && cur.x == st.x && cur.y + 1 == |cur.outlines|
    && cur.offset == origin + |st.body| && cur.offsets == Shift(origin, st.rowStarts)
  }

  /** The command loop of renderCommandsToSlpFrame (src/SLPEncoder.js:148-194)
      on a freshly zeroed buffer: it fails as the walk does, and otherwise
      leaves the walk's stream in the buffer and its locals in step with the
      walk's final state. */
  method WriteStream(buffer: array<byte>, width: int, height: int, commands: seq<Command>)
    returns (r: Result<Cursor>, ghost st: SerState)
    requires buffer[..] == Zeros(buffer.Length)
    modifies buffer
    ensures r.Err? <==> Ser(AsWritten, width, commands, Start).Err?
    ensures r.Err? ==> r.error == CommandsEnded
    ensures r.Ok? ==> Ser(AsWritten, width, commands, Start) == Ok(st)
    ensures r.Ok? ==> Holds(buffer, 8 * height, st.body) && Tracks(r.value, 8 * height, st)
  {
    assert buffer[..] == PutAll(Zeros(buffer.Length), 8 * height, []);
    var offset := height * 4 + height * 4;
    var cur := Cursor([RowOutline(0, 0)], [offset], offset, 0, 0);
    st := Start;
    var i: nat := 0;
    while i < |commands|
      invariant i <= |commands| && Tracks(cur, 8 * height, st) && Holds(buffer, 8 * height, st.body)
      invariant Ser(AsWritten, width, commands, Start) == Ser(AsWritten, width, commands[i..], st)
      decreases |commands| - i
    {
      var step;
      ghost var next;
      step, next := WriteCommand(buffer, width, 8 * height, commands, i, cur, st);
      if step.Err? {
        return Err(step.error), st;
      }
      SerAdvance(width, commands, i, st, step.value.0, next);
      i, cur, st := step.value.0, step.value.1, next;
    }
    assert commands[i..] == [];
    return Ok(cur), st;
  }

  /** One pass of the loop body from command `i`: the index it continues
      from, the new locals and, in `next`, the walk's new state. */
  method WriteCommand(buffer: array<byte>, width: int, origin: int, commands: seq<Command>, i: nat, cur: Cursor,
                      ghost st: SerState)
    returns (r: Result<(nat, Cursor)>, ghost next: SerState)
    requires i < |commands| && Tracks(cur, origin, st) && Holds(buffer, origin, st.body)
    modifies buffer
    ensures r.Err? <==> Step(AsWritten, width, commands[i..], st).Err?
    ensures r.Err? ==> r.error == CommandsEnded
    ensures r.Ok? ==> i < r.value.0 && Step(AsWritten, width, commands[i..], st) == Ok((r.value.0 - i, next))
    ensures r.Ok? ==> Tracks(r.value.1, origin, next) && Holds(buffer, origin, next.body)
  {
    match commands[i]
    case NextLine =>
      var moved;
      moved, next := NextLineCommand(buffer, width, origin, commands, i, cur, st);
      return Ok((i + 1, moved)), next;
    case Color(_) =>
      var run;
      ghost var written;
      run, written := ColorRun(buffer, origin, st.body, commands, i, cur.offset, cur.x);
      if run.Err? {
        return Err(run.error), st;
      }
      next := st.(body := written, x := run.value.2);
      return Ok((run.value.0, cur.(offset := run.value.1, x := run.value.2))), next;
    case Fill(n, c) =>
      var offset := WriteFill(buffer, origin, st.body, cur.offset, n, c);
      next := st.(body := st.body + FillBytes(n, c), x := cur.x + n);
      return Ok((i + 1, cur.(offset := offset, x := cur.x + n))), next;
    case Skip(n) =>
      var moved;
      moved, next := SkipCommand(buffer, width, origin, commands, i, cur, st);
      return Ok((i + 1, moved)), next;
    case _ =>
      return Ok((i + 1, cur)), st;
  }

  /** The end-of-row branch (src/SLPEncoder.js:151-156): the end-of-row
      byte, then a new row with a zero outline pair that starts after it. */
  method NextLineCommand(buffer: array<byte>, width: int, origin: int, commands: seq<Command>, i: nat, cur: Cursor,
                         ghost st: SerState)
    returns (moved: Cursor, ghost next: SerState)
    requires i < |commands| && commands[i].NextLine? && Tracks(cur, origin, st) && Holds(buffer, origin, st.body)
    modifies buffer
    ensures Step(AsWritten, width, commands[i..], st) == Ok((1, next))
    ensures Tracks(moved, origin, next) && Holds(buffer, origin, next.body)
  {
    var offset := Emit(buffer, origin, st.body, cur.offset, 0x0F);
    next := SerState(st.body + [0x0F], cur.outlines + [RowOutline(0, 0)], st.rowStarts + [|st.body| + 1], 0);
    ShiftSnoc(origin, st.rowStarts, |st.body| + 1);
    moved := Cursor(cur.outlines + [RowOutline(0, 0)], cur.offsets + [offset], offset, 0, cur.y + 1);
  }

  /** The skip branch (src/SLPEncoder.js:177-191): a skip at the start of a
      row becomes the row's left outline (LINE_EMPTY when it spans the row),
      one that ends the row its right outline, and any other is written as
      opcode bytes; `x` advances in every case. */
  method SkipCommand(buffer: array<byte>, width: int, origin: int, commands: seq<Command>, i: nat, cur: Cursor,
                     ghost st: SerState)
    returns (moved: Cursor, ghost next: SerState)
    requires i < |commands| && commands[i].Skip? && Tracks(cur, origin, st) && Holds(buffer, origin, st.body)
    modifies buffer
    ensures Step(AsWritten, width, commands[i..], st) == Ok((1, next))
    ensures Tracks(moved, origin, next) && Holds(buffer, origin, next.body)
  {
    var n := commands[i].count;
    var (outlines, offset, x, y) := (cur.outlines, cur.offset, cur.x, cur.y);
    next := st.(x := x + n);
    if x == 0 {
      if n == width {
        outlines := outlines[y := outlines[y].(left := LINE_EMPTY)];
      } else {
        outlines := outlines[y := outlines[y].(left := n)];
      }
      next := next.(outlines := outlines);
    } else if x + n == width {
      outlines := outlines[y := outlines[y].(right := n)];
      next := next.(outlines := outlines);
    } else {
      offset := WriteSkip(buffer, origin, st.body, offset, n);
      next := next.(body := st.body + SkipBytes(n));
    }
    moved := Cursor(outlines, cur.offsets, offset, x + n, y);
  }

  /** The flush loops and the final cut (src/SLPEncoder.js:196-207). */
  method WriteTables(buffer: array<byte>, height: int, baseOffset: int, outlines: seq<RowOutline>, offsets: seq<int>,
                     offset: int, ghost st: SerState)
    returns (r: Result<seq<byte>>)
    requires outlines == st.outlines && Located(offsets, 8 * height, st.rowStarts)
    requires offset == 8 * height + |st.body| + 1
    modifies buffer
    ensures r == Tables(old(buffer[..]), height, baseOffset, st)
  {
    var ok := WriteOutlines(buffer, outlines);
    if !ok {
      return Err(RangeError);
    }
    ok := WriteOffsets(buffer, height, baseOffset, offsets, st.rowStarts);
    if !ok {
      return Err(RangeError);
    }
    return Ok(Slice(buffer[..], offset));
  }

  /** A fill's opcode bytes (src/SLPEncoder.js:168-176). */
  method WriteFill(buffer: array<byte>, origin: int, ghost body: seq<byte>, offset: int, n: nat, c: nat)
    returns (o: int)
    requires Holds(buffer, origin, body) && offset == origin + |body|
    modifies buffer
    ensures Holds(buffer, origin, body + FillBytes(n, c)) && o == offset + |FillBytes(n, c)|
  {
    if n < 16 {
      o := Emit(buffer, origin, body, offset, 0x07 + n * 16);
      o := Emit(buffer, origin, body + [0x07 + n * 16], o, c);
      assert body + [0x07 + n * 16] + [c % 256] == body + FillBytes(n, c);
    } else {
      o := Emit(buffer, origin, body, offset, 0x07);
      o := Emit(buffer, origin, body + [0x07], o, n);
      assert body + [0x07] + [n % 256] == body + [0x07, n % 256];
      o := Emit(buffer, origin, body + [0x07, n % 256], o, c);
      assert body + [0x07, n % 256] + [c % 256] == body + FillBytes(n, c);
    }
  }

  /** A skip inside a row (src/SLPEncoder.js:184-189). */
  method WriteSkip(buffer: array<byte>, origin: int, ghost body: seq<byte>, offset: int, n: nat)
    returns (o: int)
    requires Holds(buffer, origin, body) && offset == origin + |body|
    modifies buffer
    ensures Holds(buffer, origin, body + SkipBytes(n)) && o == offset + |SkipBytes(n)|
  {
    if n >= 64 {
      o := Emit(buffer, origin, body, offset, 0x01);
      o := Emit(buffer, origin, body + [0x01], o, n);
      assert body + [0x01] + [n % 256] == body + SkipBytes(n);
    } else {
      o := Emit(buffer, origin, body, offset, 0x01 + n * 4);
      assert body + [0x01 + n * 4] == body + SkipBytes(n);
    }
  }

  /** The walk from command `i` is the step there followed by the walk
      from the command it stops before. */
  lemma SerAdvance(width: int, commands: seq<Command>, i: nat, st: SerState, j: nat, next: SerState)
    requires i < j <= |commands| && st.outlines != []
    requires Step(AsWritten, width, commands[i..], st) == Ok((j - i, next))
    ensures Ser(AsWritten, width, commands[i..], st) == Ser(AsWritten, width, commands[j..], next)
  {
    ghost var rest := commands[i..];
    assert rest[j - i..] == commands[j..];
    SerStep(AsWritten, width, rest, st, j - i, next);
  }

  /** One step of the walk followed by the rest of it is the walk. */
  lemma SerStep(variant: Variant, width: int, cmds: seq<Command>, st: SerState, k: nat, next: SerState)
    requires cmds != [] && st.outlines != [] && Step(variant, width, cmds, st) == Ok((k, next))
    ensures Ser(variant, width, cmds, st) == Ser(variant, width, cmds[k..], next)
  {
  }

  /** The outline table loop (src/SLPEncoder.js:199-202). */
  method WriteOutlines(buffer: array<byte>, outlines: seq<RowOutline>) returns (ok: bool)
    modifies buffer
    ensures ok == FlushOutlines(old(buffer[..]), outlines, 0).Ok?
    ensures ok ==> buffer[..] == FlushOutlines(old(buffer[..]), outlines, 0).value
  {
    var j := 0;
    while j < |outlines|
      invariant j <= |outlines|
      invariant FlushOutlines(old(buffer[..]), outlines, 0) == FlushOutlines(buffer[..], outlines, j)
    {
      ghost var before := buffer[..];
      ok := WriteUInt16LE(buffer, outlines[j].left, 4 * j);
      if !ok {
        return;
      }
      ghost var mid := buffer[..];
      ok := WriteUInt16LE(buffer, outlines[j].right, 4 * j + 2);
      if !ok {
        return;
      }
      assert FlushOutlines(before, outlines, j) == FlushOutlines(buffer[..], outlines, j + 1);
      j := j + 1;
    }
    return true;
  }

  /** The row-offset table loop (src/SLPEncoder.js:203-205); `offsets[j]`
      is the position of row `j` within the frame. */
  method WriteOffsets(buffer: array<byte>, height: int, baseOffset: int, offsets: seq<int>, ghost starts: seq<nat>)
    returns (ok: bool)
    requires Located(offsets, 8 * height, starts)
    modifies buffer
    ensures ok == FlushOffsets(old(buffer[..]), height, baseOffset, starts, 0).Ok?
    ensures ok ==> buffer[..] == FlushOffsets(old(buffer[..]), height, baseOffset, starts, 0).value
  {
    var j := 0;
    while j < |offsets|
      invariant j <= |offsets|
      invariant FlushOffsets(old(buffer[..]), height, baseOffset, starts, 0) ==
                FlushOffsets(buffer[..], height, baseOffset, starts, j)
    {
      ghost var before := buffer[..];
      assert baseOffset + offsets[j] == baseOffset + 8 * height + starts[j];
      ok := WriteUInt32LE(buffer, baseOffset + offsets[j], 4 * height + 4 * j);
      if !ok {
        return;
      }
      assert FlushOffsets(before, height, baseOffset, starts, j) == FlushOffsets(buffer[..], height, baseOffset, starts, j + 1);
      j := j + 1;
    }
    return true;
  }

  /** `buffer.writeUInt16LE(v, o)` on the allocated buffer; `ok` is false
      where Node throws its RangeError. */
  method WriteUInt16LE(buffer: array<byte>, v: int, o: int) returns (ok: bool)
    modifies buffer
    ensures ok == WriteU16(old(buffer[..]), v, o).Ok?
    ensures ok ==> buffer[..] == WriteU16(old(buffer[..]), v, o).value
    ensures !ok ==> buffer[..] == old(buffer[..])
  {
    if 0 <= v < 0x1_0000 && 0 <= o && o + 2 <= buffer.Length {
      buffer[o] := v % 256;
      buffer[o + 1] := v / 256;
      assert buffer[..] == old(buffer[..])[..o] + LE16(v) + old(buffer[..])[o + 2..];
      return true;
    }
    return false;
  }

  /** `buffer.writeUInt32LE(v, o)` on the allocated buffer. */
  method WriteUInt32LE(buffer: array<byte>, v: int, o: int) returns (ok: bool)
    modifies buffer
    ensures ok == WriteU32(old(buffer[..]), v, o).Ok?
    ensures ok ==> buffer[..] == WriteU32(old(buffer[..]), v, o).value
    ensures !ok ==> buffer[..] == old(buffer[..])
  {
    if 0 <= v < 0x1_0000_0000 && 0 <= o && o + 4 <= buffer.Length {
      var low, high := v % 0x1_0000, v / 0x1_0000;
      buffer[o] := low % 256;
      buffer[o + 1] := low / 256;
      buffer[o + 2] := high % 256;
      buffer[o + 3] := high / 256;
      assert buffer[..] == old(buffer[..])[..o] + LE32(v) + old(buffer[..])[o + 4..];
      return true;
    }
    return false;
  }

  // ---------------------------------------------------------------------
  // Properties of the walk

  /** Every row the walk opens gets exactly one outline pair and one start:
      a walk that succeeds adds one of each per NextLine. */
  lemma {:induction false} SerRows(variant: Variant, width: int, cmds: seq<Command>, st: SerState)
    requires st.outlines != [] && |st.outlines| == |st.rowStarts| && Ser(variant, width, cmds, st).Ok?
    ensures var r := Ser(variant, width, cmds, st).value;
      |r.outlines| == |r.rowStarts| == |st.outlines| + CountNextLines(cmds)
    decreases |cmds|
  {
    if cmds != [] {
      var p := Step(variant, width, cmds, st).value;
      StepRows(variant, width, cmds, st);
      SerRows(variant, width, cmds[p.0..], p.1);
      assert cmds == cmds[..p.0] + cmds[p.0..];
      CountNextLinesAppend(cmds[..p.0], cmds[p.0..]);
    }
  }

  /** One step opens a row exactly when it consumes a NextLine. */
  lemma StepRows(variant: Variant, width: int, cmds: seq<Command>, st: SerState)
    requires cmds != [] && st.outlines != [] && |st.outlines| == |st.rowStarts| && Step(variant, width, cmds, st).Ok?
    ensures var p := Step(variant, width, cmds, st).value;
      |p.1.outlines| == |p.1.rowStarts| == |st.outlines| + CountNextLines(cmds[..p.0])
  {
    var p := Step(variant, width, cmds, st).value;
    if cmds[0].Color? {
      RunLengthColors(cmds);
      assert NextLine !in cmds[..p.0] by {
        forall j | 0 <= j < p.0 ensures cmds[..p.0][j] != NextLine {
          assert cmds[j].Color?;
        }
      }
      NoNextLineCount(cmds[..p.0]);
    } else {
      assert cmds[..p.0] == [cmds[0]];
      assert [cmds[0]][..0] == [];
    }
  }

  /** The walk as written and the corrected walk differ only where the
      written one fails. */
  lemma {:induction false} SerVariantsAgree(width: int, cmds: seq<Command>, st: SerState)
    requires st.outlines != [] && Ser(AsWritten, width, cmds, st).Ok?
    ensures Ser(AsWritten, width, cmds, st) == Ser(Corrected, width, cmds, st)
    decreases |cmds|
  {
    if cmds != [] {
      var p := Step(AsWritten, width, cmds, st).value;
      assert Step(Corrected, width, cmds, st) == Ok(p);
      SerVariantsAgree(width, cmds[p.0..], p.1);
    }
  }

  // ---------------------------------------------------------------------
  // The frame layout

  /** What a successful frame holds, for a command list with fewer
      NextLines than the frame has rows: one outline pair per row the walk
      opened, as 16-bit values at four times the row number; one offset per
      such row in the second table, `base` plus the row's position in the
      frame; the stream with its final end-of-row byte from `8 * height`
      on; and exactly the bytes written, unless the buffer ran out first. */
  lemma FrameLayout(variant: Variant, width: int, height: int, cmds: seq<Command>, base: int, st: SerState, frame: seq<byte>)
    requires CountNextLines(cmds) < height
    requires Ser(variant, width, cmds, Start) == Ok(st) && FrameBytes(variant, width, height, cmds, base) == Ok(frame)
    ensures var cap := Capacity(variant, height, |cmds|);
      |frame| == if 8 * height + |st.body| + 1 <= cap then 8 * height + |st.body| + 1 else cap
    ensures |st.outlines| == |st.rowStarts| == CountNextLines(cmds) + 1 <= height
    ensures forall j :: 0 <= j < |st.outlines| ==>
      U16At(frame, 4 * j) == st.outlines[j].left && U16At(frame, 4 * j + 2) == st.outlines[j].right
    ensures forall j :: 0 <= j < |st.rowStarts| ==> U32At(frame, 4 * height + 4 * j) == base + 8 * height + st.rowStarts[j]
    ensures forall p :: 8 * height <= p < |frame| ==> frame[p] == (st.body + [0x0F])[p - 8 * height]
  {
    SerRows(variant, width, cmds, Start);
    TablesLayout(Capacity(variant, height, |cmds|), height, base, st, frame);
  }

  /** The same, for the stream stored in a zeroed buffer of `cap` bytes and
      the tables back-filled. */
  lemma TablesLayout(cap: nat, height: int, base: int, st: SerState, frame: seq<byte>)
    requires |st.outlines| == |st.rowStarts| <= height && 8 * height <= cap
    requires Tables(PutAll(Zeros(cap), 8 * height, st.body + [0x0F]), height, base, st) == Ok(frame)
    ensures |frame| == if 8 * height + |st.body| + 1 <= cap then 8 * height + |st.body| + 1 else cap
    ensures forall j :: 0 <= j < |st.outlines| ==>
      U16At(frame, 4 * j) == st.outlines[j].left && U16At(frame, 4 * j + 2) == st.outlines[j].right
    ensures forall j :: 0 <= j < |st.rowStarts| ==> U32At(frame, 4 * height + 4 * j) == base + 8 * height + st.rowStarts[j]
    ensures forall p :: 8 * height <= p < |frame| ==> frame[p] == (st.body + [0x0F])[p - 8 * height]
  {
    var written := PutAll(Zeros(cap), 8 * height, st.body + [0x0F]);
    TablesParts(written, height, base, st);
    forall j | 0 <= j < |st.outlines|
      ensures U16At(frame, 4 * j) == st.outlines[j].left && U16At(frame, 4 * j + 2) == st.outlines[j].right
    {
      TablesOutlineAt(written, height, base, st, j);
    }
    forall j | 0 <= j < |st.rowStarts|
      ensures U32At(frame, 4 * height + 4 * j) == base + 8 * height + st.rowStarts[j]
    {
      TablesOffsetAt(written, height, base, st, j);
    }
    forall p | 8 * height <= p < |frame|
      ensures frame[p] == (st.body + [0x0F])[p - 8 * height]
    {
      TablesKeepsAt(written, height, base, st, p);
      PutAllAt(Zeros(cap), 8 * height, st.body + [0x0F]);
    }
  }

  /** Unfolds a successful Tables into its two back-fills and the cut. */
  lemma TablesParts(written: seq<byte>, height: int, base: int, st: SerState)
    requires Tables(written, height, base, st).Ok?
    ensures FlushOutlines(written, st.outlines, 0).Ok?
    ensures FlushOffsets(FlushOutlines(written, st.outlines, 0).value, height, base, st.rowStarts, 0).Ok?
    ensures Tables(written, height, base, st).value ==
      Slice(FlushOffsets(FlushOutlines(written, st.outlines, 0).value, height, base, st.rowStarts, 0).value, 8 * height + |st.body| + 1)
  {
  }

  lemma TablesOutlineAt(written: seq<byte>, height: int, base: int, st: SerState, j: nat)
    requires Tables(written, height, base, st).Ok? && |st.outlines| <= height && 8 * height <= |written|
    requires j < |st.outlines|
    ensures var frame := Tables(written, height, base, st).value;
      4 * j + 4 <= |frame| && U16At(frame, 4 * j) == st.outlines[j].left && U16At(frame, 4 * j + 2) == st.outlines[j].right
  {
    TablesParts(written, height, base, st);
    var withOutlines := FlushOutlines(written, st.outlines, 0).value;
    FlushOutlinesLayout(written, st.outlines, 0);
    FlushOffsetsLayout(withOutlines, height, base, st.rowStarts, 0);
    var frame := Tables(written, height, base, st).value;
    var withOffsets := FlushOffsets(withOutlines, height, base, st.rowStarts, 0).value;
    assert frame[4 * j] == withOffsets[4 * j] == withOutlines[4 * j];
    assert frame[4 * j + 1] == withOffsets[4 * j + 1] == withOutlines[4 * j + 1];
    assert frame[4 * j + 2] == withOffsets[4 * j + 2] == withOutlines[4 * j + 2];
    assert frame[4 * j + 3] == withOffsets[4 * j + 3] == withOutlines[4 * j + 3];
  }

  lemma TablesOffsetAt(written: seq<byte>, height: int, base: int, st: SerState, j: nat)
    requires Tables(written, height, base, st).Ok? && |st.rowStarts| <= height && 8 * height <= |written|
    requires j < |st.rowStarts|
    ensures var frame := Tables(written, height, base, st).value;
      4 * height + 4 * j + 4 <= |frame| && U32At(frame, 4 * height + 4 * j) == base + 8 * height + st.rowStarts[j]
  {
    TablesParts(written, height, base, st);
    var withOutlines := FlushOutlines(written, st.outlines, 0).value;
    FlushOffsetsLayout(withOutlines, height, base, st.rowStarts, 0);
    var frame := Tables(written, height, base, st).value;
    var withOffsets := FlushOffsets(withOutlines, height, base, st.rowStarts, 0).value;
    var o := 4 * height + 4 * j;
    assert frame[o] == withOffsets[o] && frame[o + 1] == withOffsets[o + 1];
    assert frame[o + 2] == withOffsets[o + 2] && frame[o + 3] == withOffsets[o + 3];
  }

  lemma TablesKeepsAt(written: seq<byte>, height: int, base: int, st: SerState, p: int)
    requires Tables(written, height, base, st).Ok? && |st.outlines| <= height && |st.rowStarts| <= height
    requires 0 <= 8 * height <= p < |Tables(written, height, base, st).value|
    ensures p < |written| && Tables(written, height, base, st).value[p] == written[p]
  {
    TablesParts(written, height, base, st);
    var withOutlines := FlushOutlines(written, st.outlines, 0).value;
    FlushOutlinesLayout(written, st.outlines, 0);
    FlushOffsetsLayout(withOutlines, height, base, st.rowStarts, 0);
  }

  /** A frame is produced exactly when the walk succeeds, every outline
      half fits 16 bits and every row offset fits 32 bits; the table
      entries themselves always lie inside the buffer. */
  lemma FrameOk(variant: Variant, width: int, height: int, cmds: seq<Command>, base: int)
    requires CountNextLines(cmds) < height
    ensures FrameBytes(variant, width, height, cmds, base).Ok? <==>
      Ser(variant, width, cmds, Start).Ok? && TablesFit(height, base, Ser(variant, width, cmds, Start).value)
  {
    var walk := Ser(variant, width, cmds, Start);
    if walk.Ok? {
      SerRows(variant, width, cmds, Start);
      var cap := Capacity(variant, height, |cmds|);
      var written := PutAll(Zeros(cap), 8 * height, walk.value.body + [0x0F]);
      assert FrameBytes(variant, width, height, cmds, base) == Tables(written, height, base, walk.value);
      TablesOk(written, height, base, walk.value);
    }
  }

  /** Every outline half fits 16 bits and every row offset, `base` plus the
      row's position in the frame, fits 32 bits. */
  ghost predicate TablesFit(height: int, base: int, st: SerState) {
    && (forall j :: 0 <= j < |st.outlines| ==> st.outlines[j].left < 0x1_0000 && st.outlines[j].right < 0x1_0000)
    && (forall j :: 0 <= j < |st.rowStarts| ==> 0 <= base + 8 * height + st.rowStarts[j] < 0x1_0000_0000)
  }

  lemma TablesOk(written: seq<byte>, height: int, base: int, st: SerState)
    requires 0 <= height && |st.outlines| <= height && |st.rowStarts| <= height && 8 * height <= |written|
    ensures Tables(written, height, base, st).Ok? <==> TablesFit(height, base, st)
  {
    FlushOutlinesOk(written, st.outlines, 0);
    var withOutlines := FlushOutlines(written, st.outlines, 0);
    if withOutlines.Ok? {
      FlushOffsetsOk(withOutlines.value, height, base, st.rowStarts, 0);
    }
  }

  /** With the corrected capacity the frame is never cut: it is the two
      tables followed by the whole stream and its final end-of-row byte. */
  lemma CorrectedFrameKeepsStream(width: int, height: int, cmds: seq<Command>, base: int, frame: seq<byte>)
    requires CountNextLines(cmds) < height
    requires FrameBytes(Corrected, width, height, cmds, base) == Ok(frame)
    ensures Ser(Corrected, width, cmds, Start).Ok?
    ensures var st := Ser(Corrected, width, cmds, Start).value;
      |frame| == 8 * height + |st.body| + 1 && frame[8 * height..] == st.body + [0x0F]
  {
    FrameOk(Corrected, width, height, cmds, base);
    var st := Ser(Corrected, width, cmds, Start).value;
    FrameLayout(Corrected, width, height, cmds, base, st, frame);
    assert frame[8 * height..] == st.body + [0x0F] by {
      forall p | 0 <= p < |st.body| + 1 ensures frame[8 * height..][p] == (st.body + [0x0F])[p] {
        assert frame[8 * height + p] == (st.body + [0x0F])[8 * height + p - 8 * height];
      }
    }
  }

  /** A 16-pixel fill on a one-row frame 16 pixels wide: the stream and its
      end-of-row byte need 4 bytes after the 8-byte tables, but as written
      the buffer holds 10, so the fill's colour byte and the end-of-row byte
      are lost; with the corrected capacity all 12 bytes are kept. */
  lemma UndersizedFill(c: nat, base: int)
    requires 0 <= base && base + 8 < 0x1_0000_0000
    ensures var st := Ser(AsWritten, 16, [Fill(16, c)], Start);
      st.Ok? && 8 + |st.value.body| + 1 == 12
    ensures var f := FrameBytes(AsWritten, 16, 1, [Fill(16, c)], base);
      f.Ok? && |f.value| == 10
    ensures var f := FrameBytes(Corrected, 16, 1, [Fill(16, c)], base);
      f.Ok? && |f.value| == 12
  {
    var cmds := [Fill(16, c)];
    assert CountNextLines(cmds) == 0 by {
      assert cmds[..0] == [];
    }
    var st := Start.(body := Start.body + FillBytes(16, c), x := 16);
    assert cmds[1..] == [];
    assert Ser(AsWritten, 16, cmds, Start) == Ok(st) by {
      assert Step(AsWritten, 16, cmds, Start) == Ok((1, st));
    }
    assert Ser(Corrected, 16, cmds, Start) == Ok(st) by {
      assert Step(Corrected, 16, cmds, Start) == Ok((1, st));
    }
    assert TablesFit(1, base, st);
    FrameOk(AsWritten, 16, 1, cmds, base);
    FrameOk(Corrected, 16, 1, cmds, base);
    FrameLayout(AsWritten, 16, 1, cmds, base, st, FrameBytes(AsWritten, 16, 1, cmds, base).value);
    FrameLayout(Corrected, 16, 1, cmds, base, st, FrameBytes(Corrected, 16, 1, cmds, base).value);
  }

  /** A frame whose only command is a Color: as written the scan for the
      run's end reads past the list and fails; corrected, the run ends with
      the list and the frame holds its count byte, its index and the
      end-of-row byte after the tables. */
  lemma TrailingColorRun(c: nat, base: int)
    requires 0 <= base && base + 8 < 0x1_0000_0000
    ensures FrameBytes(AsWritten, 1, 1, [Color(c)], base) == Err(CommandsEnded)
    ensures var f := FrameBytes(Corrected, 1, 1, [Color(c)], base);
      f.Ok? && f.value[8..] == [4, c % 256, 0x0F]
  {
    var cmds := [Color(c)];
    assert CountNextLines(cmds) == 0 by {
      assert cmds[..0] == [];
    }
    assert RunLength(cmds) == 1;
    assert cmds[..1] == cmds && cmds[1..] == [];
    var st := Start.(body := Start.body + RunBytes(cmds[..1]), x := 1);
    assert Ser(Corrected, 1, cmds, Start) == Ok(st) by {
      assert Step(Corrected, 1, cmds, Start) == Ok((1, st));
    }
    assert TablesFit(1, base, st);
    FrameOk(Corrected, 1, 1, cmds, base);
    CorrectedFrameKeepsStream(1, 1, cmds, base, FrameBytes(Corrected, 1, 1, cmds, base).value);
    assert RunBytes(cmds) == [4, c % 256];
  }
}
