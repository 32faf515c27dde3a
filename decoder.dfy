/** The frame decoder: `SLP.prototype.parseFrame` (src/SLP.js:99-193).  It
    reads a frame's outline table, then walks its opcode stream with a byte
    cursor until it has seen one end-of-row byte per row. */
module Decoder {
  import opened SlpTypes
  import opened Opcodes

  /** A frame directory entry, as the header parser delivers it. */
  datatype FrameEntry = FrameEntry(
    cmdTableOffset: nat,
    outlineTableOffset: nat,
    paletteOffset: nat,
    properties: nat,
    width: int,
    height: int,
    hotspotX: int,
    hotspotY: int)

  /** What parseFrame attaches to a frame: `outlines` and `commands`. */
  datatype Decoded = Decoded(outlines: seq<RowOutline>, commands: seq<Command>)

  /** What one opcode byte (with its operands) contributes: the commands it
      emits, the offset of the next opcode, and whether it ended a row. */
  datatype Emitted = Emitted(cmds: seq<Command>, next: nat, endOfRow: bool)

  // ---------------------------------------------------------------------
  // Outline table

  /** `n` outline pairs starting at `o`, each two little-endian 16-bit values;
      `readUInt16LE` throws a RangeError when a pair runs past the buffer. */
  function ReadOutlines(buf: seq<byte>, o: nat, n: nat): (r: Result<seq<RowOutline>>)
    ensures r.Ok? <==> o + 4 * n <= |buf| || n == 0
    ensures r.Err? ==> r.error == RangeError
    ensures r.Ok? ==> |r.value| == n
    ensures r.Ok? ==> forall i :: 0 <= i < n ==>
      r.value[i] == RowOutline(U16At(buf, o + 4 * i), U16At(buf, o + 4 * i + 2))
    decreases n
  {
    if n == 0 then Ok([])
    else if o + 4 > |buf| then Err(RangeError)
    else Prepend([RowOutline(U16At(buf, o), U16At(buf, o + 2))], ReadOutlines(buf, o + 4, n - 1))
  }

  // ---------------------------------------------------------------------
  // Opcode stream

  /** `orNext(x)` (src/SLP.js:106): an inline count `x` as it is, or, when `x`
      is zero, the byte after the cursor `o`, with the cursor moved onto it.
      The result is the count and the new cursor. */
  function OrNext(buf: seq<byte>, o: nat, x: nat): (r: Result<(nat, nat)>)
    ensures x != 0 ==> r == Ok((x, o))
    ensures x == 0 && o + 1 < |buf| ==> r == Ok((buf[o + 1] as nat, o + 1))
    ensures x == 0 && o + 1 >= |buf| ==> r == Err(ReadPastEnd)
  {
    if x != 0 then Ok((x, o))
    else if o + 1 < |buf| then Ok((buf[o + 1] as nat, o + 1))
    else Err(ReadPastEnd)
  }

  /** One Color per byte. */
  function Colors(bytes: seq<byte>): (cs: seq<Command>)
    ensures |cs| == |bytes| && forall i :: 0 <= i < |bytes| ==> cs[i] == Color(bytes[i])
  {
    seq(|bytes|, i requires 0 <= i < |bytes| => Color(bytes[i]))
  }

  /** One PlayerColor per byte. */
  function PlayerColors(bytes: seq<byte>): (cs: seq<Command>)
    ensures |cs| == |bytes| && forall i :: 0 <= i < |bytes| ==> cs[i] == PlayerColor(bytes[i])
  {
    seq(|bytes|, i requires 0 <= i < |bytes| => PlayerColor(bytes[i]))
  }

  /** The `n` bytes after the cursor `o`, read one by one as the source's
      `while (pxCount--) { offset++; ... }` loops do. */
  function ListAfter(buf: seq<byte>, o: nat, n: nat, player: bool): (r: Result<Emitted>)
    ensures r.Ok? <==> o + n < |buf|
    ensures r.Ok? ==> r.value.next == o + n + 1 && !r.value.endOfRow
    ensures r.Ok? ==> r.value.cmds == if player then PlayerColors(buf[o + 1..o + n + 1]) else Colors(buf[o + 1..o + n + 1])
  {
    if o + n < |buf| then
      var bytes := buf[o + 1..o + n + 1];
      Ok(Emitted(if player then PlayerColors(bytes) else Colors(bytes), o + n + 1, false))
    else Err(ReadPastEnd)
  }

  /** The five opcode forms whose count goes through orNext. */
  datatype CountedForm = SkipForm | PlayerColorForm | FillForm | PlayerFillForm | ShadowForm

  /** An opcode of one of the orNext forms with inline count `x`: the count
      (src/SLP.js:136, 150, 156, 160, 164), then the command or commands; fill
      and player-fill take the byte after the count as their colour. */
  function Counted(buf: seq<byte>, o: nat, x: nat, form: CountedForm): (r: Result<Emitted>)
    requires o < |buf|
    ensures r.Ok? ==> o < r.value.next <= |buf| && !r.value.endOfRow && NextLine !in r.value.cmds
    ensures r.Err? ==> r.error == ReadPastEnd
  {
    var cp :- OrNext(buf, o, x);
    var count := cp.0;
    var p := cp.1;
    match form
    case SkipForm => Ok(Emitted([Skip(count)], p + 1, false))
    case ShadowForm => Ok(Emitted([Shadow(count)], p + 1, false))
    case PlayerColorForm => ListAfter(buf, p, count, true)
    case FillForm =>
      if p + 1 < |buf| then Ok(Emitted([Fill(count, buf[p + 1])], p + 2, false)) else Err(ReadPastEnd)
    case PlayerFillForm =>
      if p + 1 < |buf| then Ok(Emitted([PlayerFill(count, buf[p + 1])], p + 2, false)) else Err(ReadPastEnd)
  }

  /** The extended opcodes (low nibble 0x0E), dispatched on the high nibble. */
  function ExtendedStep(buf: seq<byte>, o: nat, high: nat): (r: Result<Emitted>)
    requires o < |buf|
    ensures r.Ok? ==> o < r.value.next <= |buf| && !r.value.endOfRow && NextLine !in r.value.cmds
    ensures r.Err? ==> r.error == ReadPastEnd
  {
    if high == 4 then Ok(Emitted([Outline(1)], o + 1, false))
    else if high == 6 then Ok(Emitted([Outline(2)], o + 1, false))
    else if high == 5 || high == 7 then
      if o + 1 < |buf| then Ok(Emitted(Repeat(Outline(if high == 5 then 1 else 2), buf[o + 1]), o + 2, false))
      else Err(ReadPastEnd)
    else Ok(Emitted([], o + 1, false))
  }

  /** The effect of the opcode at `o`: one pass of the loop body at
      src/SLP.js:121-187, including its closing `offset++`. */
  function Step(buf: seq<byte>, o: nat): (r: Result<Emitted>)
    requires o < |buf|
    ensures r.Ok? ==> o < r.value.next <= |buf|
    ensures r.Ok? ==> (r.value.endOfRow <==> buf[o] % 16 == 0x0F)
    ensures r.Ok? && r.value.endOfRow ==> r.value.cmds == [NextLine] && r.value.next == o + 1
    ensures r.Ok? && !r.value.endOfRow ==> NextLine !in r.value.cmds
    ensures r.Err? ==> r.error == ReadPastEnd
  {
    match Classify(buf[o])
    case EndOfRow(_) => Ok(Emitted([NextLine], o + 1, true))
    case ColorList(n) => ListAfter(buf, o, n, false)
    case SkipShort(n) => Counted(buf, o, n, SkipForm)
    case ColorListEx(high) =>
      if o + 1 < |buf| then ListAfter(buf, o + 1, high * 256 + buf[o + 1], false)
      else Err(ReadPastEnd)
    case SkipEx(high) =>
      if o + 1 < |buf| then Ok(Emitted([Skip(high * 256 + buf[o + 1])], o + 2, false))
      else Err(ReadPastEnd)
    case PlayerColorList(n) => Counted(buf, o, n, PlayerColorForm)
    case FillRun(n) => Counted(buf, o, n, FillForm)
    case PlayerFillRun(n) => Counted(buf, o, n, PlayerFillForm)
    case ShadowRun(n) => Counted(buf, o, n, ShadowForm)
    case Extended(high) => ExtendedStep(buf, o, high)
  }

  /** The commands of the opcode stream from `o` until `rows` more end-of-row
      bytes have been read. */
  function DecodeOps(buf: seq<byte>, o: nat, rows: nat): (r: Result<seq<Command>>)
    decreases |buf| - o
  {
    if rows == 0 then Ok([])
    else if o >= |buf| then Err(ReadPastEnd)
    else
      var e :- Step(buf, o);
      Prepend(e.cmds, DecodeOps(buf, e.next, if e.endOfRow then rows - 1 else rows))
  }

  /** parseFrame as a function of the buffer and the directory entry. */
  function DecodeFrameSpec(buf: seq<byte>, entry: FrameEntry): Result<Decoded> {
    var outlines :- ReadOutlines(buf, entry.outlineTableOffset, Rows(entry.height));
    var commands :- DecodeOps(buf, entry.cmdTableOffset + 4 * Rows(entry.height), Rows(entry.height));
    Ok(Decoded(outlines, commands))
  }

  // ---------------------------------------------------------------------
  // Properties of the specification

  /** The scan stops right after the `rows`-th end-of-row byte: the commands
      hold exactly `rows` NextLines and end with one. */
  lemma {:induction false} DecodeOpsRows(buf: seq<byte>, o: nat, rows: nat)
    requires DecodeOps(buf, o, rows).Ok?
    ensures CountNextLines(DecodeOps(buf, o, rows).value) == rows
    ensures rows > 0 ==> (|DecodeOps(buf, o, rows).value| > 0 &&
      DecodeOps(buf, o, rows).value[|DecodeOps(buf, o, rows).value| - 1] == NextLine)
    decreases |buf| - o
  {
    if rows > 0 {
      var e := Step(buf, o).value;
      var rows' := if e.endOfRow then rows - 1 else rows;
      var rest := DecodeOps(buf, e.next, rows').value;
      DecodeOpsRows(buf, e.next, rows');
      CountNextLinesAppend(e.cmds, rest);
      if !e.endOfRow {
        assert CountNextLines(e.cmds) == 0 by { NoNextLineCount(e.cmds); }
      }
    }
  }

  /** A decoded frame has one outline pair per row and one NextLine per row,
      the last command being a NextLine. */
  lemma DecodedFrameShape(buf: seq<byte>, entry: FrameEntry)
    requires DecodeFrameSpec(buf, entry).Ok?
    ensures |DecodeFrameSpec(buf, entry).value.outlines| == Rows(entry.height)
    ensures CountNextLines(DecodeFrameSpec(buf, entry).value.commands) == Rows(entry.height)
    ensures Rows(entry.height) > 0 ==> DecodeFrameSpec(buf, entry).value.commands[|DecodeFrameSpec(buf, entry).value.commands| - 1] == NextLine
  {
    DecodeOpsRows(buf, entry.cmdTableOffset + 4 * Rows(entry.height), Rows(entry.height));
  }

  /** orNext is used by the skip, player-colour, fill, player-fill and shadow
      forms: an inline count of n (1 to 63 for the skip, whose count is
      `cmd >> 2`, and 1 to 15 for the others, whose count is the high nibble)
      reads the same as a zero count followed by the byte n, one byte later. */
  lemma ExtendedCountEquivalence(op: Opcode, n: byte, rest: seq<byte>)
    requires op.SkipShort? || op.PlayerColorList? || op.FillRun? || op.PlayerFillRun? || op.ShadowRun?
    requires op.count == 0 && 0 < n < (if op.SkipShort? then 64 else 16)
    ensures var inline := [OpcodeByte(op.(count := n)) as byte] + rest;
            var extended := [OpcodeByte(op) as byte, n] + rest;
            (Step(inline, 0).Ok? <==> Step(extended, 0).Ok?) &&
            (Step(inline, 0).Ok? ==>
               Step(inline, 0).value.cmds == Step(extended, 0).value.cmds &&
               Step(extended, 0).value.next == Step(inline, 0).value.next + 1)
  {
    var inline := [OpcodeByte(op.(count := n)) as byte] + rest;
    var extended := [OpcodeByte(op) as byte, n] + rest;
    ClassifyOpcodeByte(op);
    ClassifyOpcodeByte(op.(count := n));
    assert inline[1..] == rest && extended[2..] == rest;
    if op.PlayerColorList? {
      if n < |rest| {
        assert inline[1..n + 1] == extended[2..n + 2];
      }
    }
  }

  /** The two colour-list forms never take an orNext count: an inline count
      of zero emits nothing and does not look at the next byte. */
  lemma ColorListZero(buf: seq<byte>, o: nat)
    requires o < |buf| && buf[o] == 0
    ensures Step(buf, o) == Ok(Emitted([], o + 1, false))
  {
    ClassifyOpcodeByte(ColorList(0));
  }

  /** An extended opcode (low nibble 0x0E) whose high nibble is not 4 to 7
      emits nothing and consumes one byte. */
  lemma UnknownExtendedIsNoOp(buf: seq<byte>, o: nat)
    requires o < |buf| && buf[o] % 16 == 0x0E && buf[o] / 16 !in {4, 5, 6, 7}
    ensures Step(buf, o) == Ok(Emitted([], o + 1, false))
  {
  }

  /** The extended colour list and extended skip take `(cmd >> 4) * 256` plus
      the next byte as their count; fill and player-fill emit one command whose
      colour is the byte after the count. */
  lemma ExtendedCounts(buf: seq<byte>, o: nat)
    requires o + 2 < |buf|
    ensures buf[o] % 16 == 0x03 ==> Step(buf, o) == Ok(Emitted([Skip((buf[o] as int) / 16 * 256 + buf[o + 1] as int)], o + 2, false))
    ensures buf[o] % 16 == 0x02 ==> Step(buf, o) == ListAfter(buf, o + 1, (buf[o] as int) / 16 * 256 + buf[o + 1] as int, false)
    ensures buf[o] % 16 == 0x07 && buf[o] / 16 != 0 ==> Step(buf, o) == Ok(Emitted([Fill(buf[o] / 16, buf[o + 1])], o + 2, false))
    ensures buf[o] % 16 == 0x07 && buf[o] / 16 == 0 ==> Step(buf, o) == Ok(Emitted([Fill(buf[o + 1], buf[o + 2])], o + 3, false))
    ensures buf[o] % 16 == 0x0A && buf[o] / 16 != 0 ==> Step(buf, o) == Ok(Emitted([PlayerFill(buf[o] / 16, buf[o + 1])], o + 2, false))
    ensures buf[o] % 16 == 0x0A && buf[o] / 16 == 0 ==> Step(buf, o) == Ok(Emitted([PlayerFill(buf[o + 1], buf[o + 2])], o + 3, false))
  {
  }

  // ---------------------------------------------------------------------
  // The imperative decoder

  /** parseFrame's two loops: the outline table, then the opcode stream. */
  method DecodeFrame(buf: seq<byte>, entry: FrameEntry) returns (r: Result<Decoded>)
    ensures r == DecodeFrameSpec(buf, entry)
  {
    var height := Rows(entry.height);
    var outlines := ReadOutlineTable(buf, entry.outlineTableOffset, height);
    if outlines.Err? {
      return Err(outlines.error);
    }
    var commands := DecodeOpcodes(buf, entry.cmdTableOffset + 4 * height, height);
    if commands.Err? {
      return Err(commands.error);
    }
    return Ok(Decoded(outlines.value, commands.value));
  }

  /** The loop at src/SLP.js:108-113: one pair per row, four bytes apart. */
  method ReadOutlineTable(buf: seq<byte>, start: nat, height: nat) returns (r: Result<seq<RowOutline>>)
    ensures r == ReadOutlines(buf, start, height)
  {
    var outlines: seq<RowOutline> := [];
    var offset: nat := start;
    var i := 0;
    PrependNil(ReadOutlines(buf, offset, height));
    while i < height
      invariant 0 <= i <= height && offset == start + 4 * i
      invariant ReadOutlines(buf, start, height) == Prepend(outlines, ReadOutlines(buf, offset, height - i))
    {
      if offset + 4 > |buf| {
        return Err(RangeError);
      }
      var left := U16At(buf, offset);
      var right := U16At(buf, offset + 2);
      PrependAssoc(outlines, [RowOutline(left, right)], ReadOutlines(buf, offset + 4, height - i - 1));
      outlines := outlines + [RowOutline(left, right)];
      offset := offset + 4;
      i := i + 1;
    }
    assert outlines + [] == outlines;
    return Ok(outlines);
  }

  /** The loop at src/SLP.js:120-188: the cursor `offset` walks the opcode
      stream and `y` counts end-of-row bytes. */
  method DecodeOpcodes(buf: seq<byte>, start: nat, height: nat) returns (r: Result<seq<Command>>)
    ensures r == DecodeOps(buf, start, height)
  {
    var offset := start;
    var commands: seq<Command> := [];
    var y := 0;
    PrependNil(DecodeOps(buf, offset, height));
    while y < height
      invariant 0 <= y <= height
      invariant DecodeOps(buf, start, height) == Prepend(commands, DecodeOps(buf, offset, height - y))
      decreases |buf| - offset, height - y
    {
      if offset >= |buf| {
        return Err(ReadPastEnd);
      }
      ghost var before := commands;
      var e := StepAt(buf, offset);
      if e.Err? {
        return Err(e.error);
      }
      commands := commands + e.value.cmds;
      offset := e.value.next;
      if e.value.endOfRow {
        y := y + 1;
      }
      PrependAssoc(before, e.value.cmds, DecodeOps(buf, offset, height - y));
    }
    assert commands + [] == commands;
    return Ok(commands);
  }

  /** The body of parseFrame's opcode loop for the byte at `o`: the
      dispatch through Classify, in the source's order. */
  method StepAt(buf: seq<byte>, o: nat) returns (r: Result<Emitted>)
    requires o < |buf|
    ensures r == Step(buf, o)
  {
    var offset := o;
    var cmd := buf[offset];
    match Classify(cmd) {
      case EndOfRow(_) =>
        r := Ok(Emitted([NextLine], offset + 1, true));
      case ColorList(n) =>
        var commands;
        commands, offset := ReadList(buf, offset, n, false);
        if offset == |buf| {
          return Err(ReadPastEnd);
        }
        r := Ok(Emitted(commands, offset + 1, false));
      case SkipShort(n) =>
        r := CountedAt(buf, offset, n, SkipForm);
      case ColorListEx(high) =>
        offset := offset + 1;
        if offset >= |buf| {
          return Err(ReadPastEnd);
        }
        var commands;
        commands, offset := ReadList(buf, offset, high * 256 + buf[offset], false);
        if offset == |buf| {
          return Err(ReadPastEnd);
        }
        r := Ok(Emitted(commands, offset + 1, false));
      case SkipEx(high) =>
        offset := offset + 1;
        if offset >= |buf| {
          return Err(ReadPastEnd);
        }
        r := Ok(Emitted([Skip(high * 256 + buf[offset])], offset + 1, false));
      case PlayerColorList(n) =>
        r := CountedAt(buf, offset, n, PlayerColorForm);
      case FillRun(n) =>
        r := CountedAt(buf, offset, n, FillForm);
      case PlayerFillRun(n) =>
        r := CountedAt(buf, offset, n, PlayerFillForm);
      case ShadowRun(n) =>
        r := CountedAt(buf, offset, n, ShadowForm);
      case Extended(high) =>
        r := ExtendedAt(buf, offset, high);
    }
  }

  /** The five orNext branches of the loop body. */
  method CountedAt(buf: seq<byte>, o: nat, x: nat, form: CountedForm) returns (r: Result<Emitted>)
    requires o < |buf|
    ensures r == Counted(buf, o, x, form)
  {
    var cp := OrNext(buf, o, x);
    if cp.Err? {
      return Err(cp.error);
    }
    var pxCount := cp.value.0;
    var offset := cp.value.1;
    match form {
      case SkipForm =>
        r := Ok(Emitted([Skip(pxCount)], offset + 1, false));
      case ShadowForm =>
        r := Ok(Emitted([Shadow(pxCount)], offset + 1, false));
      case PlayerColorForm =>
        var commands;
        commands, offset := ReadList(buf, offset, pxCount, true);
        if offset == |buf| {
          return Err(ReadPastEnd);
        }
        r := Ok(Emitted(commands, offset + 1, false));
      case FillForm =>
        offset := offset + 1;
        if offset >= |buf| {
          return Err(ReadPastEnd);
        }
        r := Ok(Emitted([Fill(pxCount, buf[offset])], offset + 1, false));
      case PlayerFillForm =>
        offset := offset + 1;
        if offset >= |buf| {
          return Err(ReadPastEnd);
        }
        r := Ok(Emitted([PlayerFill(pxCount, buf[offset])], offset + 1, false));
    }
  }

  /** The extended-opcode branch of the loop body; the two repeated-outline
      forms push one Outline per count, as `while (pxCount--)` does. */
  method ExtendedAt(buf: seq<byte>, o: nat, high: nat) returns (r: Result<Emitted>)
    requires o < |buf|
    ensures r == ExtendedStep(buf, o, high)
  {
    var commands: seq<Command> := [];
    var offset := o;
    if high == 4 {
      commands := [Outline(1)];
    } else if high == 6 {
      commands := [Outline(2)];
    } else if high == 5 || high == 7 {
      offset := offset + 1;
      if offset >= |buf| {
        return Err(ReadPastEnd);
      }
      var thickness := if high == 5 then 1 else 2;
      var pxCount := buf[offset];
      while pxCount > 0
        invariant 0 <= pxCount <= buf[offset]
        invariant commands == Repeat(Outline(thickness), buf[offset] - pxCount)
      {
        commands := commands + [Outline(thickness)];
        pxCount := pxCount - 1;
      }
    }
    r := Ok(Emitted(commands, offset + 1, false));
  }

  /** A `while (pxCount--) { offset++; commands.push(...buf[offset]) }` loop.
      It stops at the end of the buffer, returning the cursor |buf| there. */
  method ReadList(buf: seq<byte>, o: nat, n: nat, player: bool) returns (cmds: seq<Command>, offset: nat)
    requires o < |buf|
    ensures offset <= |buf| && (offset == |buf| <==> o + n >= |buf|)
    ensures offset < |buf| ==> (offset == o + n &&
      cmds == if player then PlayerColors(buf[o + 1..o + n + 1]) else Colors(buf[o + 1..o + n + 1]))
  {
    cmds := [];
    offset := o;
    var pxCount: nat := n;
    while pxCount > 0
      invariant pxCount <= n && offset == o + n - pxCount && offset < |buf|
      invariant cmds == if player then PlayerColors(buf[o + 1..offset + 1]) else Colors(buf[o + 1..offset + 1])
    {
      offset := offset + 1;
      if offset >= |buf| {
        return;
      }
      cmds := cmds + [if player then PlayerColor(buf[offset]) else Color(buf[offset])];
      pxCount := pxCount - 1;
    }
  }
}
