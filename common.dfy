/** Values shared by every part of the SLP codec: bytes, render commands,
    per-row outlines, errors and a few sequence helpers. */
module SlpTypes {

  /** One octet of a Node `Buffer` or of an RGBA pixel array. */
  type byte = b: int | 0 <= b < 256

  /** The render-command sequence, the value that the decoder produces and the
      renderer consumes, and that the command builder produces and the
      serialiser consumes.  Payloads are unbounded here; the serialiser says
      where a payload is cut down to a byte. */
  datatype Command =
    | NextLine
    | Color(index: nat)
    | Skip(count: nat)
    | PlayerColor(index: nat)
    | Shadow(count: nat)
    | Outline(thickness: nat)
    | Fill(count: nat, color: nat)
    | PlayerFill(count: nat, color: nat)

  /** Leading and trailing transparent pixels of one row. */
  datatype RowOutline = RowOutline(left: nat, right: nat)

  /** The left-outline value that marks a row as entirely transparent. */
  const LINE_EMPTY: nat := 0x8000

  /** A palette entry. */
  datatype RGB = RGB(r: byte, g: byte, b: byte)

  /** One RGBA pixel of an image handed to the encoder. */
  datatype Pixel = Pixel(r: byte, g: byte, b: byte, a: byte)

  /** The ways the codec stops.  Each names the exception the JavaScript
      throws at that point, except ReadPastEnd, which stands for a read past
      the end of the buffer where JavaScript would carry on with `undefined`. */
  datatype Error =
    | RangeError                  // a Node buffer bound or value check
    | ReadPastEnd                  // decoder needs a byte the buffer does not hold
    | NoSuchFrame(id: int)         // `this.frames[id]` is undefined
    | NoPalette                    // renderFrame / SLPEncoder without a palette
    | NoPaletteEntry(index: int)   // `palette[i]` is undefined, so `col[0]` throws
    | NoOutline(row: int)          // `outlines[y]` is undefined
    | MissingColor(r: byte, g: byte, b: byte)
    | CommandsEnded                // `commands[end]` is undefined, so `.command` throws

  datatype Result<+T> = Ok(value: T) | Err(error: Error) {
    predicate IsFailure() { Err? }

    function PropagateFailure<U>(): Result<U>
      requires Err?
    {
      Err(error)
    }

    function Extract(): T
      requires Ok?
    {
      value
    }
  }

  datatype Option<+T> = None | Some(value: T)

  /** The encoder as its source is written, or with its three defects
      corrected: palette index 0 accepted, a colour run that ends the command
      list closed at the end of the list, and room reserved for every byte
      the serialiser writes. */
  datatype Variant = AsWritten | Corrected

  /** The rows of a frame of this height: the number of times the decoder's
      loops (src/SLP.js:108 and :120) run and of outline pairs the renderer
      reads; a negative height gives none. */
  function Rows(height: int): nat {
    if height < 0 then 0 else height
  }

  function Abs(x: int): nat {
    if x < 0 then -x else x
  }

  /** `n` copies of `x`. */
  function Repeat<T>(x: T, n: nat): (s: seq<T>)
    ensures |s| == n && forall i :: 0 <= i < n ==> s[i] == x
  {
    seq(n, _ => x)
  }

  /** `n` zero bytes, what `Buffer.alloc` and a fresh pixel array hold. */
  function Zeros(n: nat): (s: seq<byte>)
    ensures |s| == n && forall i :: 0 <= i < n ==> s[i] == 0
  {
    Repeat(0, n)
  }

  lemma ZerosAdd(m: nat, n: nat)
    ensures Zeros(m) + Zeros(n) == Zeros(m + n)
  {
  }

  lemma AppendAssoc<T>(a: seq<T>, b: seq<T>, c: seq<T>)
    ensures (a + b) + c == a + (b + c)
  {
  }

  /** A slice of the second half of a concatenation. */
  lemma SliceRight<T>(a: seq<T>, b: seq<T>, i: nat, j: nat)
    requires i <= j <= |b|
    ensures (a + b)[|a| + i..|a| + j] == b[i..j]
  {
  }

  /** Prepends `prefix` to a successful result and passes an error through. */
  function Prepend<T>(prefix: seq<T>, r: Result<seq<T>>): (q: Result<seq<T>>)
    ensures q.Ok? <==> r.Ok?
    ensures q.Ok? ==> q.value == prefix + r.value
  {
    match r
    case Ok(s) => Ok(prefix + s)
    case Err(e) => Err(e)
  }

  lemma PrependNil<T>(r: Result<seq<T>>)
    ensures Prepend([], r) == r
  {
    if r.Ok? {
      assert [] + r.value == r.value;
    }
  }

  lemma PrependAssoc<T>(a: seq<T>, b: seq<T>, r: Result<seq<T>>)
    ensures Prepend(a, Prepend(b, r)) == Prepend(a + b, r)
  {
    if r.Ok? {
      assert a + (b + r.value) == (a + b) + r.value;
    }
  }

  /** The number of NextLine commands in `cmds`. */
  function CountNextLines(cmds: seq<Command>): (n: nat)
    ensures n <= |cmds|
  {
    if cmds == [] then 0
    else CountNextLines(cmds[..|cmds| - 1]) + (if cmds[|cmds| - 1].NextLine? then 1 else 0)
  }

  lemma {:induction false} CountNextLinesAppend(a: seq<Command>, b: seq<Command>)
    ensures CountNextLines(a + b) == CountNextLines(a) + CountNextLines(b)
    decreases |b|
  {
    if b == [] {
      assert a + b == a;
    } else {
      assert (a + b)[..|a + b| - 1] == a + b[..|b| - 1];
      CountNextLinesAppend(a, b[..|b| - 1]);
    }
  }

  /** Each row of `rows` opened by a NextLine, the rows after the first of a frame. */
  function Lines(rows: seq<seq<Command>>): seq<Command> {
    if rows == [] then [] else [NextLine] + rows[0] + Lines(rows[1..])
  }

  /** Row command lists joined with a NextLine between consecutive rows. */
  function JoinRows(rows: seq<seq<Command>>): seq<Command> {
    if rows == [] then [] else rows[0] + Lines(rows[1..])
  }

  /** Rows free of NextLines are joined by exactly one NextLine fewer than
      there are rows. */
  lemma JoinRowsNextLines(rows: seq<seq<Command>>)
    requires forall r :: 0 <= r < |rows| ==> NextLine !in rows[r]
    ensures CountNextLines(JoinRows(rows)) == if |rows| == 0 then 0 else |rows| - 1
  {
    if rows != [] {
      LinesNextLines(rows[1..]);
      NoNextLineCount(rows[0]);
      CountNextLinesAppend(rows[0], Lines(rows[1..]));
    }
  }

  lemma {:induction false} LinesNextLines(rows: seq<seq<Command>>)
    requires forall r :: 0 <= r < |rows| ==> NextLine !in rows[r]
    ensures CountNextLines(Lines(rows)) == |rows|
    decreases |rows|
  {
    if rows != [] {
      LinesNextLines(rows[1..]);
      NoNextLineCount(rows[0]);
      CountNextLinesAppend([NextLine] + rows[0], Lines(rows[1..]));
      CountNextLinesAppend([NextLine], rows[0]);
      assert [NextLine][..0] == [];
    }
  }

  lemma {:induction false} NoNextLineCount(cmds: seq<Command>)
    requires NextLine !in cmds
    ensures CountNextLines(cmds) == 0
    decreases |cmds|
  {
    if cmds != [] {
      assert cmds[..|cmds| - 1] + [cmds[|cmds| - 1]] == cmds;
      NoNextLineCount(cmds[..|cmds| - 1]);
    }
  }

  /** The little-endian unsigned 16-bit value at `o`, as `readUInt16LE` reads it. */
  function U16At(buf: seq<byte>, o: nat): (v: nat)
    requires o + 2 <= |buf|
    ensures v < 0x1_0000
  {
    buf[o] as int + 256 * (buf[o + 1] as int)
  }

  /** The two bytes `writeUInt16LE` stores for `v`. */
  function LE16(v: nat): (s: seq<byte>)
    requires v < 0x1_0000
    ensures |s| == 2 && U16At(s, 0) == v
  {
    [v % 256, v / 256]
  }

  /** The four bytes `writeUInt32LE` stores for `v`: the low half, then the high half. */
  function LE32(v: nat): (s: seq<byte>)
    requires v < 0x1_0000_0000
    ensures |s| == 4 && U16At(s, 0) == v % 0x1_0000 && U16At(s, 2) == v / 0x1_0000
  {
    LE16(v % 0x1_0000) + LE16(v / 0x1_0000)
  }
}
