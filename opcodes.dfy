/** The three overlapping views of an SLP opcode byte (low two bits, low
    nibble, high nibble) and the fixed order in which the frame decoder
    tests them (src/SLP.js:120-186). */
module Opcodes {
  import opened SlpTypes

  /** One opcode byte as the decoder reads it.  Counts are the inline counts
      held in the byte; `high` is the high nibble shifted down. */
  datatype Opcode =
    | EndOfRow(high: nat)          // low nibble 0x0F
    | ColorList(count: nat)        // low bits 00, count = cmd >> 2
    | SkipShort(count: nat)        // low bits 01, count = cmd >> 2 (0: next byte)
    | ColorListEx(high: nat)       // low nibble 0x02
    | SkipEx(high: nat)            // low nibble 0x03
    | PlayerColorList(count: nat)  // low nibble 0x06, count = cmd >> 4 (0: next byte)
    | FillRun(count: nat)          // low nibble 0x07, count = cmd >> 4 (0: next byte)
    | PlayerFillRun(count: nat)    // low nibble 0x0A, count = cmd >> 4 (0: next byte)
    | ShadowRun(count: nat)        // low nibble 0x0B, count = cmd >> 4 (0: next byte)
    | Extended(high: nat)          // low nibble 0x0E, sub-opcode in the high nibble

  /** The payload of `op` fits the bits the byte has room for. */
  predicate WellFormed(op: Opcode) {
    match op
    case ColorList(n) => n < 64
    case SkipShort(n) => n < 64
    case EndOfRow(h) => h < 16
    case ColorListEx(h) => h < 16
    case SkipEx(h) => h < 16
    case PlayerColorList(n) => n < 16
    case FillRun(n) => n < 16
    case PlayerFillRun(n) => n < 16
    case ShadowRun(n) => n < 16
    case Extended(h) => h < 16
  }

  /** The byte that carries `op`: the inverse of Classify. */
  function OpcodeByte(op: Opcode): int {
    match op
    case EndOfRow(h) => 16 * h + 0x0F
    case ColorList(n) => 4 * n
    case SkipShort(n) => 4 * n + 0x01
    case ColorListEx(h) => 16 * h + 0x02
    case SkipEx(h) => 16 * h + 0x03
    case PlayerColorList(n) => 16 * n + 0x06
    case FillRun(n) => 16 * n + 0x07
    case PlayerFillRun(n) => 16 * n + 0x0A
    case ShadowRun(n) => 16 * n + 0x0B
    case Extended(h) => 16 * h + 0x0E
  }

  /** The decoder's dispatch.  End-of-row is tested first, so a byte whose low
      nibble is 0x0F is never read through its low bits 11; the two low-bit
      forms come next, and every remaining low nibble has its own case.  The
      final `else` of the source (the "unrecognized opcode" throw) cannot be
      reached: the assertion in the last branch proves that only 0x0E is left.
      The contract says that every byte has exactly one reading and loses
      nothing: the byte is rebuilt from the reading. */
  function Classify(cmd: byte): (op: Opcode)
    ensures WellFormed(op) && OpcodeByte(op) == cmd
  {
    var low4 := cmd % 16;
    var low2 := cmd % 4;
    var high := cmd / 16;
    if low4 == 0x0F then EndOfRow(high)
    else if low2 == 0 then ColorList(cmd / 4)
    else if low2 == 1 then SkipShort(cmd / 4)
    else if low4 == 0x02 then ColorListEx(high)
    else if low4 == 0x03 then SkipEx(high)
    else if low4 == 0x06 then PlayerColorList(high)
    else if low4 == 0x07 then FillRun(high)
    else if low4 == 0x0A then PlayerFillRun(high)
    else if low4 == 0x0B then ShadowRun(high)
    else
      assert low4 == 0x0E;
      Extended(high)
  }

  /** The other direction: every well-formed opcode is read back from its byte. */
  lemma ClassifyOpcodeByte(op: Opcode)
    requires WellFormed(op)
    ensures 0 <= OpcodeByte(op) < 256 && Classify(OpcodeByte(op) as byte) == op
  {
    match op
    case ColorList(n) => Split4(n, 0);
    case SkipShort(n) => Split4(n, 1);
    case _ => ClassifyNibbleForm(op);
  }

  /** The opcodes told apart by their low nibble alone. */
  lemma ClassifyNibbleForm(op: Opcode)
    requires WellFormed(op) && !op.ColorList? && !op.SkipShort?
    ensures 0 <= OpcodeByte(op) < 256 && Classify(OpcodeByte(op) as byte) == op
  {
    var h := match op
      case EndOfRow(h) => h
      case ColorListEx(h) => h
      case SkipEx(h) => h
      case PlayerColorList(n) => n
      case FillRun(n) => n
      case PlayerFillRun(n) => n
      case ShadowRun(n) => n
      case Extended(h) => h;
    var k := OpcodeByte(op) - 16 * h;
    Split16(h, k);
  }

  lemma Split16(h: nat, k: nat)
    requires h < 16 && k < 16
    ensures (16 * h + k) % 16 == k && (16 * h + k) / 16 == h && (16 * h + k) % 4 == k % 4
  {
  }

  lemma Split4(n: nat, k: nat)
    requires n < 64 && k < 4
    ensures (4 * n + k) % 4 == k && (4 * n + k) / 4 == n && (4 * n + k) % 16 == 4 * (n % 4) + k
  {
  }

  /** Low nibbles 0, 4, 8 and C are colour lists and 1, 5, 9 and D are skips,
      through the low-bit tests; no low nibble is left unsupported. */
  lemma LowBitForms(cmd: byte)
    ensures cmd % 16 in {0x0, 0x4, 0x8, 0xC} <==> Classify(cmd).ColorList?
    ensures cmd % 16 in {0x1, 0x5, 0x9, 0xD} <==> Classify(cmd).SkipShort?
  {
  }
}
