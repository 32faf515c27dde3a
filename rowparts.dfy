/** How one row of the encoder's commands is laid out in a frame: the skips
    at either edge of the row become its outline pair
    (src/SLPEncoder.js:177-186), and only the commands between them reach the
    opcode stream.  This is the common vocabulary of the round-trip proof. */
module RowParts {
  import opened SlpTypes
  import opened CommandBuilder
  import opened Serializer
  import opened Renderer

  /** A row as the frame stores it: its outline pair and the commands
      between the edge skips. */
  datatype Part = Part(left: nat, mid: seq<Command>, right: nat)

  /** The count of the skip a row opens with, or 0. */
  function Lead(rc: seq<Command>): nat {
    if rc != [] && rc[0].Skip? then rc[0].count else 0
  }

  /** The row without its leading skip. */
  function Inner(rc: seq<Command>): seq<Command> {
    if rc != [] && rc[0].Skip? then rc[1..] else rc
  }

  /** The row split at its edge skips.  A row that is one skip across the
      whole width keeps the empty-row sentinel as its left outline. */
  function Split(w: nat, rc: seq<Command>): Part {
    var inner := Inner(rc);
    var trail := inner != [] && inner[|inner| - 1].Skip?;
    Part(if Lead(rc) > 0 && Lead(rc) == w then LINE_EMPTY else Lead(rc),
         if trail then inner[..|inner| - 1] else inner,
         if trail then inner[|inner| - 1].count else 0)
  }

  /** The parts of every row. */
  function SplitAll(w: nat, rows: seq<seq<Command>>): (parts: seq<Part>)
    ensures |parts| == |rows| && forall r :: 0 <= r < |rows| ==> parts[r] == Split(w, rows[r])
  {
    seq(|rows|, r requires 0 <= r < |rows| => Split(w, rows[r]))
  }

  /** A skip of `n`, or nothing for `n == 0`. */
  function Skips(n: nat): seq<Command> {
    if n == 0 then [] else [Skip(n)]
  }

  /** A row as the command builder produces it. */
  predicate ValidRow(w: nat, rc: seq<Command>) {
    NextLine !in rc && WellBuilt(rc) && |Expand(rc)| == w
  }

  /** The commands between the edge skips: row commands, none of them a
      skip at either end. */
  predicate MidShape(mid: seq<Command>) {
    (forall j :: 0 <= j < |mid| ==> RowCommand(mid[j])) &&
    (mid != [] ==> !mid[0].Skip? && !mid[|mid| - 1].Skip?)
  }

  /** How many commands the encoder writes as one opcode: a whole run of
      colours, or one fill or skip. */
  function GroupLen(mid: seq<Command>): (g: nat)
    requires mid != []
    ensures 0 < g <= |mid|
  {
    if mid[0].Color? then RunLength(mid) else 1
  }

  /** The opcode bytes of that group. */
  function GroupBytes(mid: seq<Command>): seq<byte>
    requires mid != []
  {
    match mid[0]
    case Color(_) => RunLengthColors(mid); RunBytes(mid[..RunLength(mid)])
    case Fill(n, c) => FillBytes(n, c)
    case Skip(n) => SkipBytes(n)
    case _ => []
  }

  /** What the opcode formats can hold for the group at the front of
      `mid`: a colour list of at most 63 entries (the count sits in the upper
      six bits of the opcode byte) with one-byte palette indices, and fill
      and skip counts of one byte. */
  predicate GroupFits(mid: seq<Command>)
    requires mid != []
  {
    match mid[0]
    case Color(_) =>
      RunLength(mid) < 64 && forall j :: 0 <= j < RunLength(mid) ==> mid[j].Color? ==> mid[j].index < 256
    case Fill(n, c) => n < 256 && c < 256
    case Skip(n) => n < 256
    case _ => true
  }

  /** Every group of `mid` fits its opcode format. */
  predicate Fits(mid: seq<Command>)
    decreases |mid|
  {
    mid == [] || (GroupFits(mid) && Fits(mid[GroupLen(mid)..]))
  }

  /** The opcode bytes of the commands between the edge skips, group by
      group. */
  function MidBytes(mid: seq<Command>): seq<byte>
    decreases |mid|
  {
    if mid == [] then [] else GroupBytes(mid) + MidBytes(mid[GroupLen(mid)..])
  }

  /** The opcode stream of a frame: each row's middle bytes, then its
      end-of-row byte. */
  function RowsStream(parts: seq<Part>): seq<byte> {
    if parts == [] then [] else MidBytes(parts[0].mid) + [0x0F] + RowsStream(parts[1..])
  }

  /** The commands that stream stands for. */
  function RowsCommands(parts: seq<Part>): seq<Command> {
    if parts == [] then [] else parts[0].mid + [NextLine] + RowsCommands(parts[1..])
  }

  /** The outline table of a frame. */
  function OutlinesOf(parts: seq<Part>): (o: seq<RowOutline>)
    ensures |o| == |parts| && forall r :: 0 <= r < |parts| ==> o[r] == RowOutline(parts[r].left, parts[r].right)
  {
    seq(|parts|, r requires 0 <= r < |parts| => RowOutline(parts[r].left, parts[r].right))
  }

  // ---------------------------------------------------------------------
  // Cells of a split row

  lemma ExpandCons(c: Command, rest: seq<Command>)
    ensures Expand([c] + rest) == Cells(c) + Expand(rest)
  {
    ExpandAppend([c], rest);
    assert [c][..0] == [];
  }

  lemma ExpandSkips(n: nat)
    ensures Expand(Skips(n)) == Repeat(Clear, n)
  {
    if n > 0 {
      assert Skips(n)[..0] == [];
    }
  }

  /** A non-empty list of row commands covers at least one cell. */
  lemma ExpandNonEmpty(cmds: seq<Command>)
    requires cmds != [] && RowCommand(cmds[0])
    ensures |Expand(cmds)| > 0
  {
    assert cmds == [cmds[0]] + cmds[1..];
    ExpandCons(cmds[0], cmds[1..]);
  }

  /** A row is its leading skip, its middle and its trailing skip; the
      leading skip is what the left outline stands for. */
  lemma SplitRow(w: nat, rc: seq<Command>)
    requires 0 < w < LINE_EMPTY && ValidRow(w, rc)
    ensures var p := Split(w, rc);
      rc == Skips(OpenRow(w, p.left)) + p.mid + Skips(p.right) &&
      MidShape(p.mid) &&
      Expand(rc) == Repeat(Clear, OpenRow(w, p.left)) + Expand(p.mid) + Repeat(Clear, p.right) &&
      OpenRow(w, p.left) + |Expand(p.mid)| + p.right == w &&
      (p.right > 0 ==> OpenRow(w, p.left) + |Expand(p.mid)| > 0) &&
      (p.left == LINE_EMPTY || p.left < w)
  {
    var p := Split(w, rc);
    assert forall j :: 0 <= j < |rc| ==> RowCommand(rc[j]);
    SplitPieces(w, rc);
    SplitMid(rc, p.mid);
    SplitCells(Lead(rc), p.mid, p.right);
    assert OpenRow(w, p.left) == Lead(rc);
    if p.right > 0 && Lead(rc) == 0 {
      ExpandNonEmpty(p.mid);
    }
  }

  lemma SplitPieces(w: nat, rc: seq<Command>)
    requires rc != [] ==> RowCommand(rc[0]) && RowCommand(rc[|rc| - 1])
    ensures rc == Skips(Lead(rc)) + Split(w, rc).mid + Skips(Split(w, rc).right)
  {
    var inner := Inner(rc);
    var p := Split(w, rc);
    if rc != [] && rc[0].Skip? {
      assert Skips(Lead(rc)) == [rc[0]];
    } else {
      assert Skips(Lead(rc)) == [];
    }
    assert rc == Skips(Lead(rc)) + inner;
    if inner != [] && inner[|inner| - 1].Skip? {
      assert inner[|inner| - 1] == rc[|rc| - 1];
      assert Skips(p.right) == [inner[|inner| - 1]];
      assert inner == p.mid + Skips(p.right);
    } else {
      assert inner == p.mid + Skips(p.right);
    }
    AppendAssoc(Skips(Lead(rc)), p.mid, Skips(p.right));
  }

  lemma SplitCells(lead: nat, mid: seq<Command>, right: nat)
    ensures Expand(Skips(lead) + mid + Skips(right)) == Repeat(Clear, lead) + Expand(mid) + Repeat(Clear, right)
  {
    ExpandAppend(Skips(lead) + mid, Skips(right));
    ExpandAppend(Skips(lead), mid);
    ExpandSkips(lead);
    ExpandSkips(right);
  }

  lemma SplitMid(rc: seq<Command>, mid: seq<Command>)
    requires forall j :: 0 <= j < |rc| ==> RowCommand(rc[j])
    requires forall i :: 0 < i < |rc| ==> !(rc[i - 1].Skip? && rc[i].Skip?)
    requires mid == Split(0, rc).mid
    ensures MidShape(mid)
  {
    var inner := Inner(rc);
    var s := |rc| - |inner|;
    assert inner == rc[s..];
    var e := s + |mid|;
    assert mid == rc[s..e];
    if mid != [] {
      assert s == 1 ==> rc[0].Skip?;
      assert s == 0 ==> !rc[0].Skip?;
      assert e < |rc| ==> rc[e].Skip?;
      assert e == |rc| ==> !rc[e - 1].Skip?;
    }
  }

  /** What is known of every command of a list is known of every command of
      any suffix. */
  lemma DropCommands(mid: seq<Command>, g: nat)
    requires g <= |mid| && forall j :: 0 <= j < |mid| ==> RowCommand(mid[j])
    ensures forall j :: 0 <= j < |mid[g..]| ==> RowCommand(mid[g..][j])
    ensures g < |mid| ==> mid[g..][|mid[g..]| - 1] == mid[|mid| - 1]
  {
    assert forall j :: 0 <= j < |mid[g..]| ==> mid[g..][j] == mid[g + j];
  }
}
