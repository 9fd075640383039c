/** One 80x25 text screen as a value: a 4 KB video page and a cursor. */
module Screen {
  import opened Prelude
  import opened Bytes

  const NUM_COLS := 80
  const NUM_ROWS := 25
  const ATTRIB: byte := 7

  /** The page holds a character byte and an attribute byte for each cell, row by row. */
  datatype Screen = Screen(page: seq<byte>, x: int, y: int) {
    ghost predicate Valid() {
      |page| == KB4 && 0 <= x < NUM_COLS && 0 <= y < NUM_ROWS
    }
  }

  function Cell(x: int, y: int): int {
    2 * (NUM_COLS * y + x)
  }

  /** Every row's characters move up one row and the last row becomes blank;
      attribute bytes and the tail of the page stay where they are. */
  function ScrolledByte(page: seq<byte>, i: int): byte
    requires |page| == KB4 && 0 <= i < KB4
  {
    if i % 2 == 0 && i < Cell(0, NUM_ROWS - 1) then page[i + 2 * NUM_COLS]
    else if i % 2 == 0 && i < Cell(0, NUM_ROWS) then SPACE
    else page[i]
  }

  function Scrolled(page: seq<byte>): (r: seq<byte>)
    requires |page| == KB4
    ensures |r| == KB4
  {
    seq(KB4, i requires 0 <= i < KB4 => ScrolledByte(page, i))
  }

  function Poked(page: seq<byte>, x: int, y: int, c: byte): (r: seq<byte>)
    requires |page| == KB4 && 0 <= x < NUM_COLS && 0 <= y < NUM_ROWS
    ensures |r| == KB4
  {
    page[Cell(x, y) := c][Cell(x, y) + 1 := ATTRIB]
  }

  /** The cursor moves to row `y + 1`, scrolling when that row does not exist. */
  function NextRow(s: Screen): (r: Screen)
    requires s.Valid()
    ensures r.Valid()
  {
    if s.y + 1 < NUM_ROWS then Screen(s.page, 0, s.y + 1)
    else Screen(Scrolled(s.page), 0, s.y)
  }

  /** One character reaches the screen. */
  function Put(s: Screen, c: byte): (r: Screen)
    requires s.Valid()
    ensures r.Valid()
  {
    if c == NEWLINE || c == RETURN then NextRow(s)
    else
      var page := Poked(s.page, s.x, s.y, c);
      if s.x + 1 < NUM_COLS then Screen(page, s.x + 1, s.y)
      else NextRow(Screen(page, s.x, s.y))
  }

  /** Backspace blanks the cell before the cursor; at column 0 it does nothing. */
  function Erase(s: Screen): (r: Screen)
    requires s.Valid()
    ensures r.Valid()
  {
    if s.x > 0 then Screen(Poked(s.page, s.x - 1, s.y, SPACE), s.x - 1, s.y) else s
  }

  function WipedByte(page: seq<byte>, i: int): byte
    requires |page| == KB4 && 0 <= i < KB4
  {
    if i >= Cell(0, NUM_ROWS) then page[i] else if i % 2 == 0 then SPACE else ATTRIB
  }

  /** The whole visible area becomes blank and the cursor goes to the corner. */
  function Wipe(s: Screen): (r: Screen)
    requires s.Valid()
    ensures r.Valid()
  {
    Screen(seq(KB4, i requires 0 <= i < KB4 => WipedByte(s.page, i)), 0, 0)
  }

  /** What a terminal's own activity can do to its screen. */
  datatype Op = Print(c: byte) | Backspace | Clear

  function Apply(s: Screen, op: Op): (r: Screen)
    requires s.Valid()
    ensures r.Valid()
  {
    match op
    case Print(c) => Put(s, c)
    case Backspace => Erase(s)
    case Clear => Wipe(s)
  }

  function ApplyAll(s: Screen, ops: seq<Op>): (r: Screen)
    requires s.Valid()
    ensures r.Valid()
  {
    if ops == [] then s else Apply(ApplyAll(s, ops[..|ops| - 1]), ops[|ops| - 1])
  }

  lemma {:induction false} ApplyAllConcat(s: Screen, a: seq<Op>, b: seq<Op>)
    requires s.Valid()
    ensures ApplyAll(s, a + b) == ApplyAll(ApplyAll(s, a), b)
  {
    if b == [] {
      assert a + b == a;
    } else {
      ApplyAllConcat(s, a, b[..|b| - 1]);
      assert (a + b)[..|a + b| - 1] == a + b[..|b| - 1];
    }
  }
}

/** An independent account of the same screen: an unbounded scroll of rows, of
    which the display is a window. No cursor, no cells, no scrolling. */
module Layout {
  import opened Prelude
  import opened Bytes
  import opened Screen

  type Rows = seq<seq<byte>>

  ghost predicate IsScroll(rows: Rows) {
    && rows != []
    && (forall i :: 0 <= i < |rows| - 1 ==> |rows[i]| <= NUM_COLS)
    && |Last(rows)| < NUM_COLS
  }

  ghost function Last(rows: Rows): seq<byte>
    requires rows != []
  {
    rows[|rows| - 1]
  }

  ghost function WithLast(rows: Rows, row: seq<byte>): Rows
    requires rows != []
  {
    rows[|rows| - 1 := row]
  }

  /** Text is appended to the last row; a newline, or a row that becomes full, opens a new one. */
  ghost function Extend(rows: Rows, op: Op): (r: Rows)
    requires IsScroll(rows)
    ensures IsScroll(r)
  {
    match op
    case Print(c) =>
      if c == NEWLINE || c == RETURN then rows + [[]]
      else
        var grown := WithLast(rows, Last(rows) + [c]);
        if |Last(rows)| + 1 == NUM_COLS then grown + [[]] else grown
    case Backspace =>
      if Last(rows) == [] then rows else WithLast(rows, Last(rows)[..|Last(rows)| - 1])
    case Clear => [[]]
  }

  ghost function ExtendAll(rows: Rows, ops: seq<Op>): (r: Rows)
    requires IsScroll(rows)
    ensures IsScroll(r)
  {
    if ops == [] then rows else Extend(ExtendAll(rows, ops[..|ops| - 1]), ops[|ops| - 1])
  }

  /** Index of the row shown at the top of the screen. */
  ghost function Top(rows: Rows): nat {
    if |rows| <= NUM_ROWS then 0 else |rows| - NUM_ROWS
  }

  /** The text at a place in the scroll, blank padded to the right and below. */
  ghost function CharAt(rows: Rows, i: nat, col: nat): byte {
    if i < |rows| && col < |rows[i]| then rows[i][col] else SPACE
  }

  /** The screen shows exactly the last 25 rows, with the cursor at the end of the last one. */
  ghost predicate Shows(s: Screen, rows: Rows)
    requires IsScroll(rows)
  {
    && s.Valid()
    && s.y == |rows| - 1 - Top(rows)
    && s.x == |Last(rows)|
    && (forall r, c :: 0 <= r < NUM_ROWS && 0 <= c < NUM_COLS ==> ShownAt(s.page, rows, r, c))
  }

  ghost predicate ShownAt(page: seq<byte>, rows: Rows, r: nat, c: nat)
    requires |page| == KB4 && r < NUM_ROWS && c < NUM_COLS
  {
    && page[Cell(c, r)] == CharAt(rows, Top(rows) + r, c)
    && page[Cell(c, r) + 1] == ATTRIB
  }

  /** A cleared screen shows the single empty row. */
  lemma WipeShows(s: Screen)
    requires s.Valid()
    ensures Shows(Wipe(s), [[]])
  {
    forall r, c | 0 <= r < NUM_ROWS && 0 <= c < NUM_COLS ensures ShownAt(Wipe(s).page, [[]], r, c) {
    }
  }

  lemma NextRowShows(s: Screen, rows: Rows, grown: Rows)
    requires IsScroll(rows) && s.Valid()
    requires |grown| == |rows| && (forall i :: 0 <= i < |grown| ==> |grown[i]| <= NUM_COLS)
    requires s.y == |rows| - 1 - Top(rows)
    requires forall r, c :: 0 <= r < NUM_ROWS && 0 <= c < NUM_COLS ==> ShownAt(s.page, grown, r, c)
    ensures IsScroll(grown + [[]]) && Shows(NextRow(s), grown + [[]])
  {
    var rows' := grown + [[]];
    forall r, c | 0 <= r < NUM_ROWS && 0 <= c < NUM_COLS ensures ShownAt(NextRow(s).page, rows', r, c) {
      if |rows| < NUM_ROWS {
        assert ShownAt(s.page, grown, r, c);
      } else {
        assert ShownAt(s.page, grown, r, c);
        if r + 1 < NUM_ROWS {
          assert ShownAt(s.page, grown, r + 1, c);
        }
      }
    }
  }

  lemma PokeShows(s: Screen, rows: Rows, x: nat, row: seq<byte>, c: byte)
    requires IsScroll(rows) && Shows(s, rows)
    requires x < NUM_COLS && x <= |Last(rows)|
    requires |row| <= NUM_COLS
    requires forall j :: 0 <= j < NUM_COLS ==>
      CharAt([row], 0, j) == if j == x then c else CharAt([Last(rows)], 0, j)
    ensures var page := Poked(s.page, x, s.y, c);
      forall r, j :: 0 <= r < NUM_ROWS && 0 <= j < NUM_COLS ==> ShownAt(page, WithLast(rows, row), r, j)
  {
    var page := Poked(s.page, x, s.y, c);
    var rows' := WithLast(rows, row);
    forall r, j | 0 <= r < NUM_ROWS && 0 <= j < NUM_COLS ensures ShownAt(page, rows', r, j) {
      assert ShownAt(s.page, rows, r, j);
      assert Cell(j, r) == Cell(x, s.y) ==> r == s.y && j == x;
      if r == s.y {
        assert CharAt(rows', Top(rows') + r, j) == CharAt([row], 0, j);
        assert CharAt(rows, Top(rows) + r, j) == CharAt([Last(rows)], 0, j);
      } else {
        assert CharAt(rows', Top(rows') + r, j) == CharAt(rows, Top(rows) + r, j);
      }
    }
  }

  /** One step keeps the window exact. */
  lemma ApplyShows(s: Screen, rows: Rows, op: Op)
    requires IsScroll(rows) && Shows(s, rows)
    ensures Shows(Apply(s, op), Extend(rows, op))
  {
    match op
    case Print(c) =>
      if c == NEWLINE || c == RETURN {
        NextRowShows(s, rows, rows);
      } else {
        PokeShows(s, rows, s.x, Last(rows) + [c], c);
        if s.x + 1 == NUM_COLS {
          NextRowShows(Screen(Poked(s.page, s.x, s.y, c), s.x, s.y), rows, WithLast(rows, Last(rows) + [c]));
        }
      }
    case Backspace =>
      if Last(rows) != [] {
        PokeShows(s, rows, s.x - 1, Last(rows)[..s.x - 1], SPACE);
      }
    case Clear =>
      WipeShows(s);
  }

  /** After any stream of output, erasure and clearing, the display is exactly
      the last 25 rows of the unbounded scroll. */
  lemma {:induction false} ApplyAllShows(s: Screen, rows: Rows, ops: seq<Op>)
    requires IsScroll(rows) && Shows(s, rows)
    ensures Shows(ApplyAll(s, ops), ExtendAll(rows, ops))
  {
    if ops != [] {
      ApplyAllShows(s, rows, ops[..|ops| - 1]);
      ApplyShows(ApplyAll(s, ops[..|ops| - 1]), ExtendAll(rows, ops[..|ops| - 1]), ops[|ops| - 1]);
    }
  }
}
