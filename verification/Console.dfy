/** The console as the kernel keeps it: one stretch of physical video memory
    holding the displayed page and three backing pages, one hardware cursor,
    three saved cursors and three keyboard buffers, all updated in place. */
module Console {
  import opened Prelude
  import opened Bytes
  import opened Screen
  import opened Layout
  import opened Keymap
  import opened Multiplexer
  import Memory

  // Physical addresses.
  const VIDEO := 0xB8000
  const BACKING_PAGES_START := 0xB9000
  const TERM_MEM: seq<int> := [0xB9000, 0xBA000, 0xBB000]

  function GetBackingPage(terminal: int): int {
    BACKING_PAGES_START + terminal * KB4
  }

  /** The table used for writing and the formula used for switching name the
      same pages, which are disjoint from each other and from the screen. */
  lemma BackingPages(t: int, u: int)
    requires 0 <= t < NUM_TERMINALS && 0 <= u < NUM_TERMINALS
    ensures TERM_MEM[t] == GetBackingPage(t) == VIDEO + KB4 * (t + 1)
    ensures t != u ==> GetBackingPage(t) + KB4 <= GetBackingPage(u) || GetBackingPage(u) + KB4 <= GetBackingPage(t)
  {
    if t < u {
      assert KB4 * t + KB4 <= KB4 * u;
    } else if u < t {
      assert KB4 * u + KB4 <= KB4 * t;
    }
  }

  /** The bytes a write of `nbytes` takes from a buffer; a negative count takes none. */
  ghost function Outgoing(buf: array<byte>, nbytes: int): seq<byte>
    requires nbytes <= buf.Length
    reads buf
  {
    if nbytes < 0 then [] else buf[..nbytes]
  }

  /** Terminals exist, and a read happens only once the displayed line is ready. */
  ghost predicate Feasible(m: Machine, evs: seq<Event>)
    requires m.Valid()
  {
    && (forall i :: 0 <= i < |evs| ==> Legal(evs[i]))
    && forall i :: 0 <= i < |evs| && evs[i].Read? ==> Run(m, evs[..i]).Shown().ready
  }

  class Console {
    const mem: array<byte>          // the bytes from VIDEO on: four pages
    var screenX: int
    var screenY: int
    const virtualX: array<int>
    const virtualY: array<int>
    var displayTerminal: int
    var altOn: bool
    var capsOn: bool
    var ctrlOn: bool
    var shiftOn: bool
    const readyToRead: array<bool>
    const kbBufIndex: array<int>
    const kbBuf: array<byte>        // three rows of MAX_KB_BUF
    ghost var model: Machine        // the idealised console that this state stands for

    ghost predicate ScreensValid()
      reads this`displayTerminal, this`screenX, this`screenY, virtualX, virtualY
    {
      && mem.Length == 4 * KB4
      && virtualX.Length == virtualY.Length == NUM_TERMINALS
      && virtualX != virtualY
      && 0 <= displayTerminal < NUM_TERMINALS
      && 0 <= screenX < NUM_COLS && 0 <= screenY < NUM_ROWS
      && (forall t :: 0 <= t < NUM_TERMINALS ==> 0 <= virtualX[t] < NUM_COLS)
      && (forall t :: 0 <= t < NUM_TERMINALS ==> 0 <= virtualY[t] < NUM_ROWS)
    }

    ghost predicate KeyboardValid()
      reads kbBufIndex
    {
      && kbBufIndex.Length == readyToRead.Length == NUM_TERMINALS
      && kbBuf.Length == NUM_TERMINALS * MAX_KB_BUF
      && mem != kbBuf && virtualX != kbBufIndex && virtualY != kbBufIndex
      && (forall t :: 0 <= t < NUM_TERMINALS ==> 0 <= kbBufIndex[t] <= MAX_KB_BUF)
    }

    /** Where terminal `t` keeps its screen, cursor and line, it keeps the model's. */
    ghost predicate Represents(t: int)
      requires 0 <= t < NUM_TERMINALS && ScreensValid() && KeyboardValid() && model.Valid()
      reads this, mem, virtualX, virtualY, readyToRead, kbBufIndex, kbBuf
    {
      && ScreenOf(t) == model.terms[t].screen
      && LineOf(t) == model.terms[t].line
      && readyToRead[t] == model.terms[t].ready
    }

    ghost predicate Valid()
      reads this, mem, virtualX, virtualY, readyToRead, kbBufIndex, kbBuf
    {
      && ScreensValid()
      && KeyboardValid()
      && model.Valid()
      && model.display == displayTerminal
      && model.mods == Mods(altOn, capsOn, ctrlOn, shiftOn)
      && forall t :: 0 <= t < NUM_TERMINALS ==> Represents(t)
    }

    /** Page 0 is the screen; page t + 1 backs terminal t. */
    ghost function Page(p: int): (r: seq<byte>)
      requires mem.Length == 4 * KB4 && 0 <= p < 4
      reads mem
      ensures |r| == KB4
    {
      PageOf(mem[..], p)
    }

    ghost function ScreenOf(t: int): (r: Screen)
      requires ScreensValid() && 0 <= t < NUM_TERMINALS
      reads this`displayTerminal, this`screenX, this`screenY, mem, virtualX, virtualY
      ensures r.Valid()
    {
      if t == displayTerminal then Screen(Page(0), screenX, screenY)
      else Screen(Page(t + 1), virtualX[t], virtualY[t])
    }

    ghost function LineOf(t: int): (r: seq<byte>)
      requires KeyboardValid() && 0 <= t < NUM_TERMINALS
      reads kbBufIndex, kbBuf
      ensures |r| == kbBufIndex[t]
    {
      kbBuf[MAX_KB_BUF * t..MAX_KB_BUF * t + kbBufIndex[t]]
    }

    /** term_open at boot: flags and lines are reset, the screen is cleared, and
        the backing pages hold whatever the video memory held. */
    constructor ()
      ensures Valid() && Fresh(model)
      ensures Shows(model.terms[0].screen, [[]])
    {
      mem := new byte[4 * KB4];
      screenX, screenY, displayTerminal := 0, 0, 0;
      virtualX, virtualY := new int[NUM_TERMINALS](_ => 0), new int[NUM_TERMINALS](_ => 0);
      altOn, capsOn, ctrlOn, shiftOn := false, false, false, false;
      readyToRead, kbBufIndex := new bool[NUM_TERMINALS](_ => false), new int[NUM_TERMINALS](_ => 0);
      kbBuf := new byte[NUM_TERMINALS * MAX_KB_BUF];
      new;
      WipeShows(Screen(Page(0), 0, 0));
      TermClear();
      Adopt();
    }

    /** The model of a console with cursors at home and nothing typed. */
    ghost method Adopt()
      requires ScreensValid() && KeyboardValid() && displayTerminal == 0 && screenX == screenY == 0
      requires !altOn && !capsOn && !ctrlOn && !shiftOn
      requires forall t :: 0 <= t < NUM_TERMINALS ==>
        virtualX[t] == virtualY[t] == kbBufIndex[t] == 0 && !readyToRead[t]
      modifies this`model
      ensures Valid() && model.display == 0 && model.mods == Mods(false, false, false, false)
      ensures forall t :: 0 <= t < NUM_TERMINALS ==> model.terms[t] == Term(ScreenOf(t), [], false)
    {
      var terms := [Term(ScreenOf(0), [], false), Term(ScreenOf(1), [], false), Term(ScreenOf(2), [], false)];
      model := Machine(terms, 0, Mods(false, false, false, false));
      forall t | 0 <= t < NUM_TERMINALS ensures Represents(t) && model.terms[t] == Term(ScreenOf(t), [], false) {
        assert t == 0 || t == 1 || t == 2;
        assert ScreenOf(t) == old(ScreenOf(t));
      }
    }

    // ---- Cells ----------------------------------------------------------------

    /** Stores a character and its attribute in a cell of the page at address `base`. */
    method PokeCell(p: int, base: int, x: int, y: int, c: byte)
      requires mem.Length == 4 * KB4 && 0 <= p < 4 && base == VIDEO + KB4 * p
      requires 0 <= x < NUM_COLS && 0 <= y < NUM_ROWS
      modifies mem
      ensures Page(p) == Poked(old(Page(p)), x, y, c)
      ensures forall q :: 0 <= q < 4 && q != p ==> Page(q) == old(Page(q))
    {
      var at := base + 2 * (NUM_COLS * y + x) - VIDEO;
      mem[at] := c;
      mem[at + 1] := ATTRIB;
    }

    /** One row of a scroll: its characters are replaced by those of the row below. */
    method ScrollRow(m: int, y: int)
      requires mem.Length == 4 * KB4 && 0 <= m <= 3 * KB4 && 0 <= y < NUM_ROWS - 1
      modifies mem
      ensures forall j :: 0 <= j < mem.Length ==>
        mem[j] == if (j - m) % 2 == 0 && m + Cell(0, y) <= j < m + Cell(0, y + 1) then old(mem[j + 2 * NUM_COLS]) else old(mem[j])
    {
      for x := 0 to NUM_COLS
        invariant forall j :: 0 <= j < mem.Length ==>
          mem[j] == if (j - m) % 2 == 0 && m + Cell(0, y) <= j < m + Cell(x, y) then old(mem[j + 2 * NUM_COLS]) else old(mem[j])
      {
        mem[m + 2 * (NUM_COLS * y + x)] := mem[m + 2 * (NUM_COLS * (y + 1) + x)];
      }
    }

    /** All rows but the last, from the top down. */
    method ScrollRows(m: int)
      requires mem.Length == 4 * KB4 && 0 <= m <= 3 * KB4
      modifies mem
      ensures forall j :: 0 <= j < mem.Length ==>
        mem[j] == if (j - m) % 2 == 0 && m <= j < m + Cell(0, NUM_ROWS - 1) then old(mem[j + 2 * NUM_COLS]) else old(mem[j])
    {
      for y := 0 to NUM_ROWS - 1
        invariant forall j :: 0 <= j < mem.Length ==>
          mem[j] == if (j - m) % 2 == 0 && m <= j < m + Cell(0, y) then old(mem[j + 2 * NUM_COLS]) else old(mem[j])
      {
        ScrollRow(m, y);
      }
    }

    /** The last row of a scroll becomes blank. */
    method BlankLastRow(m: int)
      requires mem.Length == 4 * KB4 && 0 <= m <= 3 * KB4
      modifies mem
      ensures forall j :: 0 <= j < mem.Length ==>
        mem[j] == if (j - m) % 2 == 0 && m + Cell(0, NUM_ROWS - 1) <= j < m + Cell(0, NUM_ROWS) then SPACE else old(mem[j])
    {
      for x := 0 to NUM_COLS
        invariant forall j :: 0 <= j < mem.Length ==>
          mem[j] == if (j - m) % 2 == 0 && m + Cell(0, NUM_ROWS - 1) <= j < m + Cell(x, NUM_ROWS - 1) then SPACE else old(mem[j])
      {
        mem[m + 2 * (NUM_COLS * (NUM_ROWS - 1) + x)] := SPACE;
      }
    }

    /** The body shared by scroll_down and term_scroll_down: moves the character
        bytes of the page at address `base` up a row, cell by cell. */
    method ScrollPage(p: int, base: int)
      requires mem.Length == 4 * KB4 && 0 <= p < 4 && base == VIDEO + KB4 * p
      modifies mem
      ensures Page(p) == Scrolled(old(Page(p)))
      ensures forall q :: 0 <= q < 4 && q != p ==> Page(q) == old(Page(q))
    {
      ghost var was := mem[..];
      ScrollRows(base - VIDEO);
      BlankLastRow(base - VIDEO);
      ScrolledPages(was, mem[..], p);
      assert forall q :: 0 <= q < 4 ==> Page(q) == PageOf(mem[..], q) && old(Page(q)) == PageOf(was, q);
    }

    static ghost function PageOf(m: seq<byte>, p: int): (r: seq<byte>)
      requires |m| == 4 * KB4 && 0 <= p < 4
      ensures |r| == KB4
    {
      m[KB4 * p..KB4 * (p + 1)]
    }

    /** Row moves and a blank last row, read off page by page. */
    static lemma ScrolledPages(was: seq<byte>, now: seq<byte>, p: int)
      requires |was| == |now| == 4 * KB4 && 0 <= p < 4
      requires forall j {:trigger now[j]} :: 0 <= j < |now| ==>
        now[j] == if (j - KB4 * p) % 2 == 0 && KB4 * p <= j < KB4 * p + Cell(0, NUM_ROWS - 1) then was[j + 2 * NUM_COLS]
                  else if (j - KB4 * p) % 2 == 0 && KB4 * p + Cell(0, NUM_ROWS - 1) <= j < KB4 * p + Cell(0, NUM_ROWS) then SPACE
                  else was[j]
      ensures PageOf(now, p) == Scrolled(PageOf(was, p))
      ensures forall q :: 0 <= q < 4 && q != p ==> PageOf(now, q) == PageOf(was, q)
    {
      var m := KB4 * p;
      assert forall k :: 0 <= k < KB4 ==> PageOf(was, p)[k] == was[m + k];
      forall i | 0 <= i < KB4 ensures PageOf(now, p)[i] == ScrolledByte(PageOf(was, p), i) {
        var j := m + i;
        assert PageOf(now, p)[i] == now[j];
      }
      forall q | 0 <= q < 4 && q != p ensures PageOf(now, q) == PageOf(was, q) {
        forall i | 0 <= i < KB4 ensures PageOf(now, q)[i] == PageOf(was, q)[i] {
          var j := KB4 * q + i;
          assert PageOf(now, q)[i] == now[j] && !(m <= j < m + KB4);
        }
      }
    }

    // ---- Displayed terminal -----------------------------------------------------

    /** putc: one character to the displayed screen. */
    method Putc(c: byte)
      requires ScreensValid()
      modifies mem, this`screenX, this`screenY
      ensures ScreensValid()
      ensures Screen(Page(0), screenX, screenY) == Put(old(Screen(Page(0), screenX, screenY)), c)
      ensures forall q :: 1 <= q < 4 ==> Page(q) == old(Page(q))
    {
      if c == NEWLINE || c == RETURN {
        screenY := screenY + 1;
        screenX := 0;
        if screenY >= NUM_ROWS {
          ScrollPage(0, VIDEO);
          screenY := NUM_ROWS - 1;
        }
      } else {
        PokeCell(0, VIDEO, screenX, screenY, c);
        screenX := screenX + 1;
        if screenX >= NUM_COLS {
          screenY := screenY + 1;
          if screenY >= NUM_ROWS {
            ScrollPage(0, VIDEO);
            screenY := NUM_ROWS - 1;
          }
          screenX := 0;
        }
      }
    }

    /** term_clear: blanks the displayed screen and homes the cursor. */
    method TermClear()
      requires ScreensValid()
      modifies mem, this`screenX, this`screenY
      ensures ScreensValid()
      ensures Screen(Page(0), screenX, screenY) == Wipe(old(Screen(Page(0), screenX, screenY)))
      ensures forall q :: 1 <= q < 4 ==> Page(q) == old(Page(q))
    {
      for i := 0 to NUM_ROWS * NUM_COLS
        invariant forall j :: 0 <= j < mem.Length ==>
          mem[j] == if j < 2 * i then (if j % 2 == 0 then SPACE else ATTRIB) else old(mem[j])
      {
        mem[2 * i] := SPACE;
        mem[2 * i + 1] := ATTRIB;
      }
      screenX := 0;
      screenY := 0;
    }

    // ---- Terminals in the background ------------------------------------------------

    /** term_putc: one character to the backing page of terminal `active`. */
    method TermPutc(active: int, c: byte)
      requires ScreensValid() && 0 <= active < NUM_TERMINALS
      modifies mem, virtualX, virtualY
      ensures ScreensValid()
      ensures Screen(Page(active + 1), virtualX[active], virtualY[active]) ==
              Put(old(Screen(Page(active + 1), virtualX[active], virtualY[active])), c)
      ensures forall q :: 0 <= q < 4 && q != active + 1 ==> Page(q) == old(Page(q))
      ensures forall t :: 0 <= t < NUM_TERMINALS && t != active ==>
        virtualX[t] == old(virtualX[t]) && virtualY[t] == old(virtualY[t])
    {
      BackingPages(active, active);
      if c == NEWLINE || c == RETURN {
        virtualY[active] := virtualY[active] + 1;
        virtualX[active] := 0;
        if virtualY[active] >= NUM_ROWS {
          ScrollPage(active + 1, TERM_MEM[active]);
          virtualY[active] := NUM_ROWS - 1;
        }
      } else {
        PokeCell(active + 1, TERM_MEM[active], virtualX[active], virtualY[active], c);
        virtualX[active] := virtualX[active] + 1;
        if virtualX[active] >= NUM_COLS {
          virtualY[active] := virtualY[active] + 1;
          if virtualY[active] >= NUM_ROWS {
            ScrollPage(active + 1, TERM_MEM[active]);
            virtualY[active] := NUM_ROWS - 1;
          }
          virtualX[active] := 0;
        }
      }
    }

    /** Saves the cursor, swaps the pages, restores the other cursor. */
    method SwapScreens(next: int)
      requires ScreensValid() && 0 <= next < NUM_TERMINALS
      modifies mem, virtualX, virtualY, this`displayTerminal, this`screenX, this`screenY
      ensures ScreensValid() && displayTerminal == next
      ensures forall t :: 0 <= t < NUM_TERMINALS ==> ScreenOf(t) == old(ScreenOf(t))
    {
      virtualX[displayTerminal] := screenX;
      virtualY[displayTerminal] := screenY;
      ChangeDisplayTerm(next);
      screenX := virtualX[displayTerminal];
      screenY := virtualY[displayTerminal];
      forall t | 0 <= t < NUM_TERMINALS ensures ScreenOf(t) == old(ScreenOf(t)) {
        if t == next {
          assert Page(0) == old(ScreenOf(t)).page;
        } else if t == old(displayTerminal) {
          assert Page(t + 1) == old(ScreenOf(t)).page;
        } else {
          assert Page(t + 1) == old(Page(t + 1));
        }
      }
    }

    // ---- Runs of output, and page copies -------------------------------------------

    /** The loop of term_write that feeds the displayed screen. */
    method PutAll(buf: array<byte>, nbytes: int, ghost text: seq<byte>)
      requires ScreensValid() && nbytes <= buf.Length && buf != mem && buf != kbBuf
      requires text == Outgoing(buf, nbytes)
      modifies mem, this`screenX, this`screenY
      ensures ScreensValid()
      ensures Screen(Page(0), screenX, screenY) == ApplyAll(old(Screen(Page(0), screenX, screenY)), Prints(text))
      ensures forall q :: 1 <= q < 4 ==> Page(q) == old(Page(q))
    {
      var i := 0;
      while i < nbytes
        invariant 0 <= i <= |text|
        invariant ScreensValid()
        invariant Screen(Page(0), screenX, screenY) ==
                  ApplyAll(old(Screen(Page(0), screenX, screenY)), Prints(text[..i]))
        invariant forall q :: 1 <= q < 4 ==> Page(q) == old(Page(q))
      {
        Putc(buf[i]);
        PrintsSnoc(text, i);
        i := i + 1;
      }
      assert text[..i] == text;
    }

    /** The loop of term_write that feeds a backing page. */
    method TermPutAll(active: int, buf: array<byte>, nbytes: int, ghost text: seq<byte>)
      requires ScreensValid() && 0 <= active < NUM_TERMINALS && nbytes <= buf.Length && buf != mem && buf != kbBuf
      requires text == Outgoing(buf, nbytes)
      modifies mem, virtualX, virtualY
      ensures ScreensValid()
      ensures Screen(Page(active + 1), virtualX[active], virtualY[active]) ==
              ApplyAll(old(Screen(Page(active + 1), virtualX[active], virtualY[active])), Prints(text))
      ensures forall q :: 0 <= q < 4 && q != active + 1 ==> Page(q) == old(Page(q))
      ensures forall t :: 0 <= t < NUM_TERMINALS && t != active ==>
        virtualX[t] == old(virtualX[t]) && virtualY[t] == old(virtualY[t])
    {
      var i := 0;
      while i < nbytes
        invariant 0 <= i <= |text|
        invariant ScreensValid()
        invariant Screen(Page(active + 1), virtualX[active], virtualY[active]) ==
                  ApplyAll(old(Screen(Page(active + 1), virtualX[active], virtualY[active])), Prints(text[..i]))
        invariant forall q :: 0 <= q < 4 && q != active + 1 ==> Page(q) == old(Page(q))
        invariant forall t :: 0 <= t < NUM_TERMINALS && t != active ==>
          virtualX[t] == old(virtualX[t]) && virtualY[t] == old(virtualY[t])
      {
        TermPutc(active, buf[i]);
        PrintsSnoc(text, i);
        i := i + 1;
      }
      assert text[..i] == text;
    }

    /** The echo of a backspace: a blank is written over the character before the cursor. */
    method EraseChar()
      requires ScreensValid() && screenX > 0
      modifies mem, this`screenX, this`screenY
      ensures ScreensValid()
      ensures Screen(Page(0), screenX, screenY) == Erase(old(Screen(Page(0), screenX, screenY)))
      ensures forall q :: 1 <= q < 4 ==> Page(q) == old(Page(q))
    {
      screenX := screenX - 1;
      Putc(SPACE);
      screenX := screenX - 1;
    }

    lemma PrintsSnoc(text: seq<byte>, i: nat)
      requires i < |text|
      ensures Prints(text[..i + 1]) == Prints(text[..i]) + [Print(text[i])]
      ensures Prints(text[..i + 1])[..i] == Prints(text[..i])
    {
    }

    /** copy_4kb_page, through memcpy, between two pages of video memory. */
    method Copy4kbPage(p: int, source: int, q: int, dest: int)
      requires mem.Length == 4 * KB4 && 0 <= p < 4 && 0 <= q < 4
      requires source == VIDEO + KB4 * p && dest == VIDEO + KB4 * q
      modifies mem
      ensures Page(q) == old(Page(p))
      ensures forall o :: 0 <= o < 4 && o != q ==> Page(o) == old(Page(o))
    {
      ghost var was := mem[..];
      Memory.Memcpy(mem, dest - VIDEO, mem, source - VIDEO, KB4, VIDEO);
      forall o | 0 <= o < 4 ensures Page(o) == if o == q then old(Page(p)) else old(Page(o)) {
        assert forall j :: 0 <= j < KB4 ==> mem[..][KB4 * o + j] == Page(o)[j];
      }
    }

    /** change_display_term: saves the screen to the displayed terminal's backing
        page, then brings in the next terminal's. */
    method ChangeDisplayTerm(next: int)
      requires ScreensValid() && 0 <= next < NUM_TERMINALS
      modifies mem, this`displayTerminal
      ensures ScreensValid() && displayTerminal == next
      ensures Page(0) == if next == old(displayTerminal) then old(Page(0)) else old(Page(next + 1))
      ensures Page(old(displayTerminal) + 1) == old(Page(0))
      ensures forall q :: 1 <= q < 4 && q != old(displayTerminal) + 1 ==> Page(q) == old(Page(q))
    {
      BackingPages(displayTerminal, next);
      BackingPages(next, next);
      var curr := GetBackingPage(displayTerminal);
      Copy4kbPage(0, VIDEO, displayTerminal + 1, curr);
      var from := GetBackingPage(next);
      Copy4kbPage(next + 1, from, 0, VIDEO);
      displayTerminal := next;
    }

    // ---- System calls -----------------------------------------------------------

    method WriteShown(buf: array<byte>, nbytes: int, ghost text: seq<byte>)
      requires Valid() && nbytes <= buf.Length && buf != mem && buf != kbBuf
      requires text == Outgoing(buf, nbytes)
      modifies mem, this`screenX, this`screenY, this`model
      ensures Valid()
      ensures model == WriteStep(old(model), old(displayTerminal), text)
    {
      PutAll(buf, nbytes, text);
      model := WriteStep(model, displayTerminal, text);
      assert old(Represents(displayTerminal));
      ScreensChanged();
    }

    method WriteHidden(active: int, buf: array<byte>, nbytes: int, ghost text: seq<byte>)
      requires Valid() && 0 <= active < NUM_TERMINALS && active != displayTerminal
      requires nbytes <= buf.Length && buf != mem && buf != kbBuf && text == Outgoing(buf, nbytes)
      modifies mem, virtualX, virtualY, this`model
      ensures Valid()
      ensures model == WriteStep(old(model), active, text)
    {
      TermPutAll(active, buf, nbytes, text);
      model := WriteStep(model, active, text);
      forall t | 0 <= t < NUM_TERMINALS ensures Represents(t) {
        assert old(Represents(t));
        assert LineOf(t) == old(LineOf(t));
      }
    }

    /** term_write: to the screen if the running process's terminal is displayed,
        otherwise to that terminal's backing page. */
    method TermWrite(active: int, buf: array?<byte>, nbytes: int) returns (r: int)
      requires Valid() && 0 <= active < NUM_TERMINALS
      requires buf != null ==> nbytes <= buf.Length && buf != mem && buf != kbBuf
      modifies mem, virtualX, virtualY, this`screenX, this`screenY, this`model
      ensures Valid()
      ensures buf == null ==> r == -1 && model == old(model)
      ensures buf != null ==> r == 0
      ensures buf != null && nbytes >= 0 ==> model == Step(old(model), Write(active, old(buf[..nbytes])))
      ensures buf != null && nbytes < 0 ==> model == Step(old(model), Write(active, []))
    {
      if buf == null {
        return -1;
      }
      ghost var text := Outgoing(buf, nbytes);
      if active == displayTerminal {
        WriteShown(buf, nbytes, text);
      } else {
        WriteHidden(active, buf, nbytes, text);
      }
      return 0;
    }

    /** The switch branch of the keyboard handler: every terminal's screen and
        cursor come through unchanged, wherever they are stored. The other
        function keys save and restore the displayed cursor, which is no change. */
    method SwitchTerminal(pressed: int)
      requires Valid()
      modifies mem, virtualX, virtualY, this`displayTerminal, this`screenX, this`screenY, this`model
      ensures Valid()
      ensures model == old(model).(display := if pressed == F1 then 0 else if pressed == F2 then 1
                                              else if pressed == F3 then 2 else old(model.display))
    {
      if pressed == F1 {
        SwapScreens(0);
      } else if pressed == F2 {
        SwapScreens(1);
      } else if pressed == F3 {
        SwapScreens(2);
      } else {
        virtualX[displayTerminal] := screenX;
        virtualY[displayTerminal] := screenY;
      }
      model := model.(display := displayTerminal);
      forall t | 0 <= t < NUM_TERMINALS ensures Represents(t) {
        assert old(Represents(t));
        assert LineOf(t) == old(LineOf(t));
      }
    }

    // ---- Keyboard -----------------------------------------------------------------

    /** Echoes a byte on the displayed screen. */
    method Echo(value: byte)
      requires Valid()
      modifies mem, this`screenX, this`screenY, this`model
      ensures Valid()
      ensures model == old(model).WithShown(old(model).Shown().(screen := Put(old(model).Shown().screen, value)))
    {
      Putc(value);
      model := model.WithShown(model.Shown().(screen := Put(model.Shown().screen, value)));
      assert old(Represents(displayTerminal));
      ScreensChanged();
    }

    /** Echoes a backspace on the displayed screen. */
    method EchoErase()
      requires Valid() && screenX > 0
      modifies mem, this`screenX, this`screenY, this`model
      ensures Valid()
      ensures model == old(model).WithShown(old(model).Shown().(screen := Erase(old(model).Shown().screen)))
    {
      EraseChar();
      model := model.WithShown(model.Shown().(screen := Erase(model.Shown().screen)));
      assert old(Represents(displayTerminal));
      ScreensChanged();
    }

    /** The clear-screen key. */
    method HomeKey()
      requires Valid()
      modifies mem, this`screenX, this`screenY, this`model
      ensures Valid()
      ensures model == old(model).WithShown(old(model).Shown().(screen := Wipe(old(model).Shown().screen)))
    {
      TermClear();
      model := model.WithShown(model.Shown().(screen := Wipe(model.Shown().screen)));
      assert old(Represents(displayTerminal));
      ScreensChanged();
    }

    /** A change to the displayed page and cursor concerns the displayed terminal only. */
    twostate lemma ScreensChanged()
      requires old(Valid()) && ScreensValid() && KeyboardValid() && model.Valid()
      requires unchanged(`displayTerminal, virtualX, virtualY, kbBuf, kbBufIndex, readyToRead)
      requires forall q :: 1 <= q < 4 ==> Page(q) == old(Page(q))
      requires ScreenOf(displayTerminal) == model.Shown().screen
      requires model == old(model).WithShown(old(model).Shown().(screen := model.Shown().screen))
      ensures forall t :: 0 <= t < NUM_TERMINALS ==> Represents(t)
    {
      forall t | 0 <= t < NUM_TERMINALS ensures Represents(t) {
        assert old(Represents(t));
        assert LineOf(t) == old(LineOf(t));
        assert t != displayTerminal ==> Page(t + 1) == old(Page(t + 1));
      }
    }

    /** Appends a byte to the displayed terminal's buffer. */
    method Store(value: byte)
      requires Valid() && |model.Shown().line| < MAX_KB_BUF
      modifies kbBuf, kbBufIndex, this`model
      ensures Valid()
      ensures model == old(model).WithShown(old(model).Shown().(line := old(model).Shown().line + [value]))
    {
      assert Represents(displayTerminal);
      kbBuf[MAX_KB_BUF * displayTerminal + kbBufIndex[displayTerminal]] := value;
      kbBufIndex[displayTerminal] := kbBufIndex[displayTerminal] + 1;
      model := model.WithShown(model.Shown().(line := model.Shown().line + [value]));
      forall t | 0 <= t < NUM_TERMINALS ensures Represents(t) {
        assert old(Represents(t));
        assert ScreenOf(t) == old(ScreenOf(t));
        assert LineOf(t) == if t == displayTerminal then old(LineOf(t)) + [value] else old(LineOf(t));
      }
    }

    /** Moves the displayed terminal's buffer index back to `n`. */
    method CutLine(n: int)
      requires Valid() && 0 <= n <= |model.Shown().line|
      modifies kbBufIndex, this`model
      ensures Valid()
      ensures model == old(model).WithShown(old(model).Shown().(line := old(model).Shown().line[..n]))
    {
      assert Represents(displayTerminal);
      kbBufIndex[displayTerminal] := n;
      model := model.WithShown(model.Shown().(line := model.Shown().line[..n]));
      forall t | 0 <= t < NUM_TERMINALS ensures Represents(t) {
        assert old(Represents(t));
        assert ScreenOf(t) == old(ScreenOf(t));
        if t == displayTerminal {
          assert LineOf(t) == old(LineOf(t))[..n];
        } else {
          assert LineOf(t) == old(LineOf(t));
        }
      }
    }

    method MarkReady()
      requires Valid()
      modifies readyToRead, this`model
      ensures Valid()
      ensures model == old(model).WithShown(old(model).Shown().(ready := true))
    {
      readyToRead[displayTerminal] := true;
      model := model.WithShown(model.Shown().(ready := true));
      forall t | 0 <= t < NUM_TERMINALS ensures Represents(t) {
        assert old(Represents(t));
        assert ScreenOf(t) == old(ScreenOf(t)) && LineOf(t) == old(LineOf(t));
      }
    }

    method RuboutKey()
      requires Valid() && |model.Shown().line| < MAX_KB_BUF
      modifies mem, kbBufIndex, this`screenX, this`screenY, this`model
      ensures Valid()
      ensures model == old(model).WithShown(EditTerm(old(model).Shown(), Rubout))
    {
      assert Represents(displayTerminal);
      if screenX > 0 {
        EchoErase();
        assert Represents(displayTerminal);
        if kbBufIndex[displayTerminal] > 0 {
          CutLine(kbBufIndex[displayTerminal] - 1);
        }
      }
    }

    /** A buffer that reached 128 bytes starts again from the beginning. */
    method RecycleBuffer()
      requires Valid()
      modifies kbBufIndex, this`model
      ensures Valid()
      ensures model == old(model).WithShown(old(model).Shown().(line := Recycled(old(model).Shown().line)))
    {
      assert Represents(displayTerminal);
      if kbBufIndex[displayTerminal] == MAX_KB_BUF {
        CutLine(0);
      }
    }

    /** One scancode through keyboard_handler. */
    method KeyboardHandler(pressed: byte)
      requires Valid()
      modifies this, mem, virtualX, virtualY, kbBuf, kbBufIndex, readyToRead
      ensures Valid()
      ensures model == Step(old(model), Key(pressed))
    {
      RecycleBuffer();
      if IsModifier(pressed) {
        ModifierKey(pressed);
      } else if pressed == BACKSPACE {
        RuboutKey();
      } else if pressed == ENTER {
        Store(NEWLINE);
        Echo(NEWLINE);
        MarkReady();
      } else if pressed < SUPPORTED_KEYS {
        OrdinaryKey(pressed);
      }
    }

    method ModifierKey(pressed: byte)
      requires Valid() && IsModifier(pressed)
      modifies this`capsOn, this`shiftOn, this`ctrlOn, this`altOn, this`model
      ensures Valid()
      ensures model == old(model).(mods := NextMods(old(model.mods), pressed))
    {
      if pressed == CAPS {
        capsOn := !capsOn;
      } else if pressed == L_SHIFT_MAKE || pressed == R_SHIFT_MAKE {
        shiftOn := true;
      } else if pressed == L_SHIFT_BREAK || pressed == R_SHIFT_BREAK {
        shiftOn := false;
      } else if pressed == L_CTRL_MAKE {
        ctrlOn := true;
      } else if pressed == L_CTRL_BREAK {
        ctrlOn := false;
      } else if pressed == L_ALT_MAKE {
        altOn := true;
      } else {
        ctrlOn := false;
      }
      model := model.(mods := Mods(altOn, capsOn, ctrlOn, shiftOn));
      forall t | 0 <= t < NUM_TERMINALS ensures Represents(t) {
        assert old(Represents(t));
        assert ScreenOf(t) == old(ScreenOf(t)) && LineOf(t) == old(LineOf(t));
      }
    }

    /** The default branch of the handler: switching, clearing and typing. */
    method OrdinaryKey(pressed: byte)
      requires Valid() && |model.Shown().line| < MAX_KB_BUF
      requires pressed < SUPPORTED_KEYS && !IsModifier(pressed) && pressed != BACKSPACE && pressed != ENTER
      modifies mem, virtualX, virtualY, kbBuf, kbBufIndex, this`displayTerminal, this`screenX, this`screenY, this`model
      ensures Valid()
      ensures model == old(model).WithShown(EditTerm(old(model).Shown(), EditOf(old(model.mods), pressed)))
                                 .(display := NextDisplay(old(model), pressed))
    {
      hide KeyValue;
      OnlyEnterTypesNewline(pressed, capsOn, shiftOn);
      if altOn && pressed >= F1 {
        SwitchTerminal(pressed);
      }
      if ctrlOn && pressed == KEY_L {
        HomeKey();
        return;
      }
      assert Represents(displayTerminal);
      if kbBufIndex[displayTerminal] == MAX_KB_BUF - 1 {
        return;
      }
      var value := KeyValue(pressed, capsOn, shiftOn);
      if value != NUL {
        Store(value);
        Echo(value);
      }
    }

    // ---- Reading ------------------------------------------------------------------

    /** clear_keyboard_buf: empties the buffers of all terminals. */
    method ClearKeyboardBuf()
      requires Valid()
      modifies kbBufIndex, readyToRead, this`model
      ensures Valid()
      ensures model == ReadStep(old(model))
    {
      for i := 0 to NUM_TERMINALS
        invariant unchanged(`model)
        invariant forall t :: 0 <= t < i ==> kbBufIndex[t] == 0 && !readyToRead[t]
        invariant forall t :: i <= t < NUM_TERMINALS ==> kbBufIndex[t] == old(kbBufIndex[t])
      {
        readyToRead[i] := false;
        kbBufIndex[i] := 0;
      }
      model := ReadStep(model);
      forall t | 0 <= t < NUM_TERMINALS ensures Represents(t) {
        assert old(Represents(t));
        assert ScreenOf(t) == old(ScreenOf(t));
      }
    }

    /** term_read, once the displayed terminal's line is ready. */
    method TermRead(buf: array?<byte>, nbytes: int) returns (r: int)
      requires Valid()
      requires buf != null ==> 0 <= nbytes <= buf.Length && buf != mem && buf != kbBuf && model.Shown().ready
      modifies kbBufIndex, readyToRead, buf, this`model
      ensures Valid()
      ensures buf == null ==> r == -1 && model == old(model)
      ensures buf != null ==>
        && model == Step(old(model), Read(nbytes))
        && r == ReadCount(old(model).Shown().line, nbytes)
        && buf[..] == ReadBytes(old(model).Shown().line, nbytes) + old(buf[nbytes..])
    {
      if buf == null {
        return -1;
      }
      r := DeliverLine(buf, nbytes);
      forall t | 0 <= t < NUM_TERMINALS ensures Represents(t) {
        assert old(Represents(t));
        assert ScreenOf(t) == old(ScreenOf(t)) && LineOf(t) == old(LineOf(t));
      }
      ClearKeyboardBuf();
    }

    /** The copying part of term_read. */
    method DeliverLine(buf: array<byte>, nbytes: nat) returns (r: nat)
      requires Valid() && nbytes <= buf.Length && buf != mem && buf != kbBuf
      modifies buf
      ensures r == ReadCount(model.Shown().line, nbytes)
      ensures buf[..] == ReadBytes(model.Shown().line, nbytes) + old(buf[nbytes..])
    {
      assert Represents(displayTerminal);
      var n := kbBufIndex[displayTerminal];
      if nbytes > n {
        CopyLine(buf, n);
        PadWithNul(buf, n, nbytes);
        r := n;
      } else {
        CopyLine(buf, nbytes);
        r := 0;
      }
    }

    method CopyLine(buf: array<byte>, n: nat)
      requires Valid() && n <= |model.Shown().line| && n <= buf.Length && buf != mem && buf != kbBuf
      modifies buf
      ensures buf[..] == model.Shown().line[..n] + old(buf[n..])
    {
      assert Represents(displayTerminal);
      var at := MAX_KB_BUF * displayTerminal;
      assert LineOf(displayTerminal)[..n] == kbBuf[at..at + n];
      Memory.Memcpy(buf, 0, kbBuf, at, n);
    }

    /** The loop of term_read that clears the bytes past the end of the line. */
    method PadWithNul(buf: array<byte>, n: nat, nbytes: nat)
      requires n <= nbytes <= buf.Length
      modifies buf
      ensures buf[..] == old(buf[..n]) + seq(nbytes - n, _ => NUL) + old(buf[nbytes..])
    {
      for i := n to nbytes
        invariant forall j :: 0 <= j < buf.Length ==> buf[j] == if n <= j < i then NUL else old(buf[j])
      {
        buf[i] := NUL;
      }
    }

    // ---- Whole runs ---------------------------------------------------------------

    /** What happens to the console in the course of time: writes, scancodes, and
        reads of lines that are ready. Wherever memory then keeps a terminal, it
        holds the fold of that terminal's own operations. */
    method Feed(evs: seq<Event>)
      requires Valid() && Feasible(model, evs)
      modifies this, mem, virtualX, virtualY, kbBuf, kbBufIndex, readyToRead
      ensures Valid() && model == Run(old(model), evs)
      ensures forall t :: 0 <= t < NUM_TERMINALS ==>
        ScreenOf(t) == ApplyAll(old(ScreenOf(t)), OwnOps(old(model), evs, t))
    {
      ghost var start := model;
      assert evs[..0] == [];
      for i := 0 to |evs|
        invariant Valid() && model == Run(start, evs[..i])
      {
        RunNext(start, evs, i);
        Happen(evs[i]);
      }
      assert evs[..|evs|] == evs;
      forall t | 0 <= t < NUM_TERMINALS
        ensures ScreenOf(t) == ApplyAll(old(ScreenOf(t)), OwnOps(old(model), evs, t))
      {
        assert Represents(t) && old(Represents(t));
        Isolation(start, evs, t);
      }
    }

    method Happen(ev: Event)
      requires Valid() && Legal(ev) && (ev.Read? ==> model.Shown().ready)
      modifies this, mem, virtualX, virtualY, kbBuf, kbBufIndex, readyToRead
      ensures Valid() && model == Step(old(model), ev)
    {
      match ev {
        case Write(active, text) =>
          var buf := new byte[|text|](i requires 0 <= i < |text| => text[i]);
          assert Outgoing(buf, |text|) == text;
          var r := TermWrite(active, buf, |text|);
        case Key(code) =>
          KeyboardHandler(code);
        case Read(nbytes) =>
          var buf := new byte[nbytes];
          var r := TermRead(buf, nbytes);
      }
    }
  }
}
