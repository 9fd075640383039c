/** Scancodes and the four character tables of the keyboard driver. */
module Keymap {
  import opened Bytes

  const CAPS := 0x3A
  const L_SHIFT_MAKE := 0x2A
  const R_SHIFT_MAKE := 0x36
  const L_SHIFT_BREAK := 0xAA
  const R_SHIFT_BREAK := 0xB6
  const L_CTRL_MAKE := 0x1D
  const L_CTRL_BREAK := 0x9D
  const L_ALT_MAKE := 0x38
  const L_ALT_BREAK := 0xB8
  const PREFIX := 0xE0
  const KEY_A := 0x1E
  const KEY_L := 0x26
  const ENTER := 0x1C
  const ENTER_BREAK := 0x9C
  const BACKSPACE := 0x0E
  const F1 := 0x3B
  const F2 := 0x3C
  const F3 := 0x3D
  const SUPPORTED_KEYS := 0x45

  const MAX_KB_BUF := 128

  // The tables, indexed by scancode; a zero marks a key that types nothing.
  const KEY_PRESS :=
    "\0\0" + "1234567890-=" + "\0\0" + "qwertyuiop[]" + "\n\0" + "asdfghjkl;'`" + "\0\\" + "zxcvbnm,./"
    + "\0*\0 \0" + "\0\0\0\0\0\0\0\0\0\0"
  const CAPS_KEY_PRESS :=
    "\0\0" + "1234567890-=" + "\0\0" + "QWERTYUIOP[]" + "\n\0" + "ASDFGHJKL;'`" + "\0\\" + "ZXCVBNM,./"
    + "\0*\0 \0" + "\0\0\0\0\0\0\0\0\0\0"
  const SHIFT_KEY_PRESS :=
    "\0\0" + "!@#$%^&*()_+" + "\0\0" + "QWERTYUIOP{}" + "\n\0" + "ASDFGHJKL:\"~" + "\0|" + "ZXCVBNM<>?"
    + "\0*\0 \0" + "\0\0\0\0\0\0\0\0\0\0"
  const CAPS_SHIFT_KEY_PRESS :=
    "\0\0" + "!@#$%^&*()_+" + "\0\0" + "qwertyuiop{}" + "\n\0" + "asdfghjkl:\"~" + "\0|" + "zxcvbnm<>?"
    + "\0*\0 \0" + "\0\0\0\0\0\0\0\0\0\0"

  // Rows of keys, unshifted and shifted.
  const DIGITS := "1234567890-="
  const SHIFT_DIGITS := "!@#$%^&*()_+"
  const TOP_LOWER := "qwertyuiop"
  const TOP_UPPER := "QWERTYUIOP"
  const HOME_LOWER := "asdfghjkl"
  const HOME_UPPER := "ASDFGHJKL"
  const BOTTOM_LOWER := "zxcvbnm"
  const BOTTOM_UPPER := "ZXCVBNM"

  function Code(c: char): byte {
    if c < 128 as char then c as int else NUL
  }

  /** The entry for a scancode in the table that caps lock and shift select. */
  function KeyValue(code: int, caps: bool, shift: bool): byte
    requires 0 <= code < SUPPORTED_KEYS
  {
    if caps && shift then Code(CAPS_SHIFT_KEY_PRESS[code])
    else if caps then Code(CAPS_KEY_PRESS[code])
    else if shift then Code(SHIFT_KEY_PRESS[code])
    else Code(KEY_PRESS[code])
  }

  /** The rule behind the tables: letters are upper case when exactly one of caps
      lock and shift is on, and every other key follows shift alone. */
  function KeyRule(code: int, caps: bool, shift: bool): byte
    requires 0 <= code < SUPPORTED_KEYS
  {
    if 2 <= code < 14 then Code((if shift then SHIFT_DIGITS else DIGITS)[code - 2])
    else if 16 <= code < 26 then Code((if caps != shift then TOP_UPPER else TOP_LOWER)[code - 16])
    else if 26 <= code < 28 then Code((if shift then "{}" else "[]")[code - 26])
    else if code == ENTER then NEWLINE
    else if 30 <= code < 39 then Code((if caps != shift then HOME_UPPER else HOME_LOWER)[code - 30])
    else if 39 <= code < 42 then Code((if shift then ":\"~" else ";'`")[code - 39])
    else if code == 43 then Code(if shift then '|' else '\\')
    else if 44 <= code < 51 then Code((if caps != shift then BOTTOM_UPPER else BOTTOM_LOWER)[code - 44])
    else if 51 <= code < 54 then Code((if shift then "<>?" else ",./")[code - 51])
    else if code == 55 then Code('*')
    else if code == 57 then SPACE
    else NUL
  }

  lemma PlainTable(code: int)
    requires 0 <= code < SUPPORTED_KEYS
    ensures Code(KEY_PRESS[code]) == KeyRule(code, false, false)
  {
  }

  lemma CapsTable(code: int)
    requires 0 <= code < SUPPORTED_KEYS
    ensures Code(CAPS_KEY_PRESS[code]) == KeyRule(code, true, false)
  {
  }

  lemma ShiftTable(code: int)
    requires 0 <= code < SUPPORTED_KEYS
    ensures Code(SHIFT_KEY_PRESS[code]) == KeyRule(code, false, true)
  {
  }

  lemma CapsShiftTable(code: int)
    requires 0 <= code < SUPPORTED_KEYS
    ensures Code(CAPS_SHIFT_KEY_PRESS[code]) == KeyRule(code, true, true)
  {
  }

  /** All four tables follow the rule, at every scancode. */
  lemma TablesFollowRule(code: int, caps: bool, shift: bool)
    requires 0 <= code < SUPPORTED_KEYS
    ensures KeyValue(code, caps, shift) == KeyRule(code, caps, shift)
  {
    hide KeyRule;
    PlainTable(code);
    CapsTable(code);
    ShiftTable(code);
    CapsShiftTable(code);
  }

  predicate IsLetter(c: byte) {
    Code('a') <= c <= Code('z')
  }

  /** Caps lock and shift agree on every letter and cancel each other. */
  lemma CapsAndShiftOnLetters(code: int)
    requires 0 <= code < SUPPORTED_KEYS && IsLetter(KeyValue(code, false, false))
    ensures var plain := KeyValue(code, false, false);
      && KeyValue(code, true, false) == KeyValue(code, false, true) == plain - Code('a') + Code('A')
      && KeyValue(code, true, true) == plain
  {
    hide KeyValue;
    TablesFollowRule(code, false, false);
    TablesFollowRule(code, true, false);
    TablesFollowRule(code, false, true);
    TablesFollowRule(code, true, true);
  }

  /** Caps lock leaves exactly the keys that are not letters alone. */
  lemma CapsConcernsLetters(code: int, shift: bool)
    requires 0 <= code < SUPPORTED_KEYS
    ensures KeyValue(code, true, shift) == KeyValue(code, false, shift) <==> !IsLetter(KeyValue(code, false, false))
  {
    hide KeyValue;
    TablesFollowRule(code, false, false);
    TablesFollowRule(code, true, shift);
    TablesFollowRule(code, false, shift);
  }

  /** Enter is the only key whose entry is a newline, and the function keys type nothing. */
  lemma OnlyEnterTypesNewline(code: int, caps: bool, shift: bool)
    requires 0 <= code < SUPPORTED_KEYS
    ensures KeyValue(code, caps, shift) == NEWLINE <==> code == ENTER
    ensures KeyValue(code, caps, shift) != RETURN
    ensures code >= F1 ==> KeyValue(code, caps, shift) == NUL
  {
    hide KeyValue;
    TablesFollowRule(code, caps, shift);
  }
}

/** The idealised console: every terminal owns a private screen and a private
    input line for ever, and a switch changes nothing but which one is displayed. */
module Multiplexer {
  import opened Prelude
  import opened Bytes
  import opened Screen
  import opened Layout
  import opened Keymap

  datatype Mods = Mods(alt: bool, caps: bool, ctrl: bool, shift: bool)

  datatype Term = Term(screen: Screen, line: seq<byte>, ready: bool) {
    ghost predicate Valid() {
      screen.Valid() && |line| <= MAX_KB_BUF
    }
  }

  datatype Machine = Machine(terms: seq<Term>, display: nat, mods: Mods) {
    ghost predicate Valid() {
      && |terms| == NUM_TERMINALS
      && display < NUM_TERMINALS
      && forall t :: 0 <= t < NUM_TERMINALS ==> terms[t].Valid()
    }

    function Shown(): Term
      requires Valid()
    {
      terms[display]
    }

    function WithShown(term: Term): (r: Machine)
      requires Valid() && term.Valid()
      ensures r.Valid()
    {
      this.(terms := terms[display := term])
    }
  }

  /** What can happen to the console: a program running in terminal `active`
      writes, a scancode arrives, or a program reads the keyboard. */
  datatype Event = Write(active: nat, text: seq<byte>) | Key(code: byte) | Read(nbytes: nat)

  ghost predicate Legal(ev: Event) {
    ev.Write? ==> ev.active < NUM_TERMINALS
  }

  function Prints(text: seq<byte>): (ops: seq<Op>)
    ensures |ops| == |text|
  {
    seq(|text|, i requires 0 <= i < |text| => Print(text[i]))
  }

  // ---- Keyboard -----------------------------------------------------------

  /** Modifier keys; releasing alt clears the control flag and leaves alt set. */
  function NextMods(mods: Mods, code: byte): Mods {
    if code == CAPS then mods.(caps := !mods.caps)
    else if code == L_SHIFT_MAKE || code == R_SHIFT_MAKE then mods.(shift := true)
    else if code == L_SHIFT_BREAK || code == R_SHIFT_BREAK then mods.(shift := false)
    else if code == L_CTRL_MAKE then mods.(ctrl := true)
    else if code == L_CTRL_BREAK then mods.(ctrl := false)
    else if code == L_ALT_MAKE then mods.(alt := true)
    else if code == L_ALT_BREAK then mods.(ctrl := false)
    else mods
  }

  // ---- Modifier keys and the flags for them ---------------------------------

  /** Which of the two keys of a kind are physically down. */
  datatype Pair = Pair(left: bool, right: bool) {
    predicate Down() {
      left || right
    }

    /** One of them changes. */
    function With(rightOne: bool, down: bool): Pair {
      if rightOne then Pair(left, down) else Pair(down, right)
    }
  }

  /** The modifier keys that are physically down. The right control and alt keys
      send the left ones' codes after a prefix byte, which the driver takes no notice
      of; so do other keys with shift codes, which then mean no shift key. */
  datatype Held = Held(alt: Pair, ctrl: Pair, shift: Pair, prefixed: bool)

  const NONE_HELD := Held(Pair(false, false), Pair(false, false), Pair(false, false), false)

  function NextAlt(alt: Pair, prefixed: bool, code: byte): Pair {
    if code == L_ALT_MAKE || code == L_ALT_BREAK then alt.With(prefixed, code == L_ALT_MAKE) else alt
  }

  function NextCtrl(ctrl: Pair, prefixed: bool, code: byte): Pair {
    if code == L_CTRL_MAKE || code == L_CTRL_BREAK then ctrl.With(prefixed, code == L_CTRL_MAKE) else ctrl
  }

  function NextShift(shift: Pair, prefixed: bool, code: byte): Pair {
    if prefixed then shift
    else if code == L_SHIFT_MAKE || code == L_SHIFT_BREAK then shift.With(false, code == L_SHIFT_MAKE)
    else if code == R_SHIFT_MAKE || code == R_SHIFT_BREAK then shift.With(true, code == R_SHIFT_MAKE)
    else shift
  }

  function NextHeld(h: Held, code: byte): Held {
    Held(NextAlt(h.alt, h.prefixed, code), NextCtrl(h.ctrl, h.prefixed, code), NextShift(h.shift, h.prefixed, code),
         code == PREFIX)
  }

  /** The flags say which keys are down. */
  predicate Agree(mods: Mods, h: Held) {
    mods.alt == h.alt.Down() && mods.ctrl == h.ctrl.Down() && mods.shift == h.shift.Down()
  }

  // The scancodes that a flag misreads.

  /** The release of the only alt key that is down. */
  predicate MisreadForAlt(alt: Pair, prefixed: bool, code: byte) {
    code == L_ALT_BREAK && if prefixed then alt.right && !alt.left else alt.left && !alt.right
  }

  /** The release of an alt key while a control key is down, or of one of two control keys. */
  predicate MisreadForCtrl(ctrl: Pair, prefixed: bool, code: byte) {
    || (code == L_ALT_BREAK && ctrl.Down())
    || (code == L_CTRL_BREAK && if prefixed then ctrl.left else ctrl.right)
  }

  /** The release of one of two shift keys, and the shift codes that mean no shift key. */
  predicate MisreadForShift(shift: Pair, prefixed: bool, code: byte) {
    if code == L_SHIFT_MAKE || code == R_SHIFT_MAKE then prefixed && !shift.Down()
    else if code == L_SHIFT_BREAK then if prefixed then shift.Down() else shift.right
    else code == R_SHIFT_BREAK && if prefixed then shift.Down() else shift.left
  }

  predicate Misread(h: Held, code: byte) {
    || MisreadForAlt(h.alt, h.prefixed, code)
    || MisreadForCtrl(h.ctrl, h.prefixed, code)
    || MisreadForShift(h.shift, h.prefixed, code)
  }

  // What the scancodes do to each flag.

  predicate AltAfter(on: bool, code: byte) {
    code == L_ALT_MAKE || on
  }

  predicate CtrlAfter(on: bool, code: byte) {
    code == L_CTRL_MAKE || (code != L_CTRL_BREAK && code != L_ALT_BREAK && on)
  }

  predicate ShiftAfter(on: bool, code: byte) {
    code == L_SHIFT_MAKE || code == R_SHIFT_MAKE || (code != L_SHIFT_BREAK && code != R_SHIFT_BREAK && on)
  }

  lemma FlagsAfter(mods: Mods, code: byte)
    ensures var next := NextMods(mods, code);
      && next.alt == AltAfter(mods.alt, code)
      && next.ctrl == CtrlAfter(mods.ctrl, code)
      && next.shift == ShiftAfter(mods.shift, code)
  {
  }

  /** Flags that agree with the keys go on agreeing exactly when the scancode is not misread. */
  lemma AgreementKept(mods: Mods, h: Held, code: byte)
    requires Agree(mods, h)
    ensures Agree(NextMods(mods, code), NextHeld(h, code)) <==> !Misread(h, code)
  {
    FlagsAfter(mods, code);
    hide NextMods, AltAfter, CtrlAfter, ShiftAfter, NextAlt, NextCtrl, NextShift, MisreadForAlt, MisreadForCtrl, MisreadForShift;
    AltKept(h.alt, h.prefixed, code);
    CtrlKept(h.ctrl, h.prefixed, code);
    ShiftKept(h.shift, h.prefixed, code);
  }

  lemma AltKept(alt: Pair, prefixed: bool, code: byte)
    ensures AltAfter(alt.Down(), code) == NextAlt(alt, prefixed, code).Down() <==> !MisreadForAlt(alt, prefixed, code)
  {
  }

  lemma CtrlKept(ctrl: Pair, prefixed: bool, code: byte)
    ensures CtrlAfter(ctrl.Down(), code) == NextCtrl(ctrl, prefixed, code).Down() <==> !MisreadForCtrl(ctrl, prefixed, code)
  {
  }

  lemma ShiftKept(shift: Pair, prefixed: bool, code: byte)
    ensures ShiftAfter(shift.Down(), code) == NextShift(shift, prefixed, code).Down() <==>
      !MisreadForShift(shift, prefixed, code)
  {
  }

  predicate IsModifier(code: byte) {
    code in {CAPS, L_SHIFT_MAKE, R_SHIFT_MAKE, L_SHIFT_BREAK, R_SHIFT_BREAK,
             L_CTRL_MAKE, L_CTRL_BREAK, L_ALT_MAKE, L_ALT_BREAK}
  }

  /** Alt with F1, F2 or F3 selects a terminal. */
  function NextDisplay(m: Machine, code: byte): nat {
    if !m.mods.alt || code < F1 || code >= SUPPORTED_KEYS then m.display
    else if code == F1 then 0
    else if code == F2 then 1
    else if code == F3 then 2
    else m.display
  }

  /** What a key does to the screen and the line of the displayed terminal. */
  datatype Edit = Nothing | Rubout | Finish | Home | Type(value: byte)

  function EditOf(mods: Mods, code: byte): Edit {
    if IsModifier(code) then Nothing
    else if code == BACKSPACE then Rubout
    else if code == ENTER then Finish
    else if code >= SUPPORTED_KEYS then Nothing
    else if mods.ctrl && code == KEY_L then Home
    else
      var value := KeyValue(code, mods.caps, mods.shift);
      if value == NUL then Nothing else Type(value)
  }

  /** A full buffer is forgotten as soon as the next scancode arrives. */
  function Recycled(line: seq<byte>): seq<byte> {
    if |line| == MAX_KB_BUF then [] else line
  }

  function EditTerm(term: Term, edit: Edit): (r: Term)
    requires term.Valid() && |term.line| < MAX_KB_BUF
    ensures r.Valid()
  {
    match edit
    case Nothing => term
    case Rubout =>
      if term.screen.x > 0 then
        Term(Erase(term.screen), if term.line == [] then [] else term.line[..|term.line| - 1], term.ready)
      else term
    case Finish => Term(Put(term.screen, NEWLINE), term.line + [NEWLINE], true)
    case Home => term.(screen := Wipe(term.screen))
    case Type(value) =>
      if |term.line| == MAX_KB_BUF - 1 then term
      else Term(Put(term.screen, value), term.line + [value], term.ready)
  }

  function KeyStep(m: Machine, code: byte): (r: Machine)
    requires m.Valid()
    ensures r.Valid()
  {
    var live := m.Shown().(line := Recycled(m.Shown().line));
    m.WithShown(EditTerm(live, EditOf(m.mods, code)))
     .(mods := NextMods(m.mods, code), display := NextDisplay(m, code))
  }

  /** Reading the keyboard consumes the displayed terminal's line and empties the other two. */
  function ReadStep(m: Machine): (r: Machine)
    requires m.Valid()
    ensures r.Valid()
  {
    m.(terms := seq(NUM_TERMINALS, t requires 0 <= t < NUM_TERMINALS => m.terms[t].(line := [], ready := false)))
  }

  /** The bytes a read delivers: the line and NUL padding, or a bare prefix of it. */
  function ReadBytes(line: seq<byte>, nbytes: nat): (r: seq<byte>)
    ensures |r| == nbytes
  {
    if nbytes > |line| then line + seq(nbytes - |line|, _ => NUL) else line[..nbytes]
  }

  /** The count a read reports: 0 unless more than the whole line was asked for. */
  function ReadCount(line: seq<byte>, nbytes: nat): nat {
    if nbytes > |line| then |line| else 0
  }

  function WriteStep(m: Machine, active: nat, text: seq<byte>): (r: Machine)
    requires m.Valid() && active < NUM_TERMINALS
    ensures r.Valid()
  {
    var term := m.terms[active];
    m.(terms := m.terms[active := term.(screen := ApplyAll(term.screen, Prints(text)))])
  }

  function Step(m: Machine, ev: Event): (r: Machine)
    requires m.Valid() && Legal(ev)
    ensures r.Valid()
  {
    match ev
    case Write(active, text) => WriteStep(m, active, text)
    case Key(code) => KeyStep(m, code)
    case Read(_) => ReadStep(m)
  }

  function Run(m: Machine, evs: seq<Event>): (r: Machine)
    requires m.Valid() && forall i :: 0 <= i < |evs| ==> Legal(evs[i])
    ensures r.Valid()
  {
    if evs == [] then m else Step(Run(m, evs[..|evs| - 1]), evs[|evs| - 1])
  }

  lemma RunSnoc(m: Machine, evs: seq<Event>, ev: Event)
    requires m.Valid() && Legal(ev) && forall i :: 0 <= i < |evs| ==> Legal(evs[i])
    ensures Run(m, evs + [ev]) == Step(Run(m, evs), ev)
  {
    assert (evs + [ev])[..|evs|] == evs;
  }

  lemma RunNext(m: Machine, evs: seq<Event>, k: nat)
    requires m.Valid() && k < |evs| && forall i :: 0 <= i < |evs| ==> Legal(evs[i])
    ensures Run(m, evs[..k + 1]) == Step(Run(m, evs[..k]), evs[k])
  {
    assert evs[..k + 1][..k] == evs[..k];
  }

  // ---- Modifiers over whole runs ---------------------------------------------

  function HeldAfter(h: Held, evs: seq<Event>): Held {
    if evs == [] then h
    else
      var before, ev := HeldAfter(h, evs[..|evs| - 1]), evs[|evs| - 1];
      if ev.Key? then NextHeld(before, ev.code) else before
  }

  lemma HeldNext(h: Held, evs: seq<Event>, k: nat)
    requires k < |evs| && evs[k].Key?
    ensures HeldAfter(h, evs[..0]) == h && HeldAfter(h, evs[..k + 1]) == NextHeld(HeldAfter(h, evs[..k]), evs[k].code)
  {
    assert evs[..k + 1][..k] == evs[..k];
  }

  lemma StepMods(m: Machine, ev: Event)
    requires m.Valid() && Legal(ev)
    ensures Step(m, ev).mods == if ev.Key? then NextMods(m.mods, ev.code) else m.mods
  {
  }

  /** The flags agree with the keys for as long as no scancode is misread. */
  lemma {:induction false} AgreesUntilMisread(m: Machine, h: Held, evs: seq<Event>)
    requires m.Valid() && Agree(m.mods, h) && forall i :: 0 <= i < |evs| ==> Legal(evs[i])
    requires forall i :: 0 <= i < |evs| && evs[i].Key? ==> !Misread(HeldAfter(h, evs[..i]), evs[i].code)
    ensures Agree(Run(m, evs).mods, HeldAfter(h, evs))
  {
    if evs != [] {
      var init, ev := evs[..|evs| - 1], evs[|evs| - 1];
      assert forall i :: 0 <= i < |init| ==> init[..i] == evs[..i] && init[i] == evs[i];
      AgreesUntilMisread(m, h, init);
      StepMods(Run(m, init), ev);
      if ev.Key? {
        AgreementKept(Run(m, init).mods, HeldAfter(h, init), ev.code);
      }
    }
  }

  /** Over every run, the alt flag is on exactly if it was on at the start or alt was ever pressed. */
  lemma {:induction false} AltSticks(m: Machine, evs: seq<Event>)
    requires m.Valid() && forall i :: 0 <= i < |evs| ==> Legal(evs[i])
    ensures Run(m, evs).mods.alt <==> m.mods.alt || Key(L_ALT_MAKE) in evs
  {
    if evs != [] {
      var init, ev := evs[..|evs| - 1], evs[|evs| - 1];
      AltSticks(m, init);
      StepMods(Run(m, init), ev);
      assert evs == init + [ev];
    }
  }

  /** A bare function key selects its terminal exactly when alt was ever pressed. */
  lemma FunctionKeysSwitch(m: Machine, evs: seq<Event>, t: nat)
    requires m.Valid() && !m.mods.alt && t < NUM_TERMINALS && forall i :: 0 <= i < |evs| ==> Legal(evs[i])
    ensures var before := Run(m, evs);
      KeyStep(before, F1 + t).display == if Key(L_ALT_MAKE) in evs then t else before.display
  {
    AltSticks(m, evs);
  }

  /** The console after boot: nothing typed, nothing held, terminal 0 displayed. */
  ghost predicate Fresh(m: Machine) {
    && m.Valid() && m.display == 0 && m.mods == Mods(false, false, false, false)
    && forall t :: 0 <= t < NUM_TERMINALS ==>
         m.terms[t].line == [] && !m.terms[t].ready && m.terms[t].screen.x == m.terms[t].screen.y == 0
  }

  /** After boot: alt is pressed and released, and F2 alone switches terminals. */
  lemma SwitchWithoutAltExample(m: Machine)
    requires Fresh(m)
    ensures var evs := [Key(L_ALT_MAKE), Key(L_ALT_BREAK)];
      && !HeldAfter(NONE_HELD, evs).alt.Down()
      && Run(m, evs + [Key(F2)]).display == 1
  {
    var evs := [Key(L_ALT_MAKE), Key(L_ALT_BREAK)];
    HeldNext(NONE_HELD, evs, 0);
    HeldNext(NONE_HELD, evs, 1);
    assert evs[..0] == [] && evs[..2] == evs;
    hide HeldAfter;
    RunSnoc(m, evs, Key(F2));
    FunctionKeysSwitch(m, evs, 1);
  }

  /** After boot: both shift keys are pressed and one is released, and the flag is off. */
  lemma ShiftLostExample(m: Machine)
    requires Fresh(m)
    ensures var evs := [Key(L_SHIFT_MAKE), Key(R_SHIFT_MAKE), Key(L_SHIFT_BREAK)];
      HeldAfter(NONE_HELD, evs).shift.right && !Run(m, evs).mods.shift
  {
    var evs := [Key(L_SHIFT_MAKE), Key(R_SHIFT_MAKE), Key(L_SHIFT_BREAK)];
    HeldNext(NONE_HELD, evs, 0);
    HeldNext(NONE_HELD, evs, 1);
    HeldNext(NONE_HELD, evs, 2);
    assert evs[..0] == [] && evs[..3] == evs;
    hide HeldAfter;
    RunNext(m, evs, 2);
    StepMods(Run(m, evs[..2]), Key(L_SHIFT_BREAK));
  }

  // ---- Isolation ------------------------------------------------------------

  /** The screen operations a key causes in the terminal that is displayed when it arrives. */
  function KeyOps(term: Term, edit: Edit): seq<Op> {
    match edit
    case Nothing => []
    case Rubout => [Backspace]
    case Finish => [Print(NEWLINE)]
    case Home => [Clear]
    case Type(value) => if |Recycled(term.line)| == MAX_KB_BUF - 1 then [] else [Print(value)]
  }

  /** The operations that one event addresses to terminal `t`. */
  function OwnOps1(m: Machine, ev: Event, t: nat): seq<Op>
    requires m.Valid() && Legal(ev)
  {
    match ev
    case Write(active, text) => if active == t then Prints(text) else []
    case Key(code) => if m.display == t then KeyOps(m.Shown(), EditOf(m.mods, code)) else []
    case Read(_) => []
  }

  function OwnOps(m: Machine, evs: seq<Event>, t: nat): seq<Op>
    requires m.Valid() && forall i :: 0 <= i < |evs| ==> Legal(evs[i])
  {
    if evs == [] then []
    else
      OwnOps(m, evs[..|evs| - 1], t) + OwnOps1(Run(m, evs[..|evs| - 1]), evs[|evs| - 1], t)
  }

  /** Over every run, a terminal's screen is the fold of that terminal's own
      operations from its own initial page, whatever the other two did and
      however often it was swapped in and out. */
  lemma {:induction false} Isolation(m: Machine, evs: seq<Event>, t: nat)
    requires m.Valid() && t < NUM_TERMINALS && forall i :: 0 <= i < |evs| ==> Legal(evs[i])
    ensures Run(m, evs).terms[t].screen == ApplyAll(m.terms[t].screen, OwnOps(m, evs, t))
  {
    if evs != [] {
      var init, ev := evs[..|evs| - 1], evs[|evs| - 1];
      Isolation(m, init, t);
      var before := Run(m, init);
      ApplyAllConcat(m.terms[t].screen, OwnOps(m, init, t), OwnOps1(before, ev, t));
      StepAppliesOwnOps(before, ev, t);
    }
  }

  lemma StepAppliesOwnOps(m: Machine, ev: Event, t: nat)
    requires m.Valid() && t < NUM_TERMINALS && Legal(ev)
    ensures Step(m, ev).terms[t].screen == ApplyAll(m.terms[t].screen, OwnOps1(m, ev, t))
  {
    hide KeyValue;
    var ops := OwnOps1(m, ev, t);
    if ev.Key? && m.display == t && ops != [] {
      assert ops[..|ops| - 1] == [];
      assert ApplyAll(m.terms[t].screen, ops) == Apply(m.terms[t].screen, ops[0]);
    }
  }

  /** A terminal that shows a scroll of rows keeps showing the last 25 rows of
      that scroll extended by its own output, erasures and clears. */
  lemma WindowOntoOwnOutput(m: Machine, evs: seq<Event>, t: nat, rows: Rows)
    requires m.Valid() && t < NUM_TERMINALS && forall i :: 0 <= i < |evs| ==> Legal(evs[i])
    requires IsScroll(rows) && Shows(m.terms[t].screen, rows)
    ensures Shows(Run(m, evs).terms[t].screen, ExtendAll(rows, OwnOps(m, evs, t)))
  {
    Isolation(m, evs, t);
    ApplyAllShows(m.terms[t].screen, rows, OwnOps(m, evs, t));
  }

  /** From its last clear on, any terminal shows the last 25 rows of its output
      since then, whatever its page held at the start. */
  lemma WindowSinceClear(m: Machine, evs: seq<Event>, t: nat, before: seq<Op>, since: seq<Op>)
    requires m.Valid() && t < NUM_TERMINALS && forall i :: 0 <= i < |evs| ==> Legal(evs[i])
    requires OwnOps(m, evs, t) == before + [Clear] + since
    ensures Shows(Run(m, evs).terms[t].screen, ExtendAll([[]], since))
  {
    var s := m.terms[t].screen;
    Isolation(m, evs, t);
    ApplyAllConcat(s, before + [Clear], since);
    ApplyAllConcat(s, before, [Clear]);
    var cleared := ApplyAll(ApplyAll(s, before), [Clear]);
    assert cleared == Wipe(ApplyAll(s, before)) by {
      assert [Clear][..0] == [];
    }
    WipeShows(ApplyAll(s, before));
    ApplyAllShows(cleared, [[]], since);
  }

  /** Every event except the writes of programs in other terminals. */
  function Purge(evs: seq<Event>, t: nat): seq<Event> {
    if evs == [] then []
    else
      var ev := evs[|evs| - 1];
      Purge(evs[..|evs| - 1], t) + if ev.Write? && ev.active != t then [] else [ev]
  }

  lemma {:induction false} PurgeLegal(evs: seq<Event>, t: nat)
    requires forall i :: 0 <= i < |evs| ==> Legal(evs[i])
    ensures forall i :: 0 <= i < |Purge(evs, t)| ==> Legal(Purge(evs, t)[i])
  {
    if evs != [] {
      PurgeLegal(evs[..|evs| - 1], t);
    }
  }

  /** Terminal `t`, the modifiers and the choice of display are the same in both machines. */
  ghost predicate SameFor(a: Machine, b: Machine, t: nat)
    requires a.Valid() && b.Valid() && t < NUM_TERMINALS
  {
    a.terms[t] == b.terms[t] && a.display == b.display && a.mods == b.mods
  }

  lemma SameForSelf(m: Machine, t: nat)
    requires m.Valid() && t < NUM_TERMINALS
    ensures SameFor(m, m, t)
  {
  }

  /** An event acts alike on machines that terminal `t` cannot tell apart, and
      a write from elsewhere keeps it so. */
  lemma StepSameFor(a: Machine, b: Machine, ev: Event, t: nat)
    requires a.Valid() && b.Valid() && t < NUM_TERMINALS && Legal(ev) && SameFor(a, b, t)
    ensures if ev.Write? && ev.active != t then SameFor(Step(a, ev), b, t) else SameFor(Step(a, ev), Step(b, ev), t)
  {
    hide EditOf, NextMods, Apply, ApplyAll;
  }

  /** Noninterference: deleting every write made from other terminals leaves
      terminal `t`'s screen, cursor and input line, and the display choice, unchanged. */
  lemma {:induction false} Noninterference(m: Machine, evs: seq<Event>, t: nat)
    requires m.Valid() && t < NUM_TERMINALS && forall i :: 0 <= i < |evs| ==> Legal(evs[i])
    ensures forall i :: 0 <= i < |Purge(evs, t)| ==> Legal(Purge(evs, t)[i])
    ensures SameFor(Run(m, evs), Run(m, Purge(evs, t)), t)
  {
    hide Step, SameFor;
    PurgeLegal(evs, t);
    if evs == [] {
      SameForSelf(m, t);
    } else {
      var init, ev := evs[..|evs| - 1], evs[|evs| - 1];
      Noninterference(m, init, t);
      StepSameFor(Run(m, init), Run(m, Purge(init, t)), ev, t);
      if ev.Write? && ev.active != t {
        assert Purge(evs, t) == Purge(init, t);
      } else {
        assert Purge(evs, t)[..|Purge(evs, t)| - 1] == Purge(init, t);
      }
    }
  }

  // ---- What keys mean ----------------------------------------------------------

  /** A key that types a character, by the rule behind the tables. */
  predicate Types(mods: Mods, code: byte) {
    && code < SUPPORTED_KEYS && code != ENTER && !(mods.ctrl && code == KEY_L)
    && KeyRule(code, mods.caps, mods.shift) != NUL
  }

  function Meant(mods: Mods, code: byte): byte
    requires Types(mods, code)
  {
    KeyRule(code, mods.caps, mods.shift)
  }

  lemma EditsByRule(mods: Mods, code: byte)
    ensures EditOf(mods, code) ==
      if code == BACKSPACE then Rubout
      else if code == ENTER then Finish
      else if mods.ctrl && code == KEY_L then Home
      else if Types(mods, code) then Type(Meant(mods, code))
      else Nothing
    ensures Types(mods, code) ==> !IsModifier(code) && code < F1 && code != BACKSPACE
    ensures Types(mods, code) ==> Meant(mods, code) != NEWLINE && Meant(mods, code) != RETURN
  {
    hide KeyValue;
    if code < SUPPORTED_KEYS {
      TablesFollowRule(code, mods.caps, mods.shift);
      OnlyEnterTypesNewline(code, mods.caps, mods.shift);
    }
  }

  /** What one scancode does to the displayed terminal: Enter, backspace, clear and
      the characters of the rule edit line and screen alike; nothing else does. */
  lemma KeyAccount(m: Machine, code: byte)
    requires m.Valid()
    ensures var was, now := m.Shown(), KeyStep(m, code).terms[m.display];
      var line := if |was.line| == MAX_KB_BUF then [] else was.line;
      if code == ENTER then
        now == Term(Put(was.screen, NEWLINE), line + [NEWLINE], true)
      else if code == BACKSPACE && was.screen.x > 0 then
        now == Term(Erase(was.screen), if line == [] then [] else line[..|line| - 1], was.ready)
      else if m.mods.ctrl && code == KEY_L then
        now == Term(Wipe(was.screen), line, was.ready)
      else if Types(m.mods, code) && |line| < MAX_KB_BUF - 1 then
        now == Term(Put(was.screen, Meant(m.mods, code)), line + [Meant(m.mods, code)], was.ready)
      else
        now == Term(was.screen, line, was.ready)
    ensures forall t :: 0 <= t < NUM_TERMINALS && t != m.display ==> KeyStep(m, code).terms[t] == m.terms[t]
  {
    EditsByRule(m.mods, code);
    hide EditOf, NextMods, NextDisplay;
  }

  lemma CapsAfter(mods: Mods, ev: Event)
    requires ev.Key?
    ensures NextMods(mods, ev.code).caps == (mods.caps != (ev == Key(CAPS)))
  {
  }

  function CapsPresses(evs: seq<Event>): nat {
    if evs == [] then 0 else CapsPresses(evs[..|evs| - 1]) + if evs[|evs| - 1] == Key(CAPS) then 1 else 0
  }

  /** Over every run, caps lock has changed exactly if it was pressed an odd number of times. */
  lemma {:induction false} CapsParity(m: Machine, evs: seq<Event>)
    requires m.Valid() && forall i :: 0 <= i < |evs| ==> Legal(evs[i])
    ensures Run(m, evs).mods.caps == (m.mods.caps != (CapsPresses(evs) % 2 == 1))
  {
    hide Step, NextMods;
    if evs != [] {
      var init, ev := evs[..|evs| - 1], evs[|evs| - 1];
      CapsParity(m, init);
      StepMods(Run(m, init), ev);
      if ev.Key? {
        CapsAfter(Run(m, init).mods, ev);
      }
    }
  }

  predicate IsSwitch(ev: Event) {
    ev.Key? && F1 <= ev.code <= F3
  }

  /** Only F1 to F3 switch terminals. */
  lemma {:induction false} OnlyFunctionKeysSwitch(m: Machine, evs: seq<Event>)
    requires m.Valid() && forall i :: 0 <= i < |evs| ==> Legal(evs[i]) && !IsSwitch(evs[i])
    ensures Run(m, evs).display == m.display
  {
    if evs != [] {
      OnlyFunctionKeysSwitch(m, evs[..|evs| - 1]);
    }
  }

  // ---- What writes show ---------------------------------------------------------

  /** A scroll after a text has been appended to it, character by character. */
  ghost function Typeset(rows: Rows, text: seq<byte>): (r: Rows)
    requires IsScroll(rows)
    ensures IsScroll(r)
  {
    if text == [] then rows else Extend(Typeset(rows, text[..|text| - 1]), Print(text[|text| - 1]))
  }

  lemma {:induction false} TypesetIsExtend(rows: Rows, text: seq<byte>)
    requires IsScroll(rows)
    ensures ExtendAll(rows, Prints(text)) == Typeset(rows, text)
  {
    if text != [] {
      TypesetIsExtend(rows, text[..|text| - 1]);
      assert Prints(text)[..|text| - 1] == Prints(text[..|text| - 1]);
    }
  }

  /** A write shows its text, all of it and in order, at the end of its own
      terminal's scroll, and touches no other terminal. */
  lemma WriteShowsText(m: Machine, active: nat, text: seq<byte>, rows: Rows)
    requires m.Valid() && active < NUM_TERMINALS && IsScroll(rows) && Shows(m.terms[active].screen, rows)
    ensures var r := Step(m, Write(active, text));
      && Shows(r.terms[active].screen, Typeset(rows, text))
      && r.terms[active].line == m.terms[active].line && r.terms[active].ready == m.terms[active].ready
      && forall t :: 0 <= t < NUM_TERMINALS && t != active ==> r.terms[t] == m.terms[t]
  {
    TypesetIsExtend(rows, text);
    ApplyAllShows(m.terms[active].screen, rows, Prints(text));
    hide Shows, Typeset, ExtendAll, Prints;
  }

  // ---- Reads in the course of time --------------------------------------------------

  /** After a read no terminal has anything pending or is ready. */
  lemma ReadConsumes(m: Machine, nbytes: nat)
    requires m.Valid()
    ensures var r := Step(m, Read(nbytes));
      && (forall t :: 0 <= t < NUM_TERMINALS ==> r.terms[t].line == [] && !r.terms[t].ready)
      && (forall t :: 0 <= t < NUM_TERMINALS ==> r.terms[t].screen == m.terms[t].screen)
      && r.display == m.display && r.mods == m.mods
  {
  }

  ghost predicate EnterPressed(m: Machine, evs: seq<Event>, t: nat, i: nat)
    requires m.Valid() && forall i :: 0 <= i < |evs| ==> Legal(evs[i])
  {
    i < |evs| && evs[i] == Key(ENTER) && Run(m, evs[..i]).display == t
  }

  /** A terminal becomes ready only by Enter, pressed while it is displayed. */
  lemma {:induction false} ReadyNeedsEnter(m: Machine, evs: seq<Event>, t: nat)
    requires m.Valid() && t < NUM_TERMINALS && forall i :: 0 <= i < |evs| ==> Legal(evs[i])
    requires !m.terms[t].ready && Run(m, evs).terms[t].ready
    ensures exists i: nat :: EnterPressed(m, evs, t, i)
  {
    hide Step;
    assert evs != [];
    var init, ev := evs[..|evs| - 1], evs[|evs| - 1];
    if Run(m, init).terms[t].ready {
      ReadyNeedsEnter(m, init, t);
      var i: nat :| EnterPressed(m, init, t, i);
      assert init[..i] == evs[..i];
      assert EnterPressed(m, evs, t, i);
    } else {
      StepNeedsEnter(Run(m, init), ev, t);
      assert EnterPressed(m, evs, t, |evs| - 1);
    }
  }

  lemma StepNeedsEnter(m: Machine, ev: Event, t: nat)
    requires m.Valid() && t < NUM_TERMINALS && Legal(ev) && !m.terms[t].ready
    ensures Step(m, ev).terms[t].ready ==> ev == Key(ENTER) && m.display == t
  {
    if ev.Key? {
      KeyAccount(m, ev.code);
    }
    hide KeyStep;
  }

  /** `a` is `b` with some bytes left out. */
  ghost predicate Subsequence(a: seq<byte>, b: seq<byte>) {
    a == [] ||
    (b != [] && (Subsequence(a, b[..|b| - 1])
                 || (a[|a| - 1] == b[|b| - 1] && Subsequence(a[..|a| - 1], b[..|b| - 1]))))
  }

  lemma SubsequenceGrows(a: seq<byte>, b: seq<byte>, c: seq<byte>)
    requires Subsequence(a, b) && |c| <= 1
    ensures Subsequence(a, b + c) && Subsequence(a + c, b + c)
  {
    if |c| == 1 {
      assert (b + c)[..|b|] == b && (a + c)[..|a|] == a;
    } else {
      assert b + c == b && a + c == a;
    }
  }

  lemma {:induction false} SubsequenceShrinks(a: seq<byte>, b: seq<byte>)
    requires Subsequence(a, b) && a != []
    ensures Subsequence(a[..|a| - 1], b)
  {
    if !(a[|a| - 1] == b[|b| - 1] && Subsequence(a[..|a| - 1], b[..|b| - 1])) {
      SubsequenceShrinks(a, b[..|b| - 1]);
    }
  }

  /** The bytes typed on terminal `t`: those of keys pressed while it is displayed. */
  function TypedOn1(m: Machine, ev: Event, t: nat): (r: seq<byte>)
    requires m.Valid()
    ensures |r| <= 1
  {
    if !ev.Key? || m.display != t then []
    else if ev.code == ENTER then [NEWLINE]
    else if Types(m.mods, ev.code) then [Meant(m.mods, ev.code)]
    else []
  }

  function TypedOn(m: Machine, evs: seq<Event>, t: nat): seq<byte>
    requires m.Valid() && forall i :: 0 <= i < |evs| ==> Legal(evs[i])
  {
    if evs == [] then []
    else TypedOn(m, evs[..|evs| - 1], t) + TypedOn1(Run(m, evs[..|evs| - 1]), evs[|evs| - 1], t)
  }

  /** Over every run, a terminal's line is made of what it was and of what has been
      typed on it since, in that order. */
  lemma {:induction false} LineIsTyped(m: Machine, evs: seq<Event>, t: nat)
    requires m.Valid() && t < NUM_TERMINALS && forall i :: 0 <= i < |evs| ==> Legal(evs[i])
    ensures Subsequence(Run(m, evs).terms[t].line, m.terms[t].line + TypedOn(m, evs, t))
  {
    hide TypedOn1, Step, Subsequence;
    if evs == [] {
      SubsequenceOfItself(m.terms[t].line);
      assert m.terms[t].line + [] == m.terms[t].line;
    } else {
      var init, ev := evs[..|evs| - 1], evs[|evs| - 1];
      LineIsTyped(m, init, t);
      var stream := m.terms[t].line + TypedOn(m, init, t);
      StepLineIsTyped(Run(m, init), ev, t, stream);
      ConcatAssociates(m.terms[t].line, TypedOn(m, init, t), TypedOn1(Run(m, init), ev, t));
      assert m.terms[t].line + TypedOn(m, evs, t) == stream + TypedOn1(Run(m, init), ev, t);
    }
  }

  lemma {:induction false} SubsequenceOfItself(a: seq<byte>)
    ensures Subsequence(a, a)
  {
    if a != [] {
      SubsequenceOfItself(a[..|a| - 1]);
    }
  }

  lemma StepLineIsTyped(m: Machine, ev: Event, t: nat, stream: seq<byte>)
    requires m.Valid() && t < NUM_TERMINALS && Legal(ev) && Subsequence(m.terms[t].line, stream)
    ensures Subsequence(Step(m, ev).terms[t].line, stream + TypedOn1(m, ev, t))
  {
    hide Subsequence, KeyStep;
    var line, typed := m.terms[t].line, TypedOn1(m, ev, t);
    EmptySubsequence(stream);
    SubsequenceGrows(line, stream, typed);
    SubsequenceGrows([], stream, typed);
    assert [] + typed == typed;
    if line != [] {
      SubsequenceShrinks(line, stream);
      SubsequenceGrows(line[..|line| - 1], stream, typed);
    }
    if ev.Key? {
      KeyAccount(m, ev.code);
    }
  }

  lemma EmptySubsequence(b: seq<byte>)
    ensures Subsequence([], b)
  {
  }

  /** After a read, the next one is possible only when Enter has been pressed on the
      terminal that is then displayed, and delivers only what was typed there since. */
  lemma ReadsAreFresh(m: Machine, nbytes: nat, evs: seq<Event>)
    requires m.Valid() && forall i :: 0 <= i < |evs| ==> Legal(evs[i])
    ensures var after := Step(m, Read(nbytes));
      var next := Run(after, evs);
      && (next.Shown().ready ==> exists i: nat :: EnterPressed(after, evs, next.display, i))
      && Subsequence(next.Shown().line, TypedOn(after, evs, next.display))
  {
    ReadConsumes(m, nbytes);
    var after := Step(m, Read(nbytes));
    var t := Run(after, evs).display;
    hide Step, Subsequence;
    LineIsTyped(after, evs, t);
    assert [] + TypedOn(after, evs, t) == TypedOn(after, evs, t);
    if Run(after, evs).terms[t].ready {
      ReadyNeedsEnter(after, evs, t);
    }
  }

  // ---- The input line ---------------------------------------------------------

  /** Reads are not private: a read leaves another terminal's pending line alone
      exactly when there was nothing there. */
  lemma ReadDisturbsOthers(m: Machine, t: nat)
    requires m.Valid() && t < NUM_TERMINALS && t != m.display
    ensures ReadStep(m).terms[t] == m.terms[t] <==> m.terms[t].line == [] && !m.terms[t].ready
  {
  }

  /** After boot: a letter is typed on terminal 0, then terminal 1 is displayed and
      reads a line, and the letter is gone. */
  lemma LostLineExample(m: Machine)
    requires Fresh(m)
    ensures var evs := [Key(KEY_A), Key(L_ALT_MAKE), Key(F2), Key(ENTER)];
      && Run(m, evs).terms[0].line == [Code('a')]
      && Run(m, evs).display == 1 && Run(m, evs).Shown().ready
      && Run(m, evs + [Read(1)]).terms[0].line == []
  {
    hide KeyStep, ReadStep, WriteStep, Run;
    var evs := [Key(KEY_A), Key(L_ALT_MAKE), Key(F2), Key(ENTER)];
    assert evs[..0] == [] && evs[..4] == evs;
    LetterTyped(m);
    OtherReads(KeyStep(m, KEY_A));
    RunNone(m);
    RunNext(m, evs, 0);
    RunNext(m, evs, 1);
    RunNext(m, evs, 2);
    RunNext(m, evs, 3);
    RunSnoc(m, evs, Read(1));
  }

  lemma RunNone(m: Machine)
    requires m.Valid()
    ensures Run(m, []) == m
  {
  }

  lemma LetterTyped(m: Machine)
    requires Fresh(m)
    ensures Types(m.mods, KEY_A) && Meant(m.mods, KEY_A) == Code('a')
    ensures var typed := KeyStep(m, KEY_A);
      && typed.display == 0 && typed.mods == Mods(false, false, false, false)
      && typed.terms[0].line == [Code('a')] && typed.terms[1].line == []
  {
    assert HOME_LOWER[0] == 'a';
    KeyAccount(m, KEY_A);
    hide EditOf;
  }

  /** Terminal 1 is displayed, and an empty line is entered and read there. */
  lemma OtherReads(m: Machine)
    requires m.Valid() && m.display == 0 && m.mods == Mods(false, false, false, false)
    requires m.terms[0].line == [Code('a')] && m.terms[1].line == []
    ensures var other := KeyStep(KeyStep(m, L_ALT_MAKE), F2);
      var entered := KeyStep(other, ENTER);
      && entered.display == 1 && entered.Shown().ready && entered.terms[0].line == [Code('a')]
      && ReadStep(entered).terms[0].line == []
  {
    OnlyEnterTypesNewline(F2, false, false);
    hide KeyValue;
    var alt := KeyStep(m, L_ALT_MAKE);
    assert alt == m.(mods := m.mods.(alt := true)) by {
      assert alt.terms == m.terms;
    }
    var other := KeyStep(alt, F2);
    assert other == alt.(display := 1) by {
      assert other.terms == m.terms;
    }
  }

  /** The count is the number of bytes delivered exactly if more than the whole
      line was asked for, or there was nothing to deliver. */
  lemma ReadCountExactly(line: seq<byte>, nbytes: nat)
    ensures ReadCount(line, nbytes) == Min(nbytes, |line|) <==> nbytes > |line| || nbytes == 0 || line == []
    ensures ReadCount(line, nbytes) != Min(nbytes, |line|) ==> ReadCount(line, nbytes) == 0
  {
  }

  /** A read delivers the bytes of the line, as far as asked for, and NUL bytes after them. */
  lemma ReadBytesExactly(line: seq<byte>, nbytes: nat, i: nat)
    requires i < nbytes
    ensures ReadBytes(line, nbytes)[i] == if i < |line| then line[i] else NUL
  {
  }

  /** A read takes no account of who reads: the program of terminal `t` receives its
      own terminal's line exactly if the displayed line is the same. */
  lemma ReaderGetsDisplayedLine(m: Machine, t: nat)
    requires m.Valid() && t < NUM_TERMINALS
    ensures (forall nbytes: nat :: SameRead(m.Shown().line, m.terms[t].line, nbytes)) <==>
      m.Shown().line == m.terms[t].line
  {
    var a, b := m.Shown().line, m.terms[t].line;
    var n := |a| + |b| + 1;
    if SameRead(a, b, n) {
      assert a == ReadBytes(a, n)[..|a|] && b == ReadBytes(b, n)[..|b|];
    }
  }

  predicate SameRead(a: seq<byte>, b: seq<byte>, nbytes: nat) {
    ReadBytes(a, nbytes) == ReadBytes(b, nbytes) && ReadCount(a, nbytes) == ReadCount(b, nbytes)
  }

  /** After boot: a line typed on terminal 0 goes to a program of terminal 1, whose own line is empty. */
  lemma WrongReaderExample(m: Machine)
    requires Fresh(m)
    ensures var typed := Run(m, [Key(KEY_A), Key(ENTER)]);
      && typed.Shown().ready && ReadBytes(typed.Shown().line, 2) == [Code('a'), NEWLINE]
      && typed.terms[1].line == [] && !SameRead(typed.Shown().line, typed.terms[1].line, 3)
  {
    LetterTyped(m);
    var letter := KeyStep(m, KEY_A);
    EnterFinishes(letter);
    EnterElsewhere(letter);
    hide KeyStep;
    var evs := [Key(KEY_A), Key(ENTER)];
    assert evs[..0] == [] && evs[..2] == evs;
    RunNone(m);
    RunNext(m, evs, 0);
    RunNext(m, evs, 1);
  }

  lemma EnterElsewhere(m: Machine)
    requires m.Valid() && |m.Shown().line| < MAX_KB_BUF
    ensures forall t :: 0 <= t < NUM_TERMINALS && t != m.display ==> KeyStep(m, ENTER).terms[t] == m.terms[t]
  {
  }

  /** A finished line waiting to be read survives a further scancode exactly if it
      has fewer than 128 bytes and the key has nothing to do with the line. */
  lemma FinishedLineSurvives(m: Machine, code: byte)
    requires m.Valid() && m.Shown().ready
    ensures var term := m.Shown();
      KeyStep(m, code).terms[m.display].line == term.line <==>
        |term.line| < MAX_KB_BUF &&
        if code == ENTER then false
        else if code == BACKSPACE then term.screen.x == 0 || term.line == []
        else Types(m.mods, code) ==> |term.line| == MAX_KB_BUF - 1
    ensures KeyStep(m, code).terms[m.display].ready
  {
    KeyAccount(m, code);
    EditsByRule(m.mods, code);
    hide KeyStep, EditOf;
  }

  /** After boot: 127 keys and Enter, and the release of Enter forgets the line. */
  lemma ForgottenLineExample(m: Machine, codes: seq<byte>)
    requires Fresh(m) && |codes| == MAX_KB_BUF - 1 && forall i :: 0 <= i < |codes| ==> codes[i] == KEY_A
    ensures |Run(m, Keys(codes + [ENTER])).Shown().line| == MAX_KB_BUF
    ensures var r := Run(m, Keys(codes + [ENTER] + [ENTER_BREAK])).Shown();
      r.ready && r.line == [] && ReadCount(r.line, MAX_KB_BUF + 1) == 0
  {
    LetterTyped(m);
    hide KeyRule, KeyStep, Run, Types;
    TypingFillsLine(m, codes);
    RunKeys(m, codes, ENTER);
    EnterFinishes(Run(m, Keys(codes)));
    RunKeys(m, codes + [ENTER], ENTER_BREAK);
    ReleaseRecycles(Run(m, Keys(codes + [ENTER])));
  }

  lemma ReleaseRecycles(m: Machine)
    requires m.Valid()
    ensures var r := KeyStep(m, ENTER_BREAK);
      r.display == m.display && r.Shown().line == Recycled(m.Shown().line) && r.Shown().ready == m.Shown().ready
  {
    KeyAccount(m, ENTER_BREAK);
  }

  /** A line that fills the bytes asked for is delivered, and reported as nothing. */
  lemma UnreportedLineExample()
    ensures ReadBytes([Code('a'), NEWLINE], 2) == [Code('a'), NEWLINE] && ReadCount([Code('a'), NEWLINE], 2) == 0
  {
  }

  /** A backspace restores the line that the key before it was typed on exactly
      when the key found room and did not fill the row, or found a line of 127
      bytes with the cursor in column 0; a line of 128 bytes is forgotten first. */
  lemma BackspaceUndoesKey(m: Machine, code: byte)
    requires m.Valid() && Types(m.mods, code)
    ensures var back := KeyStep(KeyStep(m, code), BACKSPACE);
      var n, x := |m.Shown().line|, m.Shown().screen.x;
      && (back.Shown().line == m.Shown().line <==>
           (n < MAX_KB_BUF - 1 && x != NUM_COLS - 1) || (n == MAX_KB_BUF - 1 && x == 0))
      && (back.Shown().screen.x == x && back.Shown().screen.y == m.Shown().screen.y <==>
           if n == MAX_KB_BUF - 1 then x == 0 else x != NUM_COLS - 1)
  {
    EditsByRule(m.mods, code);
    var typed := KeyStep(m, code);
    TypingLeavesMode(m, code);
    KeyAccount(m, code);
    TypingLeavesMode(typed, BACKSPACE);
    KeyAccount(typed, BACKSPACE);
    hide KeyStep, EditOf, KeyRule;
  }

  lemma TypingLeavesMode(m: Machine, code: byte)
    requires m.Valid() && (Types(m.mods, code) || code == BACKSPACE || code == ENTER)
    ensures KeyStep(m, code).display == m.display && KeyStep(m, code).mods == m.mods
  {
    EditsByRule(m.mods, code);
    hide EditOf, EditTerm;
  }

  /** On a line of 127 bytes the key is ignored, and the backspace then takes
      back the byte typed before it. */
  lemma BackspaceAfterIgnoredKey(m: Machine, code: byte)
    requires m.Valid() && Types(m.mods, code)
    requires |m.Shown().line| == MAX_KB_BUF - 1 && m.Shown().screen.x > 0
    ensures KeyStep(m, code) == m
    ensures KeyStep(KeyStep(m, code), BACKSPACE).Shown().line == m.Shown().line[..MAX_KB_BUF - 2]
  {
    EditsByRule(m.mods, code);
    KeyAccount(m, code);
    TypingLeavesMode(m, code);
    KeyAccount(m, BACKSPACE);
    TypingLeavesMode(m, BACKSPACE);
    hide KeyStep, EditOf, KeyRule;
    assert KeyStep(m, code).terms == m.terms;
  }

  function Keys(codes: seq<byte>): (evs: seq<Event>)
    ensures forall i :: 0 <= i < |evs| ==> Legal(evs[i])
  {
    seq(|codes|, i requires 0 <= i < |codes| => Key(codes[i]))
  }

  function Typed(mods: Mods, codes: seq<byte>): (text: seq<byte>)
    requires forall i :: 0 <= i < |codes| ==> Types(mods, codes[i])
    ensures |text| == |codes|
  {
    seq(|codes|, i requires 0 <= i < |codes| => Meant(mods, codes[i]))
  }

  lemma RunKeys(m: Machine, codes: seq<byte>, code: byte)
    requires m.Valid()
    ensures Run(m, Keys(codes + [code])) == KeyStep(Run(m, Keys(codes)), code)
  {
    var evs := Keys(codes + [code]);
    assert evs[..|evs| - 1] == Keys(codes);
    assert evs[|evs| - 1] == Key(code);
  }

  /** The part of a typed text that the buffer has room for. */
  function Buffered(text: seq<byte>): seq<byte> {
    if |text| < MAX_KB_BUF - 1 then text else text[..MAX_KB_BUF - 1]
  }

  /** What is typed is what is buffered: the first 127 characters, in order. */
  lemma {:induction false} TypingFillsLine(m: Machine, codes: seq<byte>)
    requires m.Valid() && m.Shown().line == []
    requires forall i :: 0 <= i < |codes| ==> Types(m.mods, codes[i])
    ensures var r := Run(m, Keys(codes));
            r.mods == m.mods && r.display == m.display && r.Shown().line == Buffered(Typed(m.mods, codes))
  {
    hide KeyRule, KeyStep, Types;
    if codes == [] {
      assert Keys(codes) == [];
    } else {
      var init, code := codes[..|codes| - 1], codes[|codes| - 1];
      assert codes == init + [code];
      TypingFillsLine(m, init);
      RunKeys(m, init, code);
      TypingKey(Run(m, Keys(init)), code);
      BufferedSnoc(Typed(m.mods, init), Meant(m.mods, code));
      assert Typed(m.mods, codes) == Typed(m.mods, init) + [Meant(m.mods, code)];
    }
  }

  lemma BufferedSnoc(text: seq<byte>, c: byte)
    ensures Buffered(text + [c]) == Buffered(text) + if |Buffered(text)| == MAX_KB_BUF - 1 then [] else [c]
  {
  }

  lemma TypingKey(m: Machine, code: byte)
    requires m.Valid() && |m.Shown().line| < MAX_KB_BUF && Types(m.mods, code)
    ensures var r := KeyStep(m, code);
            r.mods == m.mods && r.display == m.display &&
            r.Shown().line == m.Shown().line +
              if |m.Shown().line| == MAX_KB_BUF - 1 then [] else [Meant(m.mods, code)]
  {
    KeyAccount(m, code);
    TypingLeavesMode(m, code);
    EditsByRule(m.mods, code);
    hide KeyStep, EditOf, KeyRule;
  }

  function Column(n: nat): nat {
    n % NUM_COLS
  }

  lemma NextColumn(n: nat)
    ensures Column(Column(n) + 1) == Column(n + 1)
  {
  }

  lemma FirstColumn(x: nat)
    requires x < NUM_COLS
    ensures Column(x) == x
  {
  }

  /** Every key that finds room moves the cursor on, around the row. */
  lemma {:induction false} TypingMovesCursor(m: Machine, codes: seq<byte>)
    requires m.Valid() && m.Shown().line == [] && |codes| < MAX_KB_BUF
    requires forall i :: 0 <= i < |codes| ==> Types(m.mods, codes[i])
    ensures Run(m, Keys(codes)).Shown().screen.x == Column(m.Shown().screen.x + |codes|)
  {
    hide KeyRule, KeyStep, Types, Column, Typed;
    if codes == [] {
      FirstColumn(m.Shown().screen.x);
      assert Keys(codes) == [];
    } else {
      var init, code := codes[..|codes| - 1], codes[|codes| - 1];
      assert codes == init + [code];
      TypingMovesCursor(m, init);
      TypingFillsLine(m, init);
      RunKeys(m, init, code);
      TypingPuts(Run(m, Keys(init)), code);
      NextColumn(m.Shown().screen.x + |init|);
    }
  }

  lemma TypingPuts(m: Machine, code: byte)
    requires m.Valid() && |m.Shown().line| < MAX_KB_BUF - 1 && Types(m.mods, code)
    ensures KeyStep(m, code).Shown().screen.x == Column(m.Shown().screen.x + 1)
  {
    KeyAccount(m, code);
    TypingLeavesMode(m, code);
    EditsByRule(m.mods, code);
    hide KeyStep, EditOf, KeyRule;
  }

  lemma BufferedLength(mods: Mods, codes: seq<byte>)
    requires (forall i :: 0 <= i < |codes| ==> Types(mods, codes[i])) && |codes| >= MAX_KB_BUF - 1
    ensures |Buffered(Typed(mods, codes))| == MAX_KB_BUF - 1
  {
  }

  lemma ColumnOf127()
    ensures Column(MAX_KB_BUF - 1) == 47
  {
  }

  /** After boot: 128 keys are typed, the last in vain, and a backspace takes back the 127th. */
  lemma LostByteExample(m: Machine, codes: seq<byte>)
    requires Fresh(m) && |codes| == MAX_KB_BUF && forall i :: 0 <= i < |codes| ==> codes[i] == KEY_A
    ensures |Run(m, Keys(codes)).Shown().line| == MAX_KB_BUF - 1
    ensures Run(m, Keys(codes)) == Run(m, Keys(codes[..MAX_KB_BUF - 1]))
    ensures |Run(m, Keys(codes + [BACKSPACE])).Shown().line| == MAX_KB_BUF - 2
  {
    hide KeyRule, KeyStep, Types, Run, Buffered, Typed, Column;
    LetterTyped(m);
    BufferedLength(m.mods, codes);
    BufferedLength(m.mods, codes[..MAX_KB_BUF - 1]);
    ColumnOf127();
    var init := codes[..MAX_KB_BUF - 1];
    assert codes == init + [KEY_A];
    TypingFillsLine(m, init);
    TypingMovesCursor(m, init);
    TypingFillsLine(m, codes);
    RunKeys(m, init, KEY_A);
    RunKeys(m, codes, BACKSPACE);
    BackspaceAfterIgnoredKey(Run(m, Keys(init)), KEY_A);
  }

  lemma EnterFinishes(m: Machine)
    requires m.Valid() && |m.Shown().line| < MAX_KB_BUF
    ensures var r := KeyStep(m, ENTER);
            r.display == m.display && r.Shown().ready && r.Shown().line == m.Shown().line + [NEWLINE]
  {
    KeyAccount(m, ENTER);
    TypingLeavesMode(m, ENTER);
    hide KeyStep, EditOf;
  }

  /** A typed line ended by Enter is delivered whole, newline included and NUL
      padded, to a read that asks for more than its length. */
  lemma TypedLineIsRead(m: Machine, codes: seq<byte>, nbytes: nat)
    requires m.Valid() && m.Shown().line == []
    requires |codes| < MAX_KB_BUF && nbytes > |codes| + 1
    requires forall i :: 0 <= i < |codes| ==> Types(m.mods, codes[i])
    ensures var r := Run(m, Keys(codes + [ENTER])).Shown();
            r.ready
            && ReadCount(r.line, nbytes) == |codes| + 1
            && ReadBytes(r.line, nbytes) == Typed(m.mods, codes) + [NEWLINE] + seq(nbytes - |codes| - 1, _ => NUL)
  {
    TypingFillsLine(m, codes);
    RunKeys(m, codes, ENTER);
    EnterFinishes(Run(m, Keys(codes)));
    assert Buffered(Typed(m.mods, codes)) == Typed(m.mods, codes);
  }
}
