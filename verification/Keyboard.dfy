/**
 The keyboard interrupt as a step on (`kstate`, `extended`) that may call the
 shell back, and what whole runs of scancodes make of that state.
 */
module Keyboard {
  import opened Words

  const KBD_SHIFT: bv8 := 0x01
  const KBD_CAPS: bv8 := 0x02
  const KBD_BCKSP: bv8 := 0x04
  const KBD_UP: bv8 := 0x10
  const KBD_DOWN: bv8 := 0x20
  const KBD_LEFT: bv8 := 0x40
  const KBD_RIGHT: bv8 := 0x80

  predicate Bit(kstate: bv8, mask: bv8) {
    kstate & mask != 0
  }

  /** keymap[] and keymap_shift[]; scancode `sc` is entry `sc - 1`. */
  const DIGITS: seq<byte> := [0, 49, 50, 51, 52, 53, 54, 55, 56, 57, 48, 45, 61, 0]
  const TOP: seq<byte> := [0, 113, 119, 101, 114, 116, 121, 117, 105, 111, 112, 91, 93, 10]
  const HOME: seq<byte> := [0, 97, 115, 100, 102, 103, 104, 106, 107, 108, 59, 39, 96]
  const BOTTOM: seq<byte> := [0, 92, 122, 120, 99, 118, 98, 110, 109, 44, 46, 47, 0, 42, 0, 32]
  const KEYMAP := DIGITS + TOP + HOME + BOTTOM

  const DIGITS_SHIFT: seq<byte> := [0, 33, 64, 35, 36, 37, 94, 38, 42, 40, 41, 95, 43, 0]
  const TOP_SHIFT: seq<byte> := [0, 81, 87, 69, 82, 84, 89, 85, 73, 79, 80, 123, 125, 10]
  const HOME_SHIFT: seq<byte> := [0, 65, 83, 68, 70, 71, 72, 74, 75, 76, 58, 34, 126]
  const BOTTOM_SHIFT: seq<byte> := [0, 124, 90, 88, 67, 86, 66, 78, 77, 60, 62, 63, 0, 42, 0, 32]
  const KEYMAP_SHIFT := DIGITS_SHIFT + TOP_SHIFT + HOME_SHIFT + BOTTOM_SHIFT

  const KEYS := 57

  lemma TableSizes()
    ensures |KEYMAP| == KEYS && |KEYMAP_SHIFT| == KEYS
  {
  }

  predicate IsLower(c: byte) { 97 <= c <= 122 }
  predicate IsUpper(c: byte) { 65 <= c <= 90 }
  predicate IsAlpha(c: byte) { IsLower(c) || IsUpper(c) }

  predicate IsArrow(sc: byte) {
    sc == 0x48 || sc == 0xC8 || sc == 0x50 || sc == 0xD0 || sc == 0x4B || sc == 0xCB || sc == 0x4D || sc == 0xCD
  }

  predicate IsShiftPress(sc: byte) { sc == 0x2A || sc == 0x36 }
  predicate IsShiftRelease(sc: byte) { sc == 0xAA || sc == 0xB6 }

  /** Scancodes for which the key tables have an entry, or that never reach them. */
  predicate InTables(sc: byte) {
    1 <= sc <= KEYS || sc >= 0x80 || sc == 0x3A || IsArrow(sc)
  }

  datatype State = State(kstate: bv8, extended: bool)

  datatype Event = Silent | Call(c: byte, kstate: bv8)

  /** The state bit of an arrow scancode, and whether it is a press. */
  function ArrowBit(sc: byte): bv8 {
    if sc == 0x48 || sc == 0xC8 then KBD_UP
    else if sc == 0x50 || sc == 0xD0 then KBD_DOWN
    else if sc == 0x4B || sc == 0xCB then KBD_LEFT
    else KBD_RIGHT
  }

  function Put(kstate: bv8, mask: bv8, on: bool): bv8 {
    if on then kstate | mask else kstate & !mask
  }

  /** Caps Lock turns the case of a letter around. */
  function Capped(ch: byte, kstate: bv8): byte {
    if IsAlpha(ch) && Bit(kstate, KBD_CAPS) then (if IsLower(ch) then ch - 32 else ch + 32) else ch
  }

  function Character(sc: byte, kstate: bv8): byte
    requires 1 <= sc <= KEYS
  {
    TableSizes();
    Capped(if Bit(kstate, KBD_SHIFT) then KEYMAP_SHIFT[sc - 1] else KEYMAP[sc - 1], kstate)
  }

  function Step(s: State, sc: byte): (r: (State, Event))
    requires InTables(sc)
  {
    if sc == 0xE0 then (s.(extended := true), Silent)
    else if sc == 0x0E then
      var k := Put(s.kstate, KBD_BCKSP, true);
      (s.(kstate := k), Call(0, k))
    else if sc == 0x8E then (s.(kstate := Put(s.kstate, KBD_BCKSP, false)), Silent)
    else if IsShiftPress(sc) then (s.(kstate := Put(s.kstate, KBD_SHIFT, true)), Silent)
    else if IsShiftRelease(sc) then (s.(kstate := Put(s.kstate, KBD_SHIFT, false)), Silent)
    else if sc == 0x3A then (s.(kstate := s.kstate ^ KBD_CAPS), Silent)
    else if IsArrow(sc) then
      if s.extended then
        var k := Put(s.kstate, ArrowBit(sc), sc < 0x80);
        (State(k, false), Call(0, k))
      else (s, Silent)
    else if sc < 0x80 then
      var ch := Character(sc, s.kstate);
      (s, if ch != 0 then Call(ch, s.kstate) else Silent)
    else (s, Silent)
  }

  class Device {
    var kstate: bv8
    var extended: bool

    constructor ()
      ensures kstate == 0 && !extended
    {
      kstate, extended := 0, false;
    }

    function Current(): State
      reads this
    {
      State(kstate, extended)
    }

    /** The interrupt handler; the returned event is the call it makes, if any. */
    method Interrupt(sc: byte) returns (e: Event)
      requires InTables(sc)
      modifies this
      ensures (Current(), e) == Step(old(Current()), sc)
    {
      hide Character, Put, ArrowBit;
      e := Silent;
      if sc == 0xE0 {
        extended := true;
      } else if sc == 0x0E {
        kstate := Put(kstate, KBD_BCKSP, true);
        e := Call(0, kstate);
      } else if sc == 0x8E {
        kstate := Put(kstate, KBD_BCKSP, false);
      } else if sc == 0x2A || sc == 0x36 {
        kstate := Put(kstate, KBD_SHIFT, true);
      } else if sc == 0xAA || sc == 0xB6 {
        kstate := Put(kstate, KBD_SHIFT, false);
      } else if sc == 0x3A {
        kstate := kstate ^ KBD_CAPS;
      } else if IsArrow(sc) {
        if extended {
          kstate := Put(kstate, ArrowBit(sc), sc < 0x80);
          extended := false;
          e := Call(0, kstate);
        }
      } else if sc < 0x80 {
        var ch := LookUp(sc);
        if ch != 0 {
          e := Call(ch, kstate);
        }
      }
    }

    /** The tables and Caps Lock. */
    method LookUp(sc: byte) returns (ch: byte)
      requires 1 <= sc <= KEYS
      ensures ch == Character(sc, kstate)
    {
      TableSizes();
      if kstate & KBD_SHIFT != 0 {
        ch := KEYMAP_SHIFT[sc - 1];
      } else {
        ch := KEYMAP[sc - 1];
      }
      if IsAlpha(ch) && kstate & KBD_CAPS != 0 {
        if IsLower(ch) {
          ch := ch - 32;
        } else {
          ch := ch + 32;
        }
      }
    }
  }

  // ----- runs

  predicate AllInTables(scs: seq<byte>) {
    forall i :: 0 <= i < |scs| ==> InTables(scs[i])
  }

  /** The state after a run, last scancode last. */
  function After(s: State, scs: seq<byte>): State
    requires AllInTables(scs)
  {
    if scs == [] then s else Step(After(s, scs[..|scs| - 1]), scs[|scs| - 1]).0
  }

  const IDLE := State(0, false)

  /** The last shift event, of the left (0x2A) or the right key (0x36), was a press. */
  ghost predicate ShiftHeld(scs: seq<byte>) {
    exists i :: 0 <= i < |scs| && (scs[i] == 0x2A || scs[i] == 0x36) &&
      forall j :: i < j < |scs| ==> scs[j] != 0xAA && scs[j] != 0xB6
  }

  ghost predicate BackspaceHeld(scs: seq<byte>) {
    exists i :: 0 <= i < |scs| && scs[i] == 0x0E && forall j :: i < j < |scs| ==> scs[j] != 0x8E
  }

  function CapsPresses(scs: seq<byte>): nat {
    if scs == [] then 0 else CapsPresses(scs[..|scs| - 1]) + if scs[|scs| - 1] == 0x3A then 1 else 0
  }

  /** Press and release codes of up, down, left and right. */
  const ARROWS: set<byte> := {0x48, 0xC8, 0x50, 0xD0, 0x4B, 0xCB, 0x4D, 0xCD}

  /** An 0xE0 has come since the last arrow code. */
  ghost predicate PrefixPending(scs: seq<byte>) {
    exists i :: 0 <= i < |scs| && scs[i] == 0xE0 && forall j :: i < j < |scs| ==> scs[j] !in ARROWS
  }

  /** What each step does to the four facts tracked below. */
  lemma StepFacts(s: State, sc: byte)
    requires InTables(sc)
    ensures var r := Step(s, sc).0;
      && Bit(r.kstate, KBD_SHIFT) == (IsShiftPress(sc) || (Bit(s.kstate, KBD_SHIFT) && !IsShiftRelease(sc)))
      && Bit(r.kstate, KBD_BCKSP) == (sc == 0x0E || (Bit(s.kstate, KBD_BCKSP) && sc != 0x8E))
      && Bit(r.kstate, KBD_CAPS) == (Bit(s.kstate, KBD_CAPS) != (sc == 0x3A))
      && r.extended == (sc == 0xE0 || (s.extended && !IsArrow(sc)))
  {
  }

  /** An arrow code counts only behind 0xE0: then it sets or clears its own bit, consumes the prefix and calls back. */
  lemma ArrowFacts(s: State, sc: byte, mask: bv8)
    requires InTables(sc) && (mask == KBD_UP || mask == KBD_DOWN || mask == KBD_LEFT || mask == KBD_RIGHT)
    ensures var (r, e) := Step(s, sc);
      && Bit(r.kstate, mask) ==
           (if s.extended && IsArrow(sc) && ArrowBit(sc) == mask then sc < 0x80 else Bit(s.kstate, mask))
      && (IsArrow(sc) ==> e == if s.extended then Call(0, r.kstate) else Silent)
  {
  }

  lemma {:induction false} HeldSnoc(scs: seq<byte>, sc: byte)
    ensures ShiftHeld(scs + [sc]) <==> IsShiftPress(sc) || (ShiftHeld(scs) && !IsShiftRelease(sc))
    ensures BackspaceHeld(scs + [sc]) <==> sc == 0x0E || (BackspaceHeld(scs) && sc != 0x8E)
    ensures PrefixPending(scs + [sc]) <==> sc == 0xE0 || (PrefixPending(scs) && !IsArrow(sc))
  {
    var t := scs + [sc];
    assert t[|scs|] == sc;
    assert forall i :: 0 <= i < |scs| ==> t[i] == scs[i];
  }

  /** After every run of scancodes the modifier state, bits 0 to 2, is a function of the history alone. */
  lemma {:induction false} StateReflectsHistory(scs: seq<byte>)
    requires AllInTables(scs)
    ensures var r := After(IDLE, scs);
      && Bit(r.kstate, 0x01) == ShiftHeld(scs)
      && Bit(r.kstate, 0x04) == BackspaceHeld(scs)
      && Bit(r.kstate, 0x02) == (CapsPresses(scs) % 2 == 1)
      && r.extended == PrefixPending(scs)
  {
    if scs != [] {
      var init, sc := scs[..|scs| - 1], scs[|scs| - 1];
      assert scs == init + [sc];
      StateReflectsHistory(init);
      StepFacts(After(IDLE, init), sc);
      HeldSnoc(init, sc);
    }
  }

  /** The code for pressing or releasing an arrow, behind its prefix, which is the only place where it counts. */
  ghost predicate ArrowAt(scs: seq<byte>, i: int, code: byte, press: bool) {
    0 <= i < |scs| && scs[i] == (if press then code as int else code + 0x80) && PrefixPending(scs[..i])
  }

  /** The last such code was a press. */
  ghost predicate ArrowHeld(scs: seq<byte>, code: byte) {
    exists i :: ArrowAt(scs, i, code, true) && forall j :: i < j < |scs| ==> !ArrowAt(scs, j, code, false)
  }

  lemma {:induction false} ArrowAtSnoc(scs: seq<byte>, sc: byte, i: int, code: byte, press: bool)
    ensures ArrowAt(scs + [sc], i, code, press) <==>
      if i == |scs| then sc == (if press then code as int else code + 0x80) && PrefixPending(scs)
      else ArrowAt(scs, i, code, press)
  {
    hide PrefixPending;
    var t := scs + [sc];
    if 0 <= i <= |scs| {
      assert t[..i] == scs[..i];
      assert scs[..|scs|] == scs;
    }
  }

  lemma {:induction false} ArrowHeldSnoc(scs: seq<byte>, sc: byte, code: byte)
    ensures ArrowHeld(scs + [sc], code) <==>
      if PrefixPending(scs) && sc == code then true
      else if PrefixPending(scs) && sc == code + 0x80 then false
      else ArrowHeld(scs, code)
  {
    hide PrefixPending, ArrowAt;
    var t := scs + [sc];
    ArrowAtSnoc(scs, sc, |scs|, code, true);
    ArrowAtSnoc(scs, sc, |scs|, code, false);
    forall i | i != |scs|
      ensures ArrowAt(t, i, code, true) == ArrowAt(scs, i, code, true)
      ensures ArrowAt(t, i, code, false) == ArrowAt(scs, i, code, false)
    {
      ArrowAtSnoc(scs, sc, i, code, true);
      ArrowAtSnoc(scs, sc, i, code, false);
    }
    if ArrowHeld(scs, code) {
      var i :| ArrowAt(scs, i, code, true) && forall j :: i < j < |scs| ==> !ArrowAt(scs, j, code, false);
      ArrowInside(scs, i, code, true);
      assert ArrowAt(t, i, code, true);
    }
    if ArrowHeld(t, code) {
      var i :| ArrowAt(t, i, code, true) && forall j :: i < j < |t| ==> !ArrowAt(t, j, code, false);
      ArrowInside(t, i, code, true);
      assert i != |scs| ==> ArrowAt(scs, i, code, true);
    }
  }

  lemma ArrowInside(scs: seq<byte>, i: int, code: byte, press: bool)
    requires ArrowAt(scs, i, code, press)
    ensures 0 <= i < |scs|
  {
  }

  /** One step, arrow by arrow: 0x48 is up and bit 4, 0x50 down and bit 5, 0x4B left and bit 6, 0x4D right and bit 7. */
  lemma ArrowStep(s: State, sc: byte, code: byte, mask: bv8)
    requires InTables(sc)
    requires (code == 0x48 && mask == 0x10) || (code == 0x50 && mask == 0x20) ||
      (code == 0x4B && mask == 0x40) || (code == 0x4D && mask == 0x80)
    ensures Bit(Step(s, sc).0.kstate, mask) ==
      if s.extended && sc == code then true
      else if s.extended && sc == code + 0x80 then false
      else Bit(s.kstate, mask)
  {
    ArrowFacts(s, sc, mask);
    hide Step;
  }

  lemma {:induction false} ArrowReflects(scs: seq<byte>, code: byte, mask: bv8)
    requires AllInTables(scs)
    requires (code == 0x48 && mask == 0x10) || (code == 0x50 && mask == 0x20) ||
      (code == 0x4B && mask == 0x40) || (code == 0x4D && mask == 0x80)
    ensures Bit(After(IDLE, scs).kstate, mask) == ArrowHeld(scs, code)
  {
    if scs == [] {
      assert !Bit(0, mask);
    } else {
      var init, sc := scs[..|scs| - 1], scs[|scs| - 1];
      assert scs == init + [sc];
      ArrowReflects(init, code, mask);
      hide Step, Bit, ArrowHeld, PrefixPending, ShiftHeld, BackspaceHeld;
      StateReflectsHistory(init);
      ArrowStep(After(IDLE, init), sc, code, mask);
      ArrowHeldSnoc(init, sc, code);
    }
  }

  /** The four arrow bits, too, are a function of the history alone. */
  lemma {:induction false} ArrowsReflectHistory(scs: seq<byte>)
    requires AllInTables(scs)
    ensures var r := After(IDLE, scs);
      && Bit(r.kstate, 0x10) == ArrowHeld(scs, 0x48) && Bit(r.kstate, 0x20) == ArrowHeld(scs, 0x50)
      && Bit(r.kstate, 0x40) == ArrowHeld(scs, 0x4B) && Bit(r.kstate, 0x80) == ArrowHeld(scs, 0x4D)
  {
    hide Bit, ArrowHeld;
    ArrowReflects(scs, 0x48, 0x10);
    ArrowReflects(scs, 0x50, 0x20);
    ArrowReflects(scs, 0x4B, 0x40);
    ArrowReflects(scs, 0x4D, 0x80);
  }

  // ----- what the keys emit

  /** Plain and shifted entry of one key: a letter and its upper case, or no letter at all. */
  predicate EntryOk(plain: byte, shifted: byte) {
    !IsUpper(plain) && if IsLower(plain) then shifted == plain - 32 else !IsAlpha(shifted)
  }

  lemma DigitRow(k: nat)
    requires k < 14
    ensures |DIGITS| == |DIGITS_SHIFT| == 14 && EntryOk(DIGITS[k], DIGITS_SHIFT[k])
  {
  }

  lemma TopRow(k: nat)
    requires k < 14
    ensures |TOP| == |TOP_SHIFT| == 14 && EntryOk(TOP[k], TOP_SHIFT[k])
  {
  }

  lemma HomeRow(k: nat)
    requires k < 13
    ensures |HOME| == |HOME_SHIFT| == 13 && EntryOk(HOME[k], HOME_SHIFT[k])
  {
  }

  lemma BottomRow(k: nat)
    requires k < 16
    ensures |BOTTOM| == |BOTTOM_SHIFT| == 16 && EntryOk(BOTTOM[k], BOTTOM_SHIFT[k])
  {
  }

  lemma FourRows(a: seq<byte>, b: seq<byte>, c: seq<byte>, d: seq<byte>, k: nat)
    requires k < |a| + |b| + |c| + |d|
    ensures (a + b + c + d)[k] ==
      if k < |a| then a[k]
      else if k < |a| + |b| then b[k - |a|]
      else if k < |a| + |b| + |c| then c[k - |a| - |b|]
      else d[k - |a| - |b| - |c|]
  {
  }

  /** Entry by entry, the shifted table holds the upper case of each letter and no other letter. */
  lemma ShiftTable(k: nat)
    requires k < KEYS
    ensures |KEYMAP| == |KEYMAP_SHIFT| == KEYS && EntryOk(KEYMAP[k], KEYMAP_SHIFT[k])
  {
    TableSizes();
    RowSizes();
    FourRows(DIGITS, TOP, HOME, BOTTOM, k);
    FourRows(DIGITS_SHIFT, TOP_SHIFT, HOME_SHIFT, BOTTOM_SHIFT, k);
    RowEntry(k);
  }

  lemma RowSizes()
    ensures |DIGITS| == |DIGITS_SHIFT| == 14 && |TOP| == |TOP_SHIFT| == 14
    ensures |HOME| == |HOME_SHIFT| == 13 && |BOTTOM| == |BOTTOM_SHIFT| == 16
  {
  }

  lemma RowEntry(k: nat)
    requires k < KEYS
    ensures |DIGITS| == |DIGITS_SHIFT| == 14 && |TOP| == |TOP_SHIFT| == 14
    ensures |HOME| == |HOME_SHIFT| == 13 && |BOTTOM| == |BOTTOM_SHIFT| == 16
    ensures if k < 14 then EntryOk(DIGITS[k], DIGITS_SHIFT[k])
      else if k < 28 then EntryOk(TOP[k - 14], TOP_SHIFT[k - 14])
      else if k < 41 then EntryOk(HOME[k - 28], HOME_SHIFT[k - 28])
      else EntryOk(BOTTOM[k - 41], BOTTOM_SHIFT[k - 41])
  {
    hide EntryOk;
    RowSizes();
    if k < 14 {
      DigitRow(k);
    } else if k < 28 {
      TopRow(k - 14);
    } else if k < 41 {
      HomeRow(k - 28);
    } else {
      BottomRow(k - 41);
    }
  }

  /** A letter key emits its letter, in upper case exactly when shift differs from caps; other keys ignore caps. */
  lemma CaseOfLetters(sc: byte, kstate: bv8)
    requires 1 <= sc <= KEYS
    ensures |KEYMAP| == |KEYMAP_SHIFT| == KEYS
    ensures IsLower(KEYMAP[sc - 1]) ==>
      Character(sc, kstate) == if Bit(kstate, KBD_SHIFT) != Bit(kstate,
        KBD_CAPS) then KEYMAP[sc - 1] - 32 else KEYMAP[sc - 1]
    ensures !IsLower(KEYMAP[sc - 1]) ==>
      Character(sc, kstate) == if Bit(kstate, KBD_SHIFT) then KEYMAP_SHIFT[sc - 1] else KEYMAP[sc - 1]
    ensures IsUpper(Character(sc, kstate)) ==> Bit(kstate, KBD_SHIFT) != Bit(kstate, KBD_CAPS)
    ensures IsLower(Character(sc, kstate)) ==> Bit(kstate, KBD_SHIFT) == Bit(kstate, KBD_CAPS)
  {
    ShiftTable(sc - 1);
  }

  /** The calls a run makes, in order. */
  function Calls(s: State, scs: seq<byte>): seq<Event>
    requires AllInTables(scs)
  {
    if scs == [] then []
    else
      var e := Step(After(s, scs[..|scs| - 1]), scs[|scs| - 1]).1;
      Calls(s, scs[..|scs| - 1]) + if e == Silent then [] else [e]
  }

  /** Every letter a run emits is upper case exactly when, at that point of the history, shift differs from caps. */
  lemma {:induction false} LettersFollowHistory(scs: seq<byte>, sc: byte)
    requires AllInTables(scs) && InTables(sc)
    ensures var e := Step(After(IDLE, scs), sc).1;
      e.Call? && IsAlpha(e.c) ==> IsUpper(e.c) == (ShiftHeld(scs) != (CapsPresses(scs) % 2 == 1))
  {
    StateReflectsHistory(scs);
    if 1 <= sc <= KEYS {
      CaseOfLetters(sc, After(IDLE, scs).kstate);
    }
  }

  // ----- the other codes

  /** Backspace calls back with character 0 when it is pressed, and its bit is bit 2. */
  lemma BackspaceCodes(s: State)
    ensures Step(s, 0x0E) == (State(s.kstate | 0x04, s.extended), Call(0, s.kstate | 0x04))
    ensures Step(s, 0x8E) == (State(s.kstate & 0xFB, s.extended), Silent)
  {
  }

  /** Both shift keys, Caps Lock and the prefix are silent. */
  lemma ModifierCodes(s: State)
    ensures Step(s, 0x2A) == Step(s, 0x36) == (State(s.kstate | 0x01, s.extended), Silent)
    ensures Step(s, 0xAA) == Step(s, 0xB6) == (State(s.kstate & 0xFE, s.extended), Silent)
    ensures Step(s, 0x3A) == (State(s.kstate ^ 0x02, s.extended), Silent)
    ensures Step(s, 0xE0) == (State(s.kstate, true), Silent)
  {
  }

  /** Arrow codes act only behind 0xE0, and call back with character 0 at press and release. */
  lemma ArrowCodes(k: bv8, code: byte, mask: bv8)
    requires (code == 0x48 && mask == 0x10) || (code == 0x50 && mask == 0x20) ||
      (code == 0x4B && mask == 0x40) || (code == 0x4D && mask == 0x80)
    ensures Step(State(k, true), code) == (State(k | mask, false), Call(0, k | mask))
    ensures Step(State(k, true), code + 0x80) == (State(k & !mask, false), Call(0, k & !mask))
    ensures Step(State(k, false), code) == Step(State(k, false), code + 0x80) == (State(k, false), Silent)
  {
    hide *;
    ArrowIs(code, mask);
    PutIs(k, mask);
    ArrowUnfold(State(k, true), code);
    ArrowUnfold(State(k, true), code + 0x80);
    ArrowUnfold(State(k, false), code);
    ArrowUnfold(State(k, false), code + 0x80);
  }

  lemma ArrowIs(code: byte, mask: bv8)
    requires (code == 0x48 && mask == 0x10) || (code == 0x50 && mask == 0x20) ||
      (code == 0x4B && mask == 0x40) || (code == 0x4D && mask == 0x80)
    ensures IsArrow(code) && IsArrow(code + 0x80) && InTables(code) && InTables(code + 0x80)
    ensures ArrowBit(code) == ArrowBit(code + 0x80) == mask
  {
  }

  lemma PutIs(k: bv8, mask: bv8)
    ensures Put(k, mask, true) == k | mask && Put(k, mask, false) == k & !mask
  {
  }

  lemma ArrowUnfold(s: State, sc: byte)
    requires IsArrow(sc)
    ensures Step(s, sc) ==
      if s.extended then
        (State(Put(s.kstate, ArrowBit(sc), sc < 0x80), false), Call(0, Put(s.kstate, ArrowBit(sc), sc < 0x80)))
      else (s, Silent)
  {
    hide Put, ArrowBit, Character;
  }

  // ----- the keyboard as it is labelled

  /** Key `sc` is one of a row of keys that starts at `first`; what stands on it, without and with shift. */
  ghost predicate OnRow(sc: int, first: int, row: string, shiftRow: string, plain: char, shifted: char) {
    |row| == |shiftRow| && 0 <= sc - first < |row| && plain == row[sc - first] && shifted == shiftRow[sc - first]
  }

  ghost predicate DigitKey(sc: int, plain: char, shifted: char) {
    OnRow(sc, 0x02, "1234567890-=", "!@#$%^&*()_+", plain, shifted)
  }

  ghost predicate TopKey(sc: int, plain: char, shifted: char) {
    OnRow(sc, 0x10, "qwertyuiop[]\n", "QWERTYUIOP{}\n", plain, shifted)
  }

  ghost predicate HomeKey(sc: int, plain: char, shifted: char) {
    OnRow(sc, 0x1E, "asdfghjkl;'`", "ASDFGHJKL:\"~", plain, shifted)
  }

  ghost predicate BottomKey(sc: int, plain: char, shifted: char) {
    OnRow(sc, 0x2B, "\\zxcvbnm,./", "|ZXCVBNM<>?", plain, shifted)
  }

  ghost predicate LastKey(sc: int, plain: char, shifted: char) {
    OnRow(sc, 0x37, "*", "*", plain, shifted) || OnRow(sc, 0x39, " ", " ", plain, shifted)
  }

  /** The US layout, scancode set 1. */
  ghost predicate Labelled(sc: int, plain: char, shifted: char) {
    || DigitKey(sc, plain, shifted) || TopKey(sc, plain, shifted) || HomeKey(sc, plain, shifted)
    || BottomKey(sc, plain, shifted) || LastKey(sc, plain, shifted)
  }

  /** Both tables hold, for this key, what is on it, and the key is none of the special ones. */
  ghost predicate TablesHold(sc: byte, plain: char, shifted: char) {
    && 1 <= sc <= KEYS && |KEYMAP| == |KEYMAP_SHIFT| == KEYS
    && KEYMAP[sc - 1] == plain as int != 0 && KEYMAP_SHIFT[sc - 1] == shifted as int != 0
    && sc != 0x0E && sc != 0x2A && sc != 0x36
  }

  lemma TableEntry(k: nat)
    requires k < KEYS
    ensures |DIGITS| == |DIGITS_SHIFT| == 14 && |TOP| == |TOP_SHIFT| == 14
    ensures |HOME| == |HOME_SHIFT| == 13 && |BOTTOM| == |BOTTOM_SHIFT| == 16
    ensures |KEYMAP| == |KEYMAP_SHIFT| == KEYS
    ensures k < 14 ==> KEYMAP[k] == DIGITS[k] && KEYMAP_SHIFT[k] == DIGITS_SHIFT[k]
    ensures 14 <= k < 28 ==> KEYMAP[k] == TOP[k - 14] && KEYMAP_SHIFT[k] == TOP_SHIFT[k - 14]
    ensures 28 <= k < 41 ==> KEYMAP[k] == HOME[k - 28] && KEYMAP_SHIFT[k] == HOME_SHIFT[k - 28]
    ensures 41 <= k ==> KEYMAP[k] == BOTTOM[k - 41] && KEYMAP_SHIFT[k] == BOTTOM_SHIFT[k - 41]
  {
    TableSizes();
    RowSizes();
    FourRows(DIGITS, TOP, HOME, BOTTOM, k);
    FourRows(DIGITS_SHIFT, TOP_SHIFT, HOME_SHIFT, BOTTOM_SHIFT, k);
  }

  lemma DigitPlain(k: nat)
    requires k < 12
    ensures |DIGITS| == 14 && DIGITS[k + 1] == "1234567890-="[k] as int != 0
  {
  }

  lemma DigitShifted(k: nat)
    requires k < 12
    ensures |DIGITS_SHIFT| == 14 && DIGITS_SHIFT[k + 1] == "!@#$%^&*()_+"[k] as int != 0
  {
  }

  lemma DigitLabels(sc: byte, plain: char, shifted: char)
    requires DigitKey(sc, plain, shifted)
    ensures TablesHold(sc, plain, shifted)
  {
    hide KEYMAP, KEYMAP_SHIFT;
    TableEntry(sc - 1);
    DigitPlain(sc - 2);
    DigitShifted(sc - 2);
  }

  lemma TopPlain(k: nat)
    requires k < 13
    ensures |TOP| == 14 && TOP[k + 1] == "qwertyuiop[]\n"[k] as int != 0
  {
  }

  lemma TopShifted(k: nat)
    requires k < 13
    ensures |TOP_SHIFT| == 14 && TOP_SHIFT[k + 1] == "QWERTYUIOP{}\n"[k] as int != 0
  {
  }

  lemma TopLabels(sc: byte, plain: char, shifted: char)
    requires TopKey(sc, plain, shifted)
    ensures TablesHold(sc, plain, shifted)
  {
    hide KEYMAP, KEYMAP_SHIFT;
    TableEntry(sc - 1);
    TopPlain(sc - 16);
    TopShifted(sc - 16);
  }

  lemma HomePlain(k: nat)
    requires k < 12
    ensures |HOME| == 13 && HOME[k + 1] == "asdfghjkl;'`"[k] as int != 0
  {
  }

  lemma HomeShifted(k: nat)
    requires k < 12
    ensures |HOME_SHIFT| == 13 && HOME_SHIFT[k + 1] == "ASDFGHJKL:\"~"[k] as int != 0
  {
  }

  lemma HomeLabels(sc: byte, plain: char, shifted: char)
    requires HomeKey(sc, plain, shifted)
    ensures TablesHold(sc, plain, shifted)
  {
    hide KEYMAP, KEYMAP_SHIFT, HOME, HOME_SHIFT;
    TableEntry(sc - 1);
    HomePlain(sc - 30);
    HomeShifted(sc - 30);
  }

  lemma BottomPlain(k: nat)
    requires k < 11
    ensures |BOTTOM| == 16 && BOTTOM[k + 1] == "\\zxcvbnm,./"[k] as int != 0
  {
  }

  lemma BottomShifted(k: nat)
    requires k < 11
    ensures |BOTTOM_SHIFT| == 16 && BOTTOM_SHIFT[k + 1] == "|ZXCVBNM<>?"[k] as int != 0
  {
  }

  lemma BottomLabels(sc: byte, plain: char, shifted: char)
    requires BottomKey(sc, plain, shifted)
    ensures TablesHold(sc, plain, shifted)
  {
    hide KEYMAP, KEYMAP_SHIFT;
    TableEntry(sc - 1);
    BottomPlain(sc - 43);
    BottomShifted(sc - 43);
  }

  lemma LastLabels(sc: byte, plain: char, shifted: char)
    requires LastKey(sc, plain, shifted)
    ensures TablesHold(sc, plain, shifted)
  {
    TableEntry(sc - 1);
  }

  lemma {:induction false} LabelsAreTables(sc: byte, plain: char, shifted: char)
    requires Labelled(sc, plain, shifted)
    ensures TablesHold(sc, plain, shifted)
  {
    hide TablesHold, DigitKey, TopKey, HomeKey, BottomKey, LastKey;
    if DigitKey(sc, plain, shifted) {
      DigitLabels(sc, plain, shifted);
    } else if TopKey(sc, plain, shifted) {
      TopLabels(sc, plain, shifted);
    } else if HomeKey(sc, plain, shifted) {
      HomeLabels(sc, plain, shifted);
    } else if BottomKey(sc, plain, shifted) {
      BottomLabels(sc, plain, shifted);
    } else {
      LastLabels(sc, plain, shifted);
    }
  }

  /**
   Pressing a key emits what stands on it: a letter in upper case when shift (bit 0) differs
   from caps (bit 1), anything else with or without shift; nothing else changes.
   */
  lemma {:induction false} KeysEmit(s: State, sc: byte, plain: char, shifted: char)
    requires Labelled(sc, plain, shifted)
    ensures InTables(sc)
    ensures var (r, e) := Step(s, sc);
      r == s && e.Call? && e.c == Emitted(s.kstate, plain, shifted) && e.kstate == s.kstate
  {
    hide Labelled, Character;
    LabelsAreTables(sc, plain, shifted);
    CaseOfLetters(sc, s.kstate);
    ShiftTable(sc - 1);
  }

  /** Shift is bit 0 and caps is bit 1. */
  function Emitted(kstate: bv8, plain: char, shifted: char): int {
    var shift, caps := kstate & 0x01 != 0, kstate & 0x02 != 0;
    if (if 'a' <= plain <= 'z' then shift != caps else shift) then shifted as int else plain as int
  }

  /** The keys that have no character, and every release but those of shift, backspace and the arrows, are silent. */
  lemma {:induction false} SilentKeys(s: State, sc: byte)
    requires sc in {0x01, 0x0F, 0x1D, 0x38} || (sc >= 0x80 && sc !in {0xE0, 0x8E, 0xAA, 0xB6} && sc !in ARROWS)
    ensures InTables(sc) && Step(s, sc) == (s, Silent)
  {
    if sc < 0x80 {
      TableEntry(sc - 1);
    }
  }

  // ----- typing plain text

  /** A character that some key emits without shift or caps. */
  ghost predicate Typable(c: byte) {
    c != 0 && exists sc: byte :: IsKeyFor(sc, c)
  }

  ghost predicate IsKeyFor(sc: byte, c: byte) {
    TableSizes();
    1 <= sc <= KEYS && KEYMAP[sc - 1] == c
  }

  ghost function KeyFor(c: byte): (sc: byte)
    requires Typable(c)
    ensures IsKeyFor(sc, c)
  {
    var sc: byte :| IsKeyFor(sc, c);
    sc
  }

  lemma {:induction false} EntryTypable(c: byte, k: nat)
    requires k < KEYS && |KEYMAP| == KEYS && KEYMAP[k] == c != 0
    ensures Typable(c)
  {
    assert IsKeyFor(k + 1, c);
  }

  ghost predicate AllTypable(t: seq<byte>) {
    forall k :: 0 <= k < |t| ==> Typable(t[k])
  }

  /** Press and release of the key for each character in turn. */
  ghost function Typing(t: seq<byte>): (scs: seq<byte>)
    requires AllTypable(t)
    ensures AllInTables(scs)
  {
    if t == [] then []
    else
      var sc := KeyFor(t[|t| - 1]);
      assert IsKeyFor(sc, t[|t| - 1]);
      Typing(t[..|t| - 1]) + [sc, sc + 0x80]
  }

  ghost function PlainCalls(t: seq<byte>): (es: seq<Event>)
    ensures |es| == |t|
  {
    seq(|t|, k requires 0 <= k < |t| => Call(t[k], 0))
  }

  lemma {:induction false} PressAndRelease(sc: byte, c: byte)
    requires c != 0 && IsKeyFor(sc, c)
    ensures InTables(sc) && Step(IDLE, sc) == (IDLE, Call(c, 0))
    ensures sc + 0x80 < 256 && InTables(sc + 0x80) && Step(IDLE, sc + 0x80) == (IDLE, Silent)
  {
  }

  lemma {:induction false} RunSnoc(s: State, scs: seq<byte>, sc: byte)
    requires AllInTables(scs) && InTables(sc)
    ensures AllInTables(scs + [sc])
    ensures After(s, scs + [sc]) == Step(After(s, scs), sc).0
    ensures Calls(s, scs + [sc]) == Calls(s, scs) + if Step(After(s, scs),
      sc).1 == Silent then [] else [Step(After(s, scs), sc).1]
  {
  }

  /** One more key, pressed and released. */
  lemma {:induction false} RunKey(scs: seq<byte>, sc: byte, c: byte)
    requires AllInTables(scs) && After(IDLE, scs) == IDLE && c != 0 && IsKeyFor(sc, c)
    ensures sc + 0x80 < 256 && AllInTables(scs + [sc, sc + 0x80])
    ensures After(IDLE, scs + [sc, sc + 0x80]) == IDLE
    ensures Calls(IDLE, scs + [sc, sc + 0x80]) == Calls(IDLE, scs) + [Call(c, 0)]
  {
    PressAndRelease(sc, c);
    hide *;
    RunSnoc(IDLE, scs, sc);
    RunSnoc(IDLE, scs + [sc], sc + 0x80);
    assert scs + [sc, sc + 0x80] == scs + [sc] + [sc + 0x80];
    assert Calls(IDLE, scs) + [Call(c, 0)] + [] == Calls(IDLE, scs) + [Call(c, 0)];
  }

  /** Typing a text from an idle keyboard calls back with exactly its characters and leaves the keyboard idle. */
  lemma {:induction false} TypingDelivers(t: seq<byte>)
    requires AllTypable(t)
    ensures After(IDLE, Typing(t)) == IDLE && Calls(IDLE, Typing(t)) == PlainCalls(t)
    decreases |t|
  {
    hide After, Calls, IsKeyFor, AllInTables, Typable, KeyFor;
    if t == [] {
      NothingTyped();
    } else {
      var init, c := t[..|t| - 1], t[|t| - 1];
      TypingDelivers(init);
      TypableNonzero(c);
      RunKey(Typing(init), KeyFor(c), c);
      assert PlainCalls(t) == PlainCalls(init) + [Call(c, 0)];
    }
  }

  lemma {:induction false} TypableNonzero(c: byte)
    requires Typable(c)
    ensures c != 0
  {
  }

  lemma {:induction false} NothingTyped()
    ensures After(IDLE, []) == IDLE && Calls(IDLE, []) == [] == PlainCalls([])
  {
  }
}
