/**
 From scancodes to memory: commands typed on the keyboard, delivered to the
 shell, cut into words, parsed, carried out and printed.
 */
module EndToEnd {
  import opened Words
  import opened Numerals
  import opened Console
  import opened CStrings
  import opened Tokens
  import opened ShellSpec
  import opened Session
  import opened Editor
  import Kbd = Keyboard
  import Shell
  import opened PrintfFacts
  import opened IntFormat
  import S = Strtoul

  // ----- interrupts

  ghost predicate AllCalls(es: seq<Kbd.Event>) {
    forall k :: 0 <= k < |es| ==> es[k].Call?
  }

  /** The actions that a run of callbacks asks for. */
  ghost function ActionsOf(es: seq<Kbd.Event>): (xs: seq<Action>)
    requires AllCalls(es)
    ensures |xs| == |es|
  {
    seq(|es|, k requires 0 <= k < |es| => ActionOf(es[k].c, es[k].kstate))
  }

  lemma {:induction false} CallsOnly(s: Kbd.State, scs: seq<byte>)
    requires Kbd.AllInTables(scs)
    ensures AllCalls(Kbd.Calls(s, scs))
    decreases |scs|
  {
    hide Kbd.Step;
    if scs != [] {
      CallsOnly(s, scs[..|scs| - 1]);
    }
  }

  /** What a run of scancodes asks the shell to do. */
  ghost function Delivered(s: Kbd.State, scs: seq<byte>): seq<Action>
    requires Kbd.AllInTables(scs)
  {
    CallsOnly(s, scs);
    ActionsOf(Kbd.Calls(s, scs))
  }

  /** The interrupt handler and the shell's callback together. */
  method OnScancode(dev: Kbd.Device, shell: Shell.Shell, sc: byte)
    requires Kbd.InTables(sc) && shell.Valid()
    requires var e := Kbd.Step(dev.Current(), sc).1;
      e.Call? ==> Allowed(shell.State(), ActionOf(e.c, e.kstate))
    modifies dev, shell, shell.con, shell.con.mem, shell.shellbuf, shell.mem, shell.tok
    ensures shell.Valid() && dev.Current() == Kbd.Step(old(dev.Current()), sc).0
    ensures var e := Kbd.Step(old(dev.Current()), sc).1;
      shell.State() == if e.Call? then Act(old(shell.State()), ActionOf(e.c, e.kstate)) else old(shell.State())
  {
    hide Kbd.Step, Act, Allowed;
    var e := dev.Interrupt(sc);
    if e.Call? {
      shell.Kcallback(e.c, e.kstate);
    }
  }

  ghost function EventOf(s: Kbd.State, sc: byte): seq<Kbd.Event>
    requires Kbd.InTables(sc)
  {
    if Kbd.Step(s, sc).1 == Kbd.Silent then [] else [Kbd.Step(s, sc).1]
  }

  /** The calls of a run are those of its first scancode and then those of the rest. */
  lemma {:induction false} CallsCons(s: Kbd.State, scs: seq<byte>)
    requires Kbd.AllInTables(scs) && scs != []
    ensures Kbd.After(s, scs) == Kbd.After(Kbd.Step(s, scs[0]).0, scs[1..])
    ensures Kbd.Calls(s, scs) == EventOf(s, scs[0]) + Kbd.Calls(Kbd.Step(s, scs[0]).0, scs[1..])
    decreases |scs|
  {
    hide Kbd.Step, Kbd.InTables;
    var init, last := scs[..|scs| - 1], scs[|scs| - 1];
    if init == [] {
      assert scs[1..] == [];
    } else {
      CallsCons(s, init);
      assert scs[1..][..|scs| - 2] == init[1..];
      assert Kbd.AllInTables(scs[1..]);
    }
  }

  lemma {:induction false} CallsAppend(s: Kbd.State, a: seq<byte>, b: seq<byte>)
    requires Kbd.AllInTables(a) && Kbd.AllInTables(b)
    ensures Kbd.AllInTables(a + b)
    ensures Kbd.Calls(s, a + b) == Kbd.Calls(s, a) + Kbd.Calls(Kbd.After(s, a), b)
    ensures Kbd.After(s, a + b) == Kbd.After(Kbd.After(s, a), b)
    decreases |b|
  {
    hide Kbd.Step, Kbd.InTables;
    if b == [] {
      assert a + b == a;
    } else {
      var init, last := b[..|b| - 1], b[|b| - 1];
      CallsAppend(s, a, init);
      assert (a + b)[..|a + b| - 1] == a + init;
    }
  }

  lemma {:induction false} DeliveredAppend(s: Kbd.State, a: seq<byte>, b: seq<byte>)
    requires Kbd.AllInTables(a) && Kbd.AllInTables(b)
    ensures Kbd.AllInTables(a + b) && Kbd.After(s, a + b) == Kbd.After(Kbd.After(s, a), b)
    ensures Delivered(s, a + b) == Delivered(s, a) + Delivered(Kbd.After(s, a), b)
  {
    hide Kbd.Calls, Kbd.After, Kbd.AllInTables;
    CallsAppend(s, a, b);
    CallsOnly(s, a);
    CallsOnly(Kbd.After(s, a), b);
  }

  /** A run of scancodes handled one by one, arrows included, takes the shell through the actions they ask for. */
  method OnScancodes(dev: Kbd.Device, shell: Shell.Shell, scs: seq<byte>)
    requires Kbd.AllInTables(scs) && shell.Valid() && AllAllowed(shell.State(), Delivered(dev.Current(), scs))
    modifies dev, shell, shell.con, shell.con.mem, shell.shellbuf, shell.mem, shell.tok
    ensures shell.Valid() && dev.Current() == Kbd.After(old(dev.Current()), scs)
    ensures shell.State() == ActAll(old(shell.State()), Delivered(old(dev.Current()), scs))
  {
    hide Kbd.Step, Kbd.InTables, Delivered, Act, Allowed;
    ghost var m0, d0 := shell.State(), dev.Current();
    var i := 0;
    assert scs[0..] == scs;
    while i < |scs|
      invariant 0 <= i <= |scs| && shell.Valid() && Kbd.AllInTables(scs[i..])
      invariant Kbd.After(dev.Current(), scs[i..]) == Kbd.After(d0, scs)
      invariant AllAllowed(shell.State(), Delivered(dev.Current(), scs[i..]))
      invariant ActAll(shell.State(), Delivered(dev.Current(), scs[i..])) == ActAll(m0, Delivered(d0, scs))
    {
      NextAction(dev.Current(), scs[i..]);
      assert scs[i..][1..] == scs[i + 1..];
      OnScancode(dev, shell, scs[i]);
      i := i + 1;
    }
    NothingDelivered(dev.Current(), scs[i..]);
  }

  lemma {:induction false} NothingDelivered(s: Kbd.State, scs: seq<byte>)
    requires scs == []
    ensures Kbd.AllInTables(scs) && Delivered(s, scs) == [] && Kbd.After(s, scs) == s
  {
  }

  /** The first scancode of a run accounts for the first action, or for none. */
  lemma {:induction false} NextAction(s: Kbd.State, scs: seq<byte>)
    requires Kbd.AllInTables(scs) && scs != []
    ensures var (r, e) := Kbd.Step(s, scs[0]);
      && Kbd.AllInTables(scs[1..]) && Kbd.After(s, scs) == Kbd.After(r, scs[1..])
      && var xs, rest := Delivered(s, scs), Delivered(r, scs[1..]);
         if e.Call? then |xs| > 0 && xs[0] == ActionOf(e.c, e.kstate) && xs[1..] == rest else xs == rest
  {
    hide Kbd.Step, Kbd.Calls, Kbd.After, Kbd.InTables;
    CallsCons(s, scs);
    var (r, e) := Kbd.Step(s, scs[0]);
    CallsOnly(s, scs);
    CallsOnly(r, scs[1..]);
    assert Kbd.Calls(s, scs) == EventOf(s, scs[0]) + Kbd.Calls(r, scs[1..]);
  }

  // ----- typed lines

  ghost function TypeKeys(t: seq<byte>): (ks: seq<Key>)
    ensures |ks| == |t|
  {
    seq(|t|, k requires 0 <= k < |t| => Type(t[k]))
  }

  /** The keys that typing a line and Enter on an idle keyboard amounts to. */
  ghost function Entered(t: seq<byte>): seq<Key> {
    TypeKeys(t) + [Enter]
  }

  lemma {:induction false} ScancodesOfLine(t: seq<byte>)
    requires Kbd.AllTypable(t + [NL]) && NL !in t
    ensures Delivered(Kbd.IDLE, Kbd.Typing(t + [NL])) == ToActions(Entered(t))
    ensures Kbd.After(Kbd.IDLE, Kbd.Typing(t + [NL])) == Kbd.IDLE
  {
    hide Kbd.Typing, Kbd.Calls, Kbd.After, Kbd.AllTypable;
    Kbd.TypingDelivers(t + [NL]);
    var xs := Delivered(Kbd.IDLE, Kbd.Typing(t + [NL]));
    assert !Kbd.Bit(0, Kbd.KBD_BCKSP) && !Kbd.Bit(0, Kbd.KBD_UP) && !Kbd.Bit(0, Kbd.KBD_DOWN);
    forall k | 0 <= k < |t| ensures xs[k] == Insert(t[k]) {
      assert t[k] in t;
    }
    assert xs == ToActions(Entered(t));
  }

  /** Typing a text adds it to the line and touches neither memory nor what is left to type. */
  lemma {:induction false} TypedLine(s: Session, t: seq<byte>)
    requires s.Ok() && 0 !in t
    ensures KeysOk(s, TypeKeys(t))
    ensures Run(s, TypeKeys(t)).line == s.line + t && Run(s, TypeKeys(t)).mem == s.mem
    decreases |t|
  {
    if t == [] {
      assert s.line + t == s.line;
    } else {
      assert TypeKeys(t)[1..] == TypeKeys(t[1..]);
      var r := Step(s, Type(t[0]));
      TypedLine(r, t[1..]);
      assert (s.line + [t[0]]) + t[1..] == s.line + t;
    }
  }

  /** A line entered on an empty line runs as a command. */
  lemma {:induction false} EnteredLine(s: Session, t: seq<byte>)
    requires s.Ok() && s.line == [] && 0 !in t && WordsOf(t) != []
    ensures KeysOk(s, Entered(t)) && KeysOk(s, TypeKeys(t))
    ensures var e := Execute(WordsOf(t), s.mem);
      Run(s, Entered(t)) == Session([], DrawEntered(Run(s, TypeKeys(t)).screen, e.out), e.mem)
  {
    TypedLine(s, t);
    assert [] + t == t;
    hide WordsOf, Execute, DrawEntered;
    var r := Run(s, TypeKeys(t));
    assert KeysOk(r, [Enter]) by {
      assert [Enter][1..] == [];
    }
    RunSplit(s, TypeKeys(t), [Enter]);
    assert Run(r, [Enter]) == Run(Step(r, Enter), []);
  }

  // ----- words

  /** A word and a blank in front of a text put the word in front of the text's words. */
  lemma {:induction false} SplitWord(w: seq<byte>, t: seq<byte>)
    requires w != [] && SPACE !in w
    ensures WordsOf(w + [SPACE] + t) == [w] + WordsOf(t)
  {
    hide Skip, Until, Split;
    var u, d := w + [SPACE] + t, {SPACE};
    SkipIs(u, d, 0, 0);
    UntilIs(u, d, 0, |w|);
    SplitUnfold(u, d);
    assert u[0..|w|] == w;
    assert u[|w|..][1..] == t;
    SplitDropDelimiter(u[|w|..], d);
  }

  lemma {:induction false} SplitOne(w: seq<byte>)
    requires w != [] && SPACE !in w
    ensures WordsOf(w) == [w]
  {
    hide Skip, Until, Split;
    SkipIs(w, {SPACE}, 0, 0);
    UntilIs(w, {SPACE}, 0, |w|);
    SplitUnfold(w, {SPACE});
    SplitUnfold([], {SPACE});
    assert w[0..|w|] == w && w[|w|..] == [];
  }

  // ----- held keys

  /**
   What a callback asks for follows from the history of scancodes: but for Enter, a backspace
   that is held erases, then a held up arrow recalls, then a held down arrow, and only with
   none of them held is the character inserted.
   */
  lemma {:induction false} HeldKeysDecide(scs: seq<byte>, sc: byte)
    requires Kbd.AllInTables(scs + [sc])
    ensures Kbd.InTables(sc) && Kbd.AllInTables(scs)
    ensures var e, h := Kbd.Step(Kbd.After(Kbd.IDLE, scs), sc).1, scs + [sc];
      e.Call? ==>
        ActionOf(e.c, e.kstate) ==
          if e.c == '\n' as int then Submit
          else if Kbd.BackspaceHeld(h) then Erase
          else if Kbd.ArrowHeld(h, 0x48) then Older
          else if Kbd.ArrowHeld(h, 0x50) then Newer
          else Insert(e.c)
  {
    var h := scs + [sc];
    assert h[|scs|] == sc && forall i :: 0 <= i < |scs| ==> h[i] == scs[i];
    Kbd.RunSnoc(Kbd.IDLE, scs, sc);
    Kbd.StateReflectsHistory(h);
    Kbd.ArrowsReflectHistory(h);
    CalledState(Kbd.After(Kbd.IDLE, scs), sc);
    hide Kbd.Step, Kbd.After, Kbd.BackspaceHeld, Kbd.ArrowHeld;
  }

  /** A callback sees the state that the step leaves. */
  lemma CalledState(s: Kbd.State, sc: byte)
    requires Kbd.InTables(sc)
    ensures var (r, e) := Kbd.Step(s, sc); e.Call? ==> e.kstate == r.kstate
  {
  }

  // ----- hexadecimal as it is typed

  lemma {:induction false} HexKeyFacts(d: nat)
    requires d < 16
    ensures var c := LowerDigit(d);
      S.DigitOf(c) == d && !S.IsSpace(c) && !S.IsX(c) && c != MINUS && c != PLUS && c != 0 && c != SPACE && c != NL
  {
  }

  /** The parser reads it back. */
  lemma {:induction false} LowerHexParses(v: nat)
    requires v < M32
    ensures Number(LowerHex(v)) == v
    ensures LowerHex(v) != [] && 0 !in LowerHex(v) && SPACE !in LowerHex(v) && NL !in LowerHex(v)
  {
    hide S.DigitEnd, S.SpaceEnd, Digits, Value;
    var t, ds := LowerHex(v), Digits(v, 16);
    DigitsCanonical(v, 16);
    forall k | 0 <= k < |t|
      ensures S.DigitOf(t[k]) == ds[k] && !S.IsSpace(t[k]) && !S.IsX(t[k]) && t[k] != MINUS && t[k] != PLUS
      ensures t[k] != 0 && t[k] != SPACE && t[k] != NL
    {
      HexKeyFacts(ds[k]);
    }
    S.SpaceEndIs(t, 0, 0);
    assert S.SubjectOf(t, 16) == S.Subject(false, 16, false, 0);
    S.DigitEndIs(t, 0, 16, |t|);
    assert t[0..|t|] == t;
    assert S.DigitValues(t) == ds;
  }

  lemma {:induction false} HexKeysTypable(d: nat)
    requires d < 16
    ensures Kbd.Typable(LowerDigit(d))
  {
    Kbd.TableSizes();
    Kbd.EntryTypable(LowerDigit(d), HexEntry(d));
  }

  /** Where the keys for the sixteen digits are in the table. */
  function HexEntry(d: nat): (k: nat)
    requires d < 16
    ensures |Kbd.KEYMAP| == Kbd.KEYS && k < Kbd.KEYS && Kbd.KEYMAP[k] == LowerDigit(d)
  {
    Kbd.TableSizes();
    [10, 1, 2, 3, 4, 5, 6, 7, 8, 9, 29, 47, 45, 31, 17, 32][d]
  }

  // ----- the commands

  ghost function PokeLine(a: nat, v: nat): seq<byte> {
    POKE + [SPACE] + (LowerHex(a) + [SPACE] + LowerHex(v))
  }

  ghost function PeekLine(a: nat): seq<byte> {
    PEEK + [SPACE] + LowerHex(a)
  }

  /** The lines as they are typed. */
  lemma {:induction false} LinesAre(a: nat, v: nat)
    ensures PokeLine(a, v) == Ascii("poke ") + LowerHex(a) + Ascii(" ") + LowerHex(v)
    ensures PeekLine(a) == Ascii("peek ") + LowerHex(a)
  {
    hide LowerHex;
    assert POKE + [SPACE] == Ascii("poke ") && PEEK + [SPACE] == Ascii("peek ") && [SPACE] == Ascii(" ");
    var p, x, y := Ascii("poke "), LowerHex(a), LowerHex(v);
    assert p + (x + [SPACE] + y) == p + x + [SPACE] + y;
  }

  lemma {:induction false} PokeLineFacts(a: nat, v: nat)
    requires a < M32 && v < M32
    ensures 0 !in PokeLine(a, v) && NL !in PokeLine(a, v)
    ensures WordsOf(PokeLine(a, v)) == [POKE, LowerHex(a), LowerHex(v)]
  {
    hide Split, LowerHex;
    LowerHexParses(a);
    LowerHexParses(v);
    SplitOne(LowerHex(v));
    SplitWord(LowerHex(a), LowerHex(v));
    SplitWord(POKE, LowerHex(a) + [SPACE] + LowerHex(v));
  }

  lemma {:induction false} PeekLineFacts(a: nat)
    requires a < M32
    ensures 0 !in PeekLine(a) && NL !in PeekLine(a)
    ensures WordsOf(PeekLine(a)) == [PEEK, LowerHex(a)]
  {
    hide Split, LowerHex;
    LowerHexParses(a);
    SplitOne(LowerHex(a));
    SplitWord(PEEK, LowerHex(a));
  }

  /** Every character of both commands has a key. */
  lemma {:induction false} LinesTypable(a: nat, v: nat)
    ensures Kbd.AllTypable(PokeLine(a, v) + [NL]) && Kbd.AllTypable(PeekLine(a) + [NL])
  {
    hide Kbd.Typable, LowerHex;
    CommandKeys();
    hide Kbd.AllTypable;
    HexTyped(a);
    HexTyped(v);
    Together(LowerHex(a), [SPACE]);
    Together(LowerHex(a) + [SPACE], LowerHex(v));
    Together(POKE + [SPACE], LowerHex(a) + [SPACE] + LowerHex(v));
    Together(PEEK + [SPACE], LowerHex(a));
    Together(PokeLine(a, v), [NL]);
    Together(PeekLine(a), [NL]);
  }

  lemma {:induction false} CommandKeys()
    ensures Kbd.AllTypable([SPACE]) && Kbd.AllTypable([NL])
    ensures Kbd.AllTypable(POKE + [SPACE]) && Kbd.AllTypable(PEEK + [SPACE])
  {
    Kbd.TableSizes();
    hide Kbd.Typable;
    Kbd.EntryTypable('p' as int, 24);
    Kbd.EntryTypable('o' as int, 23);
    Kbd.EntryTypable('k' as int, 36);
    Kbd.EntryTypable('e' as int, 17);
    Kbd.EntryTypable(SPACE, 56);
    Kbd.EntryTypable(NL, 27);
  }

  lemma {:induction false} Together(t: seq<byte>, u: seq<byte>)
    requires Kbd.AllTypable(t) && Kbd.AllTypable(u)
    ensures Kbd.AllTypable(t + u)
  {
  }

  lemma {:induction false} HexTyped(v: nat)
    ensures Kbd.AllTypable(LowerHex(v))
  {
    hide Kbd.Typable, Digits;
    DigitsCanonical(v, 16);
    forall k | 0 <= k < |LowerHex(v)| ensures Kbd.Typable(LowerHex(v)[k]) {
      HexKeysTypable(Digits(v, 16)[k]);
    }
  }

  /** Entering "poke <a> <v>" stores the low byte of `v` at `a`, changes no other byte and prints both. */
  lemma {:induction false} PokeStores(s: Session, a: nat, v: nat)
    requires s.Ok() && s.line == [] && a < M32 && v < M32
    ensures KeysOk(s, Entered(PokeLine(a, v))) && KeysOk(s, TypeKeys(PokeLine(a, v)))
    ensures Run(s, Entered(PokeLine(a, v))) ==
      Session([], DrawEntered(Run(s, TypeKeys(PokeLine(a, v))).screen, Hex(a, 8) + EQUALS + Hex(v, 2)),
        s.mem[a := v % 256])
  {
    hide PokeLine, LowerHex, WordsOf, DrawEntered, Hex, Number;
    PokeLineFacts(a, v);
    LowerHexParses(a);
    LowerHexParses(v);
    EnteredLine(s, PokeLine(a, v));
    assert POKE != PEEK;
  }

  /** Entering "peek <a>" changes nothing and prints the address and the byte there. */
  lemma {:induction false} PeekShows(s: Session, a: nat)
    requires s.Ok() && s.line == [] && a < M32
    ensures KeysOk(s, Entered(PeekLine(a))) && KeysOk(s, TypeKeys(PeekLine(a)))
    ensures Run(s, Entered(PeekLine(a))) ==
      Session([], DrawEntered(Run(s, TypeKeys(PeekLine(a))).screen, Hex(a, 8) + COLON + Hex(s.mem[a], 2)), s.mem)
  {
    hide PeekLine, LowerHex, WordsOf, DrawEntered, Hex, Number;
    PeekLineFacts(a);
    LowerHexParses(a);
    EnteredLine(s, PeekLine(a));
  }

  // ----- the same, on the objects

  lemma {:induction false} TypedAccepted(s: Session, t: seq<byte>, ks: seq<Key>)
    requires s.Ok() && 0 !in t && |s.line| + |t| + 1 < SIZE
    requires KeysOk(s, TypeKeys(t)) && AcceptsAll(Run(s, TypeKeys(t)), ks)
    ensures AcceptsAll(s, TypeKeys(t) + ks)
    decreases |t|
  {
    hide DrawEntered, DrawTyped, DrawErased, Execute;
    if t == [] {
      assert TypeKeys(t) + ks == ks;
    } else {
      assert TypeKeys(t)[1..] == TypeKeys(t[1..]);
      assert (TypeKeys(t) + ks)[1..] == TypeKeys(t[1..]) + ks;
      assert t[0] in t;
      TypedAccepted(Step(s, Type(t[0])), t[1..], ks);
    }
  }

  /** A short command line is accepted, whatever follows it. */
  lemma {:induction false} EnteredAccepted(s: Session, t: seq<byte>, ks: seq<Key>)
    requires s.Ok() && s.line == [] && 0 !in t && |t| + 1 < SIZE && WordsOf(t) != []
    requires KeysOk(s, Entered(t)) && AcceptsAll(Run(s, Entered(t)), ks)
    ensures AcceptsAll(s, Entered(t) + ks)
  {
    hide WordsOf, DrawEntered, DrawTyped, DrawErased, Execute;
    TypedLine(s, t);
    assert [] + t == t;
    var r := Run(s, TypeKeys(t));
    RunSplit(s, TypeKeys(t), [Enter]);
    assert [Enter][1..] == [];
    assert Run(r, [Enter]) == Run(Step(r, Enter), []);
    assert ([Enter] + ks)[1..] == ks;
    assert Accepts(r, Enter);
    assert AcceptsAll(r, [Enter] + ks);
    TypedAccepted(s, t, [Enter] + ks);
    assert Entered(t) + ks == TypeKeys(t) + ([Enter] + ks);
  }

  lemma {:induction false} CommandsAccepted(s: Session, a: nat, v: nat)
    requires s.Ok() && s.line == [] && a < M32 && v < M32
    ensures AcceptsAll(s, Entered(PokeLine(a, v)) + Entered(PeekLine(a)))
  {
    PokeLineFacts(a, v);
    PeekLineFacts(a);
    LineLengths(a, v);
    PokeStores(s, a, v);
    hide PokeLine, PeekLine, DrawEntered, Hex, WordsOf;
    var r := Run(s, Entered(PokeLine(a, v)));
    PeekShows(r, a);
    EnteredAccepted(r, PeekLine(a), []);
    assert Entered(PeekLine(a)) + [] == Entered(PeekLine(a));
    EnteredAccepted(s, PokeLine(a, v), Entered(PeekLine(a)));
  }

  lemma {:induction false} LineLengths(a: nat, v: nat)
    requires a < M32 && v < M32
    ensures |PokeLine(a, v)| <= 22 && |PeekLine(a)| <= 13
  {
    hide Digits, Pow;
    HexPowers();
    DigitsLength(a, 16, 8);
    DigitsLength(v, 16, 8);
  }

  /** The scancodes of both commands, one after the other. */
  ghost function BothCommands(a: nat, v: nat): (scs: seq<byte>)
    ensures Kbd.AllInTables(scs)
  {
    LinesTypable(a, v);
    var poke, peek := Kbd.Typing(PokeLine(a, v) + [NL]), Kbd.Typing(PeekLine(a) + [NL]);
    CallsAppend(Kbd.IDLE, poke, peek);
    poke + peek
  }

  lemma {:induction false} BothCommandsDeliver(a: nat, v: nat)
    requires a < M32 && v < M32
    ensures Delivered(Kbd.IDLE, BothCommands(a, v)) == ToActions(Entered(PokeLine(a, v)) + Entered(PeekLine(a)))
    ensures Kbd.After(Kbd.IDLE, BothCommands(a, v)) == Kbd.IDLE
  {
    LinesTypable(a, v);
    PokeLineFacts(a, v);
    PeekLineFacts(a);
    assert BothCommands(a, v) == Kbd.Typing(PokeLine(a, v) + [NL]) + Kbd.Typing(PeekLine(a) + [NL]);
    hide BothCommands, PokeLine, PeekLine, Delivered, Kbd.Typing, Kbd.AllTypable, Kbd.After, Kbd.AllInTables,
      Entered, ToActions, Split, WordsOf;
    var poke, peek := Kbd.Typing(PokeLine(a, v) + [NL]), Kbd.Typing(PeekLine(a) + [NL]);
    ScancodesOfLine(PokeLine(a, v));
    ScancodesOfLine(PeekLine(a));
    DeliveredAppend(Kbd.IDLE, poke, peek);
    ToActionsAppend(Entered(PokeLine(a, v)), Entered(PeekLine(a)));
  }

  lemma {:induction false} ToActionsAppend(a: seq<Key>, b: seq<Key>)
    ensures ToActions(a + b) == ToActions(a) + ToActions(b)
  {
  }

  /** The session-level theorem in terms of keys. */
  lemma {:induction false} PokeThenPeekKeys(s: Session, a: nat, v: nat) returns (screen: Screen)
    requires s.Ok() && s.line == [] && a < M32 && v < M32
    ensures var ks := Entered(PokeLine(a, v)) + Entered(PeekLine(a));
      && KeysOk(s, ks) && screen.Ok()
      && Run(s, ks) == Session([], DrawEntered(screen, Report(a, v % 256)), s.mem[a := v % 256])
  {
    hide PokeLine, PeekLine, DrawEntered, Hex;
    PokeStores(s, a, v);
    var r := Run(s, Entered(PokeLine(a, v)));
    PeekShows(r, a);
    RunSplit(s, Entered(PokeLine(a, v)), Entered(PeekLine(a)));
    screen := Run(r, TypeKeys(PeekLine(a))).screen;
  }

  /** What `peek` prints: address and byte. */
  ghost function Report(a: nat, v: nat): seq<byte> {
    Hex(a, 8) + COLON + Hex(v, 2)
  }

  lemma {:induction false} ReportIs(a: nat, v: nat)
    ensures Report(a, v) == Hex(a, 8) + Ascii(": ") + Hex(v, 2)
  {
    hide Hex;
    CommandWords();
  }

  lemma {:induction false} ReportFits(a: nat, v: nat)
    requires a < M32 && v < 256
    ensures |Hex(a, 8)| == 8 && |Hex(v, 2)| == 2 && Number(Hex(a, 8)) == a && Number(Hex(v, 2)) == v
    ensures |Report(a, v)| == 12 && Printable(Report(a, v))
  {
    hide Hex, Number;
    HexExact(a, 8);
    HexExact(v, 2);
    HexPrintable(a, 8);
    HexPrintable(v, 2);
  }

  lemma {:induction false} HexPrintable(v: nat, width: nat)
    ensures Printable(Hex(v, width))
  {
    hide Natural, Rendered, Padding;
    RenderedShape(v, 16, false, false, width, false, true);
    NaturalAboveZero(v);
    var t := Natural(v, 16, false, false);
    ZerosPrintable(width - |t|);
    assert Hex(v, width) == Padding(width - |t|, true) + t;
  }

  lemma ZerosPrintable(n: int)
    ensures Printable(Padding(n, true))
  {
  }

  lemma {:induction false} NaturalAboveZero(v: nat)
    ensures Printable(Natural(v, 16, false, false))
  {
    hide Digits;
    var ds := Digits(v, 16);
    DigitsCanonical(v, 16);
    var t := Natural(v, 16, false, false);
    assert t == DigitText(ds);
    forall k | 0 <= k < |t| ensures t[k] >= 48 {
      DigitAboveZero(ds[k]);
    }
  }

  lemma DigitAboveZero(d: nat)
    requires d < 16
    ensures DIGITS[d] >= 48
  {
  }

  /** The screen shows the report above a fresh prompt. */
  ghost predicate ShowsReport(s: Screen, a: nat, v: nat)
    requires s.Ok()
  {
    && s.ty >= 1 && RowStarts(s.rows[s.ty - 1], Hex(a, 8) + Ascii(": ") + Hex(v, 2))
    && RowStarts(s.rows[s.ty], Ascii(">"))
  }

  /**
   End to end. For every 32-bit address and every 32-bit value, the scancodes of
   "poke <a> <v>" and of "peek <a>", typed on an idle keyboard, leave memory with
   exactly byte `a` changed to the low byte of `v`, and the row above the new prompt
   shows `a` in eight hexadecimal digits and that byte in two.
   */
  lemma {:induction false} PokeThenPeek(m: Machine, a: nat, v: nat)
    requires m.Ok() && Plain(m) && m.ptr == 0 && a < M32 && v < M32
    ensures var xs := Delivered(Kbd.IDLE, BothCommands(a, v));
      && AllAllowed(m, xs)
      && var r := ActAll(m, xs);
         Plain(r) && r.ptr == 0 && r.mem == m.mem[a := v % 256] && ShowsReport(r.screen, a, v % 256)
    ensures |Hex(a, 8)| == 8 && |Hex(v % 256, 2)| == 2 && Number(Hex(a, 8)) == a && Number(Hex(v % 256, 2)) == v % 256
    ensures Kbd.After(Kbd.IDLE, BothCommands(a, v)) == Kbd.IDLE
  {
    hide BothCommands, Delivered, Hex, Number, Report, DrawEntered, PokeLine, PeekLine, Kbd.After, Kbd.AllInTables,
      AcceptsAll, AllAllowed, ActAll, Run, RowStarts, HoldsLine;
    BothCommandsDeliver(a, v);
    var s := AsSession(m);
    CommandsAccepted(s, a, v);
    RunsAgree(m, Entered(PokeLine(a, v)) + Entered(PeekLine(a)));
    var screen := PokeThenPeekKeys(s, a, v);
    ReportFits(a, v % 256);
    EnteredRows(screen, Report(a, v % 256));
    ReportIs(a, v % 256);
    PromptIs();
  }

  /** The same on the keyboard and shell objects themselves. */
  method PokeThenPeekTyped(dev: Kbd.Device, shell: Shell.Shell, a: nat, v: nat, scs: seq<byte>)
    requires a < M32 && v < M32 && scs == BothCommands(a, v)
    requires dev.Current() == Kbd.IDLE && shell.Valid() && Plain(shell.State()) && shell.shellptr == 0
    modifies dev, shell, shell.con, shell.con.mem, shell.shellbuf, shell.mem, shell.tok
    ensures dev.Current() == Kbd.IDLE && shell.Valid() && Plain(shell.State()) && shell.shellptr == 0
    ensures shell.mem[..] == old(shell.mem[..])[a := v % 256]
    ensures ShowsReport(shell.con.Shows(), a, v % 256)
  {
    hide BothCommands, Delivered, Kbd.After, Kbd.AllInTables, AllAllowed, ActAll, HoldsLine, ShowsReport;
    PokeThenPeek(shell.State(), a, v);
    OnScancodes(dev, shell, scs);
  }

  // ----- arrow keys

  /** Press and release of an arrow key, each behind its prefix. */
  ghost function ArrowKey(press: byte): (scs: seq<byte>)
    requires press == 0x48 || press == 0x50 || press == 0x4B || press == 0x4D
    ensures Kbd.AllInTables(scs)
  {
    [0xE0, press, 0xE0, press + 0x80]
  }

  /** The action of pressing it; releasing any of them inserts a NUL. */
  function ArrowAction(press: byte): Action {
    if press == 0x48 then Older else if press == 0x50 then Newer else Insert(0)
  }

  lemma {:induction false} ArrowKeyDelivers(press: byte)
    requires press == 0x48 || press == 0x50 || press == 0x4B || press == 0x4D
    ensures Delivered(Kbd.IDLE, ArrowKey(press)) == [ArrowAction(press), Insert(0)]
    ensures Kbd.After(Kbd.IDLE, ArrowKey(press)) == Kbd.IDLE
  {
    ArrowSteps(press);
    ArrowActions(press);
    var bit := Kbd.ArrowBit(press);
    var s1, s2, s3 := Kbd.State(0, true), Kbd.State(bit, false), Kbd.State(bit, true);
    var scs := ArrowKey(press);
    var scs1: seq<byte>, scs2: seq<byte>, scs3: seq<byte> := [press, 0xE0, press + 0x80], [0xE0, press + 0x80],
      [press + 0x80];
    assert scs[1..] == scs1 && scs1[1..] == scs2 && scs2[1..] == scs3 && scs3[1..] == [];
    hide *;
    NextAction(Kbd.IDLE, scs);
    NextAction(s1, scs1);
    NextAction(s2, scs2);
    NextAction(s3, scs3);
    NothingDelivered(Kbd.IDLE, []);
    var xs := Delivered(Kbd.IDLE, scs);
    assert xs[1..][1..] == [];
  }

  lemma {:induction false} ArrowSteps(press: byte)
    requires press == 0x48 || press == 0x50 || press == 0x4B || press == 0x4D
    ensures var bit := Kbd.ArrowBit(press);
      && Kbd.Step(Kbd.IDLE, 0xE0) == (Kbd.State(0, true), Kbd.Silent)
      && Kbd.Step(Kbd.State(0, true), press) == (Kbd.State(bit, false), Kbd.Call(0, bit))
      && Kbd.Step(Kbd.State(bit, false), 0xE0) == (Kbd.State(bit, true), Kbd.Silent)
      && Kbd.Step(Kbd.State(bit, true), press + 0x80) == (Kbd.IDLE, Kbd.Call(0, 0))
  {
  }

  lemma {:induction false} ArrowActions(press: byte)
    requires press == 0x48 || press == 0x50 || press == 0x4B || press == 0x4D
    ensures ActionOf(0, Kbd.ArrowBit(press)) == ArrowAction(press) && ActionOf(0, 0) == Insert(0)
  {
  }

  lemma {:induction false} InsertsAre(t: seq<byte>)
    ensures ToActions(Entered(t)) == Inserts(t) + [Submit]
  {
  }

  /**
   The left and right arrow keys hide what is typed after them: whatever text follows,
   Enter runs the line as it was before the arrow.
   */
  lemma {:induction false} SidewaysHides(m: Machine, press: byte, t: seq<byte>) returns (q: Machine)
    requires m.Ok() && Plain(m) && Allowed(m, Submit) && m.ptr + 2 + |t| < SIZE
    requires (press == 0x4B || press == 0x4D) && Kbd.AllTypable(t + [NL]) && NL !in t
    ensures var scs := ArrowKey(press) + Kbd.Typing(t + [NL]);
      && Kbd.AllInTables(scs) && AllAllowed(m, Delivered(Kbd.IDLE, scs))
      && q.Ok() && Allowed(q, Submit) && q.Text() == m.Text() && q.mem == m.mem
      && ActAll(m, Delivered(Kbd.IDLE, scs)) == Act(q, Submit)
  {
    HeldString(m.buf, m.buf[..m.ptr]);
    SidewaysDelivers(press, t);
    hide *;
    q := NulThenSubmit(m, [0] + t);
  }

  lemma {:induction false} SidewaysDelivers(press: byte, t: seq<byte>)
    requires (press == 0x4B || press == 0x4D) && Kbd.AllTypable(t + [NL]) && NL !in t
    ensures var scs := ArrowKey(press) + Kbd.Typing(t + [NL]);
      Kbd.AllInTables(scs) && Delivered(Kbd.IDLE, scs) == [Insert(0)] + Inserts([0] + t) + [Submit]
  {
    hide Delivered, ArrowKey, Kbd.Typing, Kbd.AllTypable, Kbd.After, Kbd.AllInTables, Inserts, ToActions, Entered;
    ArrowKeyDelivers(press);
    ScancodesOfLine(t);
    DeliveredAppend(Kbd.IDLE, ArrowKey(press), Kbd.Typing(t + [NL]));
    InsertsAre(t);
    InsertsCons(t);
  }

  lemma {:induction false} InsertsCons(t: seq<byte>)
    ensures Inserts([0] + t) == [Insert(0)] + Inserts(t)
  {
  }

  /**
   Running a command again through the up arrow loses its arguments: for every line and
   whatever is typed after the arrow, the second Enter runs the first word alone, so it
   changes no memory and prints a usage or unknown-command message.
   */
  lemma {:induction false} UpArrowReruns(m: Machine, t: seq<byte>) returns (screen: Screen)
    requires m.Ok() && Plain(m) && Allowed(m, Submit) && m.histptr + 1 < SIZE && m.ptr + 1 + |t| < SIZE
    requires Kbd.AllTypable(t + [NL]) && NL !in t
    ensures Kbd.AllTypable([NL])
    ensures var scs := Kbd.Typing([NL]) + (ArrowKey(0x48) + Kbd.Typing(t + [NL]));
      var w := WordsOf(m.Text());
      && Kbd.AllInTables(scs) && AllAllowed(m, Delivered(Kbd.IDLE, scs)) && screen.Ok()
      && var r := ActAll(m, Delivered(Kbd.IDLE, scs));
         && r.mem == Execute(w, m.mem).mem
         && r.screen == DrawEntered(screen,
              if w[0] == PEEK then PEEK_USAGE else if w[0] == POKE then POKE_USAGE else UNKNOWN + w[0])
  {
    CommandKeys();
    hide Act, Allowed, AllAllowed, ActAll, Delivered, ArrowKey, Kbd.Typing, Kbd.AllTypable, Kbd.After,
      Kbd.AllInTables, HoldsLine, Inserts, Execute, WordsOf, DrawEntered;
    ArrowKeyDelivers(0x48);
    assert [] + [NL] == [NL];
    ScancodesOfLine([]);
    ScancodesOfLine(t);
    DeliveredAppend(Kbd.IDLE, ArrowKey(0x48), Kbd.Typing(t + [NL]));
    DeliveredAppend(Kbd.IDLE, Kbd.Typing([NL]), ArrowKey(0x48) + Kbd.Typing(t + [NL]));
    InsertsAre(t);
    assert ToActions(Entered([])) == [Submit];
    assert Delivered(Kbd.IDLE, Kbd.Typing([NL]) + (ArrowKey(0x48) + Kbd.Typing(t + [NL]))) ==
      [Submit, Older] + ([Insert(0)] + Inserts(t) + [Submit]);
    screen := RerunLosesArguments(m, t);
  }

  /** The up arrow key, pressed and released `k` times. */
  ghost function UpArrows(k: nat): (scs: seq<byte>)
    ensures Kbd.AllInTables(scs)
  {
    if k == 0 then [] else ArrowKey(0x48) + UpArrows(k - 1)
  }

  lemma {:induction false} UpArrowsDeliver(k: nat)
    ensures Delivered(Kbd.IDLE, UpArrows(k)) == UpKeys(k) && Kbd.After(Kbd.IDLE, UpArrows(k)) == Kbd.IDLE
  {
    hide Delivered, ArrowKey, Kbd.After, Kbd.AllInTables;
    if k == 0 {
      NothingDelivered(Kbd.IDLE, []);
    } else {
      UpArrowsDeliver(k - 1);
      ArrowKeyDelivers(0x48);
      DeliveredAppend(Kbd.IDLE, ArrowKey(0x48), UpArrows(k - 1));
    }
  }

  /**
   History from scancodes: after any run of them that leaves the keyboard idle and asks for
   no recall, `k` up arrow keys show the line of the `k`th last Enter, up to its first word.
   */
  lemma {:induction false} UpArrowsRecall(m: Machine, scs: seq<byte>, k: nat)
    requires m.Ok() && Kbd.AllInTables(scs) && Kbd.After(Kbd.IDLE, scs) == Kbd.IDLE
    requires var xs := Delivered(Kbd.IDLE, scs);
      && AllAllowed(m, xs) && NoRecall(xs)
      && m.histptr + |Submitted(m, xs)| < SIZE && 1 <= k <= |Submitted(m, xs)|
    ensures Kbd.AllInTables(scs + UpArrows(k)) && AllAllowed(m, Delivered(Kbd.IDLE, scs + UpArrows(k)))
    ensures var r, ms := ActAll(m, Delivered(Kbd.IDLE, scs + UpArrows(k))), Submitted(m, Delivered(Kbd.IDLE, scs));
      var was := ms[|ms| - k];
      && r.Text() == ShownAgain(was.Text(), was.ptr) && r.ptr == (was.ptr + 1) % SIZE
      && (Plain(was) ==> r.Text() == was.Text()[..FirstWordEnd(was.Text())])
      && (Showing(ActAll(m, Delivered(Kbd.IDLE, scs)), []) && LinesFit(ms, k) ==> Showing(r, r.Text()))
  {
    hide Delivered, UpArrows, Kbd.After, Kbd.AllInTables, AllAllowed, ActAll, Submitted, NoRecall, ShownAgain,
      Showing, LinesFit,
      FirstWordEnd;
    UpArrowsDeliver(k);
    DeliveredAppend(Kbd.IDLE, scs, UpArrows(k));
    RecallAfterRun(m, Delivered(Kbd.IDLE, scs), k);
  }
}
