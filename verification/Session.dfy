/**
 A console session on values: the line being edited, the screen and memory,
 and what each key does to them.
 */
module Session {
  import opened Words
  import opened CStrings
  import opened Console
  import opened Tokens
  import opened ShellSpec

  const PROMPT: seq<byte> := ['>' as int]

  datatype Key = Type(c: byte) | Backspace | Enter

  datatype Session = Session(line: seq<byte>, screen: Screen, mem: seq<byte>) {
    ghost predicate Ok() {
      screen.Ok() && |mem| == M32 && 0 !in line
    }
  }

  /** The line a key leaves behind. */
  ghost function Edit(line: seq<byte>, k: Key): seq<byte> {
    match k
    case Type(c) => line + [c]
    case Backspace => if line == [] then [] else line[..|line| - 1]
    case Enter => []
  }

  /** The command words of a line. */
  ghost function WordsOf(line: seq<byte>): seq<seq<byte>> {
    Split(line, {SPACE})
  }

  /** A printable key goes to the end of the line; Enter needs a word to run. */
  ghost predicate KeyOk(s: Session, k: Key) {
    match k
    case Type(c) => c != 0
    case Backspace => true
    case Enter => WordsOf(s.line) != []
  }

  /** Typing redraws the line after the prompt. */
  ghost function DrawTyped(screen: Screen, line: seq<byte>): (r: Screen)
    requires screen.Ok()
    ensures r.Ok()
  {
    PutText(StepScreen(screen, SetPosX(1)), line)
  }

  /** Backspace clears half the row and redraws prompt and line. */
  ghost function DrawErased(screen: Screen, line: seq<byte>): (r: Screen)
    requires screen.Ok()
    ensures r.Ok()
  {
    PutText(PutText(StepScreen(StepScreen(screen, ClrLine), SetPosX(0)), PROMPT), line)
  }

  /** Enter moves to a fresh row, prints the command's output and a new prompt. */
  ghost function DrawEntered(screen: Screen, out: seq<byte>): (r: Screen)
    requires screen.Ok()
    ensures r.Ok()
  {
    PutText(PutText(PutcScreen(StepScreen(screen, SetPosX(0)), NL), out + [NL]), PROMPT)
  }

  ghost function Step(s: Session, k: Key): (r: Session)
    requires s.Ok() && KeyOk(s, k)
    ensures r.Ok()
  {
    match k
    case Type(c) => Session(Edit(s.line, k), DrawTyped(s.screen, Edit(s.line, k)), s.mem)
    case Backspace => Session(Edit(s.line, k), DrawErased(s.screen, Edit(s.line, k)), s.mem)
    case Enter =>
      var e := Execute(WordsOf(s.line), s.mem);
      Session([], DrawEntered(s.screen, e.out), e.mem)
  }

  ghost predicate KeysOk(s: Session, ks: seq<Key>)
    requires s.Ok()
    decreases |ks|
  {
    ks == [] || (KeyOk(s, ks[0]) && KeysOk(Step(s, ks[0]), ks[1..]))
  }

  ghost function Run(s: Session, ks: seq<Key>): (r: Session)
    requires s.Ok() && KeysOk(s, ks)
    ensures r.Ok()
    decreases |ks|
  {
    if ks == [] then s else Run(Step(s, ks[0]), ks[1..])
  }

  lemma {:induction false} RunSplit(s: Session, a: seq<Key>, b: seq<Key>)
    requires s.Ok() && KeysOk(s, a)
    ensures KeysOk(s, a + b) <==> KeysOk(Run(s, a), b)
    ensures KeysOk(s, a + b) ==> Run(s, a + b) == Run(Run(s, a), b)
    decreases |a|
  {
    if a == [] {
      assert a + b == b;
    } else {
      assert (a + b)[1..] == a[1..] + b;
      RunSplit(Step(s, a[0]), a[1..], b);
    }
  }

  // ----- the row under the prompt

  /** Cells of `r` from column 0 hold `t`, and every later cell is blank. */
  ghost predicate RowShows(r: Row, t: seq<byte>)
    requires |r| == ROW
  {
    |t| <= WIDTH && r == WithText(BlankRow(), 0, t)
  }

  /** The current row shows the prompt and the line, then blanks. */
  ghost predicate Agrees(s: Session)
    requires s.Ok()
  {
    RowShows(s.screen.rows[s.screen.ty], PROMPT + s.line)
  }

  ghost predicate Editing(k: Key) {
    k.Backspace? || (k.Type? && Printable([k.c]))
  }

  /** The line fits the row behind the prompt. */
  ghost predicate Fits(line: seq<byte>) {
    |line| < WIDTH && Printable(line)
  }

  lemma {:induction false} OverwriteTail(t: seq<byte>, u: seq<byte>)
    requires 1 <= |t| <= |u| <= WIDTH && t[0] == u[0]
    ensures WithText(WithText(BlankRow(), 0, t), 1, u[1..]) == WithText(BlankRow(), 0, u)
  {
  }

  lemma {:induction false} TypeAgrees(s: Session, c: byte)
    requires s.Ok() && Agrees(s) && Printable([c]) && c != 0 && Fits(s.line) && |s.line| + 1 < WIDTH
    ensures Agrees(Step(s, Type(c))) && Fits(s.line + [c])
    ensures Step(s, Type(c)).screen.ty == s.screen.ty
  {
    var line := s.line + [c];
    assert c in [c];
    var at := StepScreen(s.screen, SetPosX(1));
    PutTextOnRow(at, line);
    assert (PROMPT + line)[1..] == line;
    OverwriteTail(PROMPT + s.line, PROMPT + line);
  }

  /** Clearing half a row and rewriting a shorter text leaves the old text's far cells behind. */
  lemma {:induction false} EraseRow(t: seq<byte>, u: seq<byte>)
    requires u <= t && |t| <= WIDTH && |u| + 1 >= |t| && 0 !in t
    ensures WithText(ClearedHalf(WithText(BlankRow(), 0, t)), 0, u) == WithText(BlankRow(), 0, u) <==>
      |t| <= WIDTH / 2 || u == t
  {
    hide WithText, ClearedHalf;
    if |t| <= WIDTH / 2 || u == t {
      ErasedRowSame(t, u);
    } else {
      ErasedCell(t, u);
    }
  }

  lemma {:induction false} ErasedRowSame(t: seq<byte>, u: seq<byte>)
    requires u <= t && |t| <= WIDTH && (|t| <= WIDTH / 2 || u == t)
    ensures WithText(ClearedHalf(WithText(BlankRow(), 0, t)), 0, u) == WithText(BlankRow(), 0, u)
  {
  }

  /** The last character of the old text is still there. */
  lemma {:induction false} ErasedCell(t: seq<byte>, u: seq<byte>)
    requires |u| < |t| <= WIDTH && |t| > WIDTH / 2 && 0 !in t
    ensures var x := 2 * (|t| - 1);
      WithText(ClearedHalf(WithText(BlankRow(), 0, t)), 0, u)[x] == t[|t| - 1] != 0 == WithText(BlankRow(), 0, u)[x]
  {
    var x := 2 * (|t| - 1);
    var full := WithText(BlankRow(), 0, t);
    assert full[x] == t[|t| - 1];
    assert ClearedHalf(full)[x] == full[x];
    assert t[|t| - 1] in t;
  }

  lemma {:induction false} EraseScreen(s: Session)
    requires s.Ok() && Fits(s.line)
    ensures var line, r := Edit(s.line, Backspace), Step(s, Backspace);
      && r.screen.ty == s.screen.ty
      && r.screen.rows[r.screen.ty] == WithText(ClearedHalf(s.screen.rows[s.screen.ty]), 0, PROMPT + line)
      && Fits(line)
  {
    hide WithText, ClearedHalf;
    var line := Edit(s.line, Backspace);
    assert forall x :: x in line ==> x in s.line;
    var at := StepScreen(StepScreen(s.screen, ClrLine), SetPosX(0));
    PutTextAppend(at, PROMPT, line);
    assert Printable(PROMPT + line);
    PutTextOnRow(at, PROMPT + line);
  }

  /** Backspace keeps row and line in agreement exactly while the line has at most 39 characters. */
  lemma {:induction false} BackspaceAgreesIff(s: Session)
    requires s.Ok() && Agrees(s) && Fits(s.line)
    ensures Agrees(Step(s, Backspace)) <==> |s.line| <= 39
    ensures Fits(Edit(s.line, Backspace))
  {
    var line := Edit(s.line, Backspace);
    EraseScreen(s);
    assert PROMPT + line <= PROMPT + s.line;
    assert 0 !in PROMPT + s.line;
    hide WithText, ClearedHalf;
    EraseRow(PROMPT + s.line, PROMPT + line);
  }

  // ----- whole runs of editing

  /** Every key edits, and no prefix of the run outgrows the row. */
  ghost predicate StaysOnRow(line: seq<byte>, ks: seq<Key>)
    decreases |ks|
  {
    ks == [] || (Editing(ks[0]) && Fits(Edit(line, ks[0])) && StaysOnRow(Edit(line, ks[0]), ks[1..]))
  }

  /** No backspace is pressed on a line of 40 characters or more. */
  ghost predicate ShortBackspaces(line: seq<byte>, ks: seq<Key>)
    decreases |ks|
  {
    ks == [] || ((ks[0].Backspace? ==> |line| <= 39) && ShortBackspaces(Edit(line, ks[0]), ks[1..]))
  }

  /** Row and line agree after each key of the run. */
  ghost predicate AlwaysAgrees(s: Session, ks: seq<Key>)
    requires s.Ok() && KeysOk(s, ks)
    decreases |ks|
  {
    Agrees(s) && (ks == [] || AlwaysAgrees(Step(s, ks[0]), ks[1..]))
  }

  /** The abstract edited line. */
  ghost function EditAll(line: seq<byte>, ks: seq<Key>): seq<byte>
    decreases |ks|
  {
    if ks == [] then line else EditAll(Edit(line, ks[0]), ks[1..])
  }

  lemma {:induction false} EditingIsOk(s: Session, ks: seq<Key>)
    requires s.Ok() && StaysOnRow(s.line, ks)
    ensures KeysOk(s, ks) && Run(s, ks).line == EditAll(s.line, ks) && Run(s, ks).mem == s.mem
    decreases |ks|
  {
    if ks != [] {
      assert ks[0].Type? ==> ks[0].c in [ks[0].c];
      EditingIsOk(Step(s, ks[0]), ks[1..]);
    }
  }

  /**
   Line editing and redrawing: along every run of typing and backspacing that
   stays on the row, the row always shows the edited line exactly when no
   backspace was pressed beyond the half row that `clrline` clears.
   */
  lemma {:induction false} RedrawIff(s: Session, ks: seq<Key>)
    requires s.Ok() && Fits(s.line) && Agrees(s) && StaysOnRow(s.line, ks)
    ensures KeysOk(s, ks)
    ensures AlwaysAgrees(s, ks) <==> ShortBackspaces(s.line, ks)
    decreases |ks|
  {
    hide Agrees, Fits;
    EditingIsOk(s, ks);
    if ks != [] {
      var r := Step(s, ks[0]);
      if ks[0].Backspace? {
        BackspaceAgreesIff(s);
        if |s.line| <= 39 {
          RedrawIff(r, ks[1..]);
        }
      } else {
        TypedFits(s.line, ks[0].c);
        TypeAgrees(s, ks[0].c);
        RedrawIff(r, ks[1..]);
      }
    }
  }

  lemma {:induction false} TypedFits(line: seq<byte>, c: byte)
    requires Fits(line + [c])
    ensures |line| + 1 < WIDTH && c != 0
  {
  }

  ghost function LongSession(mem: seq<byte>): (s: Session)
    requires |mem| == M32
    ensures s.Ok()
  {
    var line: seq<byte> := seq(40, _ => 'a' as int);
    var rows := seq(HEIGHT, _ => BlankRow());
    Session(line, Screen(rows[0 := WithText(BlankRow(), 0, PROMPT + line)], 41, 0), mem)
  }

  /** It fails for one backspace on forty characters: the row agreed before and does not afterwards. */
  lemma {:induction false} FortyCharacters(mem: seq<byte>)
    requires |mem| == M32
    ensures var s := LongSession(mem);
      && |s.line| == 40 && Agrees(s) && StaysOnRow(s.line, [Backspace]) && KeysOk(s, [Backspace])
      && !AlwaysAgrees(s, [Backspace])
  {
    var s := LongSession(mem);
    LongLine(mem);
    hide LongSession, Agrees, Fits;
    BackspaceAgreesIff(s);
    assert [Backspace][1..] == [];
    RedrawIff(s, [Backspace]);
  }

  lemma {:induction false} LongLine(mem: seq<byte>)
    requires |mem| == M32
    ensures var s := LongSession(mem); |s.line| == 40 && Fits(s.line) && Agrees(s)
  {
    hide WithText, BlankRow;
  }

  // ----- the screen after a command

  /** The characters of `t`, each light grey on black (7), from the left edge of a row. */
  ghost predicate RowStarts(r: Row, t: seq<byte>)
    requires |r| == ROW
  {
    |t| <= WIDTH && forall k :: 0 <= k < |t| ==> r[2 * k] == t[k] && r[2 * k + 1] == 7
  }

  lemma {:induction false} WrittenRow(r: Row, t: seq<byte>)
    requires |r| == ROW && |t| <= WIDTH
    ensures RowStarts(WithText(r, 0, t), t)
  {
  }

  /**
   Output that fits a row is the row above the new prompt, and the line that was entered stays
   above that, whether or not the screen scrolled.
   */
  lemma {:induction false} EnteredRows(s: Screen, out: seq<byte>)
    requires s.Ok() && Printable(out) && |out| < WIDTH
    ensures var r := DrawEntered(s, out);
      && r.ty == (if s.ty + 2 < 25 then s.ty + 2 else 24) && r.tx == 1
      && RowStarts(r.rows[r.ty], PROMPT) && RowStarts(r.rows[r.ty - 1], out) && r.rows[r.ty - 2] == s.rows[s.ty]
  {
    hide WithText, PutText, RowStarts, BlankRow;
    var u := PutcScreen(StepScreen(s, SetPosX(0)), NL);
    PutTextSnoc(u, out, NL);
    PutTextOnRow(u, out);
    WrittenRow(u.rows[u.ty], out);
    var w := NewLine(PutText(u, out));
    assert Printable(PROMPT);
    PutTextOnRow(w, PROMPT);
    WrittenRow(w.rows[w.ty], PROMPT);
  }

  /** Text drawn behind a prompt that is there. */
  lemma {:induction false} TypedRow(s: Screen, t: seq<byte>)
    requires s.Ok() && Printable(t) && |t| < WIDTH && RowStarts(s.rows[s.ty], PROMPT)
    ensures var r := DrawTyped(s, t);
      r.ty == s.ty && RowStarts(r.rows[r.ty], PROMPT + t) && r.rows[r.ty] == WithText(s.rows[s.ty], 1, t)
  {
    hide WithText, RowStarts;
    PutTextOnRow(StepScreen(s, SetPosX(1)), t);
    BehindPrompt(s.rows[s.ty], t);
  }

  lemma {:induction false} BehindPrompt(r: Row, t: seq<byte>)
    requires |r| == ROW && |t| < WIDTH && RowStarts(r, PROMPT)
    ensures RowStarts(WithText(r, 1, t), PROMPT + t)
  {
    var w := WithText(r, 1, t);
    forall k | 0 <= k < 1 + |t| ensures w[2 * k] == (PROMPT + t)[k] && w[2 * k + 1] == 7 {
      if k == 0 {
        assert w[0] == r[0] && w[1] == r[1];
      } else {
        assert w[2 * k] == t[k - 1];
      }
    }
  }

  /** Prompt and text drawn on a row of which half has been cleared. */
  lemma {:induction false} ErasedRow(s: Screen, t: seq<byte>)
    requires s.Ok() && Printable(t) && |t| < WIDTH
    ensures var r := DrawErased(s, t); r.ty == s.ty && RowStarts(r.rows[r.ty], PROMPT + t)
  {
    hide WithText, ClearedHalf, RowStarts;
    var at := StepScreen(StepScreen(s, ClrLine), SetPosX(0));
    PutTextAppend(at, PROMPT, t);
    assert Printable(PROMPT + t);
    PutTextOnRow(at, PROMPT + t);
    WrittenRow(at.rows[at.ty], PROMPT + t);
  }

  /** Whatever a command prints, the new prompt stands at the left edge. */
  lemma {:induction false} PromptRow(s: Screen, out: seq<byte>)
    requires s.Ok()
    ensures var r := DrawEntered(s, out); r.tx == 1 && RowStarts(r.rows[r.ty], PROMPT)
  {
    hide WithText, PutText, RowStarts, BlankRow;
    var u := PutcScreen(StepScreen(s, SetPosX(0)), NL);
    PutTextSnoc(u, out, NL);
    var w := PutText(u, out + [NL]);
    assert w.tx == 0;
    PutTextOnRow(w, PROMPT);
    WrittenRow(w.rows[w.ty], PROMPT);
  }
}
