/**
 The shell's line editor as it really is: a 256-byte buffer with a pointer of
 its own, a history of 256 such buffers, and the callback's five actions on
 them. As long as the buffer holds a line and nothing else it behaves as a
 `Session`; the arrow keys are where it does not.
 */
module Editor {
  import opened Words
  import opened CStrings
  import opened Console
  import opened Tokens
  import opened ShellSpec
  import opened Session
  import Kbd = Keyboard

  const SIZE := 256
  const BLANK: set<byte> := {SPACE}

  /** What a callback asks for. */
  datatype Action = Submit | Erase | Older | Newer | Insert(c: byte)

  function ActionOf(c: byte, kstate: bv8): Action {
    if c == NL then Submit
    else if Kbd.Bit(kstate, Kbd.KBD_BCKSP) then Erase
    else if Kbd.Bit(kstate, Kbd.KBD_UP) then Older
    else if Kbd.Bit(kstate, Kbd.KBD_DOWN) then Newer
    else Insert(c)
  }

  ghost predicate LineOk(buf: seq<byte>, ptr: nat) {
    |buf| == SIZE && Terminated(buf, 0) && ptr < SIZE
  }

  ghost predicate HistoryOk(hist: seq<seq<byte>>, ptrs: seq<nat>, histptr: nat) {
    && |hist| == SIZE && |ptrs| == SIZE && histptr < SIZE
    && forall k :: 0 <= k < SIZE ==> LineOk(hist[k], ptrs[k])
  }

  /** shellbuf, shellptr, shellhist, shellptr_hist and histptr; the screen and memory. */
  datatype Machine = Machine(
    buf: seq<byte>, ptr: nat, hist: seq<seq<byte>>, ptrs: seq<nat>, histptr: nat, screen: Screen, mem: seq<byte>)
  {
    ghost predicate Ok() {
      LineOk(buf, ptr) && HistoryOk(hist, ptrs, histptr) && screen.Ok() && |mem| == M32
    }

    /** The string in the buffer, which is what is drawn and run. */
    ghost function Text(): (t: seq<byte>)
      requires Ok()
    {
      Str(buf, 0)
    }
  }

  // ----- what running a line leaves in the buffer

  /** How often `shell_proc` calls `strtok` for these words. */
  function StrtokCalls(w: seq<seq<byte>>): (n: nat)
    requires w != []
    ensures n >= 1
  {
    if w[0] == PEEK then 2
    else if w[0] == POKE then (if |w| < 2 then 2 else 3)
    else 1
  }

  /** The buffer after `n` calls that start from `p`. */
  ghost function Cut(buf: seq<byte>, p: nat, n: nat): (r: seq<byte>)
    requires Terminated(buf, p)
    decreases n
  {
    if n == 0 then buf
    else
      StrtokDelivers(buf, p, BLANK);
      var o := StrtokAt(buf, p, BLANK);
      Cut(o.buf, o.olds, n - 1)
  }

  ghost function CutLine(buf: seq<byte>): seq<byte>
    requires Terminated(buf, 0) && WordsOf(Str(buf, 0)) != []
  {
    Cut(buf, 0, StrtokCalls(WordsOf(Str(buf, 0))))
  }

  lemma {:induction false} CutKeeps(buf: seq<byte>, p: nat, n: nat)
    requires Terminated(buf, p)
    ensures OnlyDelimitersCut(buf, Cut(buf, p, n), BLANK)
    ensures forall k :: 0 <= k < p && k < |buf| ==> Cut(buf, p, n)[k] == buf[k]
    decreases n
  {
    hide StrtokAt, Split, Str, OnlyDelimitersCut;
    NoCut(buf, BLANK);
    if n == 0 {
      SameLength(buf, buf);
    } else {
      StrtokDelivers(buf, p, BLANK);
      OneCut(buf, p, BLANK);
      CallKeepsFront(buf, p);
      var o := StrtokAt(buf, p, BLANK);
      CutKeeps(o.buf, o.olds, n - 1);
      CutsCompose(buf, o.buf, Cut(buf, p, n), BLANK);
      SameLength(buf, Cut(buf, p, n));
    }
  }

  lemma SameLength(s: seq<byte>, s': seq<byte>)
    requires OnlyDelimitersCut(s, s', BLANK)
    ensures |s'| == |s|
  {
  }

  lemma {:induction false} CallKeepsFront(buf: seq<byte>, p: nat)
    requires Terminated(buf, p)
    ensures var o := StrtokAt(buf, p, BLANK);
      |o.buf| == |buf| && forall k :: 0 <= k < p && k < |buf| ==> o.buf[k] == buf[k]
  {
  }

  lemma CutTerminated(buf: seq<byte>, cut: seq<byte>)
    requires OnlyDelimitersCut(buf, cut, BLANK) && Terminated(buf, 0)
    ensures |cut| == |buf| && Terminated(cut, 0)
  {
  }

  lemma {:induction false} CutLineOk(buf: seq<byte>, ptr: nat)
    requires LineOk(buf, ptr) && WordsOf(Str(buf, 0)) != []
    ensures LineOk(CutLine(buf), ptr)
  {
    hide Cut, WordsOf;
    CutKeeps(buf, 0, StrtokCalls(WordsOf(Str(buf, 0))));
    CutTerminated(buf, CutLine(buf));
  }

  // ----- the five actions

  /** Where the source is defined: a word to run, a history entry to recall, and a terminator left for `puts`. */
  ghost predicate Allowed(m: Machine, a: Action)
    requires m.Ok()
  {
    match a
    case Submit => WordsOf(m.Text()) != []
    case Erase => true
    case Older => m.histptr > 0
    case Newer => m.histptr + 1 < SIZE
    case Insert(c) => Terminated(m.buf[m.ptr := c], 0)
  }

  ghost function Zeroed(): (buf: seq<byte>)
    ensures LineOk(buf, 0)
  {
    var buf := seq(SIZE, _ => 0);
    assert buf[0] == 0;
    buf
  }

  ghost function Recalled(m: Machine, k: nat): (r: Machine)
    requires m.Ok() && k < SIZE
    ensures r.Ok()
  {
    m.(buf := m.hist[k], ptr := m.ptrs[k], histptr := k, screen := DrawTyped(m.screen, Str(m.hist[k], 0)))
  }

  /** `shellptr--` unless it is 0 already. */
  function Before(ptr: nat): nat {
    if ptr > 0 then ptr - 1 else 0
  }

  ghost function Erased(buf: seq<byte>, ptr: nat): (r: seq<byte>)
    requires |buf| == SIZE && ptr < SIZE
    ensures LineOk(r, Before(ptr))
  {
    var r := buf[Before(ptr) := 0];
    assert r[Before(ptr)] == 0;
    r
  }

  ghost function Act(m: Machine, a: Action): (r: Machine)
    requires m.Ok() && Allowed(m, a)
    ensures r.Ok()
  {
    match a
    case Submit =>
      var e := Execute(WordsOf(m.Text()), m.mem);
      CutLineOk(m.buf, m.ptr);
      Machine(Zeroed(), 0, m.hist[m.histptr := CutLine(m.buf)], m.ptrs[m.histptr := m.ptr], (m.histptr + 1) % SIZE,
              DrawEntered(m.screen, e.out), e.mem)
    case Erase =>
      var buf := Erased(m.buf, m.ptr);
      m.(buf := buf, ptr := Before(m.ptr), screen := DrawErased(m.screen, Str(buf, 0)))
    case Older => Recalled(m, m.histptr - 1)
    case Newer => Recalled(m, m.histptr + 1)
    case Insert(c) =>
      var buf := m.buf[m.ptr := c];
      m.(buf := buf, ptr := (m.ptr + 1) % SIZE, screen := DrawTyped(m.screen, Str(buf, 0)))
  }

  ghost predicate AllAllowed(m: Machine, xs: seq<Action>)
    requires m.Ok()
    decreases |xs|
  {
    xs == [] || (Allowed(m, xs[0]) && AllAllowed(Act(m, xs[0]), xs[1..]))
  }

  ghost function ActAll(m: Machine, xs: seq<Action>): (r: Machine)
    requires m.Ok() && AllAllowed(m, xs)
    ensures r.Ok()
    decreases |xs|
  {
    if xs == [] then m else ActAll(Act(m, xs[0]), xs[1..])
  }

  lemma {:induction false} ActSplit(m: Machine, a: seq<Action>, b: seq<Action>)
    requires m.Ok() && AllAllowed(m, a)
    ensures AllAllowed(m, a + b) <==> AllAllowed(ActAll(m, a), b)
    ensures AllAllowed(m, a + b) ==> ActAll(m, a + b) == ActAll(ActAll(m, a), b)
    decreases |a|
  {
    hide Act, Allowed;
    if a == [] {
      assert a + b == b;
    } else {
      assert (a + b)[1..] == a[1..] + b;
      ActSplit(Act(m, a[0]), a[1..], b);
    }
  }

  /** Line pointer and history pointer count modulo 256. */
  lemma {:induction false} PointersWrap(m: Machine, c: byte)
    requires m.Ok()
    ensures Allowed(m, Insert(c)) ==>
      var r := Act(m, Insert(c)); r.ptr == (if m.ptr == 255 then 0 else m.ptr + 1) && r.buf == m.buf[m.ptr := c]
    ensures Allowed(m, Submit) ==> Act(m, Submit).histptr == if m.histptr == 255 then 0 else m.histptr + 1
    ensures Act(m, Erase).ptr == (if m.ptr == 0 then 0 else m.ptr - 1) && Act(m, Erase).buf[Act(m, Erase).ptr] == 0
  {
    hide CutLine, WordsOf, Execute, DrawEntered, DrawErased, DrawTyped, Str;
  }

  // ----- a buffer that holds a line is a session

  /** The buffer holds the line and nothing but zeros after it. */
  ghost predicate HoldsLine(buf: seq<byte>, line: seq<byte>) {
    && |buf| == SIZE && |line| < SIZE && 0 !in line
    && buf[..|line|] == line && forall k :: |line| <= k < SIZE ==> buf[k] == 0
  }

  lemma HeldString(buf: seq<byte>, line: seq<byte>)
    requires HoldsLine(buf, line)
    ensures Terminated(buf, 0) && Str(buf, 0) == line
  {
    assert buf[0..|line|] == line;
    StrIs(buf, 0, line);
  }

  ghost predicate Plain(m: Machine)
    requires m.Ok()
  {
    HoldsLine(m.buf, m.buf[..m.ptr])
  }

  ghost function AsSession(m: Machine): (s: Session)
    requires m.Ok() && Plain(m)
    ensures s.Ok()
  {
    Session(m.buf[..m.ptr], m.screen, m.mem)
  }

  function ToAction(k: Key): Action {
    match k
    case Type(c) => Insert(c)
    case Backspace => Erase
    case Enter => Submit
  }

  /** The key has a meaning and, when it adds a character, the buffer has room for it. */
  ghost predicate Accepts(s: Session, k: Key) {
    KeyOk(s, k) && (k.Type? ==> |s.line| + 1 < SIZE)
  }

  lemma {:induction false} InsertHolds(buf: seq<byte>, ptr: nat, c: byte)
    requires |buf| == SIZE && ptr + 1 < SIZE && HoldsLine(buf, buf[..ptr]) && c != 0
    ensures var b := buf[ptr := c]; HoldsLine(b, b[..ptr + 1]) && b[..ptr + 1] == buf[..ptr] + [c]
  {
    var b := buf[ptr := c];
    assert b[..ptr + 1] == buf[..ptr] + [c];
  }

  lemma {:induction false} EraseHolds(buf: seq<byte>, ptr: nat)
    requires |buf| == SIZE && ptr < SIZE && HoldsLine(buf, buf[..ptr])
    ensures var p, b := Before(ptr), Erased(buf, ptr);
      HoldsLine(b, b[..p]) && b[..p] == Edit(buf[..ptr], Backspace)
  {
    var p, b := Before(ptr), Erased(buf, ptr);
    assert b[..p] == Edit(buf[..ptr], Backspace);
    assert forall x :: x in b[..p] ==> x in buf[..ptr];
  }

  lemma {:induction false} ZeroedHolds()
    ensures HoldsLine(Zeroed(), Zeroed()[..0]) && Zeroed()[..0] == []
  {
  }

  lemma {:induction false} InsertIsType(m: Machine, c: byte)
    requires m.Ok() && Plain(m) && Accepts(AsSession(m), Type(c))
    ensures Allowed(m, Insert(c))
    ensures var r := Act(m, Insert(c)); Plain(r) && AsSession(r) == Step(AsSession(m), Type(c))
  {
    InsertHolds(m.buf, m.ptr, c);
    hide HoldsLine, DrawTyped, Str, Terminated, HistoryOk;
    var b := m.buf[m.ptr := c];
    HeldString(b, b[..m.ptr + 1]);
  }

  lemma {:induction false} EraseIsBackspace(m: Machine)
    requires m.Ok() && Plain(m)
    ensures var r := Act(m, Erase); Plain(r) && AsSession(r) == Step(AsSession(m), Backspace)
  {
    EraseHolds(m.buf, m.ptr);
    hide HoldsLine, DrawErased, Str, Terminated, HistoryOk, Erased;
    var b := Erased(m.buf, m.ptr);
    HeldString(b, b[..Before(m.ptr)]);
  }

  lemma {:induction false} SubmitIsEnter(m: Machine)
    requires m.Ok() && Plain(m) && KeyOk(AsSession(m), Enter)
    ensures Allowed(m, Submit)
    ensures var r := Act(m, Submit); Plain(r) && AsSession(r) == Step(AsSession(m), Enter)
  {
    HeldString(m.buf, m.buf[..m.ptr]);
    ZeroedHolds();
    hide HoldsLine, WordsOf, DrawEntered, Execute, Str, Terminated, CutLine, Zeroed, HistoryOk;
  }

  /** Refinement: from a buffer that holds a line, each editing key does what it does in a session. */
  lemma {:induction false} ActIsStep(m: Machine, k: Key)
    requires m.Ok() && Plain(m) && Accepts(AsSession(m), k)
    ensures Allowed(m, ToAction(k))
    ensures var r := Act(m, ToAction(k)); Plain(r) && AsSession(r) == Step(AsSession(m), k)
  {
    hide Plain, Act, Allowed, AsSession, Step, LineOk, HistoryOk;
    match k
    case Type(c) => InsertIsType(m, c);
    case Backspace => EraseAllowed(m); EraseIsBackspace(m);
    case Enter => SubmitIsEnter(m);
  }

  lemma EraseAllowed(m: Machine)
    requires m.Ok()
    ensures Allowed(m, Erase)
  {
  }

  ghost predicate AcceptsAll(s: Session, ks: seq<Key>)
    requires s.Ok()
    decreases |ks|
  {
    ks == [] || (Accepts(s, ks[0]) && AcceptsAll(Step(s, ks[0]), ks[1..]))
  }

  ghost function ToActions(ks: seq<Key>): (xs: seq<Action>)
    ensures |xs| == |ks|
  {
    seq(|ks|, i requires 0 <= i < |ks| => ToAction(ks[i]))
  }

  /** The same for every run of such keys. */
  lemma {:induction false} RunsAgree(m: Machine, ks: seq<Key>)
    requires m.Ok() && Plain(m) && AcceptsAll(AsSession(m), ks)
    ensures KeysOk(AsSession(m), ks) && AllAllowed(m, ToActions(ks))
    ensures var r := ActAll(m, ToActions(ks)); Plain(r) && AsSession(r) == Run(AsSession(m), ks)
    decreases |ks|
  {
    hide Act, Allowed, Plain, AsSession, Accepts, Step;
    if ks != [] {
      assert KeyOk(AsSession(m), ks[0]) by { AcceptedKey(AsSession(m), ks[0]); }
      ActIsStep(m, ks[0]);
      assert ToActions(ks)[1..] == ToActions(ks[1..]);
      RunsAgree(Act(m, ToAction(ks[0])), ks[1..]);
    }
  }

  lemma AcceptedKey(s: Session, k: Key)
    requires Accepts(s, k)
    ensures KeyOk(s, k)
  {
  }

  // ----- recalling a line

  /** Where the first word of a text ends. */
  function FirstWordEnd(t: seq<byte>): (b: nat)
    ensures b <= |t|
  {
    Until(t, BLANK, Skip(t, BLANK, 0))
  }

  /** At the end of the text there is nothing more to cut. */
  lemma {:induction false} CutAtEnd(buf: seq<byte>, p: nat, n: nat)
    requires Terminated(buf, p) && Str(buf, p) == []
    ensures Cut(buf, p, n) == buf
    decreases n
  {
    hide StrtokAt, Str;
    if n > 0 {
      EmptyGivesNull(buf, p, BLANK);
      CutAtEnd(buf, p, n - 1);
    }
  }

  /** A line that has been run reads up to the end of its first word; only a line that ends there is kept whole. */
  lemma {:induction false} CutLineReads(buf: seq<byte>)
    requires Terminated(buf, 0) && WordsOf(Str(buf, 0)) != []
    ensures var t := Str(buf, 0);
      && Terminated(CutLine(buf), 0) && Str(CutLine(buf), 0) == t[..FirstWordEnd(t)]
      && (FirstWordEnd(t) == |t| ==> CutLine(buf) == buf)
  {
    hide WordsOf, FirstWordEnd, Str, Terminated, Cut, StrtokAt;
    var t := Str(buf, 0);
    var n, b := StrtokCalls(WordsOf(t)), FirstWordEnd(t);
    FirstCall(buf);
    CutUnfold(buf, 0, n);
    if b == |t| {
      TailString(buf, 0, b);
      assert t[b..] == [];
      CutAtEnd(buf, b, n - 1);
      assert t[..b] == t;
    } else {
      var cut := buf[b := 0];
      CutString(buf, 0, 0, b);
      CutKeeps(cut, b + 1, n - 1);
      CutLength(cut, b + 1, n - 1);
      SameFront(cut, CutLine(buf), t[..b]);
    }
  }

  lemma CutLength(buf: seq<byte>, p: nat, n: nat)
    requires Terminated(buf, p) && OnlyDelimitersCut(buf, Cut(buf, p, n), BLANK)
    ensures |Cut(buf, p, n)| == |buf|
  {
  }

  /** The first call cuts the buffer behind the first word, or not at all when the text ends there. */
  lemma {:induction false} FirstCall(buf: seq<byte>)
    requires Terminated(buf, 0) && WordsOf(Str(buf, 0)) != []
    ensures var t := Str(buf, 0);
      var o, b := StrtokAt(buf, 0, BLANK), FirstWordEnd(t);
      |t| < |buf| && if b == |t| then o.buf == buf && o.olds == b else o.buf == buf[b := 0] && o.olds == b + 1
  {
    hide WordsOf, Skip, Until;
    WordSkipped(Str(buf, 0));
  }

  lemma {:induction false} WordSkipped(t: seq<byte>)
    requires WordsOf(t) != []
    ensures Skip(t, BLANK, 0) < |t|
  {
    hide Skip, Split;
    SplitRest(t, BLANK);
  }

  lemma {:induction false} CutUnfold(buf: seq<byte>, p: nat, n: nat)
    requires Terminated(buf, p) && n > 0
    ensures var o := StrtokAt(buf, p, BLANK); Terminated(o.buf, o.olds) && Cut(buf, p, n) == Cut(o.buf, o.olds, n - 1)
  {
    StrtokDelivers(buf, p, BLANK);
  }

  lemma {:induction false} SameFront(s: seq<byte>, s': seq<byte>, t: seq<byte>)
    requires Terminated(s, 0) && Str(s, 0) == t && |s'| == |s|
    requires forall k :: 0 <= k <= |t| && k < |s| ==> s'[k] == s[k]
    ensures Terminated(s', 0) && Str(s', 0) == t
  {
    StrIs(s', 0, t);
  }

  /**
   Enter and then the up arrow bring the line back with its pointer, but only up to the end
   of its first word: the whole line is back exactly when it ends there.
   */
  lemma {:induction false} RecallIff(m: Machine)
    requires m.Ok() && Allowed(m, Submit) && m.histptr + 1 < SIZE
    ensures Allowed(Act(m, Submit), Older)
    ensures var r, t := Act(Act(m, Submit), Older), m.Text();
      && r.ptr == m.ptr && r.histptr == m.histptr && r.Text() == t[..FirstWordEnd(t)]
      && (r.Text() == t <==> FirstWordEnd(t) == |t|)
      && (FirstWordEnd(t) == |t| ==> r.buf == m.buf)
  {
    hide WordsOf, CutLine, Str, Execute, DrawEntered, DrawTyped, FirstWordEnd;
    CutLineReads(m.buf);
    assert Act(m, Submit).histptr == m.histptr + 1;
    assert m.Text()[..|m.Text()|] == m.Text();
  }

  // ----- what the screen shows

  /** A text that can stand behind the prompt. */
  ghost predicate OneRow(t: seq<byte>) {
    Printable(t) && |t| < 80
  }

  /** The row of the cursor starts with the prompt and this text. */
  ghost predicate Showing(m: Machine, t: seq<byte>)
    requires m.Ok()
  {
    RowStarts(m.screen.rows[m.screen.ty], Ascii(">") + t)
  }

  lemma PromptIs()
    ensures PROMPT == Ascii(">") && Ascii(">") + [] == Ascii(">")
  {
  }

  /** Up shows the entry before the current one, and down the entry after it, behind the prompt. */
  lemma {:induction false} RecallShows(m: Machine, a: Action)
    requires m.Ok() && Allowed(m, a) && (a == Older || a == Newer) && Showing(m, [])
    requires OneRow(Str(m.hist[if a == Older then m.histptr - 1 else m.histptr + 1], 0))
    ensures var r, e := Act(m, a), if a == Older then m.histptr - 1 else m.histptr + 1;
      && r.histptr == e && r.buf == m.hist[e] && r.ptr == m.ptrs[e] && r.mem == m.mem
      && Showing(r, Str(m.hist[e], 0)) && r.screen.ty == m.screen.ty
  {
    hide Str, DrawTyped, RowStarts, Terminated;
    PromptIs();
    var e := if a == Older then m.histptr - 1 else m.histptr + 1;
    TypedRow(m.screen, Str(m.hist[e], 0));
  }

  /** What was on the row before is not cleared: nothing else is shown exactly when it was no longer. */
  lemma {:induction false} RecallRowIff(m: Machine, a: Action, was: seq<byte>)
    requires m.Ok() && Allowed(m, a) && (a == Older || a == Newer) && OneRow(was)
    requires RowShows(m.screen.rows[m.screen.ty], Ascii(">") + was)
    requires OneRow(Str(m.hist[if a == Older then m.histptr - 1 else m.histptr + 1], 0))
    ensures var r, t := Act(m, a), Str(m.hist[if a == Older then m.histptr - 1 else m.histptr + 1], 0);
      RowShows(r.screen.rows[r.screen.ty], Ascii(">") + t) <==> |was| <= |t|
  {
    hide Str, DrawTyped, RowStarts, Terminated, WithText;
    PromptIs();
    var t := Str(m.hist[if a == Older then m.histptr - 1 else m.histptr + 1], 0);
    WrittenRow(BlankRow(), PROMPT + was);
    PromptFirst(m.screen.rows[m.screen.ty], was);
    TypedRow(m.screen, t);
    LeftOver(was, t);
  }

  lemma {:induction false} PromptFirst(r: Row, t: seq<byte>)
    requires |r| == ROW && RowStarts(r, PROMPT + t)
    ensures RowStarts(r, PROMPT)
  {
    assert (PROMPT + t)[0] == PROMPT[0];
  }

  lemma {:induction false} LeftOver(was: seq<byte>, t: seq<byte>)
    requires |was| < WIDTH && |t| < WIDTH && 0 !in was
    ensures var r := WithText(WithText(BlankRow(), 0, PROMPT + was), 1, t);
      r == WithText(BlankRow(), 0, PROMPT + t) <==> |was| <= |t|
  {
    var r, b := WithText(WithText(BlankRow(), 0, PROMPT + was), 1, t), WithText(BlankRow(), 0, PROMPT + t);
    if |was| <= |t| {
      forall k | 0 <= k < ROW ensures r[k] == b[k] {
      }
      assert r == b;
    } else {
      var x := 2 * (1 + |t|);
      assert r[x] == was[|t|] && was[|t|] in was && b[x] == 0;
    }
  }

  /** A character put into the buffer, and a backspace, leave the row showing the text. */
  lemma {:induction false} EditShows(m: Machine, a: Action)
    requires m.Ok() && Allowed(m, a) && (a.Insert? || a == Erase) && OneRow(Act(m, a).Text())
    requires Showing(m, [])
    ensures var r := Act(m, a); Showing(r, r.Text()) && r.screen.ty == m.screen.ty
  {
    hide Str, DrawTyped, DrawErased, RowStarts, Erased;
    PromptIs();
    var t := Act(m, a).Text();
    TypedRow(m.screen, t);
    ErasedRow(m.screen, t);
  }

  /** After Enter there is a prompt, whatever the command printed. */
  lemma {:induction false} SubmitShows(m: Machine)
    requires m.Ok() && Allowed(m, Submit)
    ensures Showing(Act(m, Submit), [])
  {
    hide Str, DrawEntered, RowStarts, WordsOf, Execute, CutLine;
    PromptIs();
    PromptRow(m.screen, Execute(WordsOf(m.Text()), m.mem).out);
  }

  lemma {:induction false} ShowingPrompt(m: Machine, t: seq<byte>)
    requires m.Ok() && Showing(m, t)
    ensures Showing(m, [])
  {
    hide RowStarts;
    PromptIs();
    PromptFirst(m.screen.rows[m.screen.ty], t);
  }

  // ----- recalling over whole runs

  /** Machines in which a line can be run. */
  ghost predicate Runnable(m: Machine) {
    m.Ok() && Allowed(m, Submit)
  }

  ghost predicate AllRunnable(ms: seq<Machine>) {
    forall j :: 0 <= j < |ms| ==> Runnable(ms[j])
  }

  /** What running the line records. */
  ghost function Record(m: Machine): seq<byte>
    requires Runnable(m)
  {
    CutLine(m.buf)
  }

  /** The machine as it was at each Enter of the run. */
  ghost function Submitted(m: Machine, xs: seq<Action>): (ms: seq<Machine>)
    requires m.Ok() && AllAllowed(m, xs)
    ensures AllRunnable(ms)
    decreases |xs|
  {
    if xs == [] then []
    else
      var first, rest := AtSubmit(m, xs[0]), Submitted(Act(m, xs[0]), xs[1..]);
      RunnableAppend(first, rest);
      first + rest
  }

  ghost function AtSubmit(m: Machine, a: Action): (ms: seq<Machine>)
    requires m.Ok() && Allowed(m, a)
    ensures AllRunnable(ms)
  {
    if a == Submit then [m] else []
  }

  lemma RunnableAppend(a: seq<Machine>, b: seq<Machine>)
    requires AllRunnable(a) && AllRunnable(b)
    ensures AllRunnable(a + b)
  {
    hide Runnable;
  }

  ghost predicate NoRecall(xs: seq<Action>) {
    Older !in xs && Newer !in xs
  }

  /** Since `m`, the lines of `ms` have been recorded one after the other, and earlier entries kept. */
  ghost predicate Recorded(m: Machine, r: Machine, ms: seq<Machine>)
    requires m.Ok() && r.Ok() && AllRunnable(ms)
  {
    && r.histptr == m.histptr + |ms|
    && (forall k :: 0 <= k < m.histptr ==> r.hist[k] == m.hist[k] && r.ptrs[k] == m.ptrs[k])
    && (forall j :: 0 <= j < |ms| ==> r.hist[m.histptr + j] == Record(ms[j]) && r.ptrs[m.histptr + j] == ms[j].ptr)
  }

  lemma {:induction false} HistoryStep(m: Machine, a: Action)
    requires m.Ok() && Allowed(m, a) && a != Older && a != Newer && m.histptr + 1 < SIZE
    ensures Recorded(m, Act(m, a), if a == Submit then [m] else [])
  {
    hide CutLine, WordsOf, Str, Terminated;
  }

  lemma {:induction false} RecordedCompose(m: Machine, q: Machine, r: Machine, a: seq<Machine>, b: seq<Machine>)
    requires m.Ok() && q.Ok() && r.Ok()
    requires AllRunnable(a) && AllRunnable(b)
    requires Recorded(m, q, a) && Recorded(q, r, b)
    ensures AllRunnable(a + b) && Recorded(m, r, a + b)
  {
    hide Record, Runnable, LineOk;
    forall j | 0 <= j < |a + b|
      ensures r.hist[m.histptr + j] == Record((a + b)[j]) && r.ptrs[m.histptr + j] == (a + b)[j].ptr
    {
      if j >= |a| {
        assert (a + b)[j] == b[j - |a|];
        assert q.histptr + (j - |a|) == m.histptr + j;
      }
    }
  }

  /** Without arrows, each Enter of a run records its line behind the ones before. */
  lemma {:induction false} HistoryRecords(m: Machine, xs: seq<Action>)
    requires m.Ok() && AllAllowed(m, xs) && NoRecall(xs) && m.histptr + |Submitted(m, xs)| < SIZE
    ensures Recorded(m, ActAll(m, xs), Submitted(m, xs))
    decreases |xs|
  {
    hide Act, Allowed, Recorded;
    if xs == [] {
      NothingRecorded(m);
    } else {
      var q := Act(m, xs[0]);
      var first := if xs[0] == Submit then [m] else [];
      assert xs[0] in xs && forall x :: x in xs[1..] ==> x in xs;
      if m.histptr + 1 < SIZE {
        HistoryStep(m, xs[0]);
      } else {
        EditKeepsHistory(m, xs[0]);
      }
      RecordedLength(m, q, first);
      HistoryRecords(q, xs[1..]);
      RecordedCompose(m, q, ActAll(q, xs[1..]), first, Submitted(q, xs[1..]));
    }
  }

  lemma NothingRecorded(m: Machine)
    requires m.Ok()
    ensures Recorded(m, m, [])
  {
  }

  lemma {:induction false} EditKeepsHistory(m: Machine, a: Action)
    requires m.Ok() && Allowed(m, a) && a != Older && a != Newer && a != Submit
    ensures Recorded(m, Act(m, a), [])
  {
  }

  lemma RecordedLength(m: Machine, r: Machine, ms: seq<Machine>)
    requires m.Ok() && r.Ok() && AllRunnable(ms)
    requires Recorded(m, r, ms)
    ensures r.histptr == m.histptr + |ms|
  {
  }

  /** The up arrow pressed and released `k` times: each release inserts a NUL. */
  ghost function UpKeys(k: nat): (xs: seq<Action>) {
    if k == 0 then [] else [Older, Insert(0)] + UpKeys(k - 1)
  }

  /** Since `m`, entry `e` has been brought back and a NUL put at its pointer; history and memory are as they were. */
  ghost predicate BroughtBack(m: Machine, r: Machine, e: nat)
    requires m.Ok() && e < SIZE
  {
    && r.buf == m.hist[e][m.ptrs[e] := 0] && r.ptr == (m.ptrs[e] + 1) % SIZE && r.histptr == e
    && r.hist == m.hist && r.ptrs == m.ptrs && r.mem == m.mem
  }

  lemma BroughtBackAgain(m: Machine, q: Machine, r: Machine, e: nat, e': nat)
    requires m.Ok() && q.Ok() && e < SIZE && e' < SIZE && BroughtBack(m, q, e) && BroughtBack(q, r, e')
    ensures BroughtBack(m, r, e')
  {
  }

  lemma {:induction false} UpKey(m: Machine)
    requires m.Ok() && m.histptr > 0
    ensures Allowed(m, Older) && Allowed(Act(m, Older), Insert(0))
    ensures m.histptr < SIZE && Act(Act(m, Older), Insert(0)).histptr == m.histptr - 1
    ensures BroughtBack(m, Act(Act(m, Older), Insert(0)), m.histptr - 1)
  {
    hide DrawTyped, Str;
    var q := Act(m, Older);
    assert q.buf[q.ptr := 0][q.ptr] == 0;
  }

  lemma {:induction false} UpKeysUnfold(m: Machine, k: nat)
    requires m.Ok() && m.histptr > 0 && k >= 1
    requires Allowed(m, Older) && Allowed(Act(m, Older), Insert(0))
    requires AllAllowed(Act(Act(m, Older), Insert(0)), UpKeys(k - 1))
    ensures AllAllowed(m, UpKeys(k)) && ActAll(m, UpKeys(k)) == ActAll(Act(Act(m, Older), Insert(0)), UpKeys(k - 1))
  {
    hide Act, Allowed;
    var xs := UpKeys(k);
    assert xs[0] == Older && xs[1..][0] == Insert(0) && xs[1..][1..] == UpKeys(k - 1);
  }

  /** Pressing up `k` times recalls the `k`th entry before, cut at its pointer, and changes no entry. */
  lemma {:induction false} UpTimes(m: Machine, k: nat)
    requires m.Ok() && 1 <= k <= m.histptr
    ensures AllAllowed(m, UpKeys(k)) && BroughtBack(m, ActAll(m, UpKeys(k)), m.histptr - k)
    decreases k
  {
    hide *;
    UpKey(m);
    var q := Act(Act(m, Older), Insert(0));
    if k > 1 {
      UpTimes(q, k - 1);
      BroughtBackAgain(m, q, ActAll(q, UpKeys(k - 1)), m.histptr - 1, m.histptr - k);
    } else {
      NoActions(q);
    }
    UpKeysUnfold(m, k);
  }

  lemma {:induction false} NoActions(m: Machine)
    requires m.Ok()
    ensures AllAllowed(m, UpKeys(0)) && ActAll(m, UpKeys(0)) == m
  {
  }

  /** All the entries from `lo` up to but not including `hi` can stand behind the prompt. */
  ghost predicate EntriesFit(m: Machine, lo: nat, hi: nat)
    requires m.Ok() && hi <= SIZE
  {
    forall e :: lo <= e < hi ==> OneRow(Str(m.hist[e], 0))
  }

  lemma {:induction false} CutFits(t: seq<byte>, n: nat)
    requires OneRow(t) && n <= |t|
    ensures OneRow(t[..n])
  {
    assert forall c :: c in t[..n] ==> c in t;
  }

  /** One press and release: the row shows what is in the buffer. */
  lemma {:induction false} UpKeyShows(m: Machine)
    requires m.Ok() && m.histptr > 0 && Showing(m, []) && OneRow(Str(m.hist[m.histptr - 1], 0))
    ensures Allowed(m, Older) && Allowed(Act(m, Older), Insert(0))
    ensures var r := Act(Act(m, Older), Insert(0)); Showing(r, r.Text())
  {
    UpKey(m);
    RecallShows(m, Older);
    var q, e := Act(m, Older), m.histptr - 1;
    var r := Act(q, Insert(0));
    assert r.buf == m.hist[e][m.ptrs[e] := 0] && q.buf == m.hist[e];
    hide Act, Allowed, Str, Showing;
    NulCuts(m.hist[e], m.ptrs[e]);
    var t := Str(m.hist[e], 0);
    CutFits(t, if m.ptrs[e] < |t| then m.ptrs[e] else |t|);
    ShowingPrompt(q, t);
    EditShows(q, Insert(0));
  }

  /** After `k` of them the row shows the line that was brought back. */
  lemma {:induction false} UpTimesShow(m: Machine, k: nat)
    requires m.Ok() && 1 <= k <= m.histptr && Showing(m, []) && EntriesFit(m, m.histptr - k, m.histptr)
    ensures AllAllowed(m, UpKeys(k))
    ensures var r := ActAll(m, UpKeys(k)); Showing(r, r.Text())
    decreases k
  {
    UpKey(m);
    UpKeyShows(m);
    var q := Act(Act(m, Older), Insert(0));
    assert q.hist == m.hist && q.histptr == m.histptr - 1;
    hide Act, Allowed, AllAllowed, ActAll, Showing, OneRow, LineOk, Str;
    if k > 1 {
      ShowingPrompt(q, q.Text());
      UpTimesShow(q, k - 1);
    } else {
      NoActions(q);
    }
    UpKeysUnfold(m, k);
  }

  /** What a recalled line shows: its text up to the end of the first word, and no further than its pointer. */
  function ShownAgain(t: seq<byte>, ptr: nat): seq<byte> {
    t[..if ptr < FirstWordEnd(t) then ptr else FirstWordEnd(t)]
  }

  /**
   History over runs: after any run of typing, erasing and Enter, the up arrow pressed and
   released `k` times shows the line of the `k`th last Enter, up to the end of its first word.
   */
  lemma {:induction false} RecallAfterRun(m: Machine, xs: seq<Action>, k: nat)
    requires m.Ok() && AllAllowed(m, xs) && NoRecall(xs) && m.histptr + |Submitted(m, xs)| < SIZE
    requires 1 <= k <= |Submitted(m, xs)|
    ensures AllAllowed(m, xs + UpKeys(k))
    ensures var r, was := ActAll(m, xs + UpKeys(k)), Submitted(m, xs)[|Submitted(m, xs)| - k];
      && r.Text() == ShownAgain(was.Text(), was.ptr) && r.ptr == (was.ptr + 1) % SIZE
      && r.mem == ActAll(m, xs).mem
    ensures var was := Submitted(m, xs)[|Submitted(m, xs)| - k];
      Plain(was) ==> ShownAgain(was.Text(), was.ptr) == was.Text()[..FirstWordEnd(was.Text())]
    ensures Showing(ActAll(m, xs), []) && LinesFit(Submitted(m, xs), k) ==>
      var r := ActAll(m, xs + UpKeys(k)); Showing(r, r.Text())
  {
    hide Act, Allowed, AllAllowed, ActAll, Submitted, FirstWordEnd, WordsOf, CutLine, Str, UpKeys, HoldsLine;
    hide Showing, LinesFit;
    if Showing(ActAll(m, xs), []) && LinesFit(Submitted(m, xs), k) {
      RecallShown(m, xs, k);
    }
    var ms, q := Submitted(m, xs), ActAll(m, xs);
    HistoryRecords(m, xs);
    UpTimes(q, k);
    ActSplit(m, xs, UpKeys(k));
    var was := ms[|ms| - k];
    assert q.histptr - k == m.histptr + (|ms| - k);
    SubmitHasWord(was);
    CutLineReads(was.buf);
    NulCuts(CutLine(was.buf), was.ptr);
    if Plain(was) {
      HeldString(was.buf, was.buf[..was.ptr]);
    }
  }

  /** The last `k` of the lines that were entered can stand behind the prompt. */
  ghost predicate LinesFit(ms: seq<Machine>, k: nat)
    requires k <= |ms| && AllRunnable(ms)
  {
    forall j :: |ms| - k <= j < |ms| ==> Runnable(ms[j]) && OneRow(ms[j].Text())
  }

  lemma {:induction false} RecallShown(m: Machine, xs: seq<Action>, k: nat)
    requires m.Ok() && AllAllowed(m, xs) && NoRecall(xs) && m.histptr + |Submitted(m, xs)| < SIZE
    requires 1 <= k <= |Submitted(m, xs)| && Showing(ActAll(m, xs), []) && LinesFit(Submitted(m, xs), k)
    ensures AllAllowed(m, xs + UpKeys(k))
    ensures var r := ActAll(m, xs + UpKeys(k)); Showing(r, r.Text())
  {
    hide Act, Allowed, AllAllowed, ActAll, Submitted, Showing, UpKeys, Str, OneRow, FirstWordEnd, WordsOf, CutLine;
    var ms, q := Submitted(m, xs), ActAll(m, xs);
    HistoryRecords(m, xs);
    forall e | q.histptr - k <= e < q.histptr ensures OneRow(Str(q.hist[e], 0)) {
      var j := e - m.histptr;
      assert m.histptr + j == e;
      RecordFits(ms[j]);
    }
    UpTimesShow(q, k);
    ActSplit(m, xs, UpKeys(k));
  }

  lemma {:induction false} RecordFits(m: Machine)
    requires Runnable(m) && OneRow(m.Text())
    ensures Terminated(Record(m), 0) && OneRow(Str(Record(m), 0))
  {
    hide WordsOf, CutLine, Str, FirstWordEnd, OneRow;
    CutLineReads(m.buf);
    CutFits(m.Text(), FirstWordEnd(m.Text()));
  }

  lemma SubmitHasWord(m: Machine)
    requires m.Ok() && Allowed(m, Submit)
    ensures Terminated(m.buf, 0) && WordsOf(Str(m.buf, 0)) != []
  {
  }

  // ----- typing behind a NUL

  /** The pointer is behind the terminator of the text. */
  ghost predicate Hidden(m: Machine)
    requires m.Ok()
  {
    |m.Text()| < m.ptr
  }

  ghost function Inserts(t: seq<byte>): (xs: seq<Action>)
    ensures |xs| == |t|
  {
    seq(|t|, k requires 0 <= k < |t| => Insert(t[k]))
  }

  lemma {:induction false} HiddenInsert(m: Machine, c: byte)
    requires m.Ok() && Hidden(m) && m.ptr + 1 < SIZE
    ensures Allowed(m, Insert(c))
    ensures var r := Act(m, Insert(c)); Hidden(r) && r.Text() == m.Text() && r.ptr == m.ptr + 1
    ensures var r := Act(m, Insert(c)); r.mem == m.mem && r.hist == m.hist && r.histptr == m.histptr
  {
    StringEnds(m.buf, 0, |m.Text()|);
    hide DrawTyped, Str, Terminated, HistoryOk;
    SameFront(m.buf, m.buf[m.ptr := c], m.Text());
  }

  /** From there on nothing that is typed is ever shown or run, until the buffer is full. */
  lemma {:induction false} HiddenTyping(m: Machine, t: seq<byte>)
    requires m.Ok() && Hidden(m) && m.ptr + |t| < SIZE
    ensures AllAllowed(m, Inserts(t))
    ensures var r := ActAll(m, Inserts(t)); Hidden(r) && r.Text() == m.Text() && r.mem == m.mem
    decreases |t|
  {
    hide Act, Allowed, Hidden;
    if t != [] {
      assert Inserts(t)[1..] == Inserts(t[1..]);
      HiddenInsert(m, t[0]);
      HiddenTyping(Act(m, Insert(t[0])), t[1..]);
    }
  }

  /** A NUL inserted at or behind the end of the text, as arrow keys do, leaves the pointer behind it. */
  lemma {:induction false} NulHides(m: Machine)
    requires m.Ok() && |m.Text()| <= m.ptr && m.ptr + 1 < SIZE
    ensures Allowed(m, Insert(0))
    ensures var r := Act(m, Insert(0)); Hidden(r) && r.Text() == m.Text() && r.ptr == m.ptr + 1
    ensures var r := Act(m, Insert(0)); r.mem == m.mem && r.hist == m.hist && r.histptr == m.histptr
  {
    StringEnds(m.buf, 0, |m.Text()|);
    hide DrawTyped, Str, Terminated, HistoryOk;
    SameFront(m.buf, m.buf[m.ptr := 0], m.Text());
  }

  /** One NUL, any typing and Enter: the text from before the NUL is run. */
  lemma {:induction false} NulThenSubmit(m: Machine, t: seq<byte>) returns (q: Machine)
    requires m.Ok() && Allowed(m, Submit) && |m.Text()| <= m.ptr && m.ptr + 1 + |t| < SIZE
    ensures AllAllowed(m, [Insert(0)] + Inserts(t) + [Submit])
    ensures q.Ok() && Allowed(q, Submit) && q.Text() == m.Text() && q.mem == m.mem
    ensures ActAll(m, [Insert(0)] + Inserts(t) + [Submit]) == Act(q, Submit)
  {
    NulHides(m);
    var n := Act(m, Insert(0));
    HiddenTyping(n, t);
    q := ActAll(n, Inserts(t));
    SameTextSubmits(m, q);
    hide Act, Allowed, Hidden, WordsOf;
    One(m, Insert(0));
    ActSplit(m, [Insert(0)], Inserts(t));
    One(q, Submit);
    ActSplit(m, [Insert(0)] + Inserts(t), [Submit]);
  }

  lemma SameTextSubmits(m: Machine, q: Machine)
    requires m.Ok() && q.Ok() && Allowed(m, Submit) && q.Text() == m.Text()
    ensures Allowed(q, Submit)
  {
  }

  lemma {:induction false} One(m: Machine, a: Action)
    requires m.Ok() && Allowed(m, a)
    ensures AllAllowed(m, [a]) && ActAll(m, [a]) == Act(m, a)
  {
    assert [a][1..] == [];
  }

  /** A text up to the end of its first word has that word only. */
  lemma {:induction false} FirstWordAlone(t: seq<byte>)
    requires WordsOf(t) != []
    ensures WordsOf(t[..FirstWordEnd(t)]) == [WordsOf(t)[0]]
  {
    hide Skip, Until, Split;
    var a := Skip(t, BLANK, 0);
    WordSkipped(t);
    var b := Until(t, BLANK, a);
    RunAt(t, BLANK, 0);
    var u := t[..b];
    SkipIs(u, BLANK, 0, a);
    UntilIs(u, BLANK, a, b);
    SplitUnfold(t, BLANK);
    SplitUnfold(u, BLANK);
    assert u[b..] == [] && u[a..b] == t[a..b];
    SplitUnfold([], BLANK);
  }

  lemma ExecuteAlone(w: seq<byte>, mem: seq<byte>)
    requires |mem| == M32
    ensures Execute([w], mem) ==
      Effect(if w == PEEK then PEEK_USAGE else if w == POKE then POKE_USAGE else UNKNOWN + w, mem)
  {
  }

  lemma SubmitEffect(m: Machine)
    requires m.Ok() && Allowed(m, Submit)
    ensures m.screen.Ok() && WordsOf(m.Text()) != []
    ensures var e, r := Execute(WordsOf(m.Text()), m.mem), Act(m, Submit);
      r.mem == e.mem && r.screen == DrawEntered(m.screen, e.out)
  {
    hide WordsOf, Execute, DrawEntered, Str, CutLine;
  }

  lemma RecallEffect(m: Machine)
    requires m.Ok() && Allowed(m, Older)
    ensures Act(m, Older).mem == m.mem
  {
  }

  lemma WordsSubmit(m: Machine)
    requires m.Ok() && WordsOf(m.Text()) != []
    ensures Allowed(m, Submit)
  {
  }

  /**
   A command run, recalled with the up arrow and run again, with anything typed in between,
   runs the second time without its arguments: memory stays as the first run left it.
   */
  lemma {:induction false} RerunLosesArguments(m: Machine, t: seq<byte>) returns (screen: Screen)
    requires m.Ok() && Plain(m) && Allowed(m, Submit) && m.histptr + 1 < SIZE && m.ptr + 1 + |t| < SIZE
    ensures var xs := [Submit, Older] + ([Insert(0)] + Inserts(t) + [Submit]);
      var w := WordsOf(m.Text());
      && AllAllowed(m, xs) && screen.Ok() && ActAll(m, xs).mem == Execute(w, m.mem).mem
      && ActAll(m, xs).screen == DrawEntered(screen,
           if w[0] == PEEK then PEEK_USAGE else if w[0] == POKE then POKE_USAGE else UNKNOWN + w[0])
  {
    HeldString(m.buf, m.buf[..m.ptr]);
    hide Act, Allowed, WordsOf, Execute, DrawEntered, Str, FirstWordEnd, AllAllowed, ActAll, LineOk, HistoryOk;
    RecallIff(m);
    SubmitEffect(m);
    FirstWordAlone(m.Text());
    var n := Act(m, Submit);
    RecallEffect(n);
    var r := Act(n, Older);
    WordsSubmit(r);
    var q := NulThenSubmit(r, t);
    SubmitEffect(q);
    ExecuteAlone(WordsOf(m.Text())[0], n.mem);
    screen := q.screen;
    One(m, Submit);
    One(n, Older);
    assert [Submit, Older] == [Submit] + [Older];
    ActSplit(m, [Submit], [Older]);
    ActSplit(m, [Submit, Older], [Insert(0)] + Inserts(t) + [Submit]);
  }
}
