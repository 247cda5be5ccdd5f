/**
 The VGA text console: a 4000-byte buffer of 25 rows of 80 two-byte cells,
 updated in place and scrolled by an overlapping `memmove`, against a page of
 unboundedly many rows on which a scroll only appends a blank row.
 */
module Console {
  import opened Words
  import opened CStrings

  const WIDTH := 80
  const HEIGHT := 25
  const ROW := 160
  const ATTRIBUTE: byte := 7
  const NL: byte := 10
  const CR: byte := 13

  type Row = seq<byte>

  function BlankRow(): (r: Row)
    ensures |r| == ROW
  {
    seq(ROW, _ => 0)
  }

  ghost predicate RowsOk(rows: seq<Row>) {
    forall k :: 0 <= k < |rows| ==> |rows[k]| == ROW
  }

  /** A character in cell `x` of a row: character byte, then attribute byte. */
  function WithCell(r: Row, x: nat, c: byte): (r': Row)
    requires |r| == ROW && x < WIDTH
    ensures |r'| == ROW
  {
    r[2 * x := c][2 * x + 1 := ATTRIBUTE]
  }

  // ----- the screen as a value

  datatype Screen = Screen(rows: seq<Row>, tx: nat, ty: nat) {
    /** The invariant of the console: 25 rows, and coordinates that fit a uint8_t with room to spare. */
    ghost predicate Ok() {
      |rows| == HEIGHT && RowsOk(rows) && tx <= WIDTH && ty < HEIGHT
    }
  }

  datatype Op = Putc(c: byte) | SetPos(x: byte, y: byte) | SetPosX(x: byte) | ClrLine

  ghost function NewLine(s: Screen): (r: Screen)
    requires s.Ok()
    ensures r.Ok()
  {
    if s.ty + 1 >= HEIGHT then Screen(s.rows[1..] + [BlankRow()], 0, HEIGHT - 1) else s.(tx := 0, ty := s.ty + 1)
  }

  /** A full row is left only when the next character arrives. */
  ghost function DeferredWrap(s: Screen): (r: Screen)
    requires s.Ok()
    ensures r.Ok() && r.tx < WIDTH
  {
    if s.tx >= WIDTH then NewLine(s) else s
  }

  ghost function PutcScreen(s: Screen, c: byte): (r: Screen)
    requires s.Ok()
    ensures r.Ok()
  {
    if c == 0 then s
    else
      var w := DeferredWrap(s);
      if c == NL || c == CR then NewLine(w)
      else Screen(w.rows[w.ty := WithCell(w.rows[w.ty], w.tx, c)], w.tx + 1, w.ty)
  }

  /** `clrline` clears WIDTH bytes of the current row, which is half of it. */
  ghost function ClearedHalf(r: Row): (r': Row)
    requires |r| == ROW
    ensures |r'| == ROW
  {
    seq(WIDTH, _ => 0) + r[WIDTH..]
  }

  ghost function StepScreen(s: Screen, op: Op): (r: Screen)
    requires s.Ok()
    ensures r.Ok()
  {
    match op
    case Putc(c) => PutcScreen(s, c)
    case SetPos(x, y) =>
      if x > WIDTH then s
      else if y >= HEIGHT then Screen(s.rows[1..] + [BlankRow()], x, HEIGHT - 1)
      else s.(tx := x, ty := y)
    case SetPosX(x) => if x > WIDTH then s else s.(tx := x)
    case ClrLine => s.(rows := s.rows[s.ty := ClearedHalf(s.rows[s.ty])])
  }

  ghost function RunScreen(s: Screen, ops: seq<Op>): (r: Screen)
    requires s.Ok()
    ensures r.Ok()
    decreases |ops|
  {
    if ops == [] then s else RunScreen(StepScreen(s, ops[0]), ops[1..])
  }

  // ----- the endless page

  /** `line` counts from the first row ever; the last 25 rows are on display. */
  datatype Page = Page(rows: seq<Row>, tx: nat, line: nat) {
    ghost function Top(): int {
      |rows| - HEIGHT
    }

    ghost predicate Ok() {
      0 <= Top() <= line < |rows| && RowsOk(rows) && tx <= WIDTH
    }
  }

  ghost function NextLine(p: Page): (q: Page)
    requires p.Ok()
    ensures q.Ok()
  {
    if p.line + 1 == |p.rows| then Page(p.rows + [BlankRow()], 0, p.line + 1) else p.(tx := 0, line := p.line + 1)
  }

  ghost function PutcPage(p: Page, c: byte): (q: Page)
    requires p.Ok()
    ensures q.Ok()
  {
    if c == 0 then p
    else
      var w := if p.tx >= WIDTH then NextLine(p) else p;
      if c == NL || c == CR then NextLine(w)
      else Page(w.rows[w.line := WithCell(w.rows[w.line], w.tx, c)], w.tx + 1, w.line)
  }

  ghost function StepPage(p: Page, op: Op): (q: Page)
    requires p.Ok()
    ensures q.Ok()
  {
    match op
    case Putc(c) => PutcPage(p, c)
    case SetPos(x, y) =>
      if x > WIDTH then p
      else if y >= HEIGHT then Page(p.rows + [BlankRow()], x, |p.rows|)
      else p.(tx := x, line := p.Top() + y)
    case SetPosX(x) => if x > WIDTH then p else p.(tx := x)
    case ClrLine => p.(rows := p.rows[p.line := ClearedHalf(p.rows[p.line])])
  }

  ghost function RunPage(p: Page, ops: seq<Op>): (q: Page)
    requires p.Ok()
    ensures q.Ok()
    decreases |ops|
  {
    if ops == [] then p else RunPage(StepPage(p, ops[0]), ops[1..])
  }

  /** What of the page is on display. */
  ghost function Display(p: Page): (s: Screen)
    requires p.Ok()
    ensures s.Ok()
  {
    Screen(p.rows[p.Top()..], p.tx, p.line - p.Top())
  }

  lemma DisplayNextLine(p: Page)
    requires p.Ok()
    ensures Display(NextLine(p)) == NewLine(Display(p))
  {
  }

  lemma DisplayPut(p: Page, c: byte)
    requires p.Ok() && p.tx < WIDTH
    ensures var q := Page(p.rows[p.line := WithCell(p.rows[p.line], p.tx, c)], p.tx + 1, p.line);
      var s := Display(p);
      q.Ok() && Display(q) == Screen(s.rows[s.ty := WithCell(s.rows[s.ty], s.tx, c)], s.tx + 1, s.ty)
  {
  }

  lemma DisplayPutc(p: Page, c: byte)
    requires p.Ok()
    ensures Display(PutcPage(p, c)) == PutcScreen(Display(p), c)
  {
    hide WithCell, Display, NextLine, NewLine;
    DisplayCursor(p);
    DisplayNextLine(p);
    WrapLeavesRoom(p);
    var w := if p.tx >= WIDTH then NextLine(p) else p;
    DisplayNextLine(w);
    DisplayPut(w, c);
  }

  lemma DisplayClrLine(p: Page)
    requires p.Ok()
    ensures Display(StepPage(p, ClrLine)) == StepScreen(Display(p), ClrLine)
  {
  }

  lemma DisplaySetPos(p: Page, x: byte, y: byte)
    requires p.Ok()
    ensures Display(StepPage(p, SetPos(x, y))) == StepScreen(Display(p), SetPos(x, y))
  {
  }

  lemma DisplayStep(p: Page, op: Op)
    requires p.Ok()
    ensures Display(StepPage(p, op)) == StepScreen(Display(p), op)
  {
    match op
    case Putc(c) => DisplayPutc(p, c);
    case SetPos(x, y) => DisplaySetPos(p, x, y);
    case SetPosX(x) =>
    case ClrLine => DisplayClrLine(p);
  }

  lemma DisplayCursor(p: Page)
    requires p.Ok()
    ensures Display(p).tx == p.tx
  {
  }

  lemma WrapLeavesRoom(p: Page)
    requires p.Ok()
    ensures NextLine(p).tx < WIDTH
  {
  }

  /** Refinement: after any run the buffer shows exactly the last 25 rows of the page. */
  lemma {:induction false} ConsoleRefinesPage(p: Page, ops: seq<Op>)
    requires p.Ok()
    ensures Display(RunPage(p, ops)) == RunScreen(Display(p), ops)
    decreases |ops|
  {
    if ops != [] {
      DisplayStep(p, ops[0]);
      ConsoleRefinesPage(StepPage(p, ops[0]), ops[1..]);
    }
  }

  /** Rows that have scrolled off are never touched again, and no row is ever lost. */
  lemma {:induction false} HistoryKept(p: Page, ops: seq<Op>)
    requires p.Ok()
    ensures |p.rows| <= |RunPage(p, ops).rows|
    ensures p.rows[..p.Top()] <= RunPage(p, ops).rows
    decreases |ops|
  {
    if ops != [] {
      var q := StepPage(p, ops[0]);
      assert |p.rows| <= |q.rows| && p.rows[..p.Top()] <= q.rows[..q.Top()];
      HistoryKept(q, ops[1..]);
    }
  }

  lemma {:induction false} RunAppend(s: Screen, a: seq<Op>, b: seq<Op>)
    requires s.Ok()
    ensures RunScreen(s, a + b) == RunScreen(RunScreen(s, a), b)
    decreases |a|
  {
    if a == [] {
      assert a + b == b;
    } else {
      assert (a + b)[1..] == a[1..] + b;
      RunAppend(StepScreen(s, a[0]), a[1..], b);
    }
  }

  /** `putc` of each character in turn. */
  ghost function Text(t: seq<byte>): (ops: seq<Op>)
    ensures |ops| == |t|
  {
    seq(|t|, k requires 0 <= k < |t| => Putc(t[k]))
  }

  ghost function PutText(s: Screen, t: seq<byte>): (r: Screen)
    requires s.Ok()
    ensures r.Ok()
  {
    RunScreen(s, Text(t))
  }

  lemma {:induction false} PutTextSnoc(s: Screen, t: seq<byte>, c: byte)
    requires s.Ok()
    ensures PutText(s, t + [c]) == PutcScreen(PutText(s, t), c)
  {
    RunAppend(s, Text(t), [Putc(c)]);
    assert Text(t + [c]) == Text(t) + [Putc(c)];
    var u := PutText(s, t);
    assert RunScreen(u, [Putc(c)]) == RunScreen(StepScreen(u, Putc(c)), []);
  }

  lemma {:induction false} PutTextAppend(s: Screen, t: seq<byte>, u: seq<byte>)
    requires s.Ok()
    ensures PutText(s, t + u) == PutText(PutText(s, t), u)
  {
    RunAppend(s, Text(t), Text(u));
    assert Text(t + u) == Text(t) + Text(u);
  }

  // ----- text that stays on one row

  ghost predicate Printable(t: seq<byte>) {
    0 !in t && NL !in t && CR !in t
  }

  /** A row with a text written from cell `x` on. */
  ghost function WithText(r: Row, x: nat, t: seq<byte>): (r': Row)
    requires |r| == ROW && x + |t| <= WIDTH
    ensures |r'| == ROW
  {
    seq(ROW, k requires 0 <= k < ROW =>
      if 2 * x <= k < 2 * (x + |t|) then (if k % 2 == 0 then t[k / 2 - x] else ATTRIBUTE) else r[k])
  }

  lemma WithTextSnoc(r: Row, x: nat, t: seq<byte>, c: byte)
    requires |r| == ROW && x + |t| < WIDTH
    ensures WithText(r, x, t + [c]) == WithCell(WithText(r, x, t), x + |t|, c)
  {
  }

  /** Printing within a row changes that row and nothing else. */
  lemma {:induction false} PutTextOnRow(s: Screen, t: seq<byte>)
    requires s.Ok() && Printable(t) && s.tx + |t| <= WIDTH
    ensures PutText(s, t) == Screen(s.rows[s.ty := WithText(s.rows[s.ty], s.tx, t)], s.tx + |t|, s.ty)
    decreases |t|
  {
    if t == [] {
      assert WithText(s.rows[s.ty], s.tx, t) == s.rows[s.ty];
      assert s.rows[s.ty := s.rows[s.ty]] == s.rows;
    } else {
      var init, c := t[..|t| - 1], t[|t| - 1];
      assert t == init + [c];
      hide WithText, PutText, WithCell;
      PutTextOnRow(s, init);
      PutTextSnoc(s, init, c);
      WithTextSnoc(s.rows[s.ty], s.tx, init, c);
    }
  }

  // ----- text of any length

  lemma {:induction false} RunPageSnoc(p: Page, ops: seq<Op>, op: Op)
    requires p.Ok()
    ensures RunPage(p, ops + [op]) == StepPage(RunPage(p, ops), op)
    decreases |ops|
  {
    if ops == [] {
      assert ops + [op] == [op] && [op][1..] == [];
    } else {
      assert (ops + [op])[1..] == ops[1..] + [op];
      RunPageSnoc(StepPage(p, ops[0]), ops[1..], op);
    }
  }

  /** Character `k` is in column k mod 80 of the row k / 80 further down, light grey on black (7). */
  ghost predicate LaidOut(p: Page, q: Page, t: seq<byte>)
    requires p.Ok()
  {
    && q.Ok() && |p.rows| <= |q.rows|
    && (if t == [] then q == p else q.line == p.line + (|t| - 1) / 80 && q.tx == (|t| - 1) % 80 + 1)
    && forall k :: 0 <= k < |t| ==> CellIs(q.rows, p.line + k / 80, k % 80, t[k])
  }

  ghost predicate CellIs(rows: seq<Row>, line: nat, x: nat, c: byte) {
    line < |rows| && x < 80 && |rows[line]| == 160 && rows[line][2 * x] == c && rows[line][2 * x + 1] == 7
  }

  /** Text printed from the left edge fills row after row, wrapping only when the next character comes. */
  lemma {:induction false} TextLayout(p: Page, t: seq<byte>)
    requires p.Ok() && p.tx == 0 && Printable(t)
    ensures LaidOut(p, RunPage(p, Text(t)), t)
    decreases |t|
  {
    if t != [] {
      var init, c := t[..|t| - 1], t[|t| - 1];
      assert t == init + [c] && Text(t) == Text(init) + [Putc(c)];
      assert forall x :: x in init ==> x in t;
      TextLayout(p, init);
      RunPageSnoc(p, Text(init), Putc(c));
      assert c in t;
      hide RunPage, Text;
      LayoutStep(p, RunPage(p, Text(init)), init, c);
    }
  }

  lemma {:induction false} LayoutStep(p: Page, q: Page, t: seq<byte>, c: byte)
    requires p.Ok() && p.tx == 0 && LaidOut(p, q, t) && c != 0 && c != NL && c != CR
    ensures LaidOut(p, PutcPage(q, c), t + [c])
  {
    var w := if q.tx >= WIDTH then NextLine(q) else q;
    var r, u, n := PutcPage(q, c), t + [c], |t|;
    assert w.line == p.line + n / 80 && w.tx == n % 80;
    forall k | 0 <= k < |u| ensures CellIs(r.rows, p.line + k / 80, k % 80, u[k]) {
      if k < n {
        assert CellIs(q.rows, p.line + k / 80, k % 80, t[k]);
        assert u[k] == t[k] && !(k / 80 == n / 80 && k % 80 == n % 80);
      }
    }
  }

  /** A newline or a carriage return goes to the left edge of the next row and loses no row; NUL does nothing. */
  lemma {:induction false} LineBreak(p: Page, c: byte)
    requires p.Ok() && p.tx < 80
    ensures c == 10 || c == 13 ==>
      var q := PutcPage(p, c); q.line == p.line + 1 && q.tx == 0 && p.rows <= q.rows && |q.rows| <= |p.rows| + 1
    ensures c == 0 ==> PutcPage(p, c) == p
  {
  }

  /** Placing the cursor: any column up to 80, and the last row with a scroll for every row below it. */
  lemma {:induction false} CursorPlaced(s: Screen, x: byte, y: byte)
    requires s.Ok()
    ensures var r := StepScreen(s, SetPos(x, y));
      if x > 80 then r == s
      else if y < 25 then r == Screen(s.rows, x, y)
      else r.tx == x && r.ty == 24 && r.rows == s.rows[1..] + [seq(160, _ => 0)]
    ensures StepScreen(s, SetPosX(x)) == if x > 80 then s else Screen(s.rows, x, s.ty)
  {
  }

  // ----- the device

  class Vga {
    const mem: array<byte>
    var tx: nat
    var ty: nat

    constructor (mem: array<byte>)
      requires mem.Length == HEIGHT * ROW
      ensures Valid() && this.mem == mem && tx == 0 && ty == 0
    {
      this.mem := mem;
      tx, ty := 0, 0;
    }

    ghost predicate Valid()
      reads this
    {
      mem.Length == HEIGHT * ROW && tx <= WIDTH && ty < HEIGHT
    }

    ghost function Shows(): (s: Screen)
      requires Valid()
      reads this, mem
      ensures s.Ok()
    {
      Screen(RowsOf(mem[..]), tx, ty)
    }

    /** `vga_scroll` with `ty == HEIGHT`: rows 1 to 24 move up and the last is zeroed. */
    method Scroll()
      requires mem.Length == HEIGHT * ROW
      modifies this`ty, mem
      ensures ty == if old(ty) >= HEIGHT then HEIGHT - 1 else old(ty)
      ensures RowsOf(mem[..]) ==
        if old(ty) >= HEIGHT then old(RowsOf(mem[..]))[1..] + [BlankRow()] else old(RowsOf(mem[..]))
    {
      if ty >= HEIGHT {
        Memmove(mem, 0, ROW, (HEIGHT - 1) * ROW);
        ghost var moved := mem[..];
        Memset(mem, (HEIGHT - 1) * ROW, 0, ROW);
        ScrolledRows(old(mem[..]), mem[..]);
        ty := HEIGHT - 1;
      }
    }

    method Putc(c: byte)
      requires Valid()
      modifies this, mem
      ensures Valid() && Shows() == PutcScreen(old(Shows()), c)
    {
      hide RowsOf, WithCell;
      if c == 0 {
        return;
      }
      if tx >= WIDTH {
        tx := 0;
        ty := ty + 1;
        Scroll();
      }
      if c == NL || c == CR {
        tx := 0;
        ty := ty + 1;
        Scroll();
      } else {
        WriteCell(c);
        tx := tx + 1;
      }
    }

    /** VGA_MEM[ty * WIDTH + tx] = vga_entry(0x07, c): the character byte, then the attribute byte. */
    method WriteCell(c: byte)
      requires Valid() && tx < WIDTH
      modifies mem
      ensures RowsOf(mem[..]) == old(RowsOf(mem[..]))[ty := WithCell(old(RowsOf(mem[..]))[ty], tx, c)]
    {
      ghost var was := mem[..];
      var off := ty * WIDTH + tx;
      mem[2 * off] := c;
      mem[2 * off + 1] := ATTRIBUTE;
      CellWritten(was, mem[..], tx, ty, c);
    }

    /** `puts`: every character up to the terminator. */
    method Puts(s: seq<byte>, p: nat)
      requires Valid() && Terminated(s, p)
      modifies this, mem
      ensures Valid() && Shows() == PutText(old(Shows()), Str(s, p))
    {
      ghost var t := Str(s, p);
      var q := p;
      assert t[..0] == [];
      while s[q] != 0
        invariant p <= q <= StrEnd(s, p) && Valid()
        invariant Shows() == PutText(old(Shows()), t[..q - p])
        decreases |s| - q
      {
        PutTextSnoc(old(Shows()), t[..q - p], s[q]);
        assert t[..q - p + 1] == t[..q - p] + [s[q]];
        Putc(s[q]);
        q := q + 1;
      }
      assert t[..q - p] == t;
    }

    method SetPos(x: byte, y: byte)
      requires Valid()
      modifies this, mem
      ensures Valid() && Shows() == StepScreen(old(Shows()), Op.SetPos(x, y))
    {
      if x > WIDTH {
        return;
      }
      tx := x;
      ty := if y >= HEIGHT then HEIGHT else y;
      Scroll();
    }

    method SetPosX(x: byte)
      requires Valid()
      modifies this`tx
      ensures Valid() && Shows() == StepScreen(old(Shows()), Op.SetPosX(x))
    {
      if x > WIDTH {
        return;
      }
      tx := x;
    }

    method ClrLine()
      requires Valid()
      modifies mem
      ensures Valid() && Shows() == StepScreen(old(Shows()), Op.ClrLine)
    {
      ghost var was := mem[..];
      Memset(mem, ty * ROW, 0, WIDTH);
      HalfCleared(was, mem[..], ty);
    }
  }

  // ----- rows of the buffer

  ghost function RowsOf(m: seq<byte>): (rows: seq<Row>)
    requires |m| == HEIGHT * ROW
    ensures |rows| == HEIGHT && RowsOk(rows)
  {
    seq(HEIGHT, k requires 0 <= k < HEIGHT => m[ROW * k..ROW * (k + 1)])
  }

  lemma ScrolledRows(m: seq<byte>, m': seq<byte>)
    requires |m| == |m'| == HEIGHT * ROW
    requires forall k :: 0 <= k < HEIGHT * ROW ==> m'[k] == if k < (HEIGHT - 1) * ROW then m[k + ROW] else 0
    ensures RowsOf(m') == RowsOf(m)[1..] + [BlankRow()]
  {
    var l, r := RowsOf(m'), RowsOf(m)[1..] + [BlankRow()];
    forall k | 0 <= k < HEIGHT ensures l[k] == r[k] {
      if k < HEIGHT - 1 {
        assert r[k] == m[ROW * (k + 1)..ROW * (k + 2)];
      }
    }
  }

  lemma CellWritten(m: seq<byte>, m': seq<byte>, x: nat, y: nat, c: byte)
    requires |m| == HEIGHT * ROW && x < WIDTH && y < HEIGHT
    requires m' == m[2 * (y * WIDTH + x) := c][2 * (y * WIDTH + x) + 1 := ATTRIBUTE]
    ensures RowsOf(m') == RowsOf(m)[y := WithCell(RowsOf(m)[y], x, c)]
  {
  }

  lemma RowCut(m: seq<byte>, k: nat)
    requires |m| == HEIGHT * ROW && k < HEIGHT
    ensures |RowsOf(m)[k]| == ROW && forall i :: 0 <= i < ROW ==> RowsOf(m)[k][i] == m[ROW * k + i]
  {
  }

  lemma HalfCleared(m: seq<byte>, m': seq<byte>, y: nat)
    requires |m| == |m'| == HEIGHT * ROW && y < HEIGHT
    requires forall k :: 0 <= k < HEIGHT * ROW ==> m'[k] == if y * ROW <= k < y * ROW + WIDTH then 0 else m[k]
    ensures RowsOf(m') == RowsOf(m)[y := ClearedHalf(RowsOf(m)[y])]
  {
    var l, r := RowsOf(m'), RowsOf(m)[y := ClearedHalf(RowsOf(m)[y])];
    forall k | 0 <= k < HEIGHT ensures l[k] == r[k] {
      RowCut(m', k);
      RowCut(m, k);
      if k != y {
        assert l[k] == RowsOf(m)[k];
      }
    }
  }
}
