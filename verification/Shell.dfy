/**
 The shell's own state and callbacks: the line buffer it edits in place, the
 history it records and recalls, the tokeniser it cuts the buffer with, the
 console it prints to and the memory it pokes.
 */
module Shell {
  import opened Words
  import opened CStrings
  import opened Console
  import opened Tokens
  import opened Printf
  import opened Vprintf
  import opened ShellSpec
  import opened Session
  import opened Editor
  import Kbd = Keyboard
  import Strtoul

  const DELIM: seq<byte> := [SPACE, 0]

  lemma DelimChars()
    ensures Terminated(DELIM, 0) && Chars(DELIM) == BLANK
  {
    assert DELIM == [SPACE] + [0] + [];
    StrOfConcat([SPACE], []);
  }

  const PEEK_Z := PEEK + [0]
  const POKE_Z := POKE + [0]

  datatype Command = Other | Peek | Poke

  /** `shell_hash` */
  method Hash(s: seq<byte>, p: nat) returns (cmd: Command)
    requires Terminated(s, p)
    ensures cmd == if Str(s, p) == PEEK then Peek else if Str(s, p) == POKE then Poke else Other
  {
    assert PEEK_Z == PEEK + [0] + [] && POKE_Z == POKE + [0] + [];
    StrOfConcat(PEEK, []);
    StrOfConcat(POKE, []);
    var r := Strcmp(s, p, PEEK_Z, 0);
    if r == 0 {
      return Peek;
    }
    r := Strcmp(s, p, POKE_Z, 0);
    if r == 0 {
      return Poke;
    }
    return Other;
  }

  class Shell {
    const con: Vga
    const shellbuf: array<byte>
    const mem: array<byte>
    const tok: Tokeniser
    var shellptr: nat
    var hist: seq<seq<byte>>
    var ptrs: seq<nat>
    var histptr: nat

    ghost predicate Valid()
      reads this, con, shellbuf
    {
      && con.Valid() && Separate()
      && LineOk(shellbuf[..], shellptr) && HistoryOk(hist, ptrs, histptr)
    }

    ghost function State(): (m: Machine)
      requires Valid()
      reads this, con, con.mem, shellbuf, mem
      ensures m.Ok()
    {
      Machine(shellbuf[..], shellptr, hist, ptrs, histptr, con.Shows(), mem[..])
    }

    constructor (con: Vga, shellbuf: array<byte>, mem: array<byte>)
      requires con.Valid() && shellbuf.Length == SIZE && mem.Length == M32
      requires shellbuf != mem && shellbuf != con.mem && mem != con.mem
      modifies con, con.mem, shellbuf
      ensures Valid() && this.con == con && this.shellbuf == shellbuf && this.mem == mem
      ensures State() == Machine(Zeroed(), 0, seq(SIZE, _ => Zeroed()), seq(SIZE, _ => 0), 0,
        PutText(old(con.Shows()), PROMPT), mem[..])
      ensures Plain(State()) && AsSession(State()).line == []
    {
      this.con := con;
      this.shellbuf := shellbuf;
      this.mem := mem;
      tok := new Tokeniser();
      shellptr, histptr := 0, 0;
      var zeros := seq(SIZE, _ => 0);
      hist, ptrs := seq(SIZE, _ => zeros), seq(SIZE, _ => 0);
      new;
      assert zeros == Zeroed();
      assert hist == seq(SIZE, _ => Zeroed());
      ClearLine();
      PrintPrompt(con);
      ZeroedHolds();
    }

    /** memset(shellbuf, 0, 256) */
    method ClearLine()
      requires shellbuf.Length == SIZE
      modifies shellbuf
      ensures shellbuf[..] == Zeroed()
    {
      Memset(shellbuf, 0, 0, SIZE);
    }

    ghost predicate Separate() {
      shellbuf.Length == SIZE && mem.Length == M32 && shellbuf != mem && shellbuf != con.mem && mem != con.mem
    }

    /** The tokeniser is stopped before exactly the words `ws`. */
    ghost predicate StoppedBefore(ws: seq<seq<byte>>)
      reads tok, shellbuf
    {
      tok.olds != Null && Terminated(shellbuf[..], tok.olds.at) && WordsOf(Str(shellbuf[..], tok.olds.at)) == ws
    }

    /** strtok(NULL, " ") and, when there is a word, its number by strtoul(word, &end, 16). */
    method NextNumber(ghost ws: seq<seq<byte>>) returns (found: bool, v: nat)
      requires StoppedBefore(ws)
      modifies shellbuf, tok
      ensures found <==> ws != []
      ensures found ==> v == Number(ws[0]) && StoppedBefore(ws[1..])
      ensures tok.olds != Null
      ensures var o := StrtokAt(old(shellbuf[..]), old(tok.olds.at), BLANK);
        shellbuf[..] == o.buf && tok.olds.at == o.olds
    {
      hide Split;
      DelimChars();
      StrtokDelivers(shellbuf[..], tok.olds.at, BLANK);
      var arg := tok.Strtok(shellbuf, Null, DELIM);
      found, v := arg != Null, 0;
      if found {
        var end;
        v, end := Strtoul.Strtoul(shellbuf[..], arg.at, 16, M32);
      }
    }

    /** case CMD_PEEK */
    method DoPeek(ghost w: seq<seq<byte>>)
      requires con.Valid() && Separate() && |w| > 0 && w[0] == PEEK && StoppedBefore(w[1..])
      modifies con, con.mem, shellbuf, tok
      ensures con.Valid()
      ensures var e := Execute(w, mem[..]);
        con.Shows() == PutText(old(con.Shows()), e.out) && mem[..] == e.mem
      ensures shellbuf[..] == Cut(old(shellbuf[..]), old(tok.olds.at), StrtokCalls(w) - 1)
    {
      hide Split, PutText, Hex, Number, Render, StrtokAt, Str, Cut;
      CutOnce(shellbuf[..], tok.olds.at);
      var found, a := NextNumber(w[1..]);
      if !found {
        Usage(Peek);
      } else {
        assert w[1..][0] == w[1];
        var v := mem[a];
        SignedBack(a);
        RenderPair(COLON, Signed(a, M32), v);
        PlainText();
        var n, stores := Vprintf.Vprintf(con, HEX8 + COLON + HEX2, [IntArg(Signed(a, M32)), IntArg(v)]);
      }
    }

    /** case CMD_POKE */
    method DoPoke(ghost w: seq<seq<byte>>)
      requires con.Valid() && Separate() && |w| > 0 && w[0] == POKE && StoppedBefore(w[1..])
      modifies con, con.mem, shellbuf, mem, tok
      ensures con.Valid()
      ensures var e := Execute(w, old(mem[..]));
        con.Shows() == PutText(old(con.Shows()), e.out) && mem[..] == e.mem
      ensures shellbuf[..] == Cut(old(shellbuf[..]), old(tok.olds.at), StrtokCalls(w) - 1)
    {
      hide Split, PutText, Hex, Number, Render, StrtokAt, Str, Cut;
      assert POKE != PEEK;
      CutOnce(shellbuf[..], tok.olds.at);
      CutUnfold(shellbuf[..], tok.olds.at, 2);
      var found, a := NextNumber(w[1..]);
      CutOnce(shellbuf[..], tok.olds.at);
      if !found {
        Usage(Poke);
        return;
      }
      assert w[1..][0] == w[1] && w[1..][1..] == w[2..];
      var v;
      found, v := NextNumber(w[2..]);
      if !found {
        Usage(Poke);
        return;
      }
      assert w[2..][0] == w[2];
      SignedBack(a);
      SignedBack(v);
      RenderPair(EQUALS, Signed(a, M32), Signed(v, M32));
      PlainText();
      var n, stores := Vprintf.Vprintf(con, HEX8 + EQUALS + HEX2, [IntArg(Signed(a, M32)), IntArg(Signed(v, M32))]);
      mem[a] := v % 256;
    }

    method Usage(cmd: Command)
      requires con.Valid() && cmd != Other
      modifies con, con.mem
      ensures con.Valid()
      ensures con.Shows() == PutText(old(con.Shows()), if cmd == Peek then PEEK_USAGE else POKE_USAGE)
    {
      hide PutText, Render;
      var f := if cmd == Peek then PEEK_USAGE else POKE_USAGE;
      PlainText();
      RenderLiteral(f, []);
      var n, stores := Vprintf.Vprintf(con, f, []);
    }

    /** strtok(shellbuf, " ") on a line with at least one word. */
    method FirstWord() returns (p: nat)
      requires Terminated(shellbuf[..], 0) && WordsOf(Str(shellbuf[..], 0)) != []
      modifies shellbuf, tok
      ensures Terminated(shellbuf[..], p) && Str(shellbuf[..], p) == WordsOf(old(Str(shellbuf[..], 0)))[0]
      ensures StoppedBefore(WordsOf(old(Str(shellbuf[..], 0)))[1..])
      ensures var o := StrtokAt(old(shellbuf[..]), 0, BLANK); shellbuf[..] == o.buf && tok.olds.at == o.olds
    {
      hide Split;
      DelimChars();
      StrtokDelivers(shellbuf[..], 0, BLANK);
      var word := tok.Strtok(shellbuf, To(0), DELIM);
      p := word.at;
    }

    /** switch (shell_hash(word)) */
    method Dispatch(p: nat, ghost w: seq<seq<byte>>)
      requires con.Valid() && Separate() && |w| > 0 && StoppedBefore(w[1..])
      requires Terminated(shellbuf[..], p) && Str(shellbuf[..], p) == w[0]
      modifies con, con.mem, shellbuf, mem, tok
      ensures con.Valid()
      ensures var e := Execute(w, old(mem[..]));
        con.Shows() == PutText(old(con.Shows()), e.out) && mem[..] == e.mem
      ensures shellbuf[..] == Cut(old(shellbuf[..]), old(tok.olds.at), StrtokCalls(w) - 1)
    {
      hide PutText, Execute, WordsOf, Str;
      var cmd := Hash(shellbuf[..], p);
      if cmd == Other {
        PrintUnknown(p, w, mem[..]);
      } else if cmd == Peek {
        DoPeek(w);
      } else {
        DoPoke(w);
      }
    }

    /** `shell_proc`: run the line, record what is left of it, start a new one. */
    method Proc()
      requires Valid() && WordsOf(State().Text()) != []
      modifies this, con, con.mem, shellbuf, mem, tok
      ensures Valid() && shellbuf[..] == Zeroed() && shellptr == 0
      ensures var e := Execute(WordsOf(old(State().Text())), old(mem[..]));
        con.Shows() == PutText(old(con.Shows()), e.out + [NL]) && mem[..] == e.mem
      ensures hist == old(hist)[old(histptr) := CutLine(old(shellbuf[..]))]
      ensures ptrs == old(ptrs)[old(histptr) := old(shellptr)] && histptr == (old(histptr) + 1) % SIZE
    {
      hide WordsOf, PutText, Execute, Cut, StrtokAt, Zeroed, Str, Terminated;
      ghost var w, m, screen := WordsOf(State().Text()), mem[..], con.Shows();
      CutUnfold(shellbuf[..], 0, StrtokCalls(w));
      CutLineOk(shellbuf[..], shellptr);
      var p := FirstWord();
      Dispatch(p, w);
      PutTextSnoc(screen, Execute(w, m).out, NL);
      con.Putc(NL);
      hist := hist[histptr := shellbuf[..]];
      ptrs := ptrs[histptr := shellptr];
      ClearLine();
      shellptr := 0;
      histptr := (histptr + 1) % SIZE;
    }

    method PrintUnknown(p: nat, ghost w: seq<seq<byte>>, ghost m: seq<byte>)
      requires con.Valid() && Terminated(shellbuf[..], p) && |w| > 0 && Str(shellbuf[..], p) == w[0]
      requires w[0] != PEEK && w[0] != POKE && |m| == M32
      modifies con, con.mem
      ensures con.Valid() && con.Shows() == PutText(old(con.Shows()), Execute(w, m).out)
      ensures Execute(w, m).mem == m
    {
      hide PutText, Render;
      var q := Strchr(shellbuf[..], p, 0);
      var word := shellbuf[p..q];
      assert word == w[0];
      RenderUnknown(word);
      PlainText();
      var n, stores := Vprintf.Vprintf(con, UNKNOWN + PERCENT_S, [StrArg(word)]);
    }

    /** The keyboard callback. */
    method Kcallback(c: byte, kstate: bv8)
      requires Valid() && Allowed(State(), ActionOf(c, kstate))
      modifies this, con, con.mem, shellbuf, mem, tok
      ensures Valid() && State() == Act(old(State()), ActionOf(c, kstate))
    {
      hide PutText, StepScreen, PutcScreen, Execute, WordsOf, Str, CutLine, Terminated, Zeroed;
      if c == NL {
        con.SetPosX(0);
        con.Putc(NL);
        Proc();
        PrintPrompt(con);
      } else if Kbd.Bit(kstate, Kbd.KBD_BCKSP) {
        OnBackspace();
      } else if Kbd.Bit(kstate, Kbd.KBD_UP) {
        OnRecall(histptr - 1);
      } else if Kbd.Bit(kstate, Kbd.KBD_DOWN) {
        OnRecall(histptr + 1);
      } else {
        OnCharacter(c);
      }
    }

    method OnBackspace()
      requires Valid()
      modifies this`shellptr, con, con.mem, shellbuf
      ensures Valid() && State() == Act(old(State()), Erase)
    {
      hide PutText, StepScreen, Str, HistoryOk;
      if shellptr > 0 {
        shellptr := shellptr - 1;
      }
      ghost var erased := Erased(shellbuf[..], old(shellptr));
      shellbuf[shellptr] := 0;
      assert shellbuf[..] == erased;
      con.ClrLine();
      con.SetPosX(0);
      PrintPrompt(con);
      con.Puts(shellbuf[..], 0);
    }

    /** Copies a history entry into the line buffer and draws it. */
    method OnRecall(k: nat)
      requires Valid() && k < SIZE
      modifies this`shellptr, this`histptr, con, con.mem, shellbuf
      ensures Valid() && State() == Recalled(old(State()), k)
    {
      hide PutText, StepScreen, Str, Terminated;
      CopyLine(hist[k]);
      shellptr := ptrs[k];
      histptr := k;
      con.SetPosX(1);
      con.Puts(shellbuf[..], 0);
    }

    /** memcpy(shellbuf, line, 256) */
    method CopyLine(line: seq<byte>)
      requires shellbuf.Length == SIZE && |line| == SIZE
      modifies shellbuf
      ensures shellbuf[..] == line
    {
      for i := 0 to SIZE
        invariant shellbuf[..i] == line[..i]
      {
        shellbuf[i] := line[i];
      }
    }

    method OnCharacter(c: byte)
      requires Valid() && Allowed(State(), Insert(c))
      modifies this`shellptr, con, con.mem, shellbuf
      ensures Valid() && State() == Act(old(State()), Insert(c))
    {
      hide PutText, StepScreen, Str, HistoryOk;
      shellbuf[shellptr] := c;
      shellptr := (shellptr + 1) % SIZE;
      con.SetPosX(1);
      con.Puts(shellbuf[..], 0);
    }
  }

  lemma {:induction false} CutOnce(buf: seq<byte>, p: nat)
    requires Terminated(buf, p)
    ensures Cut(buf, p, 1) == StrtokAt(buf, p, BLANK).buf
  {
    CutUnfold(buf, p, 1);
  }

  /** The format strings contain no terminator, and the usage texts no directive. */
  lemma PlainText()
    ensures 0 !in PEEK_USAGE && PERCENT !in PEEK_USAGE && 0 !in POKE_USAGE && PERCENT !in POKE_USAGE
    ensures 0 !in HEX8 + COLON + HEX2 && 0 !in HEX8 + EQUALS + HEX2 && 0 !in UNKNOWN + PERCENT_S
  {
  }

  lemma SignedBack(a: nat)
    requires a < M32
    ensures Signed(a, M32) % M32 == a
  {
  }

  method PrintPrompt(con: Vga)
    requires con.Valid()
    modifies con, con.mem
    ensures con.Valid() && con.Shows() == PutText(old(con.Shows()), PROMPT)
  {
    var s := PROMPT + [0];
    assert s == PROMPT + [0] + [];
    StrOfConcat(PROMPT, []);
    con.Puts(s, 0);
  }
}
