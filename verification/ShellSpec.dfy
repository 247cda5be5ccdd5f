/**
 The command interpreter on values: what a line of words prints and does to
 memory. Memory is the 2^32 bytes that `peek` and `poke` address.
 */
module ShellSpec {
  import opened Words
  import opened Numerals
  import opened IntFormat
  import opened Printf
  import opened DivMod
  import S = Strtoul
  import RoundTrip

  const PEEK: seq<byte> := ['p' as int, 'e' as int, 'e' as int, 'k' as int]
  const POKE: seq<byte> := ['p' as int, 'o' as int, 'k' as int, 'e' as int]

  /** "%08X" and "%02X" */
  const HEX8: seq<byte> := ['%' as int, '0' as int, '8' as int, 'X' as int]
  const HEX2: seq<byte> := ['%' as int, '0' as int, '2' as int, 'X' as int]
  const COLON: seq<byte> := [':' as int, ' ' as int]
  const EQUALS: seq<byte> := [' ' as int, '=' as int, ' ' as int]
  const UNKNOWN: seq<byte> := [
    'U' as int, 'n' as int, 'k' as int, 'n' as int, 'o' as int, 'w' as int, 'n' as int, ' ' as int,
    'c' as int, 'o' as int, 'm' as int, 'm' as int, 'a' as int, 'n' as int, 'd' as int, ':' as int, ' ' as int]
  const USAGE: seq<byte> := ['U' as int, 's' as int, 'a' as int, 'g' as int, 'e' as int, ':' as int, ' ' as int]
  const LOCATION: seq<byte> := [
    ' ' as int, '<' as int, 'l' as int, 'o' as int, 'c' as int, 'a' as int, 't' as int, 'i' as int, 'o' as int,
      'n' as int, '>' as int]
  const VALUE: seq<byte> := [' ' as int, '<' as int, 'v' as int, 'a' as int, 'l' as int, 'u' as int, 'e' as int,
    '>' as int]

  const PEEK_USAGE := USAGE + PEEK + LOCATION
  const POKE_USAGE := USAGE + POKE + LOCATION + VALUE

  /** A number as %0nX prints it: upper-case hexadecimal, at least `width` digits. */
  function Hex(v: nat, width: nat): seq<byte> {
    Rendered(v, 16, false, false, width, false, true)
  }

  /** The 32-bit number a word denotes to `strtoul(word, &end, 16)`. */
  function Number(word: seq<byte>): (v: nat)
    ensures v < M32
  {
    ParseBelow(word);
    S.Parse(word, 16, M32).value
  }

  lemma ParseBelow(word: seq<byte>)
    ensures S.Parse(word, 16, M32).value < M32
  {
  }

  datatype Effect = Effect(out: seq<byte>, mem: seq<byte>)

  /** What a non-empty command line does. */
  function Execute(w: seq<seq<byte>>, m: seq<byte>): (e: Effect)
    requires |w| > 0 && |m| == M32
    ensures |e.mem| == M32
  {
    if w[0] == PEEK then
      if |w| < 2 then Effect(PEEK_USAGE, m)
      else Effect(Hex(Number(w[1]), 8) + COLON + Hex(m[Number(w[1])], 2), m)
    else if w[0] == POKE then
      if |w| < 3 then Effect(POKE_USAGE, m)
      else
        var a, v := Number(w[1]), Number(w[2]);
        Effect(Hex(a, 8) + EQUALS + Hex(v, 2), m[a := v % 256])
    else Effect(UNKNOWN + w[0], m)
  }

  // ----- the formats it uses, rendered

  lemma {:induction false} RenderLiteral(t: seq<byte>, args: seq<Arg>)
    requires PERCENT !in t
    ensures Render(t, args) == Done(t, args, [])
    decreases |t|
  {
    if t != [] {
      RenderLiteral(t[1..], args);
      assert [t[0]] + t[1..] == t;
    }
  }

  lemma {:induction false} ReadHex(c: byte)
    requires '1' as int <= c <= '9' as int
    ensures ReadDirective(['0' as int, c, 'X' as int]) ==
      (Directive(NO_FLAGS.(zero := true), c - 48, false, 6, false, 0), ['X' as int])
  {
    var t: seq<byte> := ['0' as int, c, 'X' as int];
    var x: seq<byte> := ['X' as int];
    assert t[1..] == [c] + x && t[1..][1..] == x;
    assert ReadFlags(t, NO_FLAGS) == ReadFlags(t[1..], NO_FLAGS.(zero := true)) == (NO_FLAGS.(zero := true), t[1..]);
    assert ReadNumber(t[1..], 0) == ReadNumber(x, c - 48) == (c - 48, x);
  }

  lemma {:induction false} RenderHex(c: byte, v: int, rest: seq<Arg>)
    requires '1' as int <= c <= '9' as int
    ensures Render([PERCENT, '0' as int, c, 'X' as int], [IntArg(v)] + rest) == Done(Hex(v % M32, c - 48), rest, [])
  {
    var f: seq<byte> := [PERCENT, '0' as int, c, 'X' as int];
    var args := [IntArg(v)] + rest;
    assert f[1..] == ['0' as int, c, 'X' as int];
    hide ReadDirective, NoBitLost, Rendered;
    ReadHex(c);
    SmallIsSafe(v % M32, 16);
    assert args[1..] == rest;
    var (d, r) := ReadDirective(f[1..]);
    var o := RenderDirective(d, r[0], args);
    assert [] + Hex(v % M32, c - 48) == Hex(v % M32, c - 48);
    assert o == Done(Hex(v % M32, c - 48), rest, []);
    assert Render(r[1..], o.args) == Done([], rest, []);
    ThenEnd(o);
  }

  /** printf("%08X<sep>%02X", a, v) */
  lemma {:induction false} RenderPair(sep: seq<byte>, a: int, v: int)
    requires PERCENT !in sep
    ensures Render(HEX8 + sep + HEX2, [IntArg(a), IntArg(v)]) ==
      Done(Hex(a % M32, 8) + sep + Hex(v % M32, 2), [], [])
  {
    hide Render, Hex;
    var args := [IntArg(a), IntArg(v)];
    var tail := [IntArg(v)];
    assert args == [IntArg(a)] + tail && tail == [IntArg(v)] + [];
    RenderHex('8' as int, a, tail);
    RenderLiteral(sep, tail);
    RenderHex('2' as int, v, []);
    RenderCompose(HEX8, sep, args);
    RenderCompose(HEX8 + sep, HEX2, args);
  }

  const PERCENT_S: seq<byte> := ['%' as int, 's' as int]

  lemma {:induction false} RenderString(word: seq<byte>)
    requires 0 !in word
    ensures Render(PERCENT_S, [StrArg(word)]) == Done(word, [], [])
  {
  }

  /** printf("Unknown command: %s", word) */
  lemma {:induction false} RenderUnknown(word: seq<byte>)
    requires 0 !in word
    ensures Render(UNKNOWN + PERCENT_S, [StrArg(word)]) == Done(UNKNOWN + word, [], [])
  {
    hide Render;
    RenderLiteral(UNKNOWN, [StrArg(word)]);
    RenderCompose(UNKNOWN, PERCENT_S, [StrArg(word)]);
    RenderString(word);
  }

  // ----- what the numbers look like

  /** %08X of a 32-bit number is eight hexadecimal digits, %02X of a byte is two, and they denote the number. */
  lemma {:induction false} HexExact(v: nat, width: nat)
    requires v < M32
    ensures width == 8 || (width == 2 && v < 256) ==> |Hex(v, width)| == width
    ensures Number(Hex(v, width)) == v
  {
    hide Rendered, Digits, Pow, S.Parse, Natural;
    HexParses(v, width);
    RenderedShape(v, 16, false, false, width, false, true);
    HexDigitCount(v);
  }

  lemma {:induction false} HexParses(v: nat, width: nat)
    requires v < M32
    ensures Number(Hex(v, width)) == v
  {
    hide Rendered, S.Parse, Natural;
    RoundTrip.PrintParse(v, 16, false, false, width, false, true, M32);
  }

  lemma {:induction false} HexDigitCount(v: nat)
    requires v < M32
    ensures |Natural(v, 16, false, false)| <= 8 && (v < 256 ==> |Natural(v, 16, false, false)| <= 2)
  {
    hide Digits, Pow;
    HexPowers();
    DigitsLength(v, 16, 8);
    if v < 256 {
      DigitsLength(v, 16, 2);
    }
  }

  lemma {:induction false} HexPowers()
    ensures Pow(16, 2) == 256 && Pow(16, 8) == M32
  {
  }

  /** They are written with 0 to 9 and A to F. */
  lemma {:induction false} HexCharacters(v: nat, width: nat)
    ensures forall c :: c in Hex(v, width) ==> '0' as int <= c <= '9' as int || 'A' as int <= c <= 'F' as int
  {
    hide Natural, Rendered, Padding;
    RenderedShape(v, 16, false, false, width, false, true);
    var t := Natural(v, 16, false, false);
    ZeroPadding(width - |t|);
    NaturalCharacters(v);
    assert Hex(v, width) == Padding(width - |t|, true) + t;
  }

  lemma ZeroPadding(n: int)
    ensures forall c :: c in Padding(n, true) ==> c == '0' as int
  {
  }

  lemma {:induction false} NaturalCharacters(v: nat)
    ensures forall c :: c in Natural(v, 16, false, false) ==>
      '0' as int <= c <= '9' as int || 'A' as int <= c <= 'F' as int
  {
    hide Digits;
    var ds := Digits(v, 16);
    DigitsCanonical(v, 16);
    var t := Natural(v, 16, false, false);
    assert t == DigitText(ds);
    forall k | 0 <= k < |t| ensures '0' as int <= t[k] <= '9' as int || 'A' as int <= t[k] <= 'F' as int {
      HexCharacter(ds[k]);
    }
  }

  lemma HexCharacter(d: nat)
    requires d < 16
    ensures '0' as int <= DIGITS[d] <= '9' as int || 'A' as int <= DIGITS[d] <= 'F' as int
  {
  }

  // ----- the texts of the shell

  /** The command words and messages, letter by letter. */
  lemma CommandWords()
    ensures PEEK == Ascii("peek") && POKE == Ascii("poke") && COLON == Ascii(": ") && EQUALS == Ascii(" = ")
  {
  }

  lemma UsageTexts()
    ensures PEEK_USAGE == Ascii("Usage: peek <location>") && POKE_USAGE == Ascii("Usage: poke <location> <value>")
  {
  }

  lemma UnknownText()
    ensures UNKNOWN == Ascii("Unknown command: ")
  {
  }

  /** What each command line does, in those words: extra words are ignored, missing ones bring the usage. */
  lemma {:induction false} CommandsDo(w: seq<seq<byte>>, m: seq<byte>)
    requires |w| > 0 && |m| == M32
    ensures var e := Execute(w, m);
      && (w == [Ascii("peek")] ==> e.out == Ascii("Usage: peek <location>") && e.mem == m)
      && (w[0] == Ascii("poke") && |w| <= 2 ==> e.out == Ascii("Usage: poke <location> <value>") && e.mem == m)
      && (w[0] != Ascii("peek") && w[0] != Ascii("poke") ==> e.out == Ascii("Unknown command: ") + w[0] && e.mem == m)
      && (w[0] == Ascii("peek") && |w| >= 2 ==> e.mem == m)
      && (w[0] == Ascii("poke") && |w| >= 3 ==>
            && e.mem[Number(w[1])] == Number(w[2]) % 256
            && forall k :: 0 <= k < M32 && k != Number(w[1]) ==> e.mem[k] == m[k])
  {
    hide Number, Hex;
    CommandWords();
    UsageTexts();
    UnknownText();
    assert PEEK != POKE;
  }
}
