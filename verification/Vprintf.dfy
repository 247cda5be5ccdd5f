/**
 The `vprintf` loop over the console: one pass over the format, printing as
 it goes and counting what it prints.
 */
module Vprintf {
  import opened Words
  import opened CStrings
  import opened DivMod
  import opened IntFormat
  import opened FloatFormat
  import opened Console
  import opened Printf
  import opened Tokens

  /** format[i], with the terminator behind the last character. */
  function CharAt(f: seq<byte>, i: nat): byte {
    if i < |f| then f[i] else 0
  }

  /** `displayCharacter` over a string. */
  method DisplayString(con: Vga, s: seq<byte>, p: nat) returns (chars: nat)
    requires con.Valid() && Terminated(s, p)
    modifies con, con.mem
    ensures con.Valid() && con.Shows() == PutText(old(con.Shows()), Str(s, p)) && chars == |Str(s, p)|
  {
    ghost var t := Str(s, p);
    chars := 0;
    assert t[..0] == [];
    while s[p + chars] != 0
      invariant 0 <= chars <= |t| && con.Valid()
      invariant con.Shows() == PutText(old(con.Shows()), t[..chars])
      decreases |t| - chars
    {
      PutTextSnoc(old(con.Shows()), t[..chars], s[p + chars]);
      assert t[..chars + 1] == t[..chars] + [s[p + chars]];
      con.Putc(s[p + chars]);
      chars := chars + 1;
    }
    assert t[..chars] == t;
  }

  // ----- reading a directive, character by character

  method ScanFlags(f: seq<byte>, i: nat) returns (fl: Flags, j: nat)
    requires i <= |f| && 0 !in f
    ensures j <= |f| && (fl, f[j..]) == ReadFlags(f[i..], NO_FLAGS)
  {
    fl, j := NO_FLAGS, i;
    while FlagStep(fl, CharAt(f, j)).0
      invariant i <= j <= |f| && ReadFlags(f[j..], fl) == ReadFlags(f[i..], NO_FLAGS)
      decreases |f| - j
    {
      assert f[j..][1..] == f[j + 1..];
      fl := FlagStep(fl, f[j]).1;
      j := j + 1;
    }
  }

  method ScanNumber(f: seq<byte>, i: nat) returns (n: nat, j: nat)
    requires i <= |f| && 0 !in f
    ensures j <= |f| && (n, f[j..]) == ReadNumber(f[i..], 0)
  {
    n, j := 0, i;
    while IsDigit(CharAt(f, j))
      invariant i <= j <= |f| && ReadNumber(f[j..], n) == ReadNumber(f[i..], 0)
      decreases |f| - j
    {
      assert f[j..][1..] == f[j + 1..];
      n := n * 10 + (f[j] - 48);
      j := j + 1;
    }
  }

  method ScanStar(f: seq<byte>, i: nat) returns (star: bool, j: nat)
    requires i <= |f|
    ensures j <= |f| && (star, f[j..]) == ReadStar(f[i..])
  {
    star := CharAt(f, i) == '*' as int;
    j := if star then i + 1 else i;
  }

  method ScanPrecision(f: seq<byte>, i: nat) returns (n: nat, star: bool, j: nat)
    requires i <= |f| && 0 !in f
    ensures j <= |f| && (n, star, f[j..]) == ReadPrecision(f[i..])
  {
    star, j := false, i;
    if CharAt(f, j) == '.' as int {
      assert f[i..][1..] == f[i + 1..];
      n, j := ScanNumber(f, i + 1);
      star, j := ScanStar(f, j);
    } else {
      n := 6;
    }
  }

  method ScanLength(f: seq<byte>, i: nat) returns (length: byte, j: nat)
    requires i <= |f|
    ensures j <= |f| && (length, f[j..]) == ReadLength(f[i..])
  {
    length, j := 0, i;
    if IsLength(CharAt(f, j)) {
      length := f[j];
      j := j + 1;
      if CharAt(f, j) == 'h' as int {
        length := 'H' as int;
      } else if CharAt(f, j) == 'l' as int {
        length := 'q' as int;
        j := j + 1;
      }
    }
  }

  method ScanDirective(f: seq<byte>, i: nat) returns (d: Directive, j: nat)
    requires i <= |f| && 0 !in f
    ensures j <= |f| && (d, f[j..]) == ReadDirective(f[i..])
  {
    hide ReadFlags, ReadNumber, ReadStar, ReadPrecision, ReadLength;
    var fl, w, ws, p, ps, len;
    fl, j := ScanFlags(f, i);
    w, j := ScanNumber(f, j);
    ws, j := ScanStar(f, j);
    p, ps, j := ScanPrecision(f, j);
    len, j := ScanLength(f, j);
    d := Directive(fl, w, ws, p, ps, len);
  }

  // ----- printing a conversion

  method PrintInt(con: Vga, buf: array<byte>, fl: Flags, width: int, base: nat, signed: bool, length: byte,
      args: seq<Arg>)
    returns (rest: seq<Arg>, chars: nat)
    requires con.Valid() && buf.Length == 256 && buf != con.mem && 2 <= base <= 17
    requires RenderInt(fl, width, base, signed, length, args).Done?
    modifies con, con.mem, buf
    ensures con.Valid()
    ensures var o := RenderInt(fl, width, base, signed, length, args);
      con.Shows() == PutText(old(con.Shows()), o.out) && rest == o.args && chars == |o.out|
  {
    if ArgValue(signed, length, 0) == None {
      rest, chars := args, 0;
    } else {
      var v := ArgValue(signed, length, args[0].v);
      NaturalLength(v.v, base, fl.plus, fl.space);
      IntStr(v.v, buf, base, fl.plus, fl.space, width, fl.left, fl.zero);
      chars := DisplayString(con, buf[..], 0);
      rest := args[1..];
    }
  }

  method PrintUnsigned(con: Vga, buf: array<byte>, d: Directive, width: int, prec: int, conv: byte, args: seq<Arg>)
    returns (rest: seq<Arg>, chars: nat)
    requires con.Valid() && buf.Length == 256 && buf != con.mem && IsUnsignedConv(conv)
    requires RenderConv(d, width, prec, conv, args).Done?
    modifies con, con.mem, buf
    ensures con.Valid()
    ensures var o := RenderConv(d, width, prec, conv, args);
      con.Shows() == PutText(old(con.Shows()), o.out) && rest == o.args && chars == |o.out|
  {
    hide RenderInt, PutText;
    var prefix := AltPrefix(conv, d.flags.alt);
    var length := if conv == 'p' as int then 'z' as int else d.length;
    ghost var o := RenderInt(d.flags, width, BaseOf(conv), false, length, args);
    assert prefix + [0] + [] == prefix + [0];
    StrOfConcat(prefix, []);
    PutTextAppend(con.Shows(), prefix, o.out);
    var n := DisplayString(con, prefix + [0], 0);
    rest, chars := PrintInt(con, buf, d.flags, width, BaseOf(conv), false, length, args);
    chars := n + chars;
  }

  // ----- floating numbers

  /** `floating *= 10`, as often as the precision says. */
  method ScaleUp(x: real, prec: nat) returns (y: real)
    ensures y == TimesTen(x, prec)
  {
    y := x;
    for i := 0 to prec
      invariant TimesTen(y, prec - i) == TimesTen(x, prec)
    {
      y := y * 10.0;
    }
  }

  /** The point and the decimals; the second number overwrites the first in the buffer and is cut to size. */
  method PrintFraction(con: Vga, buf: array<byte>, x: real, prec: nat, alt: bool) returns (chars: nat)
    requires con.Valid() && buf.Length == 256 && buf != con.mem
    requires prec < 256 && NoBitLost(Abs(Decimals(x, prec)), 10)
    modifies con, con.mem, buf
    ensures con.Valid() && con.Shows() == PutText(old(con.Shows()), Fraction(x, prec, alt))
    ensures chars == |Fraction(x, prec, alt)|
  {
    hide PutText, NoBitLost, DecimalText;
    PutNothing(con.Shows());
    var floating := ScaleUp(x - Trunc(x) as real, prec);
    var decPlaces := Trunc(floating + 0.5);
    chars := 0;
    if prec != 0 || alt {
      PutTextSnoc(con.Shows(), [], POINT);
      assert [] + [POINT] == [POINT];
      con.Putc(POINT);
      chars := 1;
    }
    if prec != 0 {
      PutTextAppend(old(con.Shows()), [POINT], DecimalText(decPlaces, prec));
      var n := PrintDecimals(con, buf, decPlaces, prec);
      chars := chars + n;
    }
  }

  /** `intStrBuffer[precSpec] = 0` cuts the number to size. */
  method PrintDecimals(con: Vga, buf: array<byte>, d: int, prec: nat) returns (chars: nat)
    requires con.Valid() && buf.Length == 256 && buf != con.mem && prec < 256 && NoBitLost(Abs(d), 10)
    modifies con, con.mem, buf
    ensures con.Valid() && con.Shows() == PutText(old(con.Shows()), DecimalText(d, prec))
    ensures chars == |DecimalText(d, prec)|
  {
    hide PutText, NoBitLost, Rendered, Natural, Terminated, Str;
    NaturalLength(d, 10, false, false);
    IntStr(d, buf, 10, false, false, 0, false, false);
    NulCuts(buf[..], prec);
    ghost var t := Str(buf[..], 0);
    assert t[..|t|] == t;
    buf[prec] := 0;
    chars := DisplayString(con, buf[..], 0);
  }

  method PrintExponent(con: Vga, buf: array<byte>, letter: byte, expo: nat) returns (chars: nat)
    requires con.Valid() && buf.Length == 256 && buf != con.mem && letter != 0 && NoBitLost(expo, 10)
    modifies con, con.mem, buf
    ensures con.Valid() && con.Shows() == PutText(old(con.Shows()), ExponentText(letter, expo))
    ensures chars == |ExponentText(letter, expo)|
  {
    hide PutText, NoBitLost, Rendered, Natural, Terminated, Str;
    var s := [letter, PLUS, 0];
    assert s == [letter, PLUS] + [0] + [];
    StrOfConcat([letter, PLUS], []);
    PutTextAppend(con.Shows(), [letter, PLUS], Rendered(expo, 10, false, false, 2, false, true));
    chars := DisplayString(con, s, 0);
    NaturalLength(expo, 10, false, false);
    IntStr(expo, buf, 10, false, false, 2, false, true);
    var n := DisplayString(con, buf[..], 0);
    chars := chars + n;
  }

  /** `while (emode && floating >= 10)` */
  method Normalise(x: real, emode: bool) returns (floating: real, expo: nat)
    ensures Scientific(floating, expo) == if emode then Normalised(x, 0) else Scientific(x, 0)
  {
    floating, expo := x, 0;
    while emode && floating >= 10.0
      invariant if emode then Normalised(floating, expo) == Normalised(x, 0) else floating == x && expo == 0
      decreases if floating >= 10.0 then floating.Floor else 0
    {
      floating := floating / 10.0;
      expo := expo + 1;
    }
  }

  method PrintFloat(con: Vga, buf: array<byte>, fl: Flags, width: int, prec: int, conv: byte, args: seq<Arg>)
    returns (rest: seq<Arg>, chars: nat)
    requires con.Valid() && buf.Length == 256 && buf != con.mem && IsFloatConv(conv)
    requires RenderFloat(fl, width, prec, conv, args).Done?
    modifies con, con.mem, buf
    ensures con.Valid()
    ensures var o := RenderFloat(fl, width, prec, conv, args);
      con.Shows() == PutText(old(con.Shows()), o.out) && rest == o.args && chars == |o.out|
  {
    hide PutText, NoBitLost, Rendered, Natural, Fraction, ExponentText, Normalised, Decimals;
    var emode := IsScientific(conv);
    var floating, expo := Normalise(args[0].x, emode);
    var form := WholeWidth(width, prec, fl.alt, emode, expo);
    var value := Trunc(floating);
    SmallIsSafe(Abs(value), 10);
    NaturalLength(value, 10, fl.plus, fl.space);
    IntStr(value, buf, 10, fl.plus, fl.space, form, fl.left, fl.zero);
    chars := DisplayString(con, buf[..], 0);
    ghost var whole, fraction := Whole(floating, fl.plus, fl.space, form, fl.left, fl.zero), Fraction(floating,
      prec, fl.alt);
    PutTextAppend(old(con.Shows()), whole, fraction);
    var n := PrintFraction(con, buf, floating, prec, fl.alt);
    chars := chars + n;
    assert whole + fraction + [] == whole + fraction;
    if emode {
      PutTextAppend(old(con.Shows()), whole + fraction, ExponentText(conv, expo));
      n := PrintExponent(con, buf, conv, expo);
      chars := chars + n;
    }
    rest := args[1..];
  }

  // ----- one conversion, one directive, the format

  /** `sofar` characters have been printed, which is what %n stores. */
  method PrintConv(con: Vga, buf: array<byte>, d: Directive, width: int, prec: int, conv: byte, args: seq<Arg>,
      sofar: nat)
    returns (rest: seq<Arg>, chars: nat, stores: seq<Store>)
    requires con.Valid() && buf.Length == 256 && buf != con.mem
    requires RenderConv(d, width, prec, conv, args).Done?
    modifies con, con.mem, buf
    ensures con.Valid()
    ensures var o := RenderConv(d, width, prec, conv, args);
      && con.Shows() == PutText(old(con.Shows()), o.out) && rest == o.args && chars == |o.out|
      && stores == Later(o.stores, sofar)
  {
    hide RenderInt, RenderFloat, PutText;
    Memset(buf, 0, 0, 256);
    PutNothing(con.Shows());
    stores := [];
    assert Later([], sofar) == [];
    if IsUnsignedConv(conv) {
      NoStores(d, width, prec, conv, args);
      rest, chars := PrintUnsigned(con, buf, d, width, prec, conv, args);
    } else if IsSignedConv(conv) {
      NoStores(d, width, prec, conv, args);
      rest, chars := PrintInt(con, buf, d.flags, width, 10, true, d.length, args);
    } else if conv == 'c' as int {
      assert [] + [args[0].v % 256] == [args[0].v % 256];
      PutTextSnoc(con.Shows(), [], args[0].v % 256);
      con.Putc(args[0].v % 256);
      rest, chars := args[1..], 1;
    } else if conv == 's' as int {
      var s := args[0].s + [0];
      assert s == args[0].s + [0] + [];
      StrOfConcat(args[0].s, []);
      chars := DisplayString(con, s, 0);
      rest := args[1..];
    } else if conv == 'n' as int {
      rest, chars := args, 0;
      if d.length != 'L' as int {
        stores := [Store(args[0].p, d.length, sofar)];
        rest := args[1..];
      }
    } else if IsFloatConv(conv) {
      NoStores(d, width, prec, conv, args);
      rest, chars := PrintFloat(con, buf, d.flags, width, prec, conv, args);
    } else {
      rest, chars := args, 0;
    }
  }

  lemma NoStores(d: Directive, width: int, prec: int, conv: byte, args: seq<Arg>)
    requires IsUnsignedConv(conv) || IsSignedConv(conv) || IsFloatConv(conv)
    requires RenderConv(d, width, prec, conv, args).Done?
    ensures RenderConv(d, width, prec, conv, args).stores == []
  {
  }

  method PrintDirective(con: Vga, buf: array<byte>, d: Directive, conv: byte, args: seq<Arg>, sofar: nat)
    returns (rest: seq<Arg>, chars: nat, stores: seq<Store>)
    requires con.Valid() && buf.Length == 256 && buf != con.mem
    requires RenderDirective(d, conv, args).Done?
    modifies con, con.mem, buf
    ensures con.Valid()
    ensures var o := RenderDirective(d, conv, args);
      && con.Shows() == PutText(old(con.Shows()), o.out) && rest == o.args && chars == |o.out|
      && stores == Later(o.stores, sofar)
  {
    hide RenderConv, PutText;
    var width: int, prec: int := d.width, d.precision;
    rest := args;
    if d.widthStar {
      width := Signed(rest[0].v, M32);
      rest := rest[1..];
    }
    if d.precStar {
      prec := Signed(rest[0].v, M32);
      rest := rest[1..];
    }
    rest, chars, stores := PrintConv(con, buf, d, width, prec, conv, rest, sofar);
  }

  /** The routine: the console receives exactly the rendering, the count is its length, and %n stores as it should. */
  method Vprintf(con: Vga, f: seq<byte>, args: seq<Arg>) returns (chars: nat, stores: seq<Store>)
    requires con.Valid() && 0 !in f && Render(f, args).Done?
    modifies con, con.mem
    ensures con.Valid() && con.Shows() == PutText(old(con.Shows()), Render(f, args).out)
    ensures chars == |Render(f, args).out| && stores == Render(f, args).stores
  {
    hide ReadDirective, RenderDirective, PutText, Later;
    ghost var whole := Render(f, args);
    ghost var out := [];
    var buf := new byte[256];
    var rest := args;
    chars, stores := 0, [];
    var i := 0;
    assert f[0..] == f;
    PutNothing(con.Shows());
    ThenNothing(args, whole);
    while CharAt(f, i) != 0
      invariant 0 <= i <= |f| && con.Valid() && fresh(buf)
      invariant Render(f[i..], rest).Done? && whole == Then(Done(out, rest, stores), Render(f[i..], rest))
      invariant con.Shows() == PutText(old(con.Shows()), out) && chars == |out|
      decreases |f| - i
    {
      ghost var before := Done(out, rest, stores);
      if f[i] == PERCENT {
        assert f[i..][1..] == f[i + 1..];
        var d, j := ScanDirective(f, i + 1);
        assert f[j..][1..] == f[j + 1..];
        ghost var o := RenderDirective(d, f[j], rest);
        PutTextAppend(old(con.Shows()), out, o.out);
        ThenAssociates(before, o, Render(f[j + 1..], o.args));
        var n, added;
        rest, n, added := PrintDirective(con, buf, d, f[j], rest, chars);
        out := out + o.out;
        stores := stores + added;
        chars := chars + n;
        i := j;
      } else {
        assert f[i..][1..] == f[i + 1..];
        PutTextSnoc(old(con.Shows()), out, f[i]);
        OneCharacter(before, f[i], Render(f[i + 1..], rest));
        con.Putc(f[i]);
        out := out + [f[i]];
        chars := chars + 1;
      }
      i := i + 1;
    }
    assert f[i..] == [];
    ThenEnd(Done(out, rest, stores));
  }

  /** A character printed before `o` is a character printed after what came before. */
  lemma {:induction false} OneCharacter(before: Output, c: byte, o: Output)
    requires before.Done?
    ensures Then(before, Prepend([c], o)) == Then(before.(out := before.out + [c]), o)
  {
    if o.Done? {
      assert before.out + ([c] + o.out) == before.out + [c] + o.out;
      assert Later(Later(o.stores, 1), |before.out|) == Later(o.stores, |before.out| + 1);
    }
  }

  lemma {:induction false} PutNothing(s: Screen)
    requires s.Ok()
    ensures PutText(s, []) == s
  {
  }
}
