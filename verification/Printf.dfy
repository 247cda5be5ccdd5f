/**
 `vprintf`: the directive loop, against a renderer that consumes a format one
 directive at a time. A format the C code gives no meaning to (a directive cut
 off by the end, a missing argument, a value its division cannot handle) is
 `Stuck`.
 */
module Printf {
  import opened Words
  import opened DivMod
  import opened IntFormat
  import opened FloatFormat

  const PERCENT: byte := '%' as int

  /** An integer, a string, a floating number, or a pointer for %n, named by a number. */
  datatype Arg = IntArg(v: int) | StrArg(s: seq<byte>) | RealArg(x: real) | PtrArg(p: nat)

  // ----- reading a directive

  datatype Flags = Flags(left: bool, plus: bool, alt: bool, space: bool, zero: bool)

  function FlagStep(fl: Flags, c: byte): (r: (bool, Flags)) {
    if c == '-' as int then (true, fl.(left := true))
    else if c == '+' as int then (true, fl.(plus := true))
    else if c == '#' as int then (true, fl.(alt := true))
    else if c == ' ' as int then (true, fl.(space := true))
    else if c == '0' as int then (true, fl.(zero := true))
    else (false, fl)
  }

  function ReadFlags(t: seq<byte>, fl: Flags): (r: (Flags, seq<byte>))
    ensures |r.1| <= |t|
    decreases |t|
  {
    if t != [] && FlagStep(fl, t[0]).0 then ReadFlags(t[1..], FlagStep(fl, t[0]).1) else (fl, t)
  }

  predicate IsDigit(c: byte) { 48 <= c <= 57 }

  function ReadNumber(t: seq<byte>, acc: nat): (r: (nat, seq<byte>))
    ensures |r.1| <= |t|
    decreases |t|
  {
    if t != [] && IsDigit(t[0]) then ReadNumber(t[1..], acc * 10 + (t[0] - 48)) else (acc, t)
  }

  /** Drops a `*` if it comes next. */
  function ReadStar(t: seq<byte>): (r: (bool, seq<byte>))
    ensures |r.1| <= |t|
  {
    if t != [] && t[0] == '*' as int then (true, t[1..]) else (false, t)
  }

  /** The precision: a number and possibly a star behind a dot, 6 without one. */
  function ReadPrecision(t: seq<byte>): (r: (nat, bool, seq<byte>))
    ensures |r.2| <= |t|
  {
    if t != [] && t[0] == '.' as int then
      var (n, u) := ReadNumber(t[1..], 0);
      var (star, w) := ReadStar(u);
      (n, star, w)
    else (6, false, t)
  }

  predicate IsLength(c: byte) {
    c == 'h' as int || c == 'l' as int || c == 'j' as int || c == 'z' as int || c == 't' as int || c == 'L' as int
  }

  /** A second `h` sets the length but is left in place, to be taken for the conversion. */
  function ReadLength(t: seq<byte>): (r: (byte, seq<byte>))
    ensures |r.1| <= |t|
  {
    if t == [] || !IsLength(t[0]) then (0, t)
    else if |t| > 1 && t[1] == 'h' as int then ('H' as int, t[1..])
    else if |t| > 1 && t[1] == 'l' as int then ('q' as int, t[2..])
    else (t[0], t[1..])
  }

  datatype Directive = Directive(
    flags: Flags, width: nat, widthStar: bool, precision: nat, precStar: bool, length: byte)

  const NO_FLAGS := Flags(false, false, false, false, false)

  /** What follows `%`, up to but not including the conversion character. */
  function ReadDirective(t: seq<byte>): (r: (Directive, seq<byte>))
    ensures |r.1| <= |t|
  {
    var (fl, t1) := ReadFlags(t, NO_FLAGS);
    var (w, t2) := ReadNumber(t1, 0);
    var (ws, t3) := ReadStar(t2);
    var (p, ps, t4) := ReadPrecision(t3);
    var (len, t5) := ReadLength(t4);
    (Directive(fl, w, ws, p, ps, len), t5)
  }

  // ----- converting arguments

  function Signed(v: int, modulus: nat): (r: int)
    requires modulus >= 2
  {
    var u := v % modulus;
    if u < modulus / 2 then u else u - modulus
  }

  /** An unsigned conversion's argument as `__int_str` receives it; None when the length is not handled. */
  datatype Picked = None | Some(v: int)

  function UnsignedValue(length: byte, v: int): Picked {
    if length == 0 || length == 't' as int then Some(v % M32)
    else if length == 'H' as int then Some(v % 256)
    else if length == 'h' as int then Some(v % 0x1_0000)
    else if length == 'l' as int || length == 'q' as int || length == 'j' as int then Some(Signed(v, M64))
    else if length == 'z' as int then Some(Signed(v, M32))
    else None
  }

  function SignedValue(length: byte, v: int): Picked {
    if length == 0 || length == 'l' as int || length == 'z' as int then Some(Signed(v, M32))
    else if length == 'H' as int then Some(Signed(v, 256))
    else if length == 'h' as int then Some(Signed(v, 0x1_0000))
    else if length == 'q' as int || length == 'j' as int then Some(Signed(v, M64))
    else if length == 't' as int then Some(v % M32)
    else None
  }

  function ArgValue(signed: bool, length: byte, v: int): Picked {
    if signed then SignedValue(length, v) else UnsignedValue(length, v)
  }

  // ----- rendering

  /** What %n does: the object of the length's type that `p` points to receives the count. */
  datatype Store = Store(p: nat, length: byte, count: nat)

  datatype Output = Stuck | Done(out: seq<byte>, args: seq<Arg>, stores: seq<Store>)

  /** The stores of a text that comes `n` characters later. */
  function Later(stores: seq<Store>, n: nat): (r: seq<Store>)
    ensures |r| == |stores|
  {
    seq(|stores|, k requires 0 <= k < |stores| => stores[k].(count := stores[k].count + n))
  }

  /** First `a`, then `b`, which was rendered with the arguments that `a` left. */
  function Then(a: Output, b: Output): Output {
    if a.Stuck? || b.Stuck? then Stuck else Done(a.out + b.out, b.args, a.stores + Later(b.stores, |a.out|))
  }

  function Prepend(t: seq<byte>, o: Output): Output {
    if o.Stuck? then Stuck else Done(t + o.out, o.args, Later(o.stores, |t|))
  }

  /** One integer, formatted by `__int_str` into a 256-byte buffer. */
  ghost function RenderInt(fl: Flags, width: int, base: nat, signed: bool, length: byte, args: seq<Arg>): Output
    requires 2 <= base <= 17
  {
    if ArgValue(signed, length, 0) == None then Done([], args, [])
    else if args == [] || !args[0].IntArg? then Stuck
    else
      var v := ArgValue(signed, length, args[0].v);
      if v == None || !NoBitLost(Abs(v.v), base) || width >= 256 then Stuck
      else Done(Rendered(v.v, base, fl.plus, fl.space, width, fl.left, fl.zero), args[1..], [])
  }

  /** Text that the # flag puts before a number. */
  function AltPrefix(conv: byte, alt: bool): seq<byte> {
    if !alt then []
    else if conv == 'o' as int then [48]
    else if conv == 'X' as int || conv == 'x' as int then [48, 120]
    else []
  }

  /** The base each conversion ends up with; the switch makes it 17 for %x. */
  function BaseOf(conv: byte): nat {
    if conv == 'o' as int then 8
    else if conv == 'p' as int || conv == 'X' as int then 16
    else if conv == 'x' as int then 17
    else 10
  }

  predicate IsUnsignedConv(c: byte) {
    c == 'o' as int || c == 'p' as int || c == 'X' as int || c == 'x' as int || c == 'u' as int
  }

  predicate IsSignedConv(c: byte) { c == 'd' as int || c == 'i' as int }

  predicate IsScientific(c: byte) { c == 'e' as int || c == 'E' as int }

  predicate IsFloatConv(c: byte) {
    IsScientific(c) || c == 'f' as int || c == 'F' as int || c == 'g' as int || c == 'G' as int
  }

  ghost function RenderFloat(fl: Flags, width: int, prec: int, conv: byte, args: seq<Arg>): Output {
    if args == [] || !args[0].RealArg? || !Handled(args[0].x, width, prec, fl.alt, IsScientific(conv)) then Stuck
    else
      var n := if IsScientific(conv) then Normalised(args[0].x, 0) else Scientific(args[0].x, 0);
      var form := WholeWidth(width, prec, fl.alt, IsScientific(conv), n.expo);
      Done(Whole(n.mantissa, fl.plus, fl.space, form, fl.left, fl.zero)
             + Fraction(n.mantissa, prec, fl.alt)
             + (if IsScientific(conv) then ExponentText(conv, n.expo) else []),
           args[1..], [])
  }

  /** The length L has no case. */
  function RenderCount(length: byte, args: seq<Arg>): Output {
    if length == 'L' as int then Done([], args, [])
    else if args == [] || !args[0].PtrArg? then Stuck
    else Done([], args[1..], [Store(args[0].p, length, 0)])
  }

  ghost function RenderConv(d: Directive, width: int, prec: int, conv: byte, args: seq<Arg>): Output {
    if IsUnsignedConv(conv) then
      var length := if conv == 'p' as int then 'z' as int else d.length;
      Prepend(AltPrefix(conv, d.flags.alt), RenderInt(d.flags, width, BaseOf(conv), false, length, args))
    else if IsSignedConv(conv) then RenderInt(d.flags, width, 10, true, d.length, args)
    else if conv == 'c' as int then
      if args == [] || !args[0].IntArg? then Stuck else Done([args[0].v % 256], args[1..], [])
    else if conv == 's' as int then
      if args == [] || !args[0].StrArg? || 0 in args[0].s then Stuck else Done(args[0].s, args[1..], [])
    else if conv == 'n' as int then RenderCount(d.length, args)
    else if IsFloatConv(conv) then RenderFloat(d.flags, width, prec, conv, args)
    else Done([], args, [])
  }

  /** `*` arguments come before the converted one. */
  ghost function RenderDirective(d: Directive, conv: byte, args: seq<Arg>): Output {
    if d.widthStar && (args == [] || !args[0].IntArg?) then Stuck
    else
      var width := if d.widthStar then Signed(args[0].v, M32) else d.width;
      var a1 := if d.widthStar then args[1..] else args;
      if d.precStar && (a1 == [] || !a1[0].IntArg?) then Stuck
      else
        var prec := if d.precStar then Signed(a1[0].v, M32) else d.precision;
        RenderConv(d, width, prec, conv, if d.precStar then a1[1..] else a1)
  }

  /** The whole format, directive by directive. */
  ghost function Render(t: seq<byte>, args: seq<Arg>): Output
    decreases |t|
  {
    if t == [] then Done([], args, [])
    else if t[0] != PERCENT then Prepend([t[0]], Render(t[1..], args))
    else
      var (d, r) := ReadDirective(t[1..]);
      if r == [] then Stuck
      else
        var o := RenderDirective(d, r[0], args);
        if o.Stuck? then Stuck else Then(o, Render(r[1..], o.args))
  }

  // ----- composition

  lemma {:induction false} FlagsExtend(t: seq<byte>, g: seq<byte>, fl: Flags)
    requires ReadFlags(t, fl).1 != []
    ensures ReadFlags(t + g, fl) == (ReadFlags(t, fl).0, ReadFlags(t, fl).1 + g)
    decreases |t|
  {
    if t != [] && FlagStep(fl, t[0]).0 {
      FlagsExtend(t[1..], g, FlagStep(fl, t[0]).1);
      assert (t + g)[1..] == t[1..] + g;
    }
  }

  lemma {:induction false} NumberExtend(t: seq<byte>, g: seq<byte>, acc: nat)
    requires ReadNumber(t, acc).1 != []
    ensures ReadNumber(t + g, acc) == (ReadNumber(t, acc).0, ReadNumber(t, acc).1 + g)
    decreases |t|
  {
    if t != [] && IsDigit(t[0]) {
      NumberExtend(t[1..], g, acc * 10 + (t[0] - 48));
      assert (t + g)[1..] == t[1..] + g;
    }
  }

  lemma {:induction false} StarExtend(t: seq<byte>, g: seq<byte>)
    requires ReadStar(t).1 != []
    ensures ReadStar(t + g) == (ReadStar(t).0, ReadStar(t).1 + g)
  {
    assert t != [] ==> (t + g)[1..] == t[1..] + g;
  }

  lemma {:induction false} PrecisionExtend(t: seq<byte>, g: seq<byte>)
    requires ReadPrecision(t).2 != []
    ensures ReadPrecision(t + g) == (ReadPrecision(t).0, ReadPrecision(t).1, ReadPrecision(t).2 + g)
  {
    if t != [] && t[0] == '.' as int {
      assert (t + g)[1..] == t[1..] + g;
      NumberExtend(t[1..], g, 0);
      StarExtend(ReadNumber(t[1..], 0).1, g);
    }
  }

  lemma {:induction false} LengthExtend(t: seq<byte>, g: seq<byte>)
    requires ReadLength(t).1 != []
    ensures ReadLength(t + g) == (ReadLength(t).0, ReadLength(t).1 + g)
  {
    assert t != [] ==> (t + g)[1..] == t[1..] + g;
    assert |t| > 1 ==> (t + g)[2..] == t[2..] + g;
  }

  /** A directive that is complete in `t` is read the same with anything after it. */
  lemma {:induction false} DirectiveExtend(t: seq<byte>, g: seq<byte>)
    requires ReadDirective(t).1 != []
    ensures ReadDirective(t + g) == (ReadDirective(t).0, ReadDirective(t).1 + g)
  {
    hide ReadFlags, ReadNumber, ReadStar, ReadPrecision, ReadLength;
    var (fl, t1) := ReadFlags(t, NO_FLAGS);
    var (w, t2) := ReadNumber(t1, 0);
    var (ws, t3) := ReadStar(t2);
    var (p, ps, t4) := ReadPrecision(t3);
    FlagsExtend(t, g, NO_FLAGS);
    NumberExtend(t1, g, 0);
    StarExtend(t2, g);
    PrecisionExtend(t3, g);
    LengthExtend(t4, g);
  }

  /** Compositionality: a format in two parts prints the parts in turn, each on its own arguments. */
  lemma {:induction false} RenderCompose(f: seq<byte>, g: seq<byte>, args: seq<Arg>)
    requires Render(f, args).Done?
    ensures Render(f + g, args) == Then(Render(f, args), Render(g, Render(f, args).args))
    decreases |f|
  {
    hide ReadDirective, RenderDirective;
    if f == [] {
      assert f + g == g;
      ThenNothing(args, Render(g, args));
    } else if f[0] != PERCENT {
      assert (f + g)[1..] == f[1..] + g;
      RenderCompose(f[1..], g, args);
      PrependThen([f[0]], Render(f[1..], args), Render(g, Render(f, args).args));
    } else {
      assert (f + g)[1..] == f[1..] + g;
      DirectiveExtend(f[1..], g);
      var (d, r) := ReadDirective(f[1..]);
      assert (r + g)[1..] == r[1..] + g;
      var o := RenderDirective(d, r[0], args);
      RenderCompose(r[1..], g, o.args);
      ThenAssociates(o, Render(r[1..], o.args), Render(g, Render(f, args).args));
    }
  }

  lemma {:induction false} ThenNothing(args: seq<Arg>, o: Output)
    ensures Then(Done([], args, []), o) == o && Prepend([], o) == o
  {
    if o.Done? {
      assert [] + o.out == o.out && Later(o.stores, 0) == o.stores && [] + o.stores == o.stores;
    }
  }

  /** Nothing may follow. */
  lemma {:induction false} ThenEnd(o: Output)
    requires o.Done?
    ensures Then(o, Done([], o.args, [])) == o
  {
    assert o.out + [] == o.out && o.stores + Later([], |o.out|) == o.stores;
  }

  lemma {:induction false} PrependThen(t: seq<byte>, a: Output, b: Output)
    ensures Then(Prepend(t, a), b) == Prepend(t, Then(a, b))
  {
    if a.Done? && b.Done? {
      assert t + a.out + b.out == t + (a.out + b.out);
      assert Later(a.stores + Later(b.stores, |a.out|), |t|) == Later(a.stores, |t|) + Later(b.stores, |t + a.out|);
    }
  }

  lemma {:induction false} ThenAssociates(a: Output, b: Output, c: Output)
    ensures Then(Then(a, b), c) == Then(a, Then(b, c))
  {
    if a.Done? && b.Done? && c.Done? {
      assert a.out + b.out + c.out == a.out + (b.out + c.out);
      assert Later(b.stores + Later(c.stores, |b.out|), |a.out|) ==
        Later(b.stores, |a.out|) + Later(c.stores, |a.out + b.out|);
    }
  }

  /** %n behind a text stores the number of characters the text printed. */
  lemma {:induction false} CountStored(f: seq<byte>, args: seq<Arg>, p: nat, rest: seq<Arg>)
    requires Render(f, args).Done? && Render(f, args).args == [PtrArg(p)] + rest
    ensures var o := Render(f, args);
      Render(f + [PERCENT, 'n' as int], args) == Done(o.out, rest, o.stores + [Store(p, 0, |o.out|)])
  {
    hide Render;
    var o := Render(f, args);
    RenderCompose(f, [PERCENT, 'n' as int], args);
    RenderN(p, rest);
    assert o.out + [] == o.out && Later([Store(p, 0, 0)], |o.out|) == [Store(p, 0, |o.out|)];
  }

  lemma {:induction false} ReadN()
    ensures ReadDirective(['n' as int]) == (Directive(NO_FLAGS, 0, false, 6, false, 0), ['n' as int])
  {
  }

  lemma {:induction false} RenderN(p: nat, rest: seq<Arg>)
    ensures Render([PERCENT, 'n' as int], [PtrArg(p)] + rest) == Done([], rest, [Store(p, 0, 0)])
  {
    var g: seq<byte>, args := [PERCENT, 'n' as int], [PtrArg(p)] + rest;
    hide ReadDirective, RenderInt, RenderFloat, Later;
    ReadN();
    assert g[1..] == ['n' as int] && args[1..] == rest;
    assert Render([], rest) == Done([], rest, []);
    ThenEnd(Done([], rest, [Store(p, 0, 0)]));
  }
}
