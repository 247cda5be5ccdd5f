/**
 `strtok`: its hidden position, the terminators it writes into the caller's
 buffer, and what repeated calls deliver.
 */
module Tokens {
  import opened Words
  import opened CStrings

  // ----- the tokens of a text, independently of how they are found

  /** `t[a..b]` is a maximal run of characters outside `d`. */
  ghost predicate IsRun(t: seq<byte>, d: set<byte>, a: nat, b: nat) {
    && a < b <= |t|
    && (forall k :: a <= k < b ==> t[k] !in d)
    && (a > 0 ==> t[a - 1] in d)
    && (b < |t| ==> t[b] in d)
  }

  /** Skipping delimiters and then non-delimiters finds a non-empty stretch with none inside. */
  lemma {:induction false} RunAt(t: seq<byte>, d: set<byte>, i: nat)
    requires i <= |t|
    ensures var a := Skip(t, d, i);
      var b := Until(t, d, a);
      && (forall k :: i <= k < a ==> t[k] in d) && (a < |t| ==> t[a] !in d && a < b)
      && (forall k :: a <= k < b ==> t[k] !in d) && (b < |t| ==> t[b] in d)
  {
    var a := Skip(t, d, i);
    SkipIs(t, d, i, a);
    UntilIs(t, d, a, Until(t, d, a));
  }

  /** The runs that start at or after `i`, left to right. */
  ghost function Runs(t: seq<byte>, d: set<byte>, i: nat): (r: seq<(nat, nat)>)
    requires i <= |t|
    decreases |t| - i
  {
    var a := Skip(t, d, i);
    if a == |t| then []
    else
      var b := Until(t, d, a);
      RunAt(t, d, i);
      [(a, b)] + Runs(t, d, b)
  }

  /** The runs as texts. */
  ghost function Split(t: seq<byte>, d: set<byte>): (w: seq<seq<byte>>)
    decreases |t|
  {
    var a := Skip(t, d, 0);
    if a == |t| then []
    else
      var b := Until(t, d, a);
      RunAt(t, d, 0);
      [t[a..b]] + Split(t[b..], d)
  }

  /** `rs` lists the maximal runs that start at or after `i`: all of them, nothing else, in order. */
  ghost predicate ListsRuns(t: seq<byte>, d: set<byte>, i: nat, rs: seq<(nat, nat)>) {
    && (forall k :: 0 <= k < |rs| ==> i <= rs[k].0 && IsRun(t, d, rs[k].0, rs[k].1))
    && (forall a: nat, b: nat :: i <= a && IsRun(t, d, a, b) ==> (a, b) in rs)
    && (forall j, k :: 0 <= j < k < |rs| ==> rs[j].1 < rs[k].0)
  }

  lemma {:induction false} RunsAreExactlyTheMaximalRuns(t: seq<byte>, d: set<byte>, i: nat)
    requires i <= |t| && (0 < i < |t| ==> t[i - 1] in d || t[i] in d)
    ensures ListsRuns(t, d, i, Runs(t, d, i))
    decreases |t| - i
  {
    hide Skip, Until, ListsRuns;
    var a := Skip(t, d, i);
    if a < |t| {
      var b := Until(t, d, a);
      RunAt(t, d, i);
      RunsAreExactlyTheMaximalRuns(t, d, b);
      ListsRunsCons(t, d, i, a, b, Runs(t, d, b));
    } else {
      RunAt(t, d, i);
      NoRuns(t, d, i);
    }
  }

  lemma {:induction false} NoRuns(t: seq<byte>, d: set<byte>, i: nat)
    requires forall k :: i <= k < |t| ==> t[k] in d
    ensures ListsRuns(t, d, i, [])
  {
    assert forall a: nat, b: nat :: i <= a && IsRun(t, d, a, b) ==> t[a] !in d;
  }

  lemma {:induction false} ListsRunsCons(t: seq<byte>, d: set<byte>, i: nat, a: nat, b: nat, rest: seq<(nat, nat)>)
    requires ListsRuns(t, d, b, rest) && i <= a && IsRun(t, d, a, b)
    requires forall k :: i <= k < a ==> t[k] in d
    ensures ListsRuns(t, d, i, [(a, b)] + rest)
  {
    hide IsRun;
    var rs := [(a, b)] + rest;
    forall a': nat, b': nat | i <= a' && IsRun(t, d, a', b') ensures (a', b') in rs {
      RunIsListed(t, d, i, a, b, rest, a', b');
    }
    hide ListsRuns;
    forall k | 0 <= k < |rs| ensures i <= rs[k].0 && IsRun(t, d, rs[k].0, rs[k].1) {
      ListedIsRun(t, d, i, a, b, rest, k);
    }
    forall j, k | 0 <= j < k < |rs| ensures rs[j].1 < rs[k].0 {
      ListedInOrder(t, d, a, b, rest, j, k);
    }
    ListsRunsIf(t, d, i, rs);
  }

  lemma ListsRunsIf(t: seq<byte>, d: set<byte>, i: nat, rs: seq<(nat, nat)>)
    requires forall k :: 0 <= k < |rs| ==> i <= rs[k].0 && IsRun(t, d, rs[k].0, rs[k].1)
    requires forall a: nat, b: nat :: i <= a && IsRun(t, d, a, b) ==> (a, b) in rs
    requires forall j, k :: 0 <= j < k < |rs| ==> rs[j].1 < rs[k].0
    ensures ListsRuns(t, d, i, rs)
  {
  }

  lemma {:induction false} ListedIsRun(t: seq<byte>, d: set<byte>, i: nat, a: nat, b: nat, rest: seq<(nat, nat)>,
      k: nat)
    requires ListsRuns(t, d, b, rest) && i <= a && IsRun(t, d, a, b) && k <= |rest|
    ensures var r := ([(a, b)] + rest)[k]; i <= r.0 && IsRun(t, d, r.0, r.1)
  {
    if k > 0 {
      assert ([(a, b)] + rest)[k] == rest[k - 1];
      RunNonempty(t, d, a, b);
    }
  }

  lemma {:induction false} ListedInOrder(t: seq<byte>, d: set<byte>, a: nat, b: nat, rest: seq<(nat, nat)>, j: nat,
      k: nat)
    requires ListsRuns(t, d, b, rest) && IsRun(t, d, a, b) && j < k <= |rest|
    ensures ([(a, b)] + rest)[j].1 < ([(a, b)] + rest)[k].0
  {
    if j == 0 {
      RunAfter(t, d, a, b, rest[k - 1].0, rest[k - 1].1);
    } else {
      assert rest[j - 1].1 < rest[k - 1].0;
    }
  }

  lemma RunNonempty(t: seq<byte>, d: set<byte>, a: nat, b: nat)
    requires IsRun(t, d, a, b)
    ensures a < b
  {
  }

  lemma {:induction false} RunIsListed(t: seq<byte>, d: set<byte>, i: nat, a: nat, b: nat, rest: seq<(nat, nat)>,
      a': nat, b': nat)
    requires ListsRuns(t, d, b, rest) && i <= a' && IsRun(t, d, a, b) && IsRun(t, d, a', b')
    requires forall k :: i <= k < a ==> t[k] in d
    ensures (a', b') in [(a, b)] + rest
  {
    assert a <= a' by { assert t[a'] !in d; }
    if a' < b {
      RunUnique(t, d, a, b, a', b');
    }
  }

  lemma {:induction false} RunAfter(t: seq<byte>, d: set<byte>, a: nat, b: nat, a': nat, b': nat)
    requires IsRun(t, d, a, b) && IsRun(t, d, a', b') && b <= a'
    ensures b < a'
  {
    assert t[a'] !in d;
  }

  lemma {:induction false} RunUnique(t: seq<byte>, d: set<byte>, a: nat, b: nat, a': nat, b': nat)
    requires IsRun(t, d, a, b) && IsRun(t, d, a', b') && a <= a' < b
    ensures a == a' && b == b'
  {
  }

  lemma {:induction false} SkipShift(t: seq<byte>, d: set<byte>, b: nat, i: nat)
    requires b + i <= |t|
    ensures Skip(t[b..], d, i) + b == Skip(t, d, b + i)
    ensures Until(t[b..], d, i) + b == Until(t, d, b + i)
  {
    var u := t[b..];
    SkipIs(t, d, b + i, Skip(t, d, b + i));
    UntilIs(t, d, b + i, Until(t, d, b + i));
    SkipIs(u, d, i, Skip(t, d, b + i) - b);
    UntilIs(u, d, i, Until(t, d, b + i) - b);
  }

  lemma {:induction false} SplitUnfold(t: seq<byte>, d: set<byte>)
    ensures var a := Skip(t, d, 0);
      var b := Until(t, d, a);
      Split(t, d) == if a == |t| then [] else [t[a..b]] + Split(t[b..], d)
  {
  }

  /** The texts of the runs are the runs' slices. */
  lemma {:induction false} SplitIsRuns(t: seq<byte>, d: set<byte>, i: nat)
    requires i <= |t|
    ensures |Split(t[i..], d)| == |Runs(t, d, i)|
    ensures forall k :: 0 <= k < |Runs(t, d, i)| ==>
      i <= Runs(t, d, i)[k].0 <= Runs(t, d, i)[k].1 <= |t| &&
      Split(t[i..], d)[k] == t[Runs(t, d, i)[k].0..Runs(t, d, i)[k].1]
    decreases |t| - i
  {
    hide Skip, Until, Split;
    SplitUnfold(t[i..], d);
    SkipShift(t, d, i, 0);
    var a := Skip(t, d, i);
    if a < |t| {
      var b := Until(t, d, a);
      RunAt(t, d, i);
      SkipShift(t, d, i, a - i);
      SplitIsRuns(t, d, b);
      TailSlice(t, i, a, b);
      assert Runs(t, d, i) == [(a, b)] + Runs(t, d, b) && Split(t[i..], d) == [t[a..b]] + Split(t[b..], d);
    }
  }

  /** Dropping a leading delimiter does not change the tokens. */
  lemma {:induction false} SplitDropDelimiter(t: seq<byte>, d: set<byte>)
    requires |t| > 0 && t[0] in d
    ensures Split(t, d) == Split(t[1..], d)
  {
    hide Skip, Until, Split;
    SplitUnfold(t, d);
    SplitUnfold(t[1..], d);
    SkipShift(t, d, 1, 0);
    var a := Skip(t, d, 1);
    SkipIs(t, d, 1, a);
    SkipIs(t, d, 0, a);
    if a < |t| {
      SkipShift(t, d, 1, a - 1);
      TailSlice(t, 1, a, Until(t, d, a));
    }
  }

  /** Slices of a tail are slices of the whole. */
  lemma {:induction false} TailSlice(t: seq<byte>, k: nat, a: nat, b: nat)
    requires k <= a <= b <= |t|
    ensures t[k..][a - k..b - k] == t[a..b] && t[k..][b - k..] == t[b..]
  {
    var u := t[k..];
    assert forall i :: 0 <= i < |u| ==> u[i] == t[k + i];
  }

  /** What is left of a text once its first token and the delimiter after it are consumed. */
  ghost function Rest(t: seq<byte>, d: set<byte>): (r: seq<byte>)
    ensures |r| <= |t| && (|t| > 0 ==> |r| < |t|)
  {
    var a := Skip(t, d, 0);
    var b := Until(t, d, a);
    RunAt(t, d, 0);
    if b < |t| then t[b + 1..] else []
  }

  /** Consuming the first token leaves exactly the others. */
  lemma {:induction false} SplitRest(t: seq<byte>, d: set<byte>)
    ensures |Split(t, d)| > 0 ==> Split(Rest(t, d), d) == Split(t, d)[1..]
    ensures |Split(t, d)| > 0 <==> Skip(t, d, 0) < |t|
  {
    hide Skip, Until, Split;
    SplitUnfold(t, d);
    var a := Skip(t, d, 0);
    if a < |t| {
      var b := Until(t, d, a);
      RunAt(t, d, 0);
      if b < |t| {
        SplitDropDelimiter(t[b..], d);
        assert t[b..][1..] == Rest(t, d);
      } else {
        assert t[b..] == Rest(t, d);
      }
      assert Split(t, d)[1..] == Split(t[b..], d);
    }
  }

  // ----- the routine

  datatype Pointer = Null | To(at: nat)

  /** The outcome of one call: the token, the buffer and the new `olds`. */
  datatype Outcome = Outcome(token: Pointer, buf: seq<byte>, olds: nat)

  ghost function StrtokAt(s: seq<byte>, p: nat, d: set<byte>): Outcome
    requires Terminated(s, p)
  {
    var t := Str(s, p);
    var a := Skip(t, d, 0);
    var b := Until(t, d, a);
    if a == |t| then Outcome(Null, s, p + |t|)
    else if b == |t| then Outcome(To(p + a), s, p + |t|)
    else Outcome(To(p + a), s[p + b := 0], p + b + 1)
  }

  /** The string `a` characters into the string at `p`. */
  lemma {:induction false} TailString(s: seq<byte>, p: nat, a: nat)
    requires Terminated(s, p) && a <= |Str(s, p)|
    ensures Terminated(s, p + a) && Str(s, p + a) == Str(s, p)[a..]
  {
  }

  /** Where the characters of a string and its terminator are. */
  lemma {:induction false} StringEnds(s: seq<byte>, p: nat, a: nat)
    requires Terminated(s, p) && a <= |Str(s, p)|
    ensures p + a < |s| && (s[p + a] == 0 <==> a == |Str(s, p)|) && StrEnd(s, p) == p + |Str(s, p)|
  {
  }

  lemma {:induction false} StringIs(s: seq<byte>, p: nat)
    requires Terminated(s, p)
    ensures var t := Str(s, p); p + |t| < |s| && s[p..p + |t|] == t && s[p + |t|] == 0 && 0 !in t
  {
  }

  /** The outcome in terms of what the string routines return. */
  lemma {:induction false} StrtokCases(s: seq<byte>, p: nat, d: set<byte>)
    requires Terminated(s, p)
    ensures var at := p + Skip(Str(s, p), d, 0);
      && at < |s| && Terminated(s, at)
      && var u := Until(Str(s, at), d, 0);
         && at + u < |s| && (u == |Str(s, at)| ==> StrEnd(s, at) == at + u)
         && StrtokAt(s, p, d) ==
              if s[at] == 0 then Outcome(Null, s, at)
              else if u == |Str(s, at)| then Outcome(To(at), s, at + u)
              else Outcome(To(at), s[at + u := 0], at + u + 1)
  {
    hide Skip, Until, Terminated, Str;
    var t := Str(s, p);
    var n := Skip(t, d, 0);
    StringEnds(s, p, n);
    TailString(s, p, n);
    SkipShift(t, d, n, 0);
    StringEnds(s, p + n, Until(t[n..], d, 0));
  }

  class Tokeniser {
    /** static char *olds */
    var olds: Pointer

    constructor ()
      ensures olds == Null
    {
      olds := Null;
    }

    /** Where a call with this argument starts scanning. */
    function Start(s: Pointer): nat
      requires s == Null ==> olds != Null
      reads this
    {
      if s == Null then olds.at else s.at
    }

    method Strtok(buf: array<byte>, s: Pointer, delim: seq<byte>) returns (token: Pointer)
      requires s == Null ==> olds != Null
      requires Terminated(buf[..], Start(s)) && Terminated(delim, 0)
      modifies this, buf
      ensures olds != Null
      ensures Outcome(token, buf[..], olds.at) == StrtokAt(old(buf[..]), old(Start(s)), Chars(delim))
    {
      hide Skip, Until, Chars, Terminated, Str, StrtokAt;
      var at := Start(s);
      StrtokCases(buf[..], at, Chars(delim));
      var n := Strspn(buf[..], at, delim);
      at := at + n;
      if buf[at] == 0 {
        olds := To(at);
        return Null;
      }
      var token' := at;
      var r := Strpbrk(buf[..], at, delim);
      if r == -1 {
        var q := Strchr(buf[..], at, 0);
        olds := To(q);
      } else {
        buf[r] := 0;
        olds := To(r + 1);
      }
      return To(token');
    }
  }

  /** A terminator written `b` characters into a string cuts it in two. */
  lemma {:induction false} CutString(s: seq<byte>, p: nat, a: nat, b: nat)
    requires Terminated(s, p) && a <= b < |Str(s, p)|
    ensures p + b < |s|
    ensures var s' := s[p + b := 0];
      && Terminated(s', p + a) && Str(s', p + a) == Str(s, p)[a..b]
      && Terminated(s', p + b + 1) && Str(s', p + b + 1) == Str(s, p)[b + 1..]
  {
    hide Str, Terminated;
    StringIs(s, p);
    var t, s' := Str(s, p), s[p + b := 0];
    Slice(s, s', p, t, a, b);
    Slice(s, s', p, t, b + 1, |t|);
    assert t[b + 1..|t|] == t[b + 1..];
  }

  /** A stretch of a string that is terminated right behind it. */
  lemma {:induction false} Slice(s: seq<byte>, s': seq<byte>, p: nat, t: seq<byte>, a: nat, b: nat)
    requires p + |t| < |s| == |s'| && s[p..p + |t|] == t && 0 !in t && a <= b <= |t|
    requires (forall k :: p + a <= k < p + b ==> s'[k] == s[k]) && s'[p + b] == 0
    ensures Terminated(s', p + a) && Str(s', p + a) == t[a..b]
  {
    hide Str, Terminated;
    SameSlice(s, s', p, t, a, b);
    assert forall c :: c in t[a..b] ==> c in t;
    StrIs(s', p + a, t[a..b]);
  }

  lemma {:induction false} SameSlice(s: seq<byte>, s': seq<byte>, p: nat, t: seq<byte>, a: nat, b: nat)
    requires p + |t| <= |s| == |s'| && s[p..p + |t|] == t && a <= b <= |t|
    requires forall k :: p + a <= k < p + b ==> s'[k] == s[k]
    ensures s'[p + a..p + b] == t[a..b]
  {
    forall k | a <= k < b ensures s'[p + k] == t[k] {
      assert s[p..p + |t|][k] == s[p + k];
    }
  }

  /** A NUL cuts the text where it falls. */
  lemma {:induction false} NulCuts(s: seq<byte>, p: nat)
    requires Terminated(s, 0) && p < |s|
    ensures var t := Str(s, 0);
      Terminated(s[p := 0], 0) && Str(s[p := 0], 0) == t[..if p < |t| then p else |t|]
  {
    StringIs(s, 0);
    hide Str, Terminated;
    var t := Str(s, 0);
    Slice(s, s[p := 0], 0, t, 0, if p < |t| then p else |t|);
  }

  /**
   One call delivers the first token as a string of its own and leaves exactly the
   others to be scanned; with no token left it delivers NULL and leaves nothing.
   */
  lemma {:induction false} StrtokDelivers(s: seq<byte>, p: nat, d: set<byte>)
    requires Terminated(s, p)
    ensures var o, t := StrtokAt(s, p, d), Str(s, p);
      && p <= o.olds && |o.buf| == |s| && Terminated(o.buf, o.olds) && Str(o.buf, o.olds) == Rest(t, d)
      && (o.token == Null <==> Split(t, d) == [])
      && (o.token == Null ==> o.buf == s && Rest(t, d) == [])
      && (o.token != Null ==>
            && p <= o.token.at < o.olds && Terminated(o.buf, o.token.at)
            && Str(o.buf, o.token.at) == Split(t, d)[0] && Split(Rest(t, d), d) == Split(t, d)[1..])
  {
    hide Skip, Until, Split, Rest, StrtokAt, Terminated, Str;
    var t := Str(s, p);
    CallStrings(s, p, d);
    RestUnfold(t, d);
    SplitUnfold(t, d);
    SplitRest(t, d);
  }

  lemma {:induction false} StrtokUnfold(s: seq<byte>, p: nat, d: set<byte>)
    requires Terminated(s, p)
    ensures var t := Str(s, p);
      var a := Skip(t, d, 0);
      var b := Until(t, d, a);
      && a <= b <= |t| && p + b < |s| && (a < |t| ==> a < b)
      && StrtokAt(s, p, d) ==
           if a == |t| then Outcome(Null, s, p + |t|)
           else if b == |t| then Outcome(To(p + a), s, p + |t|)
           else Outcome(To(p + a), s[p + b := 0], p + b + 1)
  {
    RunAt(Str(s, p), d, 0);
  }

  /** The strings that one call leaves: the token, and what is to be scanned next. */
  ghost predicate LeavesStrings(s: seq<byte>, p: nat, o: Outcome, t: seq<byte>, a: nat, b: nat) {
    && p <= o.olds && |o.buf| == |s| && a <= b <= |t| && (b < |t| ==> a < |t|)
    && Terminated(o.buf, o.olds) && Str(o.buf, o.olds) == (if b < |t| then t[b + 1..] else [])
    && (o.token == Null <==> a == |t|) && (o.token == Null ==> o.buf == s)
    && (o.token != Null ==>
          p <= o.token.at < o.olds && Terminated(o.buf, o.token.at) && Str(o.buf, o.token.at) == t[a..b])
  }

  lemma {:induction false} NoToken(s: seq<byte>, p: nat, t: seq<byte>)
    requires Terminated(s, p) && Str(s, p) == t
    ensures LeavesStrings(s, p, Outcome(Null, s, p + |t|), t, |t|, |t|)
  {
    hide Terminated, Str;
    TailString(s, p, |t|);
  }

  lemma {:induction false} LastToken(s: seq<byte>, p: nat, t: seq<byte>, a: nat)
    requires Terminated(s, p) && Str(s, p) == t && a < |t|
    ensures LeavesStrings(s, p, Outcome(To(p + a), s, p + |t|), t, a, |t|)
  {
    hide Terminated, Str;
    TailString(s, p, |t|);
    TailString(s, p, a);
    assert t[a..|t|] == t[a..];
  }

  lemma {:induction false} CutToken(s: seq<byte>, p: nat, t: seq<byte>, a: nat, b: nat)
    requires Terminated(s, p) && Str(s, p) == t && a < b < |t| && p + b < |s|
    ensures LeavesStrings(s, p, Outcome(To(p + a), s[p + b := 0], p + b + 1), t, a, b)
  {
    hide Terminated, Str;
    CutString(s, p, a, b);
  }

  lemma {:induction false} CallStrings(s: seq<byte>, p: nat, d: set<byte>)
    requires Terminated(s, p)
    ensures var t := Str(s, p);
      var a := Skip(t, d, 0);
      LeavesStrings(s, p, StrtokAt(s, p, d), t, a, Until(t, d, a))
  {
    hide *;
    var t := Str(s, p);
    var a := Skip(t, d, 0);
    var b := Until(t, d, a);
    StrtokUnfold(s, p, d);
    if a == |t| {
      NoToken(s, p, t);
    } else if b == |t| {
      LastToken(s, p, t, a);
    } else {
      CutToken(s, p, t, a, b);
    }
  }

  lemma {:induction false} RestUnfold(t: seq<byte>, d: set<byte>)
    ensures var b := Until(t, d, Skip(t, d, 0)); Rest(t, d) == if b < |t| then t[b + 1..] else []
  {
  }

  // ----- calling it again and again

  /** `strtok(s, d)` followed by `strtok(NULL, d)` until it returns NULL. */
  datatype Collected = Collected(tokens: seq<nat>, buf: seq<byte>, olds: nat)

  ghost function Collect(s: seq<byte>, p: nat, d: set<byte>): (c: Collected)
    requires Terminated(s, p)
    decreases |Str(s, p)|
  {
    StrtokDelivers(s, p, d);
    var o := StrtokAt(s, p, d);
    if o.token == Null then Collected([], o.buf, o.olds)
    else
      var c := Collect(o.buf, o.olds, d);
      c.(tokens := [o.token.at] + c.tokens)
  }

  /** Only delimiters are overwritten, and only with terminators. */
  ghost predicate OnlyDelimitersCut(s: seq<byte>, s': seq<byte>, d: set<byte>) {
    |s'| == |s| && forall k :: 0 <= k < |s| ==> s'[k] == s[k] || (s'[k] == 0 && s[k] in d)
  }

  lemma {:induction false} CutsCompose(s: seq<byte>, s': seq<byte>, s'': seq<byte>, d: set<byte>)
    requires OnlyDelimitersCut(s, s', d) && OnlyDelimitersCut(s', s'', d)
    ensures OnlyDelimitersCut(s, s'', d)
  {
  }

  lemma {:induction false} NoCut(s: seq<byte>, d: set<byte>)
    ensures OnlyDelimitersCut(s, s, d)
  {
  }

  lemma {:induction false} OneCut(s: seq<byte>, p: nat, d: set<byte>)
    requires Terminated(s, p)
    ensures OnlyDelimitersCut(s, StrtokAt(s, p, d).buf, d)
    ensures var o := StrtokAt(s, p, d);
      o.token != Null ==> forall c :: c in Str(o.buf, o.token.at) ==> c !in d
  {
    hide Skip, Until, Terminated, Str, StrtokAt, OnlyDelimitersCut;
    var t := Str(s, p);
    var a := Skip(t, d, 0);
    var b := Until(t, d, a);
    StrtokUnfold(s, p, d);
    CallStrings(s, p, d);
    NoCut(s, d);
    if b < |t| {
      CutIsDelimiter(s, p, d);
      DelimiterCut(s, p + b, d);
    }
    WordCharacters(t, d);
  }

  lemma {:induction false} CutIsDelimiter(s: seq<byte>, p: nat, d: set<byte>)
    requires Terminated(s, p)
    ensures var t := Str(s, p);
      var b := Until(t, d, Skip(t, d, 0));
      b < |t| ==> p + b < |s| && s[p + b] in d
  {
    hide Skip, Until, Terminated, Str;
    StringIs(s, p);
    var t := Str(s, p);
    RunAt(t, d, 0);
    var b := Until(t, d, Skip(t, d, 0));
    assert b < |t| ==> s[p..p + |t|][b] == s[p + b];
  }

  lemma DelimiterCut(s: seq<byte>, k: nat, d: set<byte>)
    requires k < |s| && s[k] in d
    ensures OnlyDelimitersCut(s, s[k := 0], d)
  {
  }

  lemma {:induction false} WordCharacters(t: seq<byte>, d: set<byte>)
    ensures var a := Skip(t, d, 0);
      var b := Until(t, d, a);
      a <= b && forall c :: c in t[a..b] ==> c !in d
  {
    hide Skip, Until;
    RunAt(t, d, 0);
  }

  /** A string free of delimiters survives later cuts. */
  lemma {:induction false} TokenSurvives(s: seq<byte>, s': seq<byte>, d: set<byte>, p: nat)
    requires OnlyDelimitersCut(s, s', d) && 0 !in d && Terminated(s, p)
    requires forall c :: c in Str(s, p) ==> c !in d
    ensures Terminated(s', p) && Str(s', p) == Str(s, p)
  {
  }

  /** Every token is delivered, and still a string of its own at the end. */
  lemma {:induction false} TokensIntact(s: seq<byte>, p: nat, d: set<byte>)
    requires Terminated(s, p) && 0 !in d
    ensures var c, w := Collect(s, p, d), Split(Str(s, p), d);
      && |c.tokens| == |w|
      && (forall i :: 0 <= i < |w| ==> Terminated(c.buf, c.tokens[i]) && Str(c.buf, c.tokens[i]) == w[i])
      && OnlyDelimitersCut(s, c.buf, d)
      && Terminated(c.buf, c.olds) && StrtokAt(c.buf, c.olds, d) == Outcome(Null, c.buf, c.olds)
    decreases |Str(s, p)|
  {
    hide Skip, Until, Split, Terminated, Str;
    StrtokDelivers(s, p, d);
    OneCut(s, p, d);
    var o, w := StrtokAt(s, p, d), Split(Str(s, p), d);
    if o.token != Null {
      TokensIntact(o.buf, o.olds, d);
      var c := Collect(o.buf, o.olds, d);
      TokenSurvives(o.buf, c.buf, d, o.token.at);
      assert w == [w[0]] + w[1..];
    } else {
      EmptyGivesNull(o.buf, o.olds, d);
    }
  }

  lemma {:induction false} EmptyGivesNull(s: seq<byte>, p: nat, d: set<byte>)
    requires Terminated(s, p) && Str(s, p) == []
    ensures StrtokAt(s, p, d) == Outcome(Null, s, p)
  {
  }

  lemma {:induction false} RunsUnfold(t: seq<byte>, d: set<byte>, i: nat)
    requires i <= |t|
    ensures var a := Skip(t, d, i);
      var b := Until(t, d, a);
      Runs(t, d, i) == if a == |t| then [] else [(a, b)] + Runs(t, d, b)
  {
  }

  /** The runs of a tail are the runs from there on, counted from its start. */
  lemma {:induction false} RunsShift(t: seq<byte>, d: set<byte>, b: nat, i: nat)
    requires b + i <= |t|
    ensures |Runs(t[b..], d, i)| == |Runs(t, d, b + i)|
    ensures forall k :: 0 <= k < |Runs(t, d, b + i)| ==> Runs(t[b..], d, i)[k].0 + b == Runs(t, d, b + i)[k].0
    decreases |t| - i
  {
    hide Skip, Until, Runs;
    var u := t[b..];
    RunsUnfold(t, d, b + i);
    RunsUnfold(u, d, i);
    SkipShift(t, d, b, i);
    var a := Skip(u, d, i);
    if b + a < |t| {
      SkipShift(t, d, b, a);
      RunAt(u, d, i);
      var e := Until(u, d, a);
      RunsShift(t, d, b, e);
      assert Runs(u, d, i) == [(a, e)] + Runs(u, d, e) && Runs(t, d, b + i) == [(b + a, b + e)] + Runs(t, d, b + e);
    }
  }

  lemma {:induction false} RunsDropDelimiter(t: seq<byte>, d: set<byte>, i: nat)
    requires i < |t| && t[i] in d
    ensures Runs(t, d, i) == Runs(t, d, i + 1)
  {
    hide Until, Runs;
    RunsUnfold(t, d, i);
    RunsUnfold(t, d, i + 1);
  }

  /** Each pointer delivered is the start of the run it stands for. */
  lemma {:induction false} TokenPositions(s: seq<byte>, p: nat, d: set<byte>)
    requires Terminated(s, p)
    ensures var c, rs := Collect(s, p, d), Runs(Str(s, p), d, 0);
      |c.tokens| == |rs| && forall i :: 0 <= i < |rs| ==> c.tokens[i] == p + rs[i].0
    decreases |Str(s, p)|
  {
    hide Skip, Until, Split, Runs, Terminated, Str;
    StrtokDelivers(s, p, d);
    StrtokUnfold(s, p, d);
    var o, t := StrtokAt(s, p, d), Str(s, p);
    RunsUnfold(t, d, 0);
    if o.token != Null {
      TokenPositions(o.buf, o.olds, d);
      var b := Until(t, d, Skip(t, d, 0));
      RestUnfold(t, d);
      RunsOfRest(t, d, b);
      hide StrtokAt, Rest;
    }
  }

  /** The runs behind the first one, counted from where the scan goes on. */
  lemma {:induction false} RunsOfRest(t: seq<byte>, d: set<byte>, b: nat)
    requires b == Until(t, d, Skip(t, d, 0)) && b <= |t|
    ensures var rest, rs := if b < |t| then Runs(t[b + 1..], d, 0) else Runs([], d, 0), Runs(t, d, b);
      |rest| == |rs| && forall i :: 0 <= i < |rs| ==> rest[i].0 + b + 1 == rs[i].0
  {
    hide Skip, Until, Runs;
    RunAt(t, d, 0);
    if b < |t| {
      RunsDropDelimiter(t, d, b);
      RunsShift(t, d, b + 1, 0);
    } else {
      RunsShift(t, d, b, 0);
      assert t[b..] == [];
      NoRunsInNothing(d);
    }
  }

  lemma {:induction false} NoRunsInNothing(d: set<byte>)
    ensures Runs([], d, 0) == []
  {
  }

  /**
   Repeated calls deliver exactly the maximal delimiter-free runs of the text, in
   order, by pointers to where they start, each still a string of its own at the
   end; only delimiters are overwritten, and every later call returns NULL.
   */
  lemma {:induction false} RepeatedStrtok(s: seq<byte>, p: nat, d: set<byte>)
    requires Terminated(s, p) && 0 !in d
    ensures var t := Str(s, p);
      var c, rs := Collect(s, p, d), Runs(t, d, 0);
      && ListsRuns(t, d, 0, rs) && |c.tokens| == |rs|
      && (forall i :: 0 <= i < |rs| ==>
            && c.tokens[i] == p + rs[i].0 && rs[i].0 <= rs[i].1 <= |t|
            && Terminated(c.buf, c.tokens[i]) && Str(c.buf, c.tokens[i]) == t[rs[i].0..rs[i].1])
      && OnlyDelimitersCut(s, c.buf, d)
      && Terminated(c.buf, c.olds) && StrtokAt(c.buf, c.olds, d) == Outcome(Null, c.buf, c.olds)
  {
    hide Split, Runs, Terminated, Str, ListsRuns, OnlyDelimitersCut, StrtokAt, Collect;
    var t := Str(s, p);
    TokensIntact(s, p, d);
    TokenPositions(s, p, d);
    assert t[0..] == t;
    SplitIsRuns(t, d, 0);
    RunsAreExactlyTheMaximalRuns(t, d, 0);
  }
}
