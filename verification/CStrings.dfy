/**
 NUL-terminated strings and the libk routines that scan and copy them.

 A `const char *` is a sequence and an index into it; a buffer that is written
 is an array. Reading within bounds is proved everywhere, so no routine reads
 past a terminator it relies on.
 */
module CStrings {
  import opened Words

  const SPACE: byte := ' ' as int
  const PLUS: byte := '+' as int
  const MINUS: byte := '-' as int
  const ZERO: byte := '0' as int

  ghost predicate Terminated(s: seq<byte>, p: nat) {
    exists k :: p <= k < |s| && s[k] == 0
  }

  /** The index of the terminator of the string at `p`. */
  ghost function StrEnd(s: seq<byte>, p: nat): (e: nat)
    requires Terminated(s, p)
    ensures p <= e < |s| && s[e] == 0
    ensures forall k :: p <= k < e ==> s[k] != 0
    decreases |s| - p
  {
    if s[p] == 0 then p else StrEnd(s, p + 1)
  }

  /** The characters of the string at `p`. */
  ghost function Str(s: seq<byte>, p: nat): (t: seq<byte>)
    requires Terminated(s, p)
    ensures 0 !in t
  {
    s[p..StrEnd(s, p)]
  }

  /** The characters of a string used as a set, as `strspn` and `strtok` use theirs. */
  ghost function Chars(s: seq<byte>): set<byte>
    requires Terminated(s, 0)
  {
    set c | c in Str(s, 0)
  }

  /** `p` is where the string `t` starts in `s`. */
  lemma StrIs(s: seq<byte>, p: nat, t: seq<byte>)
    requires p + |t| < |s| && s[p..p + |t|] == t && 0 !in t && s[p + |t|] == 0
    ensures Terminated(s, p) && StrEnd(s, p) == p + |t| && Str(s, p) == t
  {
  }

  lemma StrOfConcat(t: seq<byte>, rest: seq<byte>)
    requires 0 !in t
    ensures Terminated(t + [0] + rest, 0) && Str(t + [0] + rest, 0) == t
  {
    var s := t + [0] + rest;
    assert s[0..|t|] == t;
    StrIs(s, 0, t);
  }

  method Strspn(s: seq<byte>, p: nat, accept: seq<byte>) returns (count: nat)
    requires Terminated(s, p) && Terminated(accept, 0)
    ensures count == Skip(Str(s, p), Chars(accept), 0)
  {
    ghost var t, d := Str(s, p), Chars(accept);
    count := 0;
    var q := p;
    while s[q] != 0
      invariant p <= q <= StrEnd(s, p) && count == q - p
      invariant forall k :: 0 <= k < count ==> t[k] in d
      decreases |s| - q
    {
      var a := 0;
      while accept[a] != 0
        invariant 0 <= a <= StrEnd(accept, 0)
        invariant s[q] !in accept[..a]
        decreases |accept| - a
      {
        if s[q] == accept[a] {
          break;
        }
        a := a + 1;
      }
      if accept[a] == 0 {
        assert t[q - p] !in d;
        SkipIs(t, d, 0, count);
        return;
      } else {
        assert Str(accept, 0)[a] == s[q];
        count := count + 1;
      }
      q := q + 1;
    }
    SkipIs(t, d, 0, count);
  }

  method Strpbrk(s: seq<byte>, p: nat, accept: seq<byte>) returns (r: int)
    requires Terminated(s, p) && Terminated(accept, 0)
    ensures var u := Until(Str(s, p), Chars(accept), 0);
      r == if u < |Str(s, p)| then p + u else -1
  {
    ghost var t, d := Str(s, p), Chars(accept);
    var q := p;
    while s[q] != 0
      invariant p <= q <= StrEnd(s, p)
      invariant forall k :: 0 <= k < q - p ==> t[k] !in d
      decreases |s| - q
    {
      var a := 0;
      while accept[a] != 0
        invariant 0 <= a <= StrEnd(accept, 0)
        invariant s[q] !in accept[..a]
        decreases |accept| - a
      {
        if accept[a] == s[q] {
          assert Str(accept, 0)[a] == s[q];
          UntilIs(t, d, 0, q - p);
          return q;
        }
        a := a + 1;
      }
      assert t[q - p] !in d;
      q := q + 1;
    }
    UntilIs(t, d, 0, q - p);
    return -1;
  }

  /** `strchr(s, c)`: the first occurrence, which for c == 0 is the terminator. */
  method Strchr(s: seq<byte>, p: nat, c: byte) returns (r: int)
    requires Terminated(s, p)
    ensures r != -1 ==> p <= r <= StrEnd(s, p) && s[r] == c && c !in s[p..r]
    ensures r == -1 ==> c != 0 && c !in Str(s, p)
  {
    var q := p;
    while s[q] != c
      invariant p <= q <= StrEnd(s, p) && c !in s[p..q]
      decreases |s| - q
    {
      if s[q] == 0 {
        return -1;
      }
      q := q + 1;
    }
    return q;
  }

  /** `a` and `b` first differ at `k`, by `r`. */
  ghost predicate DifferAt(a: seq<byte>, b: seq<byte>, k: nat, r: int) {
    k < |a| && k < |b| && a[..k] == b[..k] && 0 !in a[..k] && r == a[k] as int - b[k] as int != 0
  }

  /** Zero exactly when the strings are equal, otherwise the first difference as unsigned characters. */
  method Strcmp(s1: seq<byte>, p: nat, s2: seq<byte>, q: nat) returns (r: int)
    requires Terminated(s1, p) && Terminated(s2, q)
    ensures r == 0 <==> Str(s1, p) == Str(s2, q)
    ensures r != 0 ==> exists k :: DifferAt(s1[p..], s2[q..], k, r)
  {
    ghost var a, b := s1[p..], s2[q..];
    var k := 0;
    while s1[p + k] == s2[q + k]
      invariant k <= |Str(s1, p)| && k <= |Str(s2, q)|
      invariant a[..k] == b[..k]
      decreases |s1| - k
    {
      assert a[k] == b[k];
      if s1[p + k] == 0 {
        assert Str(s1, p) == a[..k] && Str(s2, q) == b[..k];
        return 0;
      }
      assert a[..k + 1] == a[..k] + [a[k]] && b[..k + 1] == b[..k] + [b[k]];
      k := k + 1;
    }
    r := s1[p + k] as int - s2[q + k] as int;
    assert DifferAt(a, b, k, r);
    assert Str(s1, p) != Str(s2, q);
  }

  /** `s` with the string `t` and its terminator written at `p`. */
  ghost function Spliced(s: seq<byte>, p: nat, t: seq<byte>): (r: seq<byte>)
    requires p + |t| < |s|
    ensures |r| == |s|
  {
    s[..p] + t + [0] + s[p + |t| + 1..]
  }

  lemma SplicedString(s: seq<byte>, p: nat, t: seq<byte>)
    requires p + |t| < |s| && 0 !in s[..p] && 0 !in t
    ensures Terminated(Spliced(s, p, t), 0) && Str(Spliced(s, p, t), 0) == s[..p] + t
  {
    StrOfConcat(s[..p] + t, s[p + |t| + 1..]);
  }

  method Strcpy(dst: array<byte>, p: nat, src: seq<byte>, q: nat)
    requires Terminated(src, q) && p + |Str(src, q)| < dst.Length
    modifies dst
    ensures dst[..] == Spliced(old(dst[..]), p, Str(src, q))
  {
    var i := 0;
    dst[p] := src[q];
    while dst[p + i] != 0
      invariant 0 <= i <= |Str(src, q)|
      invariant forall k :: 0 <= k < dst.Length ==>
        dst[k] == if p <= k <= p + i then src[q + k - p] else old(dst[k])
      decreases |src| - i
    {
      i := i + 1;
      dst[p + i] := src[q + i];
    }
  }

  /** `memset` on a byte array. */
  method Memset(buf: array<byte>, p: nat, value: byte, size: nat)
    requires p + size <= buf.Length
    modifies buf
    ensures forall k :: 0 <= k < buf.Length ==>
      buf[k] == if p <= k < p + size then value else old(buf[k])
  {
    for i := 0 to size
      invariant forall k :: 0 <= k < buf.Length ==> buf[k] == if p <= k < p + i then value else old(buf[k])
    {
      buf[p + i] := value;
    }
  }

  /** `memmove` within one array: whatever the overlap, the destination receives the old source. */
  method Memmove(buf: array<byte>, dst: nat, src: nat, size: nat)
    requires dst + size <= buf.Length && src + size <= buf.Length
    modifies buf
    ensures forall k :: 0 <= k < buf.Length ==>
      buf[k] == if dst <= k < dst + size then old(buf[src + k - dst]) else old(buf[k])
  {
    if dst < src {
      for i := 0 to size
        invariant forall k :: 0 <= k < buf.Length ==>
          buf[k] == if dst <= k < dst + i then old(buf[src + k - dst]) else old(buf[k])
      {
        buf[dst + i] := buf[src + i];
      }
    } else {
      for i := size downto 0
        invariant forall k :: 0 <= k < buf.Length ==>
          buf[k] == if dst + i <= k < dst + size then old(buf[src + k - dst]) else old(buf[k])
      {
        buf[dst + i] := buf[src + i];
      }
    }
  }

  // ----- runs of characters in and out of a set

  /** The first index from `i` on whose character is not in `d`. */
  function Skip(t: seq<byte>, d: set<byte>, i: nat): (r: nat)
    requires i <= |t|
    ensures i <= r <= |t|
    decreases |t| - i
  {
    if i == |t| || t[i] !in d then i else Skip(t, d, i + 1)
  }

  /** The first index from `i` on whose character is in `d`. */
  function Until(t: seq<byte>, d: set<byte>, i: nat): (r: nat)
    requires i <= |t|
    ensures i <= r <= |t|
    decreases |t| - i
  {
    if i == |t| || t[i] in d then i else Until(t, d, i + 1)
  }

  lemma SkipIs(t: seq<byte>, d: set<byte>, i: nat, r: nat)
    requires i <= r <= |t|
    ensures r == Skip(t, d, i) <==>
      (forall k :: i <= k < r ==> t[k] in d) && (r < |t| ==> t[r] !in d)
    decreases |t| - i
  {
    if i < |t| && t[i] in d && i < r {
      SkipIs(t, d, i + 1, r);
    }
  }

  lemma UntilIs(t: seq<byte>, d: set<byte>, i: nat, r: nat)
    requires i <= r <= |t|
    ensures r == Until(t, d, i) <==>
      (forall k :: i <= k < r ==> t[k] !in d) && (r < |t| ==> t[r] in d)
    decreases |t| - i
  {
    if i < |t| && t[i] !in d && i < r {
      UntilIs(t, d, i + 1, r);
    }
  }
}
