/**
 A 64-bit address space as a value: one byte for each of the 2^64 addresses.
 Every access reduces its address modulo 2^64, as pointer arithmetic on
 `UINT64` does, so all reads and writes are total.
 */
module AddressSpace {
  import opened Words

  ghost predicate IsSpace(m: seq<byte>) {
    |m| == M64
  }

  /** SetMem(a, n, v): the `n` bytes from `a` become `v`. */
  ghost function Fill(m: seq<byte>, a: U64, n: U64, v: byte): (r: seq<byte>)
    requires IsSpace(m)
    ensures IsSpace(r)
    ensures forall x :: 0 <= x < M64 ==> r[x] == if Off(x, a) < n then v else m[x]
  {
    seq(M64, x requires 0 <= x < M64 => if Off(x, a) < n then v else m[x])
  }

  /** CopyMem(a, src + s, n) where `src` is a separate block of memory. */
  ghost function CopyIn(m: seq<byte>, a: U64, src: seq<byte>, s: U64, n: U64): (r: seq<byte>)
    requires IsSpace(m) && IsSpace(src)
    ensures IsSpace(r)
    ensures forall x :: 0 <= x < M64 ==>
      r[x] == if Off(x, a) < n then src[Plus(s, Off(x, a))] else m[x]
  {
    seq(M64, x requires 0 <= x < M64 =>
      if Off(x, a) < n then src[Plus(s, Off(x, a))] else m[x])
  }

  /** The little-endian number in the `n` bytes from `a`. */
  function Le(m: seq<byte>, a: U64, n: nat): (w: nat)
    requires IsSpace(m)
    decreases n
  {
    if n == 0 then 0 else m[a] + 256 * Le(m, Plus(a, 1), n - 1)
  }

  /** Byte `k` of a number, least significant first. */
  function ByteOf(w: nat, k: nat): (b: byte) {
    if k == 0 then w % 256 else ByteOf(w / 256, k - 1)
  }

  /** *(UINT64 *)a = w */
  ghost function Store64(m: seq<byte>, a: U64, w: U64): (r: seq<byte>)
    requires IsSpace(m)
    ensures IsSpace(r)
    ensures forall x :: 0 <= x < M64 ==> r[x] == if Off(x, a) < 8 then ByteOf(w, Off(x, a)) else m[x]
  {
    seq(M64, x requires 0 <= x < M64 => if Off(x, a) < 8 then ByteOf(w, Off(x, a)) else m[x])
  }

  function Pow256(n: nat): (p: nat)
    ensures p >= 1
  {
    if n == 0 then 1 else 256 * Pow256(n - 1)
  }

  /** A read depends on nothing but the bytes it covers, wherever they lie. */
  lemma {:induction false} LeDependsOnBytes(m: seq<byte>, a: U64, m': seq<byte>, a': U64, n: nat)
    requires IsSpace(m) && IsSpace(m') && n <= M64
    requires forall k :: 0 <= k < n ==> m[Plus(a, k)] == m'[Plus(a', k)]
    ensures Le(m, a, n) == Le(m', a', n)
    decreases n
  {
    if n > 0 {
      assert m[Plus(a, 0)] == m'[Plus(a', 0)];
      var b, b' := Plus(a, 1), Plus(a', 1);
      forall k | 0 <= k < n - 1 ensures m[Plus(b, k)] == m'[Plus(b', k)] {
        assert m[Plus(a, 1 + k)] == m'[Plus(a', 1 + k)];
      }
      LeDependsOnBytes(m, b, m', b', n - 1);
    }
  }

  lemma {:induction false} LeOfBytes(m: seq<byte>, a: U64, w: nat, n: nat)
    requires IsSpace(m) && n <= M64
    requires w < Pow256(n)
    requires forall k :: 0 <= k < n ==> m[Plus(a, k)] == ByteOf(w, k)
    ensures Le(m, a, n) == w
    decreases n
  {
    if n > 0 {
      assert m[Plus(a, 0)] == ByteOf(w, 0);
      var b := Plus(a, 1);
      forall k | 0 <= k < n - 1 ensures m[Plus(b, k)] == ByteOf(w / 256, k) {
        assert m[Plus(a, 1 + k)] == ByteOf(w, 1 + k);
      }
      LeOfBytes(m, b, w / 256, n - 1);
    }
  }

  lemma {:induction false} LeBound(m: seq<byte>, a: U64, n: nat)
    requires IsSpace(m)
    ensures Le(m, a, n) < Pow256(n)
    decreases n
  {
    if n > 0 {
      LeBound(m, Plus(a, 1), n - 1);
    }
  }

  function Load64(m: seq<byte>, a: U64): (w: U64)
    requires IsSpace(m)
  {
    LeBound(m, a, 8);
    Pow256Of8();
    Le(m, a, 8)
  }

  lemma Pow256Of8()
    ensures Pow256(8) == M64
  {
  }

  lemma LoadStore(m: seq<byte>, a: U64, w: U64)
    requires IsSpace(m)
    ensures Load64(Store64(m, a, w), a) == w
  {
    var r := Store64(m, a, w);
    forall k | 0 <= k < 8 ensures r[Plus(a, k)] == ByteOf(w, k) {
    }
    Pow256Of8();
    LeOfBytes(r, a, w, 8);
  }

  /** The address space seen from the origin `b`: byte `v` of it is the byte at `b + v`. */
  ghost function From(m: seq<byte>, b: U64): (r: seq<byte>)
    requires IsSpace(m)
    ensures IsSpace(r)
    ensures forall v :: 0 <= v < M64 ==> r[v] == m[Plus(b, v)]
  {
    seq(M64, v requires 0 <= v < M64 => m[Plus(b, v)])
  }

  // Every operation commutes with a change of origin.

  lemma OffTranslate(v: U64, a: U64, b: U64)
    ensures Off(Plus(b, v), Plus(b, a)) == Off(v, a)
  {
  }

  lemma FromFill(m: seq<byte>, b: U64, a: U64, n: U64, v: byte)
    requires IsSpace(m)
    ensures From(Fill(m, Plus(b, a), n, v), b) == Fill(From(m, b), a, n, v)
  {
  }

  lemma FromCopyIn(m: seq<byte>, b: U64, a: U64, src: seq<byte>, s: U64, n: U64)
    requires IsSpace(m) && IsSpace(src)
    ensures From(CopyIn(m, Plus(b, a), src, s, n), b) == CopyIn(From(m, b), a, src, s, n)
  {
  }

  lemma FromStore64(m: seq<byte>, b: U64, a: U64, w: U64)
    requires IsSpace(m)
    ensures From(Store64(m, Plus(b, a), w), b) == Store64(From(m, b), a, w)
  {
  }

  lemma FromLoad64(m: seq<byte>, b: U64, a: U64)
    requires IsSpace(m)
    ensures Load64(m, Plus(b, a)) == Load64(From(m, b), a)
  {
    var w := From(m, b);
    forall k | 0 <= k < 8 ensures m[Plus(Plus(b, a), k)] == w[Plus(a, k)] {
      assert Plus(Plus(b, a), k) == Plus(b, Plus(a, k));
    }
    LeDependsOnBytes(m, Plus(b, a), w, a, 8);
  }

  lemma PlusBack(b: U64, x: U64)
    ensures Plus(b, Plus(Off(0, b), x)) == x == Plus(Off(0, b), Plus(b, x))
  {
  }

  /** Changing the origin to `b` and then by `-b` gives the memory back. */
  lemma FromBack(m: seq<byte>, b: U64)
    requires IsSpace(m)
    ensures From(From(m, b), Off(0, b)) == m
    ensures From(From(m, Off(0, b)), b) == m
  {
    var c := Off(0, b);
    var l, r := From(From(m, b), c), From(From(m, c), b);
    forall x: int | 0 <= x < M64 ensures l[x] == m[x] && r[x] == m[x] {
      PlusBack(b, x);
    }
  }
}
