/**
 The dynamic scan and the in-place application of R_AARCH64_RELATIVE
 relocations: what they read and write, and why a table that is read from the
 image being patched still acts as the file has it.
 */
module ElfReloc {
  import opened Words
  import opened AddressSpace
  import opened ElfFormat
  import opened ElfImage

  // ----- the dynamic section

  datatype DynInfo = DynInfo(rela: U64, size: U64, ent: U64) {
    predicate Active() {
      rela != 0 && size != 0 && ent != 0
    }

    function Count(): nat {
      if Active() then size / ent else 0
    }
  }

  function ScanStep(info: DynInfo, e: Dyn): DynInfo {
    if e.tag == DT_RELA then info.(rela := e.val)
    else if e.tag == DT_RELASZ then info.(size := e.val)
    else if e.tag == DT_RELAENT then info.(ent := e.val)
    else info
  }

  /** What the scan has collected after `k` entries of the table at `d`. */
  ghost function ScanDyn(m: seq<byte>, d: U64, k: nat): DynInfo
    requires IsSpace(m)
  {
    if k == 0 then DynInfo(0, 0, 0) else ScanStep(ScanDyn(m, d, k - 1), DynAt(m, d, k - 1))
  }

  /** `v` is the value of the last of the first `n` entries with this tag; 0 if there is none. */
  ghost predicate LastValue(m: seq<byte>, d: U64, n: nat, tag: int, v: int)
    requires IsSpace(m)
  {
    || (exists k :: 0 <= k < n && DynAt(m, d, k).tag == tag && DynAt(m, d, k).val == v &&
          forall j :: k < j < n ==> DynAt(m, d, j).tag != tag)
    || (v == 0 && forall k :: 0 <= k < n ==> DynAt(m, d, k).tag != tag)
  }

  /** The scan collects DT_RELA (7), DT_RELASZ (8) and DT_RELAENT (9), the last of each. */
  lemma {:induction false} ScanCollects(m: seq<byte>, d: U64, n: nat)
    requires IsSpace(m)
    ensures var info := ScanDyn(m, d, n);
      LastValue(m, d, n, 7, info.rela) && LastValue(m, d, n, 8, info.size) && LastValue(m, d, n, 9, info.ent)
  {
    hide DynAt;
    if n > 0 {
      ScanCollects(m, d, n - 1);
      var was, e := ScanDyn(m, d, n - 1), DynAt(m, d, n - 1);
      LastValueStep(m, d, n, 7, was.rela);
      LastValueStep(m, d, n, 8, was.size);
      LastValueStep(m, d, n, 9, was.ent);
    }
  }

  lemma {:induction false} LastValueStep(m: seq<byte>, d: U64, n: nat, tag: int, v: int)
    requires IsSpace(m) && n > 0 && LastValue(m, d, n - 1, tag, v)
    ensures var e := DynAt(m, d, n - 1); LastValue(m, d, n, tag, if e.tag == tag then e.val else v)
  {
    hide DynAt;
  }

  /**
   Without a table, or with a size or an entry size of 0, nothing is relocated; otherwise size /
   entry size entries.
   */
  lemma CountIs(info: DynInfo)
    ensures info.Count() == if info.rela == 0 || info.size == 0 || info.ent == 0 then 0 else info.size / info.ent
  {
  }

  function DynTag(m: seq<byte>, d: U64, k: nat): U64
    requires IsSpace(m)
  {
    Load64(m, Element(d, 16, k))
  }

  /** The table at `d` has `n` entries before its DT_NULL. */
  ghost predicate DynEndsAt(m: seq<byte>, d: U64, n: nat)
    requires IsSpace(m)
  {
    DynTag(m, d, n) == DT_NULL && forall k :: 0 <= k < n ==> DynTag(m, d, k) != DT_NULL
  }

  ghost predicate DynTerminates(m: seq<byte>, d: U64)
    requires IsSpace(m)
  {
    exists n: nat :: DynEndsAt(m, d, n)
  }

  lemma DynEndUnique(m: seq<byte>, d: U64, n: nat, n': nat)
    requires IsSpace(m) && DynEndsAt(m, d, n) && DynEndsAt(m, d, n')
    ensures n == n'
  {
  }

  ghost function DynScanned(m: seq<byte>, d: U64): DynInfo
    requires IsSpace(m) && DynTerminates(m, d)
  {
    var n :| DynEndsAt(m, d, n);
    ScanDyn(m, d, n)
  }

  /** Index of the first PT_DYNAMIC at or after header `i`, or the number of headers. */
  function FirstDynamic(phs: seq<Phdr>, i: nat): (r: nat)
    requires i <= |phs|
    ensures i <= r <= |phs|
    ensures r < |phs| ==> phs[r].ptype == PT_DYNAMIC
    ensures forall k :: i <= k < r ==> phs[k].ptype != PT_DYNAMIC
    decreases |phs| - i
  {
    if i == |phs| || phs[i].ptype == PT_DYNAMIC then i else FirstDynamic(phs, i + 1)
  }

  ghost predicate HasDynamic(phs: seq<Phdr>) {
    FirstDynamic(phs, 0) < |phs|
  }

  ghost function DynVaddr(phs: seq<Phdr>): U64
    requires HasDynamic(phs)
  {
    phs[FirstDynamic(phs, 0)].vaddr
  }

  // ----- applying relocations in place

  ghost function ApplyEntry(m: seq<byte>, base: U64, e: Rela): (r: seq<byte>)
    requires IsSpace(m)
    ensures IsSpace(r)
  {
    if e.IsRelative() then Store64(m, e.offset, Plus(base, e.addend)) else m
  }

  /** Memory after `n` entries of the table at `t`, each read from the memory left by the ones before it. */
  ghost function Relocate(m: seq<byte>, base: U64, t: U64, n: nat): (r: seq<byte>)
    requires IsSpace(m)
    ensures IsSpace(r)
  {
    if n == 0 then m
    else
      var m1 := Relocate(m, base, t, n - 1);
      ApplyEntry(m1, base, RelaAt(m1, t, n - 1))
  }

  ghost predicate ScanTerminates(w: seq<byte>, phs: seq<Phdr>, base: U64)
    requires IsSpace(w)
  {
    HasDynamic(phs) && Plus(base, DynVaddr(phs)) != 0 ==> DynTerminates(w, DynVaddr(phs))
  }

  /** The whole relocation phase on the view `w` of a loaded image. */
  ghost function RelocateImage(w: seq<byte>, phs: seq<Phdr>, base: U64): (r: seq<byte>)
    requires IsSpace(w) && ScanTerminates(w, phs, base)
    ensures IsSpace(r)
  {
    if !HasDynamic(phs) || Plus(base, DynVaddr(phs)) == 0 then w
    else
      var info := DynScanned(w, DynVaddr(phs));
      Relocate(w, base, info.rela, info.Count())
  }

  // ----- a well-formed position-independent file

  /** The file's own image, in virtual-address coordinates. */
  ghost function FileView(elf: seq<byte>, phs: seq<Phdr>): (r: seq<byte>)
    requires IsSpace(elf)
    ensures IsSpace(r)
  {
    seq(M64, v requires 0 <= v < M64 => ImageByte(elf, phs, v))
  }

  ghost predicate Within(phs: seq<Phdr>, a: int, n: int) {
    Low(phs) <= a && a + n <= High(phs)
  }

  ghost predicate DynamicInImage(f: seq<byte>, phs: seq<Phdr>)
    requires IsSpace(f)
  {
    HasDynamic(phs) ==>
      exists n: nat :: DynEndsAt(f, DynVaddr(phs), n) && Within(phs, DynVaddr(phs), 16 * n + 8)
  }

  ghost function FileInfo(f: seq<byte>, phs: seq<Phdr>): DynInfo
    requires IsSpace(f) && DynamicInImage(f, phs)
  {
    if HasDynamic(phs) then DynScanned(f, DynVaddr(phs)) else DynInfo(0, 0, 0)
  }

  /** The first `n` entries of the RELA table at `t`. */
  ghost function Table(f: seq<byte>, t: U64, n: nat): (tab: seq<Rela>)
    requires IsSpace(f)
    ensures |tab| == n
    ensures forall j :: 0 <= j < n ==> tab[j] == RelaAt(f, t, j)
  {
    seq(n, j requires 0 <= j => RelaAt(f, t, j))
  }

  /** Entry `e` is a relocation whose 8-byte target contains `v`. */
  ghost predicate Targets(e: Rela, v: int) {
    e.IsRelative() && e.offset <= v < e.offset + 8
  }

  ghost predicate TargetOk(e: Rela, phs: seq<Phdr>, t: U64, n: nat) {
    e.IsRelative() ==>
      Within(phs, e.offset, 8) && (e.offset + 8 <= t || t + 24 * n <= e.offset)
  }

  ghost predicate SameOrApart(a: Rela, b: Rela) {
    a.IsRelative() && b.IsRelative() ==>
      a.offset == b.offset || a.offset + 8 <= b.offset || b.offset + 8 <= a.offset
  }

  /** The table lies in the image; targets lie in the image, off the table, and never half-overlap. */
  ghost predicate RelocationsOk(tab: seq<Rela>, phs: seq<Phdr>, t: U64) {
    && Within(phs, t, 24 * |tab|)
    && (forall j :: 0 <= j < |tab| ==> TargetOk(tab[j], phs, t, |tab|))
    && (forall i, j :: 0 <= i < |tab| && 0 <= j < |tab| ==> SameOrApart(tab[i], tab[j]))
  }

  ghost predicate WellFormedPie(elf: seq<byte>, phs: seq<Phdr>)
    requires IsSpace(elf)
  {
    && LoadsOk(phs) && HasLoad(phs)
    && DynamicInImage(FileView(elf, phs), phs)
    && var info := FileInfo(FileView(elf, phs), phs);
       info.Count() > 0 ==> RelocationsOk(Table(FileView(elf, phs), info.rela, info.Count()), phs, info.rela)
  }

  // ----- reads inside the image see the file

  ghost predicate AgreeOn(m: seq<byte>, f: seq<byte>, lo: int, hi: int)
    requires IsSpace(m) && IsSpace(f)
  {
    forall v :: lo <= v < hi && 0 <= v < M64 ==> m[v] == f[v]
  }

  lemma LoadAgrees(m: seq<byte>, f: seq<byte>, a: U64, lo: int, hi: int)
    requires IsSpace(m) && IsSpace(f) && AgreeOn(m, f, lo, hi)
    requires lo <= a && a + 8 <= hi && a + 8 <= M64
    ensures Load64(m, a) == Load64(f, a)
  {
  }

  lemma RelaAgrees(m: seq<byte>, f: seq<byte>, t: U64, n: nat, j: nat)
    requires IsSpace(m) && IsSpace(f) && j < n && t + 24 * n <= M64
    requires AgreeOn(m, f, t, t + 24 * n)
    ensures RelaAt(m, t, j) == RelaAt(f, t, j)
  {
    hide Load64, AgreeOn;
    ElementInside(t, 24, j);
    var at := t + 24 * j;
    LoadAgrees(m, f, at, t, t + 24 * n);
    LoadAgrees(m, f, at + 8, t, t + 24 * n);
    LoadAgrees(m, f, at + 16, t, t + 24 * n);
  }

  lemma DynTagAgrees(m: seq<byte>, f: seq<byte>, d: U64, n: nat, k: nat)
    requires IsSpace(m) && IsSpace(f) && k <= n && d + 16 * n + 8 <= M64
    requires AgreeOn(m, f, d, d + 16 * n + 8)
    ensures DynTag(m, d, k) == DynTag(f, d, k)
  {
    ElementInside(d, 16, k);
    LoadAgrees(m, f, d + 16 * k, d, d + 16 * n + 8);
  }

  lemma DynEntryAgrees(m: seq<byte>, f: seq<byte>, d: U64, n: nat, k: nat)
    requires IsSpace(m) && IsSpace(f) && k < n && d + 16 * n + 8 <= M64
    requires AgreeOn(m, f, d, d + 16 * n + 8)
    ensures DynAt(m, d, k) == DynAt(f, d, k)
  {
    hide Load64, AgreeOn, Element;
    ElementInside(d, 16, k);
    LoadAgrees(m, f, d + 16 * k, d, d + 16 * n + 8);
    LoadAgrees(m, f, d + 16 * k + 8, d, d + 16 * n + 8);
  }

  lemma {:induction false} ScanAgrees(m: seq<byte>, f: seq<byte>, d: U64, n: nat, k: nat)
    requires IsSpace(m) && IsSpace(f) && k <= n && d + 16 * n + 8 <= M64
    requires AgreeOn(m, f, d, d + 16 * n + 8)
    ensures ScanDyn(m, d, k) == ScanDyn(f, d, k)
  {
    hide DynAt;
    if k > 0 {
      ScanAgrees(m, f, d, n, k - 1);
      DynEntryAgrees(m, f, d, n, k - 1);
    }
  }

  lemma DynAgrees(m: seq<byte>, f: seq<byte>, d: U64, n: nat)
    requires IsSpace(m) && IsSpace(f) && d + 16 * n + 8 <= M64
    requires AgreeOn(m, f, d, d + 16 * n + 8)
    requires DynEndsAt(f, d, n)
    ensures DynEndsAt(m, d, n)
    ensures DynScanned(m, d) == ScanDyn(f, d, n) == DynScanned(f, d)
  {
    forall k: nat | k <= n ensures DynTag(m, d, k) == DynTag(f, d, k) {
      DynTagAgrees(m, f, d, n, k);
    }
    ScanAgrees(m, f, d, n, n);
    forall n' | DynEndsAt(m, d, n') ensures n' == n {
      DynEndUnique(m, d, n, n');
    }
    forall n' | DynEndsAt(f, d, n') ensures n' == n {
      DynEndUnique(f, d, n, n');
    }
  }

  // ----- what relocation leaves behind

  /** The last of the first `n` entries that relocates the word at `a`, or -1. */
  ghost function LastWriter(tab: seq<Rela>, a: int, n: nat): (j: int)
    requires n <= |tab|
    ensures -1 <= j < n
    ensures j >= 0 ==> tab[j].IsRelative() && tab[j].offset == a
  {
    if n == 0 then -1
    else if tab[n - 1].IsRelative() && tab[n - 1].offset == a then n - 1
    else LastWriter(tab, a, n - 1)
  }

  /** Bytes that none of the first `n` targets contains keep their value. */
  ghost predicate UntouchedKept(m: seq<byte>, r: seq<byte>, tab: seq<Rela>, n: nat)
    requires IsSpace(m) && IsSpace(r) && n <= |tab|
  {
    forall v :: 0 <= v < M64 && (forall j :: 0 <= j < n ==> !Targets(tab[j], v)) ==> r[v] == m[v]
  }

  /** The word at `a` holds `base_addr` plus the addend of the last entry aimed at it. */
  ghost predicate WordRelocated(r: seq<byte>, tab: seq<Rela>, base: U64, n: nat, a: U64)
    requires IsSpace(r) && n <= |tab|
  {
    var w := LastWriter(tab, a, n);
    w >= 0 && Load64(r, a) == Plus(base, tab[w].addend)
  }

  ghost predicate WordsRelocated(r: seq<byte>, tab: seq<Rela>, base: U64, n: nat)
    requires IsSpace(r) && n <= |tab|
  {
    forall j :: 0 <= j < n && tab[j].IsRelative() ==> WordRelocated(r, tab, base, n, tab[j].offset)
  }

  lemma StoreKeeps(m: seq<byte>, a: U64, w: U64, v: U64)
    requires IsSpace(m) && a + 8 <= M64 && !(a <= v < a + 8)
    ensures Store64(m, a, w)[v] == m[v]
  {
  }

  lemma StoreKeepsWord(m: seq<byte>, a: U64, w: U64, b: U64)
    requires IsSpace(m) && a + 8 <= M64 && b + 8 <= M64 && (a + 8 <= b || b + 8 <= a)
    ensures Load64(Store64(m, a, w), b) == Load64(m, b)
  {
    forall v | b <= v < b + 8 ensures Store64(m, a, w)[v] == m[v] {
      StoreKeeps(m, a, w, v);
    }
    LoadAgrees(Store64(m, a, w), m, b, b, b + 8);
  }

  lemma RelocateStep(m: seq<byte>, r: seq<byte>, tab: seq<Rela>, phs: seq<Phdr>, base: U64, t: U64, i: nat)
    requires IsSpace(m) && IsSpace(r)
    requires RelocationsOk(tab, phs, t) && i < |tab|
    requires UntouchedKept(m, r, tab, i) && WordsRelocated(r, tab, base, i)
    requires tab[i].IsRelative()
    ensures UntouchedKept(m, Store64(r, tab[i].offset, Plus(base, tab[i].addend)), tab, i + 1)
    ensures WordsRelocated(Store64(r, tab[i].offset, Plus(base, tab[i].addend)), tab, base, i + 1)
  {
    var e := tab[i];
    var w := Plus(base, e.addend);
    var s := Store64(r, e.offset, w);
    assert TargetOk(e, phs, t, |tab|);
    forall v | 0 <= v < M64 && forall j :: 0 <= j < i + 1 ==> !Targets(tab[j], v) ensures s[v] == m[v] {
      assert !Targets(tab[i], v);
      StoreKeeps(r, e.offset, w, v);
    }
    forall j | 0 <= j < i + 1 && tab[j].IsRelative()
      ensures WordRelocated(s, tab, base, i + 1, tab[j].offset)
    {
      if tab[j].offset == e.offset {
        LoadStore(r, e.offset, w);
      } else {
        assert SameOrApart(tab[i], tab[j]) && TargetOk(tab[j], phs, t, |tab|);
        StoreKeepsWord(r, e.offset, w, tab[j].offset);
        assert WordRelocated(r, tab, base, i, tab[j].offset);
      }
    }
  }

  lemma KeepStep(m: seq<byte>, r: seq<byte>, tab: seq<Rela>, base: U64, i: nat)
    requires IsSpace(m) && IsSpace(r) && i < |tab|
    requires UntouchedKept(m, r, tab, i) && WordsRelocated(r, tab, base, i)
    requires !tab[i].IsRelative()
    ensures UntouchedKept(m, r, tab, i + 1) && WordsRelocated(r, tab, base, i + 1)
  {
  }

  /** Relocations off the table leave the table as the file has it. */
  lemma TableKept(m: seq<byte>, r: seq<byte>, f: seq<byte>, tab: seq<Rela>, phs: seq<Phdr>, t: U64, i: nat)
    requires IsSpace(m) && IsSpace(r) && IsSpace(f) && i < |tab|
    requires RelocationsOk(tab, phs, t) && AgreeOn(m, f, Low(phs), High(phs))
    requires UntouchedKept(m, r, tab, i)
    ensures RelaAt(r, t, i) == RelaAt(f, t, i)
  {
    forall v | t <= v < t + 24 * |tab| ensures r[v] == f[v] {
      forall j | 0 <= j < i ensures !Targets(tab[j], v) {
        assert TargetOk(tab[j], phs, t, |tab|);
      }
      assert m[v] == f[v];
    }
    RelaAgrees(r, f, t, |tab|, i);
  }

  /** Although the table is read from the image being patched, every entry is applied as the file has it. */
  lemma {:induction false} RelocateExact(m: seq<byte>, f: seq<byte>, phs: seq<Phdr>, base: U64, t: U64, n: nat, i: nat)
    requires IsSpace(m) && IsSpace(f) && i <= n
    requires RelocationsOk(Table(f, t, n), phs, t)
    requires AgreeOn(m, f, Low(phs), High(phs))
    ensures UntouchedKept(m, Relocate(m, base, t, i), Table(f, t, n), i)
    ensures WordsRelocated(Relocate(m, base, t, i), Table(f, t, n), base, i)
  {
    hide *;
    if i == 0 {
      NothingRelocated(m, base, t, Table(f, t, n));
    } else {
      RelocateExact(m, f, phs, base, t, n, i - 1);
      var r, tab := Relocate(m, base, t, i - 1), Table(f, t, n);
      TableKept(m, r, f, tab, phs, t, i - 1);
      ApplyStep(m, r, tab, phs, base, t, i - 1);
      RelocateUnfold(m, base, t, i);
    }
  }

  lemma NothingRelocated(m: seq<byte>, base: U64, t: U64, tab: seq<Rela>)
    requires IsSpace(m)
    ensures UntouchedKept(m, Relocate(m, base, t, 0), tab, 0) && WordsRelocated(Relocate(m, base, t, 0), tab, base, 0)
  {
  }

  lemma RelocateUnfold(m: seq<byte>, base: U64, t: U64, i: nat)
    requires IsSpace(m) && i > 0
    ensures Relocate(m, base, t, i) ==
      ApplyEntry(Relocate(m, base, t, i - 1), base, RelaAt(Relocate(m, base, t, i - 1), t, i - 1))
  {
  }

  lemma ApplyStep(m: seq<byte>, r: seq<byte>, tab: seq<Rela>, phs: seq<Phdr>, base: U64, t: U64, i: nat)
    requires IsSpace(m) && IsSpace(r)
    requires RelocationsOk(tab, phs, t) && i < |tab|
    requires UntouchedKept(m, r, tab, i) && WordsRelocated(r, tab, base, i)
    ensures UntouchedKept(m, ApplyEntry(r, base, tab[i]), tab, i + 1)
    ensures WordsRelocated(ApplyEntry(r, base, tab[i]), tab, base, i + 1)
  {
    hide UntouchedKept, WordsRelocated, RelocationsOk, Store64;
    if tab[i].IsRelative() {
      RelocateStep(m, r, tab, phs, base, t, i);
    } else {
      KeepStep(m, r, tab, base, i);
    }
  }
}
