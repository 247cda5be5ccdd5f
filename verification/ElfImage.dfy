/**
 What the two passes over the program headers leave in memory.

 The specification works on memory seen from `base_addr`, so that virtual
 address `v` of the file is index `v`: a loader that writes at
 `base_addr + v` modulo 2^64 writes at index `v` of that view, even when
 `base_addr` has wrapped around.
 */
module ElfImage {
  import opened Words
  import opened AddressSpace
  import opened ElfFormat

  // ----- first pass: the span

  function MinVaddr(phs: seq<Phdr>, n: nat): U64
    requires n <= |phs|
  {
    if n == 0 then M64 - 1
    else
      var r := MinVaddr(phs, n - 1);
      if phs[n - 1].ptype == PT_LOAD && phs[n - 1].vaddr < r then phs[n - 1].vaddr else r
  }

  function MaxVaddr(phs: seq<Phdr>, n: nat): U64
    requires n <= |phs|
  {
    if n == 0 then 0
    else
      var r := MaxVaddr(phs, n - 1);
      if phs[n - 1].ptype == PT_LOAD && phs[n - 1].End() > r then phs[n - 1].End() else r
  }

  function Low(phs: seq<Phdr>): U64 { MinVaddr(phs, |phs|) }
  function High(phs: seq<Phdr>): U64 { MaxVaddr(phs, |phs|) }
  function TotalSize(phs: seq<Phdr>): U64 { Off(High(phs), Low(phs)) }

  /** EFI_SIZE_TO_PAGES */
  function Pages(size: U64): nat { size / 4096 + if size % 4096 != 0 then 1 else 0 }

  // ----- second pass: the segments

  ghost function LoadSegment(m: seq<byte>, elf: seq<byte>, clear: bool, p: Phdr): (r: seq<byte>)
    requires IsSpace(m) && IsSpace(elf)
    ensures IsSpace(r)
  {
    if p.ptype != PT_LOAD then m
    else
      var m1 := if clear then Fill(m, p.vaddr, p.memsz, 0) else m;
      var m2 := if p.filesz > 0 then CopyIn(m1, p.vaddr, elf, p.offset, p.filesz) else m1;
      if p.memsz > p.filesz then Fill(m2, Plus(p.vaddr, p.filesz), p.memsz - p.filesz, 0) else m2
  }

  ghost function LoadSegments(m: seq<byte>, elf: seq<byte>, clear: bool, phs: seq<Phdr>, n: nat): (r: seq<byte>)
    requires IsSpace(m) && IsSpace(elf) && n <= |phs|
    ensures IsSpace(r)
  {
    if n == 0 then m
    else LoadSegment(LoadSegments(m, elf, clear, phs, n - 1), elf, clear, phs[n - 1])
  }

  // ----- what a well-formed program header table promises

  ghost predicate SegmentOk(p: Phdr) {
    p.ptype == PT_LOAD ==> p.filesz <= p.memsz && p.vaddr + p.memsz < M64
  }

  ghost predicate Disjoint(p: Phdr, q: Phdr) {
    forall v: int :: !(p.Covers(v) && q.Covers(v))
  }

  ghost predicate LoadsOk(phs: seq<Phdr>) {
    && (forall i :: 0 <= i < |phs| ==> SegmentOk(phs[i]))
    && (forall i, j :: 0 <= i < j < |phs| ==> Disjoint(phs[i], phs[j]))
  }

  ghost predicate HasLoad(phs: seq<Phdr>) {
    exists i :: 0 <= i < |phs| && phs[i].ptype == PT_LOAD
  }

  /** The byte that segment `p` of the file gives virtual address `v`. */
  ghost function SegmentByte(elf: seq<byte>, p: Phdr, v: int): byte
    requires IsSpace(elf) && p.vaddr <= v
  {
    if v - p.vaddr < p.filesz then elf[Plus(p.offset, v - p.vaddr)] else 0
  }

  /** The byte that the file as a whole gives virtual address `v`: zero in BSS and in gaps. */
  ghost function ImageByte(elf: seq<byte>, phs: seq<Phdr>, v: int): byte
    requires IsSpace(elf)
  {
    if exists j :: 0 <= j < |phs| && phs[j].Covers(v) then
      var j :| 0 <= j < |phs| && phs[j].Covers(v);
      SegmentByte(elf, phs[j], v)
    else 0
  }

  // ----- the span is exactly what the PT_LOADs occupy

  lemma {:induction false} SpanBounds(phs: seq<Phdr>, n: nat)
    requires n <= |phs|
    ensures forall i :: 0 <= i < n && phs[i].ptype == PT_LOAD ==>
      MinVaddr(phs, n) <= phs[i].vaddr && phs[i].End() <= MaxVaddr(phs, n)
    ensures MinVaddr(phs, n) == M64 - 1 ||
      exists i :: 0 <= i < n && phs[i].ptype == PT_LOAD && phs[i].vaddr == MinVaddr(phs, n)
    ensures MaxVaddr(phs, n) == 0 ||
      exists i :: 0 <= i < n && phs[i].ptype == PT_LOAD && phs[i].End() == MaxVaddr(phs, n)
  {
    if n > 0 {
      SpanBounds(phs, n - 1);
    }
  }

  lemma SpanOfLoads(phs: seq<Phdr>)
    requires HasLoad(phs)
    requires forall i :: 0 <= i < |phs| ==> SegmentOk(phs[i])
    ensures Low(phs) <= High(phs) && TotalSize(phs) == High(phs) - Low(phs)
    ensures forall i, v: int :: 0 <= i < |phs| && phs[i].Covers(v) ==> Low(phs) <= v < High(phs)
  {
    SpanBounds(phs, |phs|);
    var i :| 0 <= i < |phs| && phs[i].ptype == PT_LOAD;
    assert SegmentOk(phs[i]);
    forall j, v: int | 0 <= j < |phs| && phs[j].Covers(v) ensures Low(phs) <= v < High(phs) {
      assert SegmentOk(phs[j]);
    }
  }

  // ----- image exactness

  /** One segment: file bytes, then zeros, then nothing else changes. Holds for any header. */
  lemma SegmentEffect(m: seq<byte>, elf: seq<byte>, clear: bool, p: Phdr, v: U64)
    requires IsSpace(m) && IsSpace(elf)
    ensures LoadSegment(m, elf, clear, p)[v] ==
      if p.ptype != PT_LOAD then m[v]
      else if Off(v, p.vaddr) < p.filesz then elf[Plus(p.offset, Off(v, p.vaddr))]
      else if Off(v, p.vaddr) < p.memsz then 0
      else m[v]
  {
  }

  lemma SegmentEffectOk(m: seq<byte>, elf: seq<byte>, clear: bool, p: Phdr, v: U64)
    requires IsSpace(m) && IsSpace(elf) && SegmentOk(p)
    ensures LoadSegment(m, elf, clear, p)[v] == if p.Covers(v) then SegmentByte(elf, p, v) else m[v]
  {
    hide LoadSegment;
    SegmentEffect(m, elf, clear, p, v);
  }

  /** Whatever the order of the headers, every segment byte ends up in place and no other byte changes. */
  lemma {:induction false} SegmentsExact(m: seq<byte>, elf: seq<byte>, clear: bool, phs: seq<Phdr>, n: nat, v: U64)
    requires IsSpace(m) && IsSpace(elf) && n <= |phs| && LoadsOk(phs)
    ensures forall j :: 0 <= j < n && phs[j].Covers(v) ==>
      LoadSegments(m, elf, clear, phs, n)[v] == SegmentByte(elf, phs[j], v)
    ensures (forall j :: 0 <= j < n ==> !phs[j].Covers(v)) ==>
      LoadSegments(m, elf, clear, phs, n)[v] == m[v]
  {
    if n > 0 {
      SegmentsExact(m, elf, clear, phs, n - 1, v);
      assert SegmentOk(phs[n - 1]);
      SegmentEffectOk(LoadSegments(m, elf, clear, phs, n - 1), elf, clear, phs[n - 1], v);
      forall j | 0 <= j < n - 1 && phs[j].Covers(v) ensures !phs[n - 1].Covers(v) {
        assert Disjoint(phs[j], phs[n - 1]);
      }
    }
  }

  lemma ImageByteOfSegment(elf: seq<byte>, phs: seq<Phdr>, j: nat, v: int)
    requires IsSpace(elf) && LoadsOk(phs) && j < |phs| && phs[j].Covers(v)
    ensures ImageByte(elf, phs, v) == SegmentByte(elf, phs[j], v)
  {
  }

  /** The image of a position-independent file in the view from `base_addr`: span cleared, segments loaded. */
  ghost function PieView(m: seq<byte>, elf: seq<byte>, phs: seq<Phdr>): (r: seq<byte>)
    requires IsSpace(m) && IsSpace(elf)
    ensures IsSpace(r)
  {
    LoadSegments(Fill(m, Low(phs), TotalSize(phs), 0), elf, false, phs, |phs|)
  }

  /** Inside the span the view is exactly the file's image; outside it nothing has changed. */
  lemma PieViewExact(m: seq<byte>, elf: seq<byte>, phs: seq<Phdr>, v: U64)
    requires IsSpace(m) && IsSpace(elf) && LoadsOk(phs) && HasLoad(phs)
    ensures PieView(m, elf, phs)[v] == if Low(phs) <= v < High(phs) then ImageByte(elf, phs, v) else m[v]
  {
    SpanOfLoads(phs);
    var cleared := Fill(m, Low(phs), TotalSize(phs), 0);
    assert cleared[v] == if Low(phs) <= v < High(phs) then 0 else m[v] by {
      assert Off(v, Low(phs)) == if Low(phs) <= v then v - Low(phs) else v - Low(phs) + M64;
    }
    SegmentsExact(cleared, elf, false, phs, |phs|, v);
    if j :| 0 <= j < |phs| && phs[j].Covers(v) {
      ImageByteOfSegment(elf, phs, j, v);
    }
  }
}
