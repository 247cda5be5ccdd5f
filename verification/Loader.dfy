/**
 `load_elf` itself: the firmware calls it makes, the pool blocks it owns and
 the memory it writes, step by step. The firmware is an oracle whose answers
 are arbitrary; everything below holds for all of them.
 */
module Loader {
  import opened Words
  import opened AddressSpace
  import opened ElfFormat
  import opened ElfImage
  import opened ElfReloc
  import opened PositionIndependence

  type Status = U64

  const SIZE_OF_EFI_FILE_INFO: U64 := 80
  const EFI_SUCCESS: Status := 0
  const EFI_INVALID_PARAMETER: Status := 0x8000_0000_0000_0002
  const EFI_UNSUPPORTED: Status := 0x8000_0000_0000_0003

  /** EFI_ERROR: the top bit of a status marks a failure. */
  predicate EfiError(s: Status) {
    s >= 0x8000_0000_0000_0000
  }

  /** A call of AllocatePages: any pages at all, or pages at a given address. */
  datatype Request = AnyPages(pages: nat) | AtAddress(pages: nat, addr: U64)

  /** The requests for the first `n` segments of a fixed-address file. */
  ghost function FixedRequests(phs: seq<Phdr>, n: nat): seq<Request>
    requires n <= |phs|
  {
    if n == 0 then [] else FixedRequests(phs, n - 1) + RequestFor(phs[n - 1])
  }

  ghost function RequestFor(p: Phdr): seq<Request> {
    if p.ptype == PT_LOAD then [AtAddress(Pages(p.memsz), p.vaddr)] else []
  }

  /** The pages asked for cover the segment or span, and by less than one page too much. */
  lemma PagesCover(size: U64)
    ensures size <= 4096 * Pages(size) < size + 4096
  {
  }

  /**
   Everything the firmware may answer during one call: a status for each
   service, the memory seen from the file buffer after Read, and the address of
   the pages found for a position-independent file.
   */
  datatype Answers = Answers(
    infoPool: Status, getInfo: Status, fileSize: U64, filePool: Status, read: Status, file: seq<byte>,
    anyPages: Status, addr: U64, atAddress: nat -> Status)

  // ----- memory services

  method SetMem(mem: array<byte>, a: U64, n: U64, v: byte)
    requires mem.Length == M64
    modifies mem
    ensures mem[..] == Fill(old(mem[..]), a, n, v)
  {
    for i := 0 to n
      invariant forall x :: 0 <= x < M64 ==> mem[x] == if Off(x, a) < i then v else old(mem[x])
    {
      mem[Plus(a, i)] := v;
    }
  }

  method CopyMem(mem: array<byte>, a: U64, src: seq<byte>, s: U64, n: U64)
    requires mem.Length == M64 && IsSpace(src)
    modifies mem
    ensures mem[..] == CopyIn(old(mem[..]), a, src, s, n)
  {
    for i := 0 to n
      invariant forall x :: 0 <= x < M64 ==>
        mem[x] == if Off(x, a) < i then src[Plus(s, Off(x, a))] else old(mem[x])
    {
      mem[Plus(a, i)] := src[Plus(s, i)];
    }
  }

  method StoreWord(mem: array<byte>, a: U64, w: U64)
    requires mem.Length == M64
    modifies mem
    ensures mem[..] == Store64(old(mem[..]), a, w)
  {
    for i := 0 to 8
      invariant forall x :: 0 <= x < M64 ==> mem[x] == if Off(x, a) < i then ByteOf(w, Off(x, a)) else old(mem[x])
    {
      mem[Plus(a, i)] := ByteOf(w, i);
    }
  }

  lemma LeZero(m: seq<byte>, a: U64)
    requires IsSpace(m)
    ensures Le(m, a, 0) == 0
  {
  }

  lemma LeUnfold(m: seq<byte>, a: U64, i: nat)
    requires IsSpace(m) && i < 8
    ensures Le(m, Plus(a, i), 8 - i) == m[Plus(a, i)] + 256 * Le(m, Plus(a, i + 1), 7 - i)
  {
    assert Plus(Plus(a, i), 1) == Plus(a, i + 1);
  }

  method LoadWord(mem: array<byte>, a: U64) returns (w: U64)
    requires mem.Length == M64
    ensures w == Load64(mem[..], a)
  {
    hide Le;
    var acc: nat, i := 0, 8;
    assert Le(mem[..], Plus(a, 8), 0) == 0 by { LeZero(mem[..], Plus(a, 8)); }
    while i > 0
      invariant 0 <= i <= 8
      invariant acc == Le(mem[..], Plus(a, i), 8 - i)
    {
      i := i - 1;
      LeUnfold(mem[..], a, i);
      acc := mem[Plus(a, i)] + 256 * acc;
    }
    LeBound(mem[..], a, 8);
    Pow256Of8();
    assert Plus(a, 0) == a;
    w := acc;
    assert w == Load64(mem[..], a);
  }

  // ----- boot services: the pool

  class BootServices {
    const answers: Answers
    const mem: array<byte>
    /** Blocks are numbered as they are handed out; `live` are those not yet freed. */
    var next: nat
    var live: set<nat>
    var freed: seq<nat>
    /** The size asked for in each AllocatePool call, in order. */
    var sizes: seq<U64>
    /** Every AllocatePages call, in order. */
    var requests: seq<Request>

    ghost predicate Valid()
      reads this
    {
      && mem.Length == M64 && IsSpace(answers.file)
      && (forall b :: b in live ==> b < next)
    }

    constructor (answers: Answers, mem: array<byte>)
      requires mem.Length == M64 && IsSpace(answers.file)
      ensures Valid() && this.answers == answers && this.mem == mem
      ensures next == 0 && live == {} && freed == [] && sizes == [] && requests == []
    {
      this.answers := answers;
      this.mem := mem;
      next, live, freed, sizes, requests := 0, {}, [], [], [];
    }

    method AllocatePool(size: U64, answer: Status) returns (status: Status, block: nat)
      requires Valid()
      modifies this`next, this`live, this`sizes
      ensures Valid() && status == answer && sizes == old(sizes) + [size]
      ensures EfiError(status) ==> next == old(next) && live == old(live)
      ensures !EfiError(status) ==> block == old(next) && next == old(next) + 1 && live == old(live) + {block}
    {
      status, block := answer, next;
      sizes := sizes + [size];
      if !EfiError(status) {
        live := live + {block};
        next := next + 1;
      }
    }

    /** Only a live block can be freed, so no block is freed twice. */
    method FreePool(block: nat)
      requires Valid() && block in live
      modifies this`live, this`freed
      ensures Valid()
      ensures live == old(live) - {block} && freed == old(freed) + [block]
    {
      live := live - {block};
      freed := freed + [block];
    }

    method AllocatePages(request: Request, answer: Status) returns (status: Status)
      modifies this`requests
      ensures status == answer && requests == old(requests) + [request]
    {
      requests := requests + [request];
      status := answer;
    }

    /** The FileSize field of the file information in a block. */
    function FileSize(block: nat): U64
      requires block in live
      reads this
    {
      answers.fileSize
    }

    /** The memory seen from a block; only a live block can be read. */
    function Contents(block: nat): seq<byte>
      requires block in live
      reads this
    {
      answers.file
    }
  }

  /** The consecutive numbers from `a` up to but not including `b`. */
  ghost function Range(a: nat, b: nat): seq<nat>
    requires a <= b
  {
    seq(b - a, i requires 0 <= i => a + i)
  }

  /** Since `freed` was `freed0` and `next` was `next0`, every block handed out was freed exactly once. */
  ghost predicate Conserved(fw: BootServices, next0: nat, live0: set<nat>, freed0: seq<nat>)
    reads fw
  {
    next0 <= fw.next && fw.live == live0 && fw.freed == freed0 + Range(next0, fw.next)
  }

  /** Exactly this block has been freed. */
  ghost predicate GivenBack(fw: BootServices, block: nat, live0: set<nat>, freed0: seq<nat>)
    reads fw
  {
    fw.live == live0 - {block} && fw.freed == freed0 + [block]
  }

  // ----- what load_elf is expected to do

  /** The first error while the file is read. */
  ghost function ReadStatus(a: Answers): (s: Status) {
    if EfiError(a.infoPool) then a.infoPool
    else if EfiError(a.getInfo) then a.getInfo
    else if EfiError(a.filePool) then a.filePool
    else a.read
  }

  /** What the checks of the file header answer. */
  ghost function HeaderStatus(file: seq<byte>): (s: Status)
    requires IsSpace(file)
  {
    if !HasMagic(file) then EFI_INVALID_PARAMETER
    else if !Is64Bit(file) || (Type(file) != ET_EXEC && Type(file) != ET_DYN) then EFI_UNSUPPORTED
    else EFI_SUCCESS
  }

  /** The first complaint about the firmware's answers or the file, before any memory is written. */
  ghost function Refusal(a: Answers): (s: Status)
    requires IsSpace(a.file)
  {
    if EfiError(ReadStatus(a)) then ReadStatus(a)
    else if EfiError(HeaderStatus(a.file)) then HeaderStatus(a.file)
    else if Type(a.file) == ET_DYN && EfiError(a.anyPages) then a.anyPages
    else EFI_SUCCESS
  }

  ghost predicate LoadsPie(a: Answers)
    requires IsSpace(a.file)
  {
    !EfiError(Refusal(a)) && Type(a.file) == ET_DYN
  }

  ghost predicate LoadsFixed(a: Answers)
    requires IsSpace(a.file)
  {
    !EfiError(Refusal(a)) && Type(a.file) == ET_EXEC
  }

  /** The first PT_LOAD whose fixed address the firmware denies, or the number of headers. */
  function FirstDenied(a: Answers, phs: seq<Phdr>, i: nat): (r: nat)
    requires i <= |phs|
    ensures i <= r <= |phs|
    ensures r < |phs| ==> phs[r].ptype == PT_LOAD && EfiError(a.atAddress(r))
    ensures forall k :: i <= k < r && phs[k].ptype == PT_LOAD ==> !EfiError(a.atAddress(k))
    decreases |phs| - i
  {
    if i == |phs| || (phs[i].ptype == PT_LOAD && EfiError(a.atAddress(i))) then i
    else FirstDenied(a, phs, i + 1)
  }

  /** What a fixed-address load asks for: every segment up to and including the first one denied. */
  ghost function FixedAsked(a: Answers, phs: seq<Phdr>): seq<Request> {
    var n := FirstDenied(a, phs, 0);
    FixedRequests(phs, if n < |phs| then n + 1 else n)
  }

  // ----- the passes

  method Span(elf: seq<byte>) returns (low: U64, high: U64)
    requires IsSpace(elf)
    ensures low == Low(Phdrs(elf)) && high == High(Phdrs(elf))
  {
    ghost var phs := Phdrs(elf);
    low, high := M64 - 1, 0;
    for i := 0 to PhNum(elf)
      invariant low == MinVaddr(phs, i) && high == MaxVaddr(phs, i)
    {
      var p := PhdrAt(elf, i);
      if p.ptype == PT_LOAD {
        if p.vaddr < low {
          low := p.vaddr;
        }
        if p.End() > high {
          high := p.End();
        }
      }
    }
  }

  /** Copy and zero-fill of one PT_LOAD at `base + p_vaddr`. */
  method PlaceSegment(mem: array<byte>, elf: seq<byte>, base: U64, clear: bool, p: Phdr)
    requires mem.Length == M64 && IsSpace(elf) && p.ptype == PT_LOAD
    modifies mem
    ensures From(mem[..], base) == LoadSegment(From(old(mem[..]), base), elf, clear, p)
  {
    var dest := Plus(base, p.vaddr);
    if clear {
      FromFill(mem[..], base, p.vaddr, p.memsz, 0);
      SetMem(mem, dest, p.memsz, 0);
    }
    if p.filesz > 0 {
      FromCopyIn(mem[..], base, p.vaddr, elf, p.offset, p.filesz);
      CopyMem(mem, dest, elf, p.offset, p.filesz);
    }
    if p.memsz > p.filesz {
      FromFill(mem[..], base, Plus(p.vaddr, p.filesz), p.memsz - p.filesz, 0);
      assert Plus(dest, p.filesz) == Plus(base, Plus(p.vaddr, p.filesz));
      SetMem(mem, Plus(dest, p.filesz), p.memsz - p.filesz, 0);
    }
  }

  /** One header of the second pass. */
  method LoadHeader(fw: BootServices, elf: seq<byte>, base: U64, pie: bool, i: nat, p: Phdr) returns (status: Status)
    requires fw.Valid() && IsSpace(elf)
    modifies fw`requests, fw.mem
    ensures fw.Valid()
    ensures fw.requests == old(fw.requests) + if pie then [] else RequestFor(p)
    ensures status == if pie || p.ptype != PT_LOAD then EFI_SUCCESS else fw.answers.atAddress(i)
    ensures From(fw.mem[..], base) ==
      if EfiError(status) then From(old(fw.mem[..]), base) else LoadSegment(From(old(fw.mem[..]), base), elf, !pie, p)
  {
    hide From, Fill, CopyIn;
    status := EFI_SUCCESS;
    if p.ptype == PT_LOAD {
      if !pie {
        status := fw.AllocatePages(AtAddress(Pages(p.memsz), p.vaddr), fw.answers.atAddress(i));
        if EfiError(status) {
          return;
        }
      }
      PlaceSegment(fw.mem, elf, base, !pie, p);
    }
  }

  /** The second pass. A denied address stops it with the earlier segments in place and the file's block freed. */
  method LoadPass(fw: BootServices, block: nat, base: U64, pie: bool) returns (status: Status)
    requires fw.Valid() && block in fw.live
    modifies fw`requests, fw`live, fw`freed, fw.mem
    ensures fw.Valid()
    ensures if EfiError(status) then GivenBack(fw, block, old(fw.live), old(fw.freed))
      else fw.live == old(fw.live) && fw.freed == old(fw.freed)
    ensures fw.requests == old(fw.requests) + if pie then [] else FixedAsked(fw.answers, Phdrs(fw.answers.file))
    ensures var phs := Phdrs(fw.answers.file);
      var n := if pie then |phs| else FirstDenied(fw.answers, phs, 0);
      && From(fw.mem[..], base) == LoadSegments(From(old(fw.mem[..]), base), fw.answers.file, !pie, phs, n)
      && status == if n < |phs| then fw.answers.atAddress(n) else EFI_SUCCESS
  {
    hide From, LoadSegment, Placed, AskedFor, PhdrAt, PhNum, FirstDenied;
    ghost var phs, elf := Phdrs(fw.answers.file), fw.answers.file;
    ghost var m0, r0 := fw.mem[..], fw.requests;
    status := EFI_SUCCESS;
    Begun(m0, elf, !pie, phs, base, r0, pie);
    for i := 0 to PhNum(fw.Contents(block))
      invariant Placed(m0, fw.mem[..], elf, !pie, phs, i, base)
      invariant AskedFor(r0, fw.requests, pie, phs, i)
      invariant !pie ==> FirstDenied(fw.answers, phs, i) == FirstDenied(fw.answers, phs, 0)
      invariant fw.Valid() && fw.live == old(fw.live) && fw.freed == old(fw.freed)
    {
      DeniedStep(fw.answers, phs, i);
      ghost var m, r := fw.mem[..], fw.requests;
      status := LoadHeader(fw, fw.Contents(block), base, pie, i, PhdrAt(fw.Contents(block), i));
      AskedStep(r0, r, pie, phs, i);
      if EfiError(status) {
        SamePlaced(m0, m, fw.mem[..], elf, !pie, phs, i, base);
        Reached(m0, fw.mem[..], elf, !pie, phs, i, base, r0, fw.requests, pie, i + 1);
        fw.FreePool(block);
        return;
      }
      PlacedStep(m0, m, fw.mem[..], elf, !pie, phs, i, base);
    }
    DeniedEnd(fw.answers, phs);
    Reached(m0, fw.mem[..], elf, !pie, phs, |phs|, base, r0, fw.requests, pie, |phs|);
    status := EFI_SUCCESS;
  }

  /** Memory `m` is `m0` with the first `n` headers loaded. */
  ghost predicate Placed(m0: seq<byte>, m: seq<byte>, elf: seq<byte>, clear: bool, phs: seq<Phdr>, n: nat, base: U64) {
    && IsSpace(m0) && IsSpace(m) && IsSpace(elf) && n <= |phs|
    && From(m, base) == LoadSegments(From(m0, base), elf, clear, phs, n)
  }

  /** The requests since `r0` are those for the first `n` headers. */
  ghost predicate AskedFor(r0: seq<Request>, r: seq<Request>, pie: bool, phs: seq<Phdr>, n: nat) {
    n <= |phs| && r == r0 + if pie then [] else FixedRequests(phs, n)
  }

  lemma Begun(m: seq<byte>, elf: seq<byte>, clear: bool, phs: seq<Phdr>, base: U64, r: seq<Request>, pie: bool)
    requires IsSpace(m) && IsSpace(elf)
    ensures Placed(m, m, elf, clear, phs, 0, base) && AskedFor(r, r, pie, phs, 0)
  {
  }

  lemma PlacedStep(m0: seq<byte>, m: seq<byte>, m1: seq<byte>, elf: seq<byte>, clear: bool, phs: seq<Phdr>, i: nat,
      base: U64)
    requires Placed(m0, m, elf, clear, phs, i, base) && i < |phs| && IsSpace(m1)
    requires From(m1, base) == LoadSegment(From(m, base), elf, clear, phs[i])
    ensures Placed(m0, m1, elf, clear, phs, i + 1, base)
  {
  }

  lemma SamePlaced(m0: seq<byte>, m: seq<byte>, m1: seq<byte>, elf: seq<byte>, clear: bool, phs: seq<Phdr>, i: nat,
      base: U64)
    requires Placed(m0, m, elf, clear, phs, i, base) && IsSpace(m1) && From(m1, base) == From(m, base)
    ensures Placed(m0, m1, elf, clear, phs, i, base)
  {
  }

  lemma AskedStep(r0: seq<Request>, r: seq<Request>, pie: bool, phs: seq<Phdr>, i: nat)
    requires AskedFor(r0, r, pie, phs, i) && i < |phs|
    ensures AskedFor(r0, r + if pie then [] else RequestFor(phs[i]), pie, phs, i + 1)
  {
  }

  lemma Reached(m0: seq<byte>, m: seq<byte>, elf: seq<byte>, clear: bool, phs: seq<Phdr>, n: nat, base: U64,
                r0: seq<Request>, r: seq<Request>, pie: bool, k: nat)
    requires Placed(m0, m, elf, clear, phs, n, base) && AskedFor(r0, r, pie, phs, k)
    ensures IsSpace(m0) && IsSpace(m) && IsSpace(elf) && n <= |phs| && k <= |phs|
    ensures From(m, base) == LoadSegments(From(m0, base), elf, clear, phs, n)
    ensures r == r0 + if pie then [] else FixedRequests(phs, k)
  {
  }

  lemma DeniedStep(a: Answers, phs: seq<Phdr>, i: nat)
    requires i < |phs|
    ensures FirstDenied(a, phs, i) ==
      if phs[i].ptype == PT_LOAD && EfiError(a.atAddress(i)) then i else FirstDenied(a, phs, i + 1)
  {
  }

  lemma DeniedEnd(a: Answers, phs: seq<Phdr>)
    ensures FirstDenied(a, phs, |phs|) == |phs|
  {
  }

  /** The scan for PT_DYNAMIC, stopping at the first. */
  method FindDynamic(elf: seq<byte>) returns (found: bool, vaddr: U64)
    requires IsSpace(elf)
    ensures found <==> HasDynamic(Phdrs(elf))
    ensures found ==> vaddr == DynVaddr(Phdrs(elf))
  {
    ghost var phs := Phdrs(elf);
    found, vaddr := false, 0;
    for i := 0 to PhNum(elf)
      invariant !found && FirstDynamic(phs, i) == FirstDynamic(phs, 0)
    {
      var p := PhdrAt(elf, i);
      if p.ptype == PT_DYNAMIC {
        return true, p.vaddr;
      }
    }
  }

  /** The walk over the dynamic table up to DT_NULL. */
  method ScanDynamic(mem: array<byte>, base: U64, d: U64) returns (info: DynInfo)
    requires mem.Length == M64 && DynTerminates(From(mem[..], base), d)
    ensures info == DynScanned(From(mem[..], base), d)
  {
    hide Load64, From;
    ghost var w := From(mem[..], base);
    ghost var n: nat :| DynEndsAt(w, d, n) && DynScanned(w, d) == ScanDyn(w, d, n);
    info := DynInfo(0, 0, 0);
    var k: nat := 0;
    FromLoad64(mem[..], base, Element(d, 16, 0));
    var tag := LoadWord(mem, Plus(base, Element(d, 16, 0)));
    while tag != DT_NULL
      invariant k <= n && tag == DynTag(w, d, k) && info == ScanDyn(w, d, k)
      decreases n - k
    {
      FromLoad64(mem[..], base, Plus(Element(d, 16, k), 8));
      var val := LoadWord(mem, Plus(base, Plus(Element(d, 16, k), 8)));
      info := ScanStep(info, Dyn(tag, val));
      k := k + 1;
      FromLoad64(mem[..], base, Element(d, 16, k));
      tag := LoadWord(mem, Plus(base, Element(d, 16, k)));
    }
  }

  /** The relocation loop: entries are read from the memory being patched. */
  method ApplyRelocations(mem: array<byte>, base: U64, t: U64, count: nat)
    requires mem.Length == M64
    modifies mem
    ensures From(mem[..], base) == Relocate(From(old(mem[..]), base), base, t, count)
  {
    ghost var w := From(mem[..], base);
    for i := 0 to count
      invariant From(mem[..], base) == Relocate(w, base, t, i)
    {
      var at := Element(t, 24, i);
      var offset := LoadWord(mem, Plus(base, at));
      FromLoad64(mem[..], base, at);
      var info := LoadWord(mem, Plus(base, Plus(at, 8)));
      FromLoad64(mem[..], base, Plus(at, 8));
      var addend := LoadWord(mem, Plus(base, Plus(at, 16)));
      FromLoad64(mem[..], base, Plus(at, 16));
      ghost var m := From(mem[..], base);
      assert RelaAt(m, t, i) == Rela(offset, info, addend);
      if info % M32 == R_AARCH64_RELATIVE {
        FromStore64(mem[..], base, offset, Plus(base, addend));
        StoreWord(mem, Plus(base, offset), Plus(base, addend));
      }
    }
  }

  /** Everything after the second pass for a position-independent file. */
  method RelocationPass(fw: BootServices, block: nat, base: U64)
    requires fw.Valid() && block in fw.live
    requires ScanTerminates(From(fw.mem[..], base), Phdrs(fw.answers.file), base)
    modifies fw.mem
    ensures From(fw.mem[..], base) ==
      RelocateImage(From(old(fw.mem[..]), base), Phdrs(fw.answers.file), base)
  {
    hide From, DynTerminates, DynScanned, Relocate, RelocateImage, Phdrs, HasDynamic, DynVaddr;
    ghost var w, phs := From(fw.mem[..], base), Phdrs(fw.answers.file);
    Unrelocated(w, phs, base);
    var found, vaddr := FindDynamic(fw.Contents(block));
    if found && Plus(base, vaddr) != 0 {
      ScannedRelocation(w, phs, base);
      var info := ScanDynamic(fw.mem, base, vaddr);
      if info.Active() {
        ApplyRelocations(fw.mem, base, info.rela, info.size / info.ent);
      }
    }
  }

  lemma Unrelocated(w: seq<byte>, phs: seq<Phdr>, base: U64)
    requires IsSpace(w) && ScanTerminates(w, phs, base)
    ensures !HasDynamic(phs) || Plus(base, DynVaddr(phs)) == 0 ==> RelocateImage(w, phs, base) == w
  {
  }

  lemma ScannedRelocation(w: seq<byte>, phs: seq<Phdr>, base: U64)
    requires IsSpace(w) && ScanTerminates(w, phs, base) && HasDynamic(phs) && Plus(base, DynVaddr(phs)) != 0
    ensures DynTerminates(w, DynVaddr(phs))
    ensures var info := DynScanned(w, DynVaddr(phs));
      RelocateImage(w, phs, base) == if info.Active() then Relocate(w, base, info.rela, info.Count()) else w
  {
    hide DynTerminates, DynScanned;
  }

  /** Memory after the second pass, and then after relocation, of a position-independent file. */
  lemma PieLoaded(m: seq<byte>, m1: seq<byte>, elf: seq<byte>, phs: seq<Phdr>, addr: U64)
    requires IsSpace(m) && IsSpace(m1) && IsSpace(elf) && LoadTerminates(m, elf, phs, addr)
    requires var base := BaseAddr(phs, addr);
      From(m1, base) == LoadSegments(Fill(From(m, base), Low(phs), TotalSize(phs), 0), elf, false, phs, |phs|)
    ensures var base := BaseAddr(phs, addr);
      From(m1, base) == PieView(From(m, base), elf, phs) && ScanTerminates(From(m1, base), phs, base)
  {
    hide From, Low, High, Fill, LoadSegments, ScanTerminates;
  }

  lemma PieRelocated(m: seq<byte>, m1: seq<byte>, elf: seq<byte>, phs: seq<Phdr>, addr: U64)
    requires IsSpace(m) && IsSpace(m1) && IsSpace(elf) && LoadTerminates(m, elf, phs, addr)
    requires var base := BaseAddr(phs, addr);
      && ScanTerminates(PieView(From(m, base), elf, phs), phs, base)
      && From(m1, base) == RelocateImage(PieView(From(m, base), elf, phs), phs, base)
    ensures m1 == PieMemory(m, elf, phs, addr)
  {
    hide From, BaseAddr, PieView, RelocateImage, ScanTerminates;
    FromBack(m1, BaseAddr(phs, addr));
  }

  /**
   From a checked file to a loaded one: the part of load_elf that writes memory. Every exit frees
   the file's block.
   */
  method LoadChecked(fw: BootServices, block: nat) returns (status: Status, entry: U64, base: U64)
    requires fw.Valid() && block in fw.live
    requires Type(fw.answers.file) == ET_EXEC || Type(fw.answers.file) == ET_DYN
    requires Type(fw.answers.file) == ET_DYN && !EfiError(fw.answers.anyPages) ==>
      LoadTerminates(fw.mem[..], fw.answers.file, Phdrs(fw.answers.file), fw.answers.addr)
    modifies fw`requests, fw`live, fw`freed, fw.mem
    ensures fw.Valid() && GivenBack(fw, block, old(fw.live), old(fw.freed))
    ensures var a, phs := fw.answers, Phdrs(fw.answers.file);
      fw.requests == old(fw.requests) +
        if Type(a.file) == ET_DYN then [AnyPages(Pages(TotalSize(phs)))] else FixedAsked(a, phs)
    ensures var a, phs := fw.answers, Phdrs(fw.answers.file);
      if Type(a.file) == ET_DYN then
        if EfiError(a.anyPages) then status == a.anyPages && fw.mem[..] == old(fw.mem[..])
        else
          && status == EFI_SUCCESS && fw.mem[..] == PieMemory(old(fw.mem[..]), a.file, phs, a.addr)
          && base == BaseAddr(phs, a.addr) && entry == EntryPoint(a.file, base)
      else
        var n := FirstDenied(a, phs, 0);
        && From(fw.mem[..], 0) == LoadSegments(From(old(fw.mem[..]), 0), a.file, true, phs, n)
        && if n < |phs| then status == a.atAddress(n)
           else status == EFI_SUCCESS && base == 0 && entry == EntryPoint(a.file, 0)
  {
    hide Low, High, Fill, LoadSegments, RelocateImage, PieView, PieMemory, LoadTerminates, ScanTerminates, Phdrs,
      Pages, FixedAsked, From, Type, Entry;
    var pie := Type(fw.Contents(block)) == ET_DYN;
    var low, high := Span(fw.Contents(block));
    var total := Off(high, low);
    base, entry := 0, 0;
    ghost var m := fw.mem[..];
    ghost var phs := Phdrs(fw.answers.file);
    if pie {
      status := fw.AllocatePages(AnyPages(Pages(total)), fw.answers.anyPages);
      if EfiError(status) {
        fw.FreePool(block);
        return;
      }
      var addr := fw.answers.addr;
      base := Off(addr, low);
      FromFill(m, base, low, total, 0);
      assert Plus(base, low) == addr;
      SetMem(fw.mem, addr, total, 0);
    }
    status := LoadPass(fw, block, base, pie);
    if EfiError(status) {
      return;
    }
    if pie {
      PieLoaded(m, fw.mem[..], fw.answers.file, phs, fw.answers.addr);
      RelocationPass(fw, block, base);
      PieRelocated(m, fw.mem[..], fw.answers.file, phs, fw.answers.addr);
    }
    entry := Plus(base, Entry(fw.Contents(block)));
    fw.FreePool(block);
    status := EFI_SUCCESS;
  }

  /** Which of the outcomes of `load_elf` the answers lead to. */
  lemma AnswerDecides(a: Answers)
    requires IsSpace(a.file)
    ensures EfiError(ReadStatus(a)) ==> Refusal(a) == ReadStatus(a) && !LoadsPie(a) && !LoadsFixed(a)
    ensures !EfiError(ReadStatus(a)) && EfiError(HeaderStatus(a.file)) ==>
      Refusal(a) == HeaderStatus(a.file) && !LoadsPie(a) && !LoadsFixed(a)
    ensures !EfiError(ReadStatus(a)) && !EfiError(HeaderStatus(a.file)) ==>
      && (LoadsPie(a) <==> Type(a.file) == ET_DYN && !EfiError(a.anyPages))
      && (LoadsFixed(a) <==> Type(a.file) == ET_EXEC)
      && (EfiError(Refusal(a)) <==> Type(a.file) == ET_DYN && EfiError(a.anyPages))
      && (EfiError(Refusal(a)) ==> Refusal(a) == a.anyPages)
  {
    hide Type, HeaderStatus, ReadStatus;
  }

  /** Asks for the size of the file and reads it into a pool block, giving back what is not needed any more. */
  method ReadFile(fw: BootServices) returns (status: Status, block: nat)
    requires fw.Valid()
    modifies fw`next, fw`live, fw`freed, fw`sizes
    ensures fw.Valid() && status == ReadStatus(fw.answers)
    ensures fw.sizes == old(fw.sizes) +
      if EfiError(fw.answers.infoPool) || EfiError(fw.answers.getInfo) then [336] else [336, fw.answers.fileSize]
    ensures EfiError(status) ==> Conserved(fw, old(fw.next), old(fw.live), old(fw.freed))
    ensures !EfiError(status) ==> var n := old(fw.next);
      && block == n + 1 && fw.next == n + 2 && fw.freed == old(fw.freed) + [n]
      && fw.live == old(fw.live) + {n} - {n} + {block}
  {
    hide Conserved;
    var a := fw.answers;
    ghost var n0, l0, f0 := fw.next, fw.live, fw.freed;
    var info;
    block := 0;
    NoneTaken(fw);
    status, info := fw.AllocatePool(SIZE_OF_EFI_FILE_INFO + 256, a.infoPool);
    if EfiError(status) {
      NoneTaken(fw);
      return;
    }
    status := a.getInfo;
    if EfiError(status) {
      fw.FreePool(info);
      OneTaken(fw, n0, l0, f0);
      return;
    }
    var elfSize := fw.FileSize(info);
    fw.FreePool(info);
    status, block := fw.AllocatePool(elfSize, a.filePool);
    if EfiError(status) {
      OneTaken(fw, n0, l0, f0);
      return;
    }
    status := a.read;
    if EfiError(status) {
      fw.FreePool(block);
      TwoTaken(fw, n0, l0, f0);
      return;
    }
  }

  /** The checks of the file header: a file that fails one is given back. */
  method CheckFile(fw: BootServices, block: nat) returns (status: Status)
    requires fw.Valid() && block in fw.live
    modifies fw`live, fw`freed
    ensures fw.Valid() && status == HeaderStatus(fw.answers.file)
    ensures !EfiError(status) ==> Type(fw.answers.file) == ET_EXEC || Type(fw.answers.file) == ET_DYN
    ensures if EfiError(status) then GivenBack(fw, block, old(fw.live), old(fw.freed))
      else fw.live == old(fw.live) && fw.freed == old(fw.freed)
  {
    hide HasMagic, Is64Bit, Type;
    if !HasMagic(fw.Contents(block)) {
      fw.FreePool(block);
      return EFI_INVALID_PARAMETER;
    }
    if !Is64Bit(fw.Contents(block)) {
      fw.FreePool(block);
      return EFI_UNSUPPORTED;
    }
    if Type(fw.Contents(block)) != ET_EXEC && Type(fw.Contents(block)) != ET_DYN {
      fw.FreePool(block);
      return EFI_UNSUPPORTED;
    }
    status := EFI_SUCCESS;
  }

  /**
   `load_elf`. On every path, whatever the firmware answers, each block taken
   from the pool is given back exactly once and never read afterwards.
   */
  method LoadElf(fw: BootServices) returns (status: Status, entry: U64, base: U64)
    requires fw.Valid()
    requires LoadsPie(fw.answers) ==>
      LoadTerminates(fw.mem[..], fw.answers.file, Phdrs(fw.answers.file), fw.answers.addr)
    modifies fw, fw.mem
    ensures fw.Valid() && Conserved(fw, old(fw.next), old(fw.live), old(fw.freed))
    ensures fw.sizes == old(fw.sizes) +
      if EfiError(fw.answers.infoPool) || EfiError(fw.answers.getInfo) then [336] else [336, fw.answers.fileSize]
    ensures LoadsPie(fw.answers) ==>
      fw.requests == old(fw.requests) + [AnyPages(Pages(TotalSize(Phdrs(fw.answers.file))))]
    ensures LoadsFixed(fw.answers) ==>
      fw.requests == old(fw.requests) + FixedAsked(fw.answers, Phdrs(fw.answers.file))
    ensures EfiError(Refusal(fw.answers)) ==> status == Refusal(fw.answers) && fw.mem[..] == old(fw.mem[..])
    ensures LoadsPie(fw.answers) ==>
      var a, phs := fw.answers, Phdrs(fw.answers.file);
      && status == EFI_SUCCESS && fw.mem[..] == PieMemory(old(fw.mem[..]), a.file, phs, a.addr)
      && base == BaseAddr(phs, a.addr) && entry == EntryPoint(a.file, base)
    ensures LoadsFixed(fw.answers) ==>
      var a, phs := fw.answers, Phdrs(fw.answers.file);
      var n := FirstDenied(a, phs, 0);
      && From(fw.mem[..], 0) == LoadSegments(From(old(fw.mem[..]), 0), a.file, true, phs, n)
      && if n < |phs| then status == a.atAddress(n)
         else status == EFI_SUCCESS && base == 0 && entry == EntryPoint(a.file, 0)
  {
    hide PieMemory, LoadSegments, FixedAsked, HasMagic, Is64Bit, Type, Phdrs, LoadTerminates, From, BaseAddr,
      EntryPoint, Pages, TotalSize, Conserved, FirstDenied, HeaderStatus, ReadStatus, Refusal, LoadsPie, LoadsFixed,
      EfiError;
    AnswerDecides(fw.answers);
    ghost var n0, l0, f0 := fw.next, fw.live, fw.freed;
    ghost var m := fw.mem[..];
    var block;
    base, entry := 0, 0;
    status, block := ReadFile(fw);
    assert fw.mem[..] == m;
    if EfiError(status) {
      return;
    }
    status := CheckFile(fw, block);
    assert fw.mem[..] == m;
    if EfiError(status) {
      TwoTaken(fw, n0, l0, f0);
      return;
    }
    status, entry, base := LoadChecked(fw, block);
    TwoTaken(fw, n0, l0, f0);
  }

  // ----- what the answers mean

  /** Which files are refused, and how, once they have been read: byte by byte. */
  lemma RefusedFiles(a: Answers)
    requires IsSpace(a.file) && a.infoPool == a.getInfo == a.filePool == a.read == a.anyPages == 0
    ensures var f := a.file;
      Refusal(a) ==
        if !(f[0] == 127 && f[1] == 69 && f[2] == 76 && f[3] == 70) then 0x8000_0000_0000_0002
        else if f[4] != 2 || !(f[16] == 2 || f[16] == 3) || f[17] != 0 then 0x8000_0000_0000_0003
        else 0
    ensures LoadsPie(a) <==> Refusal(a) == 0 && a.file[16] == 3
    ensures LoadsFixed(a) <==> Refusal(a) == 0 && a.file[16] == 2
  {
    TwoBytes(a.file);
    hide Type;
  }

  lemma {:induction false} TwoBytes(f: seq<byte>)
    requires IsSpace(f)
    ensures Type(f) == f[16] as int + 256 * f[17] as int
  {
    assert Le(f, 18, 0) == 0 && Le(f, 17, 1) == f[17];
  }

  /** A status is an error when its top bit is set; the first error among the answers is the one returned. */
  lemma FirstErrorReturned(a: Answers)
    requires IsSpace(a.file)
    ensures a.infoPool >= 0x8000_0000_0000_0000 ==> Refusal(a) == a.infoPool
    ensures a.infoPool < 0x8000_0000_0000_0000 <= a.getInfo ==> Refusal(a) == a.getInfo
    ensures a.infoPool < 0x8000_0000_0000_0000 && a.getInfo < 0x8000_0000_0000_0000 <= a.filePool ==>
      Refusal(a) == a.filePool
    ensures (a.infoPool < 0x8000_0000_0000_0000 && a.getInfo < 0x8000_0000_0000_0000 &&
             a.filePool < 0x8000_0000_0000_0000 <= a.read) ==> Refusal(a) == a.read
  {
  }

  /** Page `r` reaches address `x`. */
  ghost predicate Reaches(r: Request, x: int) {
    r.AtAddress? && r.addr <= x < r.addr + 4096 * r.pages
  }

  /** Every byte of every segment of a fixed-address file lies in pages that were asked for. */
  lemma {:induction false} FixedRequestsCover(phs: seq<Phdr>, n: nat, i: nat, x: int)
    requires i < n <= |phs| && phs[i].ptype == 1 && phs[i].vaddr <= x < phs[i].vaddr + phs[i].memsz
    ensures exists r :: r in FixedRequests(phs, n) && Reaches(r, x)
  {
    hide Pages;
    if i == n - 1 {
      var r := AtAddress(Pages(phs[i].memsz), phs[i].vaddr);
      PagesCover(phs[i].memsz);
      assert r in RequestFor(phs[i]);
      assert Reaches(r, x);
    } else {
      FixedRequestsCover(phs, n - 1, i, x);
    }
  }

  ghost predicate AsksFor(r: Request, p: Phdr) {
    r.AtAddress? && r.addr == p.vaddr && p.memsz <= 4096 * r.pages < p.memsz + 4096
  }

  /** And nothing is asked for but whole segments, rounded up to pages. */
  lemma {:induction false} FixedRequestsOnly(phs: seq<Phdr>, n: nat, r: Request)
    requires n <= |phs| && r in FixedRequests(phs, n)
    ensures exists i :: 0 <= i < n && phs[i].ptype == 1 && AsksFor(r, phs[i])
  {
    hide Pages;
    var p := phs[n - 1];
    PagesCover(p.memsz);
    if r in RequestFor(p) {
      assert 0 <= n - 1 < n && phs[n - 1].ptype == 1;
    } else {
      FixedRequestsOnly(phs, n - 1, r);
    }
  }

  /** Nothing taken from the pool. */
  lemma NoneTaken(fw: BootServices)
    ensures Conserved(fw, fw.next, fw.live, fw.freed)
  {
    assert fw.freed + Range(fw.next, fw.next) == fw.freed;
  }

  /** One block taken and given back. */
  lemma OneTaken(fw: BootServices, next0: nat, live0: set<nat>, freed0: seq<nat>)
    requires fw.next == next0 + 1 && fw.freed == freed0 + [next0] && fw.live == live0 + {next0} - {next0}
    requires forall b :: b in live0 ==> b < next0
    ensures Conserved(fw, next0, live0, freed0)
  {
    assert Range(next0, next0 + 1) == [next0];
    assert live0 + {next0} - {next0} == live0;
  }

  /** Two blocks, one after the other. */
  lemma TwoTaken(fw: BootServices, next0: nat, live0: set<nat>, freed0: seq<nat>)
    requires fw.next == next0 + 2 && fw.freed == freed0 + [next0] + [next0 + 1]
    requires fw.live == live0 + {next0} - {next0} + {next0 + 1} - {next0 + 1}
    requires forall b :: b in live0 ==> b < next0
    ensures Conserved(fw, next0, live0, freed0)
  {
    assert Range(next0, next0 + 2) == [next0] + [next0 + 1];
    assert live0 + {next0} - {next0} + {next0 + 1} - {next0 + 1} == live0;
  }

  /**
   What a caller may rely on: pages of the size asked for, at any address that does
   not hide the dynamic section, make a well-formed file load, and no byte outside
   those pages changes.
   */
  lemma {:induction false} GrantedPagesSuffice(a: Answers, m: seq<byte>)
    requires IsSpace(a.file) && IsSpace(m) && LoadsPie(a) && WellFormedPie(a.file, Phdrs(a.file))
    requires a.addr + 4096 * Pages(TotalSize(Phdrs(a.file))) <= M64 && DynVisible(Phdrs(a.file), a.addr)
    ensures var phs := Phdrs(a.file);
      && Fits(phs, a.addr) && LoadTerminates(m, a.file, phs, a.addr)
      && forall x :: 0 <= x < M64 && !(a.addr <= x < a.addr + 4096 * Pages(TotalSize(phs))) ==>
           PieMemory(m, a.file, phs, a.addr)[x] == m[x]
  {
    hide Pages, PieMemory, LoadTerminates, WellFormedPie, DynVisible, TotalSize, Phdrs, LoadsPie;
    var phs := Phdrs(a.file);
    PagesCover(TotalSize(phs));
    PieMemoryExact(m, a.file, phs, a.addr);
  }
}
