/**
 Loading a position-independent file: the memory that results, in absolute
 addresses, and how it depends on the address the firmware chose.
 */
module PositionIndependence {
  import opened Words
  import opened AddressSpace
  import opened ElfFormat
  import opened ElfImage
  import opened ElfReloc
  import opened ElfLayout

  /** `base_addr = addr - min_vaddr`, which wraps when `addr` is the smaller. */
  ghost function BaseAddr(phs: seq<Phdr>, addr: U64): U64 {
    Off(addr, Low(phs))
  }

  /** The span fits between `addr` and the end of memory. */
  ghost predicate Fits(phs: seq<Phdr>, addr: U64) {
    addr + TotalSize(phs) <= M64
  }

  /** The dynamic section does not land on address 0, which the loader takes for no dynamic section. */
  ghost predicate DynVisible(phs: seq<Phdr>, addr: U64) {
    HasDynamic(phs) ==> addr != 0 || DynVaddr(phs) != Low(phs)
  }

  ghost predicate LoadTerminates(m: seq<byte>, elf: seq<byte>, phs: seq<Phdr>, addr: U64)
    requires IsSpace(m) && IsSpace(elf)
  {
    var base := BaseAddr(phs, addr);
    ScanTerminates(PieView(From(m, base), elf, phs), phs, base)
  }

  /** All of memory after the file has been loaded at `addr` and relocated. */
  ghost function PieMemory(m: seq<byte>, elf: seq<byte>, phs: seq<Phdr>, addr: U64): (r: seq<byte>)
    requires IsSpace(m) && IsSpace(elf) && LoadTerminates(m, elf, phs, addr)
    ensures IsSpace(r)
  {
    var base := BaseAddr(phs, addr);
    From(RelocateImage(PieView(From(m, base), elf, phs), phs, base), Off(0, base))
  }

  /** The relocation table of the file; empty when there is nothing to relocate. */
  ghost function Relocations(elf: seq<byte>, phs: seq<Phdr>): seq<Rela>
    requires IsSpace(elf) && DynamicInImage(FileView(elf, phs), phs)
  {
    var info := FileInfo(FileView(elf, phs), phs);
    Table(FileView(elf, phs), info.rela, info.Count())
  }

  ghost predicate Relocated(tab: seq<Rela>, v: int) {
    exists j :: 0 <= j < |tab| && Targets(tab[j], v)
  }

  /** The file's virtual address `v` sits `v - min_vaddr` bytes into the allocation. */
  lemma AddressOf(phs: seq<Phdr>, addr: U64, v: int)
    requires Fits(phs, addr) && Low(phs) <= High(phs) && Low(phs) <= v <= High(phs)
    requires TotalSize(phs) == High(phs) - Low(phs)
    ensures v < High(phs) ==> Plus(BaseAddr(phs, addr), v) == addr + v - Low(phs)
    ensures addr + v - Low(phs) <= M64
  {
  }

  lemma PieViewAgrees(m: seq<byte>, elf: seq<byte>, phs: seq<Phdr>)
    requires IsSpace(m) && IsSpace(elf) && LoadsOk(phs) && HasLoad(phs)
    ensures AgreeOn(PieView(m, elf, phs), FileView(elf, phs), Low(phs), High(phs))
  {
    forall v: int | Low(phs) <= v < High(phs) ensures PieView(m, elf, phs)[v] == FileView(elf, phs)[v] {
      PieViewExact(m, elf, phs, v);
    }
  }

  lemma AgreeNarrow(m: seq<byte>, f: seq<byte>, lo: int, hi: int, lo': int, hi': int)
    requires IsSpace(m) && IsSpace(f) && AgreeOn(m, f, lo, hi) && lo <= lo' && hi' <= hi
    ensures AgreeOn(m, f, lo', hi')
  {
  }

  /** The scan of the loaded image finds what the file says, wherever the image was put. */
  lemma ScanSeesFile(w: seq<byte>, f: seq<byte>, phs: seq<Phdr>, base: U64)
    requires IsSpace(w) && IsSpace(f) && AgreeOn(w, f, Low(phs), High(phs))
    requires DynamicInImage(f, phs)
    ensures ScanTerminates(w, phs, base)
    ensures HasDynamic(phs) ==> DynTerminates(w, DynVaddr(phs)) && DynScanned(w, DynVaddr(phs)) == FileInfo(f, phs)
  {
    hide DynEndsAt, DynScanned, AgreeOn;
    if HasDynamic(phs) {
      var d := DynVaddr(phs);
      var n: nat :| DynEndsAt(f, d, n) && Within(phs, d, 16 * n + 8);
      AgreeNarrow(w, f, Low(phs), High(phs), d, d + 16 * n + 8);
      DynAgrees(w, f, d, n);
    }
  }

  /** The relocated view, exactly. */
  lemma RelocatedView(w: seq<byte>, elf: seq<byte>, phs: seq<Phdr>, base: U64)
    requires IsSpace(w) && IsSpace(elf) && WellFormedPie(elf, phs)
    requires AgreeOn(w, FileView(elf, phs), Low(phs), High(phs))
    requires HasDynamic(phs) ==> Plus(base, DynVaddr(phs)) != 0
    ensures ScanTerminates(w, phs, base)
    ensures var tab := Relocations(elf, phs);
      && UntouchedKept(w, RelocateImage(w, phs, base), tab, |tab|)
      && WordsRelocated(RelocateImage(w, phs, base), tab, base, |tab|)
  {
    hide DynScanned, RelaAt, AgreeOn, RelocationsOk, FileView;
    var f := FileView(elf, phs);
    ScanSeesFile(w, f, phs, base);
    var info := FileInfo(f, phs);
    if HasDynamic(phs) && info.Count() > 0 {
      RelocateExact(w, f, phs, base, info.rela, info.Count(), info.Count());
    }
  }

  /** Relocation targets lie in the image, so nothing outside the allocation is written. */
  lemma TargetsInside(elf: seq<byte>, phs: seq<Phdr>, j: nat)
    requires IsSpace(elf) && WellFormedPie(elf, phs) && j < |Relocations(elf, phs)|
    requires Relocations(elf, phs)[j].IsRelative()
    ensures Low(phs) <= Relocations(elf, phs)[j].offset
    ensures Relocations(elf, phs)[j].offset + 8 <= High(phs)
  {
    hide DynScanned, RelaAt, FileView;
    assert TargetOk(Relocations(elf, phs)[j], phs, FileInfo(FileView(elf, phs), phs).rela, |Relocations(elf, phs)|);
  }

  /** A word of the view is the word at the corresponding address. */
  lemma WordBack(r: seq<byte>, base: U64, a: U64)
    requires IsSpace(r)
    ensures Load64(From(r, Off(0, base)), Plus(base, a)) == Load64(r, a)
  {
    FromLoad64(From(r, Off(0, base)), base, a);
    FromBack(r, base);
  }

  /**
   Exactness: outside the allocation nothing changes, unrelocated bytes are the
   file's, and each relocated word holds the load base plus its addend.
   */
  lemma PieMemoryExact(m: seq<byte>, elf: seq<byte>, phs: seq<Phdr>, addr: U64)
    requires IsSpace(m) && IsSpace(elf) && WellFormedPie(elf, phs) && Fits(phs, addr) && DynVisible(phs, addr)
    ensures LoadTerminates(m, elf, phs, addr)
    ensures forall x :: 0 <= x < M64 && !(addr <= x < addr + TotalSize(phs)) ==>
      PieMemory(m, elf, phs, addr)[x] == m[x]
    ensures forall v: int :: Low(phs) <= v < High(phs) && !Relocated(Relocations(elf, phs), v) ==>
      Plus(BaseAddr(phs, addr), v) == addr + v - Low(phs) &&
      PieMemory(m, elf, phs, addr)[Plus(BaseAddr(phs, addr), v)] == ImageByte(elf, phs, v)
    ensures var tab := Relocations(elf, phs);
      forall j :: 0 <= j < |tab| && tab[j].IsRelative() ==>
        var w := LastWriter(tab, tab[j].offset, |tab|);
        Low(phs) <= tab[j].offset < High(phs) && w >= 0 &&
        Load64(PieMemory(m, elf, phs, addr), Plus(BaseAddr(phs, addr), tab[j].offset)) ==
          Plus(BaseAddr(phs, addr), tab[w].addend)
  {
    hide PieMemory, LoadTerminates, Relocations, Relocated, Relocates, Low, High, TotalSize, BaseAddr, ImageByte,
      Load64, LoadsOk, FileView, Fits, DynVisible;
    PieMemoryParts(m, elf, phs, addr);
    var base, tab := BaseAddr(phs, addr), Relocations(elf, phs);
    forall x: int | 0 <= x < M64 &&
      !(addr <= x < addr + TotalSize(phs)) ensures PieMemory(m, elf, phs, addr)[x] == m[x] {
      ByteOutside(m, elf, phs, addr, x);
    }
    forall v: int | Low(phs) <= v < High(phs) && !Relocated(tab, v)
      ensures Plus(base, v) == addr + v - Low(phs) &&
        PieMemory(m, elf, phs, addr)[Plus(base, v)] == ImageByte(elf, phs, v)
    {
      ByteInside(m, elf, phs, addr, v);
    }
    forall j | 0 <= j < |tab| && tab[j].IsRelative()
      ensures var w := LastWriter(tab, tab[j].offset, |tab|);
        Low(phs) <= tab[j].offset < High(phs) && w >= 0 &&
        Load64(PieMemory(m, elf, phs, addr), Plus(base, tab[j].offset)) == Plus(base, tab[w].addend)
    {
      WordInside(m, elf, phs, addr, j);
    }
  }

  /** The memory after loading comes from a view in which exactly the relocated words differ from the loaded image. */
  ghost predicate Relocates(m: seq<byte>, elf: seq<byte>, phs: seq<Phdr>, addr: U64, r: seq<byte>)
    requires IsSpace(m) && IsSpace(elf) && WellFormedPie(elf, phs) && LoadTerminates(m, elf, phs, addr)
  {
    var base, tab := BaseAddr(phs, addr), Relocations(elf, phs);
    && IsSpace(r) && PieMemory(m, elf, phs, addr) == From(r, Off(0, base))
    && UntouchedKept(PieView(From(m, base), elf, phs), r, tab, |tab|) && WordsRelocated(r, tab, base, |tab|)
  }

  lemma PieMemoryParts(m: seq<byte>, elf: seq<byte>, phs: seq<Phdr>, addr: U64)
    requires IsSpace(m) && IsSpace(elf) && WellFormedPie(elf, phs) && Fits(phs, addr) && DynVisible(phs, addr)
    ensures LoadTerminates(m, elf, phs, addr) && exists r :: Relocates(m, elf, phs, addr, r)
  {
    hide FileView, AgreeOn, LoadsOk, Relocations, RelocateImage, PieView, From, UntouchedKept, WordsRelocated;
    var base := BaseAddr(phs, addr);
    var w := PieView(From(m, base), elf, phs);
    PieViewAgrees(From(m, base), elf, phs);
    DynamicNotNull(elf, phs, addr);
    RelocatedView(w, elf, phs, base);
    assert Relocates(m, elf, phs, addr, RelocateImage(w, phs, base));
  }

  lemma ByteOutside(m: seq<byte>, elf: seq<byte>, phs: seq<Phdr>, addr: U64, x: U64)
    requires IsSpace(m) && IsSpace(elf) && WellFormedPie(elf, phs) && Fits(phs, addr) &&
      LoadTerminates(m, elf, phs, addr)
    requires (exists r :: Relocates(m, elf, phs, addr, r)) && !(addr <= x < addr + TotalSize(phs))
    ensures PieMemory(m, elf, phs, addr)[x] == m[x]
  {
    hide FileView, LoadsOk, Relocations, PieView, PieMemory, WordsRelocated;
    var r :| Relocates(m, elf, phs, addr, r);
    var base, tab := BaseAddr(phs, addr), Relocations(elf, phs);
    SpanOfLoadsOk(phs);
    var v := Off(x, base);
    forall j | 0 <= j < |tab| ensures !Targets(tab[j], v) {
      if tab[j].IsRelative() { TargetsInside(elf, phs, j); }
    }
    PieViewExact(From(m, base), elf, phs, v);
  }

  lemma ByteInside(m: seq<byte>, elf: seq<byte>, phs: seq<Phdr>, addr: U64, v: int)
    requires IsSpace(m) && IsSpace(elf) && WellFormedPie(elf, phs) && Fits(phs, addr) &&
      LoadTerminates(m, elf, phs, addr)
    requires exists r :: Relocates(m, elf, phs, addr, r)
    requires Low(phs) <= v < High(phs) && !Relocated(Relocations(elf, phs), v)
    ensures Plus(BaseAddr(phs, addr), v) == addr + v - Low(phs)
    ensures PieMemory(m, elf, phs, addr)[Plus(BaseAddr(phs, addr), v)] == ImageByte(elf, phs, v)
  {
    hide FileView, LoadsOk, Relocations, PieView, PieMemory, WordsRelocated, ImageByte;
    var r :| Relocates(m, elf, phs, addr, r);
    SpanOfLoadsOk(phs);
    AddressOf(phs, addr, v);
    PieViewExact(From(m, BaseAddr(phs, addr)), elf, phs, v);
  }

  lemma WordInside(m: seq<byte>, elf: seq<byte>, phs: seq<Phdr>, addr: U64, j: nat)
    requires IsSpace(m) && IsSpace(elf) && WellFormedPie(elf, phs) && LoadTerminates(m, elf, phs, addr)
    requires exists r :: Relocates(m, elf, phs, addr, r)
    requires j < |Relocations(elf, phs)| && Relocations(elf, phs)[j].IsRelative()
    ensures var base, tab := BaseAddr(phs, addr), Relocations(elf, phs);
      var w := LastWriter(tab, tab[j].offset, |tab|);
      Low(phs) <= tab[j].offset < High(phs) && w >= 0 &&
      Load64(PieMemory(m, elf, phs, addr), Plus(base, tab[j].offset)) == Plus(base, tab[w].addend)
  {
    hide FileView, LoadsOk, Relocations, PieView, PieMemory, UntouchedKept, BaseAddr, Load64, From;
    var r :| Relocates(m, elf, phs, addr, r);
    var base, tab := BaseAddr(phs, addr), Relocations(elf, phs);
    TargetsInside(elf, phs, j);
    WordBack(r, base, tab[j].offset);
    assert WordRelocated(r, tab, base, |tab|, tab[j].offset);
  }

  lemma SpanOfLoadsOk(phs: seq<Phdr>)
    requires LoadsOk(phs) && HasLoad(phs)
    ensures Low(phs) <= High(phs) && TotalSize(phs) == High(phs) - Low(phs)
  {
    SpanOfLoads(phs);
  }

  /** Only a dynamic section at the very start of an allocation at address 0 lands on NULL. */
  lemma DynamicNotNull(elf: seq<byte>, phs: seq<Phdr>, addr: U64)
    requires IsSpace(elf) && WellFormedPie(elf, phs) && Fits(phs, addr)
    ensures DynVisible(phs, addr) <==> HasDynamic(phs) ==> Plus(BaseAddr(phs, addr), DynVaddr(phs)) != 0
  {
  }

  /** In that one case the loader skips relocation: the image stays as the file has it, every byte of it. */
  lemma NullDynamicSkipped(m: seq<byte>, elf: seq<byte>, phs: seq<Phdr>, addr: U64)
    requires IsSpace(m) && IsSpace(elf) && WellFormedPie(elf, phs) && Fits(phs, addr) && !DynVisible(phs, addr)
    ensures LoadTerminates(m, elf, phs, addr)
    ensures forall x :: 0 <= x < M64 && !(addr <= x < addr + TotalSize(phs)) ==>
      PieMemory(m, elf, phs, addr)[x] == m[x]
    ensures forall v: int :: Low(phs) <= v < High(phs) ==>
      Plus(BaseAddr(phs, addr), v) == addr + v - Low(phs) &&
      PieMemory(m, elf, phs, addr)[Plus(BaseAddr(phs, addr), v)] == ImageByte(elf, phs, v)
  {
    hide PieView, LoadsOk, FileView, From, BaseAddr, DynVisible, Fits, Low, High, TotalSize, ImageByte;
    DynamicNotNull(elf, phs, addr);
    LoadedExact(m, elf, phs, addr);
  }

  /** The loaded image before relocation, in absolute addresses. */
  lemma LoadedExact(m: seq<byte>, elf: seq<byte>, phs: seq<Phdr>, addr: U64)
    requires IsSpace(m) && IsSpace(elf) && LoadsOk(phs) && HasLoad(phs) && Fits(phs, addr)
    ensures var base := BaseAddr(phs, addr);
      var q := From(PieView(From(m, base), elf, phs), Off(0, base));
      && (forall x :: 0 <= x < M64 && !(addr <= x < addr + TotalSize(phs)) ==> q[x] == m[x])
      && (forall v: int :: Low(phs) <= v < High(phs) ==>
            Plus(base, v) == addr + v - Low(phs) && q[Plus(base, v)] == ImageByte(elf, phs, v))
  {
    hide PieView, LoadsOk, ImageByte;
    var base := BaseAddr(phs, addr);
    var q := From(PieView(From(m, base), elf, phs), Off(0, base));
    SpanOfLoadsOk(phs);
    forall x: int | 0 <= x < M64 && !(addr <= x < addr + TotalSize(phs)) ensures q[x] == m[x] {
      PieViewExact(From(m, base), elf, phs, Off(x, base));
    }
    forall v: int | Low(phs) <= v < High(phs)
      ensures Plus(base, v) == addr + v - Low(phs) && q[Plus(base, v)] == ImageByte(elf, phs, v)
    {
      AddressOf(phs, addr, v);
      PieViewExact(From(m, base), elf, phs, v);
    }
  }

  /** `*entry_point` for a file loaded with this base. */
  ghost function EntryPoint(elf: seq<byte>, base: U64): U64
    requires IsSpace(elf)
  {
    Plus(base, Entry(elf))
  }

  /** The 64-bit displacement between two loads, the same seen from the allocation or from the base. */
  lemma Displacement(phs: seq<Phdr>, addr: U64, addr': U64, k: U64)
    ensures Plus(BaseAddr(phs, addr'), k) == Wrap(Plus(BaseAddr(phs, addr), k) + addr' - addr)
  {
    var x := Plus(BaseAddr(phs, addr), k);
    WrappingArithmetic(x, Off(addr', addr));
    assert Plus(BaseAddr(phs, addr'), k) == Plus(x, Off(addr', addr));
  }

  /**
   Position independence. Two loads of one file, at any two addresses and into
   memories with any other contents, agree byte for byte at equal offsets except
   that every relocated word, and the entry point, differ by exactly addr' - addr
   modulo 2^64.
   */
  lemma PositionIndependent(m: seq<byte>, m': seq<byte>, elf: seq<byte>, phs: seq<Phdr>, addr: U64, addr': U64)
    requires IsSpace(m) && IsSpace(m') && IsSpace(elf) && WellFormedPie(elf, phs)
    requires Fits(phs, addr) && DynVisible(phs, addr) && Fits(phs, addr') && DynVisible(phs, addr')
    ensures LoadTerminates(m, elf, phs, addr) && LoadTerminates(m', elf, phs, addr')
    ensures forall v: int :: Low(phs) <= v < High(phs) && !Relocated(Relocations(elf, phs), v) ==>
      Plus(BaseAddr(phs, addr), v) == addr + v - Low(phs) &&
      Plus(BaseAddr(phs, addr'), v) == addr' + v - Low(phs) &&
      PieMemory(m, elf, phs, addr)[addr + v - Low(phs)] == PieMemory(m', elf, phs, addr')[addr' + v - Low(phs)]
    ensures var tab := Relocations(elf, phs);
      forall j :: 0 <= j < |tab| && tab[j].IsRelative() ==>
        var o := tab[j].offset;
        Low(phs) <= o && o + 8 <= High(phs) &&
        Load64(PieMemory(m', elf, phs, addr'), Plus(BaseAddr(phs, addr'), o)) ==
          Wrap(Load64(PieMemory(m, elf, phs, addr), Plus(BaseAddr(phs, addr), o)) + addr' - addr)
    ensures EntryPoint(elf, BaseAddr(phs, addr')) ==
      Wrap(EntryPoint(elf, BaseAddr(phs, addr)) + addr' - addr)
  {
    hide PieMemory, Relocations, Relocated, LoadTerminates, ImageByte, Load64, BaseAddr, Low, High;
    PieMemoryExact(m, elf, phs, addr);
    PieMemoryExact(m', elf, phs, addr');
    Displacement(phs, addr, addr', Entry(elf));
    var tab := Relocations(elf, phs);
    forall j | 0 <= j < |tab| && tab[j].IsRelative()
      ensures var o := tab[j].offset;
        Low(phs) <= o && o + 8 <= High(phs) &&
        Load64(PieMemory(m', elf, phs, addr'), Plus(BaseAddr(phs, addr'), o)) ==
          Wrap(Load64(PieMemory(m, elf, phs, addr), Plus(BaseAddr(phs, addr), o)) + addr' - addr)
    {
      TargetsInside(elf, phs, j);
      Displacement(phs, addr, addr', tab[LastWriter(tab, tab[j].offset, |tab|)].addend);
    }
  }

  // ----- fixed-address files, and where the second pass writes

  /** A file loaded at its own addresses: every segment byte in place, nothing else changed. */
  lemma FixedExact(m: seq<byte>, elf: seq<byte>, phs: seq<Phdr>, v: U64)
    requires IsSpace(m) && IsSpace(elf) && LoadsOk(phs)
    ensures LoadSegments(m, elf, true, phs, |phs|)[v] ==
      if exists j :: 0 <= j < |phs| && phs[j].Covers(v) then ImageByte(elf, phs, v) else m[v]
  {
    SegmentsExact(m, elf, true, phs, |phs|, v);
    if j :| 0 <= j < |phs| && phs[j].Covers(v) {
      ImageByteOfSegment(elf, phs, j, v);
    }
  }

  /** The file holds this header and these program headers. */
  ghost predicate Written(elf: seq<byte>, h: FileHeader, ps: seq<ProgramHeader>)
    requires IsSpace(elf)
  {
    && h.Fits() && Holds(elf, 0, h.Bytes()) && |ps| == h.phnum
    && forall i :: 0 <= i < |ps| ==> ps[i].Fits() && Holds(elf, h.phoff + i * h.phentsize, ps[i].Bytes())
  }

  /** No PT_LOAD (type 1) holds more file than memory or wraps around, and no two overlap. */
  ghost predicate Apart(ps: seq<ProgramHeader>) {
    && (forall i :: 0 <= i < |ps| && ps[i].segmentType == 1 ==>
          ps[i].filesz <= ps[i].memsz && ps[i].vaddr + ps[i].memsz < M64)
    && (forall i, j :: 0 <= i < j < |ps| && ps[i].segmentType == 1 && ps[j].segmentType == 1 ==>
          ps[i].vaddr + ps[i].memsz <= ps[j].vaddr || ps[j].vaddr + ps[j].memsz <= ps[i].vaddr)
  }

  ghost predicate SameHeader(r: Phdr, p: ProgramHeader) {
    && r.ptype == p.segmentType && r.offset == p.offset && r.vaddr == p.vaddr
    && r.filesz == p.filesz && r.memsz == p.memsz
  }

  ghost predicate SameHeaders(phs: seq<Phdr>, ps: seq<ProgramHeader>) {
    |phs| == |ps| && forall i :: 0 <= i < |ps| ==> SameHeader(phs[i], ps[i])
  }

  /** The loader's header table is the one that was written. */
  lemma {:induction false} HeadersRead(elf: seq<byte>, h: FileHeader, ps: seq<ProgramHeader>)
    requires IsSpace(elf) && Written(elf, h, ps)
    ensures SameHeaders(Phdrs(elf), ps)
  {
    hide Holds, Phdrs;
    FileHeaderRead(elf, h);
    assert |Phdrs(elf)| == |ps| by { HeaderCount(elf); }
    forall i | 0 <= i < |ps| ensures SameHeader(Phdrs(elf)[i], ps[i]) {
      ProgramHeaderRead(elf, h, i, ps[i]);
    }
  }

  lemma HeaderCount(elf: seq<byte>)
    requires IsSpace(elf)
    ensures |Phdrs(elf)| == PhNum(elf)
  {
  }

  lemma {:induction false} ApartLoads(phs: seq<Phdr>, ps: seq<ProgramHeader>)
    requires SameHeaders(phs, ps) && Apart(ps)
    ensures LoadsOk(phs)
  {
    forall i, j | 0 <= i < j < |phs| ensures Disjoint(phs[i], phs[j]) {
      assert SameHeader(phs[i], ps[i]) && SameHeader(phs[j], ps[j]);
    }
  }

  /**
   From bytes to memory: loading a fixed-address file puts byte p_offset + k of the file at
   address p_vaddr + k, for every k below p_filesz, and zero from there up to p_memsz.
   */
  lemma {:induction false} WrittenSegment(
      m: seq<byte>, elf: seq<byte>, h: FileHeader, ps: seq<ProgramHeader>, j: nat, k: nat)
    requires IsSpace(m) && IsSpace(elf) && Written(elf, h, ps) && Apart(ps)
    requires j < |ps| && ps[j].segmentType == 1 && k < ps[j].memsz
    ensures ps[j].vaddr + k < M64
    ensures LoadSegments(m, elf, true, Phdrs(elf), |Phdrs(elf)|)[ps[j].vaddr + k] ==
      if k < ps[j].filesz then elf[(ps[j].offset + k) % M64] else 0
  {
    hide Written, Phdrs;
    HeadersRead(elf, h, ps);
    SegmentFromFile(m, elf, Phdrs(elf), ps, j, k);
  }

  lemma {:induction false} SegmentFromFile(
      m: seq<byte>, elf: seq<byte>, phs: seq<Phdr>, ps: seq<ProgramHeader>, j: nat, k: nat)
    requires IsSpace(m) && IsSpace(elf) && SameHeaders(phs, ps) && Apart(ps)
    requires j < |ps| && ps[j].segmentType == 1 && k < ps[j].memsz
    ensures ps[j].vaddr + k < M64
    ensures LoadSegments(m, elf, true, phs, |phs|)[ps[j].vaddr + k] ==
      if k < ps[j].filesz then elf[(ps[j].offset + k) % M64] else 0
  {
    assert SameHeader(phs[j], ps[j]);
    ApartLoads(phs, ps);
    hide LoadSegments, LoadsOk;
    SegmentsExact(m, elf, true, phs, |phs|, ps[j].vaddr + k);
    WrappingArithmetic(phs[j].offset, k);
  }

  /** Fixed and position-independent loading agree on every byte of every segment. */
  lemma FixedAndPieAgree(m: seq<byte>, m': seq<byte>, elf: seq<byte>, phs: seq<Phdr>, j: nat, v: int)
    requires IsSpace(m) && IsSpace(m') && IsSpace(elf) && LoadsOk(phs)
    requires j < |phs| && phs[j].Covers(v)
    ensures 0 <= v < M64
    ensures LoadSegments(m, elf, true, phs, |phs|)[v] == PieView(m', elf, phs)[v]
  {
    assert SegmentOk(phs[j]);
    SegmentsExact(m, elf, true, phs, |phs|, v);
    SegmentsExact(Fill(m', Low(phs), TotalSize(phs), 0), elf, false, phs, |phs|, v);
  }

  /** Placing segment `p` with this base copies to or clears address `x`. */
  ghost predicate Writes(p: Phdr, base: U64, x: U64) {
    p.ptype == PT_LOAD && Off(x, Plus(base, p.vaddr)) < if p.filesz <= p.memsz then p.memsz else p.filesz
  }

  /** The second pass changes nothing but what `Writes` says, for any header table at all. */
  lemma {:induction false} OnlyWritesChange(m: seq<byte>, elf: seq<byte>, clear: bool, phs: seq<Phdr>, n: nat,
      base: U64, x: U64)
    requires IsSpace(m) && IsSpace(elf) && n <= |phs|
    requires forall i :: 0 <= i < n ==> !Writes(phs[i], base, x)
    ensures LoadSegments(m, elf, clear, phs, n)[Off(x, base)] == m[Off(x, base)]
  {
    if n > 0 {
      OnlyWritesChange(m, elf, clear, phs, n - 1, base, x);
      SegmentEffect(LoadSegments(m, elf, clear, phs, n - 1), elf, clear, phs[n - 1], Off(x, base));
      assert !Writes(phs[n - 1], base, x);
      OffTranslate(Off(x, base), phs[n - 1].vaddr, base);
    }
  }

  /**
   Containment, even when `base_addr` has wrapped: with no p_vaddr + p_memsz
   overflowing, every copy and zero-fill stays inside the allocation exactly when
   no segment's file part runs past the end of the span.
   */
  lemma ContainedIff(phs: seq<Phdr>, addr: U64)
    requires Fits(phs, addr) && HasLoad(phs)
    requires forall i :: 0 <= i < |phs| && phs[i].ptype == PT_LOAD ==> phs[i].vaddr + phs[i].memsz < M64
    ensures (forall i, x: U64 :: 0 <= i < |phs| && Writes(phs[i], BaseAddr(phs, addr), x) ==>
               addr <= x < addr + TotalSize(phs))
       <==> (forall i :: 0 <= i < |phs| && phs[i].ptype == PT_LOAD ==>
               phs[i].vaddr + phs[i].filesz <= High(phs))
  {
    SpanBounds(phs, |phs|);
    var base := BaseAddr(phs, addr);
    forall i | 0 <= i < |phs| && phs[i].ptype == PT_LOAD && phs[i].vaddr + phs[i].filesz > High(phs)
      ensures exists x: U64 :: Writes(phs[i], base, x) && !(addr <= x < addr + TotalSize(phs))
    {
      var x := Plus(Plus(base, phs[i].vaddr), High(phs) - phs[i].vaddr);
      assert Writes(phs[i], base, x);
    }
  }

  /** It fails for a segment of 8 bytes of memory and 16 of file: the copy runs past the allocation. */
  lemma FilePartRunsOver(addr: U64)
    requires addr + 16 <= M64
    ensures var p := Phdr(PT_LOAD, 0, 0, 16, 8);
      Fits([p], addr) && TotalSize([p]) == 8 && Writes(p, BaseAddr([p], addr), addr + 8)
  {
    var p := Phdr(PT_LOAD, 0, 0, 16, 8);
    assert MinVaddr([p], 1) == 0 by { assert MinVaddr([p], 0) == M64 - 1; }
    assert MaxVaddr([p], 1) == 8 by { assert MaxVaddr([p], 0) == 0; }
  }
}
