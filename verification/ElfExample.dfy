/**
 A small position-independent file, header, program headers, dynamic table and
 one relocation: the loader accepts it, and it meets the conditions under which
 position independence is proved.
 */
module ElfExample {
  import opened Words
  import opened AddressSpace
  import opened ElfFormat
  import opened ElfImage
  import opened ElfReloc
  import opened PositionIndependence
  import opened Loader

  /** Where the PT_LOAD segment starts in the file: at the program headers, or at the dynamic table. */
  type Start = x: int | x == 64 || x == 176 witness 64

  /** ELF header: magic, class, byte order; ET_DYN for AArch64; entry 4408; two 56-byte program headers at 64. */
  function HeaderWord(k: nat): U64
    requires k < 8
  {
    [0x0001_0102_464C_457F, 0, 0x0000_0001_00B7_0003, 4408, 64, 9000, 0x0038_0040_0000_0003, 0x0011_000D_000B_0002][k]
  }

  /** PT_LOAD: from there to the end of the file, 4096 further up in virtual memory, 1000 bytes with the BSS. */
  function LoadHeaderWord(at: Start, k: nat): U64
    requires k < 7
  {
    var start: U64 := at;
    [0x0000_0007_0000_0001, start, start + 4096, start + 8192, 312 - start, 1000, 65536][k]
  }

  /** PT_DYNAMIC: at 176 in the file. */
  function DynamicHeaderWord(k: nat): U64
    requires k < 7
  {
    [0x0000_0006_0000_0002, 176, 4272, 12464, 64, 72, 8][k]
  }

  /** The dynamic table: RELA 4336, RELASZ 96, RELAENT 32, NULL. */
  function DynamicWord(k: nat): U64
    requires k < 8
  {
    [7, 4336, 8, 96, 9, 32, 0, 0][k]
  }

  /** The relocation table, at 240 in the file: RELATIVE with a symbol, another type, RELATIVE. */
  function TableWord(k: nat): U64
    requires k < 9
  {
    [4600, 0x0000_0007_0000_0403, 5, 4700, 257, 9, 4800, 1027, 4272][k]
  }

  /** The file, eight bytes at a time; whatever lies behind it in memory is all ones. */
  function FileWord(at: Start, k: nat): U64 {
    if k < 8 then HeaderWord(k)
    else if k < 15 then LoadHeaderWord(at, k - 8)
    else if k < 22 then DynamicHeaderWord(k - 15)
    else if k < 30 then DynamicWord(k - 22)
    else if k < 39 then TableWord(k - 30)
    else 0xFFFF_FFFF_FFFF_FFFF
  }

  function Headers(at: Start): seq<Phdr> {
    [Phdr(PT_LOAD, at, at + 4096, 312 - at, 1000), Phdr(PT_DYNAMIC, 176, 4272, 64, 72)]
  }

  const TABLE: seq<Rela> := [Rela(4600, 0x7_0000_0403, 5), Rela(4700, 257, 9), Rela(4800, 1027, 4272)]

  ghost function File(at: Start): (m: seq<byte>)
    ensures IsSpace(m)
  {
    seq(M64, x requires 0 <= x < M64 => ByteOf(FileWord(at, x / 8), x % 8))
  }

  lemma {:induction false} FileByte(at: Start, k: nat, j: nat)
    requires 8 * k + 8 <= M64 && j < 8
    ensures File(at)[8 * k + j] == ByteOf(FileWord(at, k), j)
  {
    hide ByteOf, FileWord;
    assert (8 * k + j) / 8 == k && (8 * k + j) % 8 == j;
  }

  lemma {:induction false} WordAt(at: Start, k: nat)
    requires 8 * k + 8 <= M64
    ensures Load64(File(at), 8 * k) == FileWord(at, k)
  {
    hide File, ByteOf, FileWord;
    forall j | 0 <= j < 8 ensures File(at)[Plus(8 * k, j)] == ByteOf(FileWord(at, k), j) {
      FileByte(at, k, j);
    }
    Pow256Of8();
    LeOfBytes(File(at), 8 * k, FileWord(at, k), 8);
  }

  /** A field that does not fill a word: `n` bytes from byte `j` of word `k`. */
  lemma {:induction false} FieldAt(at: Start, k: nat, j: nat, n: nat, v: nat)
    requires 8 * k + 8 <= M64 && j < 8 && j + n <= 8 && v < Pow256(n)
    requires forall i :: 0 <= i < n ==> ByteOf(FileWord(at, k), j + i) == ByteOf(v, i)
    ensures Le(File(at), 8 * k + j, n) == v
  {
    hide File, ByteOf, FileWord;
    forall i | 0 <= i < n ensures File(at)[Plus(8 * k + j, i)] == ByteOf(v, i) {
      FileByte(at, k, j + i);
    }
    LeOfBytes(File(at), 8 * k + j, v, n);
  }

  // ----- what the loader checks and reads first

  lemma {:induction false} Identified(at: Start)
    ensures HasMagic(File(at)) && Is64Bit(File(at))
  {
    hide File;
    FileByte(at, 0, 0);
    FileByte(at, 0, 1);
    FileByte(at, 0, 2);
    FileByte(at, 0, 3);
    FileByte(at, 0, 4);
  }

  lemma {:induction false} TypeFieldBytes(at: Start)
    ensures FileWord(at, 2) == 0x0000_0001_00B7_0003
    ensures ByteOf(0x0000_0001_00B7_0003, 0) == ByteOf(3, 0)
    ensures ByteOf(0x0000_0001_00B7_0003, 1) == ByteOf(3, 1)
  {
  }

  lemma {:induction false} TypeField(at: Start)
    ensures Type(File(at)) == ET_DYN
  {
    TypeFieldBytes(at);
    assert Pow256(2) == 65536;
    hide File, Le, ByteOf, FileWord;
    FieldAt(at, 2, 0, 2, 3);
  }

  lemma {:induction false} EntrySizeFieldBytes(at: Start)
    ensures FileWord(at, 6) == 0x0038_0040_0000_0003
    ensures ByteOf(0x0038_0040_0000_0003, 6) == ByteOf(56, 0)
    ensures ByteOf(0x0038_0040_0000_0003, 7) == ByteOf(56, 1)
  {
  }

  lemma {:induction false} EntrySizeField(at: Start)
    ensures PhEntSize(File(at)) == 56
  {
    EntrySizeFieldBytes(at);
    assert Pow256(2) == 65536;
    hide File, Le, ByteOf, FileWord;
    FieldAt(at, 6, 6, 2, 56);
  }

  lemma {:induction false} NumberFieldBytes(at: Start)
    ensures FileWord(at, 7) == 0x0011_000D_000B_0002
    ensures ByteOf(0x0011_000D_000B_0002, 0) == ByteOf(2, 0)
    ensures ByteOf(0x0011_000D_000B_0002, 1) == ByteOf(2, 1)
  {
  }

  lemma {:induction false} NumberField(at: Start)
    ensures PhNum(File(at)) == 2
  {
    NumberFieldBytes(at);
    assert Pow256(2) == 65536;
    hide File, Le, ByteOf, FileWord;
    FieldAt(at, 7, 0, 2, 2);
  }

  lemma {:induction false} HeaderFields(at: Start)
    ensures Type(File(at)) == ET_DYN && PhEntSize(File(at)) == 56 && PhNum(File(at)) == 2
    ensures PhOff(File(at)) == 64 && Entry(File(at)) == 4408
  {
    TypeField(at);
    EntrySizeField(at);
    NumberField(at);
    hide File, Load64, Type, PhEntSize, PhNum;
    WordAt(at, 3);
    WordAt(at, 4);
  }

  lemma {:induction false} HeaderWords(at: Start)
    ensures FileWord(at, 9) == at && FileWord(at, 10) == at + 4096
    ensures FileWord(at, 12) == 312 - at && FileWord(at, 13) == 1000
    ensures FileWord(at, 16) == 176 && FileWord(at, 17) == 4272 && FileWord(at, 19) == 64 && FileWord(at, 20) == 72
  {
  }

  lemma {:induction false} HeaderTypes(at: Start)
    ensures Le(File(at), 64, 4) == PT_LOAD && Le(File(at), 120, 4) == PT_DYNAMIC
  {
    LoadType(at);
    DynamicType(at);
    hide *;
  }

  lemma {:induction false} LoadTypeBytes(at: Start)
    ensures FileWord(at, 8) == 0x0000_0007_0000_0001
    ensures ByteOf(0x0000_0007_0000_0001, 0) == ByteOf(1, 0)
    ensures ByteOf(0x0000_0007_0000_0001, 1) == ByteOf(1, 1)
    ensures ByteOf(0x0000_0007_0000_0001, 2) == ByteOf(1, 2)
    ensures ByteOf(0x0000_0007_0000_0001, 3) == ByteOf(1, 3)
  {
  }

  lemma {:induction false} LoadType(at: Start)
    ensures Le(File(at), 64, 4) == PT_LOAD
  {
    LoadTypeBytes(at);
    assert Pow256(4) == M32;
    hide File, Le, ByteOf, FileWord;
    FieldAt(at, 8, 0, 4, 1);
  }

  lemma {:induction false} DynamicTypeBytes(at: Start)
    ensures FileWord(at, 15) == 0x0000_0006_0000_0002
    ensures ByteOf(0x0000_0006_0000_0002, 0) == ByteOf(2, 0)
    ensures ByteOf(0x0000_0006_0000_0002, 1) == ByteOf(2, 1)
    ensures ByteOf(0x0000_0006_0000_0002, 2) == ByteOf(2, 2)
    ensures ByteOf(0x0000_0006_0000_0002, 3) == ByteOf(2, 3)
  {
  }

  lemma {:induction false} DynamicType(at: Start)
    ensures Le(File(at), 120, 4) == PT_DYNAMIC
  {
    DynamicTypeBytes(at);
    assert Pow256(4) == M32;
    hide File, Le, ByteOf, FileWord;
    FieldAt(at, 15, 0, 4, 2);
  }

  lemma {:induction false} HeaderAt(at: Start, i: nat)
    requires i < 2
    ensures PhdrAt(File(at), i) == Headers(at)[i]
  {
    HeaderFields(at);
    HeaderTypes(at);
    HeaderWords(at);
    hide File, FileWord, Le, Load64;
    var k := 8 + 7 * i;
    assert Element(64, 56, i) == 8 * k;
    WordAt(at, k + 1);
    WordAt(at, k + 2);
    WordAt(at, k + 4);
    WordAt(at, k + 5);
  }

  /** The program header table of the file. */
  lemma {:induction false} HeadersOfFile(at: Start)
    ensures Phdrs(File(at)) == Headers(at)
  {
    HeaderFields(at);
    hide File, PhNum, PhdrAt;
    HeaderAt(at, 0);
    HeaderAt(at, 1);
  }

  lemma {:induction false} HeadersOk(at: Start)
    ensures LoadsOk(Headers(at)) && HasLoad(Headers(at))
    ensures Low(Headers(at)) == at + 4096 && High(Headers(at)) == at + 5096
    ensures HasDynamic(Headers(at)) && DynVaddr(Headers(at)) == 4272
  {
    var phs := Headers(at);
    assert phs[0].ptype == PT_LOAD && phs[0].vaddr == at + 4096 && phs[0].End() == at + 5096;
    assert MinVaddr(phs, 0) == M64 - 1 && MaxVaddr(phs, 0) == 0;
    assert MinVaddr(phs, 1) == at + 4096 && MaxVaddr(phs, 1) == at + 5096;
    assert FirstDynamic(phs, 1) == 1;
  }

  // ----- its image, dynamic table and relocations

  /** The file as its segment places it, 4096 bytes further up. */
  ghost function Placed(at: Start): (m: seq<byte>)
    ensures IsSpace(m)
  {
    From(File(at), M64 - 4096)
  }

  lemma {:induction false} ImageByteIs(at: Start, v: nat)
    requires at + 4096 <= v < at + 5096
    ensures ImageByte(File(at), Headers(at), v) == if v < 4408 then File(at)[v - 4096] else 0
  {
    HeadersOk(at);
    hide File, ImageByte, LoadsOk;
    ImageByteOfSegment(File(at), Headers(at), 0, v);
  }

  lemma {:induction false} ImageIsFile(at: Start)
    ensures AgreeOn(FileView(File(at), Headers(at)), Placed(at), at + 4096, 4408)
  {
    hide File, ImageByte;
    forall v | at + 4096 <= v < 4408 ensures FileView(File(at), Headers(at))[v] == Placed(at)[v] {
      ImageByteIs(at, v);
    }
  }

  lemma {:induction false} PlacedWord(at: Start, k: nat)
    requires k < 39
    ensures Load64(Placed(at), 4096 + 8 * k) == FileWord(at, k)
  {
    hide Load64, File, FileWord;
    WordAt(at, k);
    FromLoad64(File(at), M64 - 4096, 4096 + 8 * k);
  }

  lemma {:induction false} DynamicWords(at: Start)
    ensures FileWord(at, 22) == 7 && FileWord(at, 23) == 4336 && FileWord(at, 24) == 8 && FileWord(at, 25) == 96
    ensures FileWord(at, 26) == 9 && FileWord(at, 27) == 32 && FileWord(at, 28) == 0
  {
  }

  lemma {:induction false} TableWords(at: Start)
    ensures FileWord(at, 30) == 4600 && FileWord(at, 31) == 0x7_0000_0403 && FileWord(at, 32) == 5
    ensures FileWord(at, 33) == 4700 && FileWord(at, 34) == 257 && FileWord(at, 35) == 9
    ensures FileWord(at, 36) == 4800 && FileWord(at, 37) == 1027 && FileWord(at, 38) == 4272
  {
  }

  lemma {:induction false} DynamicTable(at: Start)
    ensures DynEndsAt(Placed(at), 4272, 3) && ScanDyn(Placed(at), 4272, 3) == DynInfo(4336, 96, 32)
  {
    DynamicWords(at);
    hide Load64, Placed, FileWord;
    var f := Placed(at);
    PlacedWord(at, 22);
    PlacedWord(at, 23);
    PlacedWord(at, 24);
    PlacedWord(at, 25);
    PlacedWord(at, 26);
    PlacedWord(at, 27);
    PlacedWord(at, 28);
    assert DynAt(f, 4272, 0) == Dyn(7, 4336) && DynAt(f, 4272, 1) == Dyn(8, 96) && DynAt(f, 4272, 2) == Dyn(9, 32);
    assert DynTag(f, 4272, 0) == 7 && DynTag(f, 4272, 1) == 8 && DynTag(f, 4272, 2) == 9 && DynTag(f, 4272, 3) == 0;
    assert ScanDyn(f, 4272, 0) == DynInfo(0, 0, 0);
    assert ScanDyn(f, 4272, 1) == DynInfo(4336, 0, 0);
    assert ScanDyn(f, 4272, 2) == DynInfo(4336, 96, 0);
  }

  lemma {:induction false} ExampleInfo(at: Start)
    ensures DynamicInImage(FileView(File(at), Headers(at)), Headers(at))
    ensures FileInfo(FileView(File(at), Headers(at)), Headers(at)) == DynInfo(4336, 96, 32)
  {
    var f := FileView(File(at), Headers(at));
    HeadersOk(at);
    ImageIsFile(at);
    hide File, Placed, FileView, Load64, Low, High, DynEndsAt, ScanDyn, DynScanned, HasDynamic, DynVaddr, AgreeOn;
    DynamicTable(at);
    AgreeNarrow(f, Placed(at), at + 4096, 4408, 4272, 4272 + 16 * 3 + 8);
    DynAgrees(f, Placed(at), 4272, 3);
    assert Within(Headers(at), DynVaddr(Headers(at)), 16 * 3 + 8);
  }

  lemma {:induction false} EntryOfFile(at: Start, j: nat)
    requires j < 3
    ensures RelaAt(Placed(at), 4336, j) == TABLE[j]
  {
    TableWords(at);
    hide Placed, FileWord, Load64;
    PlacedWord(at, 30 + 3 * j);
    PlacedWord(at, 31 + 3 * j);
    PlacedWord(at, 32 + 3 * j);
    assert Element(4336, 24, j) == 4096 + 8 * (30 + 3 * j);
  }

  lemma {:induction false} Entries(at: Start, f: seq<byte>)
    requires f == FileView(File(at), Headers(at))
    ensures Table(f, 4336, 3) == TABLE && RelocationsOk(TABLE, Headers(at), 4336)
  {
    HeadersOk(at);
    ImageIsFile(at);
    hide File, Placed, FileView, AgreeOn, Low, High, RelaAt, LoadsOk, HasLoad, HasDynamic, DynVaddr;
    AgreeNarrow(f, Placed(at), at + 4096, 4408, 4336, 4336 + 72);
    forall j | 0 <= j < 3 ensures RelaAt(f, 4336, j) == TABLE[j] {
      RelaAgrees(f, Placed(at), 4336, 3, j);
      EntryOfFile(at, j);
    }
  }

  lemma {:induction false} WellFormedHeaders(at: Start)
    ensures WellFormedPie(File(at), Headers(at))
    ensures Relocations(File(at), Headers(at)) == TABLE
  {
    HeadersOk(at);
    ExampleInfo(at);
    Entries(at, FileView(File(at), Headers(at)));
    hide File, FileView, LoadsOk, HasLoad, DynamicInImage, FileInfo, Table, RelocationsOk;
  }

  /** The loader accepts the file, its own headers make it well formed, and it has three relocation entries. */
  lemma {:induction false} WellFormedExample(at: Start)
    ensures HasMagic(File(at)) && Is64Bit(File(at)) && Type(File(at)) == ET_DYN && Phdrs(File(at)) == Headers(at)
    ensures WellFormedPie(File(at), Phdrs(File(at)))
    ensures Relocations(File(at), Phdrs(File(at))) == TABLE
  {
    Identified(at);
    HeaderFields(at);
    HeadersOfFile(at);
    WellFormedHeaders(at);
    hide *;
  }

  /** The firmware grants everything. */
  predicate Granted(a: Answers) {
    && !EfiError(a.infoPool) && !EfiError(a.getInfo) && !EfiError(a.filePool)
    && !EfiError(a.read) && !EfiError(a.anyPages)
  }

  lemma {:induction false} ExampleAccepted(at: Start, a: Answers)
    requires a.file == File(at) && Granted(a)
    ensures LoadsPie(a)
  {
    WellFormedExample(at);
    hide File, HasMagic, Is64Bit, Type, Phdrs;
  }

  /**
   When the firmware grants what is asked for, the file is loaded as it is: the dynamic table
   from offset 176 is 112 bytes into the pages, the BSS is zero, the RELATIVE entries have
   changed their words and the entry of another type has not, and control goes to byte 248.
   */
  lemma {:induction false} ExampleLoads(a: Answers, m: seq<byte>)
    requires a.file == File(64) && IsSpace(m) && a.addr + 1000 <= M64 && Granted(a)
    ensures LoadsPie(a) && LoadTerminates(m, a.file, Headers(64), a.addr)
    ensures BaseAddr(Headers(64), a.addr) == (a.addr - 4160) % M64
    ensures EntryPoint(a.file, BaseAddr(Headers(64), a.addr)) == (a.addr + 248) % M64
    ensures var q := PieMemory(m, a.file, Headers(64), a.addr);
      && q[a.addr + 112] == 7 && q[a.addr + 113] == 0 && q[a.addr + 120] == 0xF0 && q[a.addr + 121] == 0x10
      && q[a.addr + 300] == 0 && q[a.addr + 999] == 0
      && Load64(q, a.addr + 440) == (a.addr - 4155) % M64 && Load64(q, a.addr + 540) == 0
      && Load64(q, a.addr + 640) == a.addr + 112
  {
    hide File, PieMemory, LoadTerminates, Headers, BaseAddr, Load64, LoadsPie, Granted, Phdrs, Type, PhNum, PhOff,
      PhEntSize;
    ExampleAccepted(64, a);
    ExampleAddresses(a.addr);
    HeaderFields(64);
    ExampleBytes(m, a.addr);
    ExampleWords(m, a.addr);
  }

  lemma {:induction false} ExampleAddresses(addr: U64)
    requires addr + 1000 <= M64
    ensures BaseAddr(Headers(64), addr) == (addr - 4160) % M64 &&
      Plus(BaseAddr(Headers(64), addr), 4408) == (addr + 248) % M64
  {
    HeadersOk(64);
    hide Low;
  }

  lemma {:induction false} Unrelocated(v: int)
    requires 4160 <= v < 5160 && !(4600 <= v < 4608) && !(4800 <= v < 4808)
    ensures !Relocated(TABLE, v)
  {
    assert !TABLE[1].IsRelative();
  }

  /** All that the theorems about loading ask for. */
  lemma {:induction false} ExampleReady(m: seq<byte>, addr: U64)
    requires IsSpace(m) && addr + 1000 <= M64
    ensures WellFormedPie(File(64), Headers(64)) && DynamicInImage(FileView(File(64), Headers(64)), Headers(64))
    ensures Fits(Headers(64), addr) && DynVisible(Headers(64), addr)
    ensures Low(Headers(64)) == 4160 && High(Headers(64)) == 5160 && Relocations(File(64), Headers(64)) == TABLE
  {
    WellFormedHeaders(64);
    HeadersOk(64);
    hide File, FileView, Relocations, Low, High, HasDynamic, DynVaddr, LoadsOk, HasLoad, RelocationsOk, Table, FileInfo;
    hide Headers;
  }

  lemma {:induction false} ExampleByte(m: seq<byte>, addr: U64, v: int)
    requires IsSpace(m) && addr + 1000 <= M64
    requires 4160 <= v < 5160 && !(4600 <= v < 4608) && !(4800 <= v < 4808)
    ensures LoadTerminates(m, File(64), Headers(64), addr)
    ensures PieMemory(m, File(64), Headers(64), addr)[addr + v - 4160] == if v < 4408 then File(64)[v - 4096] else 0
  {
    hide *;
    ExampleReady(m, addr);
    Unrelocated(v);
    ImageByteIs(64, v);
    PieMemoryParts(m, File(64), Headers(64), addr);
    ByteInside(m, File(64), Headers(64), addr, v);
  }

  lemma {:induction false} ExampleBytes(m: seq<byte>, addr: U64)
    requires IsSpace(m) && addr + 1000 <= M64
    ensures LoadTerminates(m, File(64), Headers(64), addr)
    ensures var q := PieMemory(m, File(64), Headers(64), addr);
      && q[addr + 112] == 7 && q[addr + 113] == 0 && q[addr + 120] == 0xF0 && q[addr + 121] == 0x10
      && q[addr + 300] == 0 && q[addr + 999] == 0
  {
    DynamicWords(64);
    FileByte(64, 22, 0);
    FileByte(64, 22, 1);
    FileByte(64, 23, 0);
    FileByte(64, 23, 1);
    SmallBytes();
    hide File, FileWord, ByteOf, PieMemory, LoadTerminates, Headers;
    ExampleByte(m, addr, 4272);
    ExampleByte(m, addr, 4273);
    ExampleByte(m, addr, 4280);
    ExampleByte(m, addr, 4281);
    ExampleByte(m, addr, 4460);
    ExampleByte(m, addr, 5159);
  }

  lemma {:induction false} SmallBytes()
    ensures ByteOf(7, 0) == 7 && ByteOf(7, 1) == 0 && ByteOf(4336, 0) == 0xF0 && ByteOf(4336, 1) == 0x10
  {
  }

  lemma {:induction false} ZeroWord(m: seq<byte>, a: U64)
    requires IsSpace(m) && a + 8 <= M64 && forall k :: a <= k < a + 8 ==> m[k] == 0
    ensures Load64(m, a) == 0
  {
    forall k | 0 <= k < 8 ensures m[Plus(a, k)] == ByteOf(0, k) {
      ZeroByte(k);
    }
    Pow256Of8();
    LeOfBytes(m, a, 0, 8);
  }

  lemma {:induction false} ZeroByte(k: nat)
    ensures ByteOf(0, k) == 0
  {
    if k > 0 {
      ZeroByte(k - 1);
    }
  }

  lemma {:induction false} ExampleWords(m: seq<byte>, addr: U64)
    requires IsSpace(m) && addr + 1000 <= M64
    ensures LoadTerminates(m, File(64), Headers(64), addr)
    ensures var q := PieMemory(m, File(64), Headers(64), addr);
      && Load64(q, addr + 440) == (addr - 4155) % M64 && Load64(q, addr + 540) == 0
      && Load64(q, addr + 640) == addr + 112
  {
    hide File, PieMemory, LoadTerminates, Headers, Load64, BaseAddr;
    ExampleWord(m, addr, 0);
    ExampleWord(m, addr, 2);
    var q := PieMemory(m, File(64), Headers(64), addr);
    forall k | addr + 540 <= k < addr + 548 ensures q[k] == 0 {
      ExampleByte(m, addr, k - addr + 4160);
    }
    ZeroWord(q, addr + 540);
  }

  lemma {:induction false} ExampleWord(m: seq<byte>, addr: U64, j: nat)
    requires IsSpace(m) && addr + 1000 <= M64 && (j == 0 || j == 2)
    ensures LoadTerminates(m, File(64), Headers(64), addr)
    ensures Load64(PieMemory(m, File(64), Headers(64), addr), addr + TABLE[j].offset - 4160) ==
      (addr - 4160 + TABLE[j].addend) % M64
  {
    hide WellFormedPie, DynamicInImage, Fits, DynVisible, Low, High, Relocations, File, FileView, Headers;
    hide LoadTerminates, PieMemory, Load64, LastWriter, Relocates;
    ExampleReady(m, addr);
    ExampleWriter(j);
    PieMemoryParts(m, File(64), Headers(64), addr);
    WordInside(m, File(64), Headers(64), addr, j);
  }

  lemma {:induction false} ExampleWriter(j: nat)
    requires j == 0 || j == 2
    ensures TABLE[j].IsRelative() && LastWriter(TABLE, TABLE[j].offset, 3) == j
  {
    assert LastWriter(TABLE, 4600, 1) == 0;
  }

  /**
   With the dynamic table at the start of the span and the pages at address 0, the
   relocations are skipped: the word stays 0 instead of becoming the base plus 5.
   */
  lemma {:induction false} ExampleSkipped(a: Answers, m: seq<byte>)
    requires a.file == File(176) && IsSpace(m) && a.addr == 0 && Granted(a)
    ensures LoadsPie(a) && WellFormedPie(a.file, Headers(176)) && LoadTerminates(m, a.file, Headers(176), 0)
    ensures Relocations(a.file, Headers(176)) == TABLE && TABLE[0].IsRelative()
    ensures var base := BaseAddr(Headers(176), 0);
      Load64(PieMemory(m, a.file, Headers(176), 0), Plus(base, 4600)) == 0 != Plus(base, 5)
  {
    ExampleAccepted(176, a);
    WellFormedHeaders(176);
    HeadersOk(176);
    hide File, WellFormedPie, FileView, Relocations, LoadTerminates, PieMemory;
    hide Low, High, HasDynamic, DynVaddr, LoadsPie;
    NullDynamicSkipped(m, a.file, Headers(176), 0);
    SkippedWord(PieMemory(m, a.file, Headers(176), 0));
  }

  /** The image of 4600, at 4600 - 4272, is BSS. */
  lemma {:induction false} SkippedWord(q: seq<byte>)
    requires IsSpace(q)
    requires forall v: int :: 4272 <= v < 5272 ==>
      var x := Plus(BaseAddr(Headers(176), 0), v);
      x == v - 4272 && q[x] == ImageByte(File(176), Headers(176), v)
    ensures Load64(q, Plus(BaseAddr(Headers(176), 0), 4600)) == 0
  {
    hide File, ImageByte, BaseAddr;
    var base := BaseAddr(Headers(176), 0);
    assert Plus(base, 4600) == 328;
    forall k | 328 <= k < 336 ensures q[k] == 0 {
      assert Plus(base, k + 4272) == k;
      ImageByteIs(176, k + 4272);
    }
    ZeroWord(q, 328);
  }
}
