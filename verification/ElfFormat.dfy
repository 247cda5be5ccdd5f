/**
 The parts of the ELF64 file format that the loader reads, as laid out in
 <elf.h>: field offsets, field widths and the tag values it compares with.
 A file image is the memory seen from `elf_data` on.
 */
module ElfFormat {
  import opened Words
  import opened AddressSpace

  const ET_EXEC := 2
  const ET_DYN := 3
  const PT_LOAD := 1
  const PT_DYNAMIC := 2
  const DT_NULL := 0
  const DT_RELA := 7
  const DT_RELASZ := 8
  const DT_RELAENT := 9
  const R_AARCH64_RELATIVE := 1027

  function Type(elf: seq<byte>): nat requires IsSpace(elf) { Le(elf, 16, 2) }
  function Entry(elf: seq<byte>): U64 requires IsSpace(elf) { Load64(elf, 24) }
  function PhOff(elf: seq<byte>): U64 requires IsSpace(elf) { Load64(elf, 32) }
  function PhEntSize(elf: seq<byte>): nat requires IsSpace(elf) { Le(elf, 54, 2) }
  function PhNum(elf: seq<byte>): nat requires IsSpace(elf) { Le(elf, 56, 2) }

  predicate HasMagic(elf: seq<byte>) requires IsSpace(elf) {
    elf[0] == 0x7F && elf[1] == 'E' as int && elf[2] == 'L' as int && elf[3] == 'F' as int
  }

  predicate Is64Bit(elf: seq<byte>) requires IsSpace(elf) {
    elf[4] == 2
  }

  datatype Phdr = Phdr(ptype: nat, offset: U64, vaddr: U64, filesz: U64, memsz: U64) {
    /** `p_vaddr + p_memsz` as the loader computes it. */
    function End(): U64 {
      Plus(vaddr, memsz)
    }

    /** The segment occupies virtual address `v`. */
    predicate Covers(v: int) {
      ptype == PT_LOAD && vaddr <= v < vaddr + memsz
    }
  }

  function PhdrAt(elf: seq<byte>, i: nat): Phdr
    requires IsSpace(elf)
  {
    var at := Element(PhOff(elf), PhEntSize(elf), i);
    Phdr(Le(elf, at, 4), Load64(elf, Plus(at, 8)), Load64(elf, Plus(at, 16)),
         Load64(elf, Plus(at, 32)), Load64(elf, Plus(at, 40)))
  }

  function Phdrs(elf: seq<byte>): (phs: seq<Phdr>)
    requires IsSpace(elf)
    ensures |phs| == PhNum(elf)
    ensures forall i :: 0 <= i < |phs| ==> phs[i] == PhdrAt(elf, i)
  {
    seq(PhNum(elf), i requires 0 <= i => PhdrAt(elf, i))
  }

  datatype Dyn = Dyn(tag: U64, val: U64)

  /** Entry `k` of the dynamic table at `d`. */
  function DynAt(m: seq<byte>, d: U64, k: nat): Dyn
    requires IsSpace(m)
  {
    var at := Element(d, 16, k);
    Dyn(Load64(m, at), Load64(m, Plus(at, 8)))
  }

  datatype Rela = Rela(offset: U64, info: U64, addend: U64) {
    predicate IsRelative() {
      info % M32 == R_AARCH64_RELATIVE
    }
  }

  /** Entry `k` of the RELA table at `t`: entries are 24 bytes, whatever DT_RELAENT says. */
  function RelaAt(m: seq<byte>, t: U64, k: nat): Rela
    requires IsSpace(m)
  {
    var at := Element(t, 24, k);
    Rela(Load64(m, at), Load64(m, Plus(at, 8)), Load64(m, Plus(at, 16)))
  }
}
