/**
 The ELF64 file format from the writing side: the bytes of a file header, a
 program header, a dynamic entry and a relocation entry, field by field in the
 order of the System V gABI, and what the loader's readers make of them.
 */
module ElfLayout {
  import opened Words
  import opened AddressSpace
  import opened ElfFormat

  // ----- encoding

  /** A number in `n` bytes, least significant first. */
  function Encoded(w: nat, n: nat): (t: seq<byte>)
    ensures |t| == n
  {
    if n == 0 then [] else [w % 256] + Encoded(w / 256, n - 1)
  }

  datatype FileHeader = FileHeader(
    ident: seq<byte>, fileType: nat, machine: nat, version: nat, entry: nat, phoff: nat, shoff: nat, flags: nat,
    ehsize: nat, phentsize: nat, phnum: nat, shentsize: nat, shnum: nat, shstrndx: nat)
  {
    predicate Fits() {
      && |ident| == 16 && fileType < 0x1_0000 && machine < 0x1_0000 && version < M32
      && entry < M64 && phoff < M64 && shoff < M64 && flags < M32 && ehsize < 0x1_0000 && phentsize < 0x1_0000
      && phnum < 0x1_0000 && shentsize < 0x1_0000 && shnum < 0x1_0000 && shstrndx < 0x1_0000
    }

    /** 64 bytes. */
    function Bytes(): seq<byte> {
      ident + (Encoded(fileType, 2) + (Encoded(machine, 2) + (Encoded(version, 4) + (Encoded(entry, 8) +
      (Encoded(phoff, 8) + (Encoded(shoff, 8) + (Encoded(flags, 4) + (Encoded(ehsize, 2) + (Encoded(phentsize, 2) +
      (Encoded(phnum, 2) + (Encoded(shentsize, 2) + (Encoded(shnum, 2) + Encoded(shstrndx, 2)))))))))))))
    }
  }

  datatype ProgramHeader = ProgramHeader(
    segmentType: nat, flags: nat, offset: nat, vaddr: nat, paddr: nat, filesz: nat, memsz: nat, align: nat)
  {
    predicate Fits() {
      && segmentType < M32 && flags < M32 && offset < M64 && vaddr < M64 && paddr < M64
      && filesz < M64 && memsz < M64 && align < M64
    }

    /** 56 bytes. */
    function Bytes(): seq<byte> {
      Encoded(segmentType, 4) + (Encoded(flags, 4) + (Encoded(offset, 8) + (Encoded(vaddr, 8) + (Encoded(paddr, 8) +
      (Encoded(filesz, 8) + (Encoded(memsz, 8) + Encoded(align, 8)))))))
    }
  }

  /** The bytes `t` lie in memory from address `a` on, around the 64-bit ring. */
  ghost predicate Holds(m: seq<byte>, a: int, t: seq<byte>)
    requires IsSpace(m)
  {
    forall k :: 0 <= k < |t| ==> m[(a + k) % M64] == t[k]
  }

  // ----- reading

  lemma {:induction false} HoldsParts(m: seq<byte>, a: int, t: seq<byte>, u: seq<byte>)
    requires IsSpace(m) && Holds(m, a, t + u)
    ensures Holds(m, a, t) && Holds(m, a + |t|, u)
  {
    forall k | 0 <= k < |t| ensures m[(a + k) % M64] == t[k] {
      assert (t + u)[k] == t[k];
    }
    forall k | 0 <= k < |u| ensures m[(a + |t| + k) % M64] == u[k] {
      assert (t + u)[|t| + k] == u[k];
    }
  }

  lemma {:induction false} Reading(m: seq<byte>, a: int, w: nat, n: nat)
    requires IsSpace(m) && w < Pow256(n) && Holds(m, a, Encoded(w, n))
    ensures Le(m, Wrap(a), n) == w
    decreases n
  {
    if n > 0 {
      var t := Encoded(w, n);
      assert t[0] == w % 256 && m[(a + 0) % M64] == t[0];
      HoldsParts(m, a, [w % 256], Encoded(w / 256, n - 1));
      assert w / 256 < Pow256(n - 1);
      Reading(m, a + 1, w / 256, n - 1);
      Next(a);
    }
  }

  lemma Next(a: int)
    ensures Plus(Wrap(a), 1) == Wrap(a + 1)
  {
  }

  lemma Sizes()
    ensures Pow256(2) == 0x1_0000 && Pow256(4) == M32 && Pow256(8) == M64
  {
    assert Pow256(1) == 256 && Pow256(3) == 0x100_0000;
  }

  lemma {:induction false} Reading16(m: seq<byte>, a: int, w: nat)
    requires IsSpace(m) && w < 0x1_0000 && Holds(m, a, Encoded(w, 2))
    ensures Le(m, Wrap(a), 2) == w
  {
    hide Pow256, Le, Holds, Encoded;
    Sizes();
    Reading(m, a, w, 2);
  }

  lemma {:induction false} Reading32(m: seq<byte>, a: int, w: nat)
    requires IsSpace(m) && w < M32 && Holds(m, a, Encoded(w, 4))
    ensures Le(m, Wrap(a), 4) == w
  {
    hide Pow256, Le, Holds, Encoded;
    Sizes();
    Reading(m, a, w, 4);
  }

  lemma {:induction false} Reading64(m: seq<byte>, a: int, w: nat)
    requires IsSpace(m) && w < M64 && Holds(m, a, Encoded(w, 8))
    ensures Load64(m, Wrap(a)) == w
  {
    hide Pow256, Le, Holds, Encoded;
    Sizes();
    Reading(m, a, w, 8);
  }

  /** The file header: what each field that the loader looks at was written as. */
  lemma {:induction false} FileHeaderRead(elf: seq<byte>, h: FileHeader)
    requires IsSpace(elf) && h.Fits() && Holds(elf, 0, h.Bytes())
    ensures HasMagic(elf) <==> h.ident[0] == 127 && h.ident[1] == 69 && h.ident[2] == 76 && h.ident[3] == 70
    ensures Is64Bit(elf) <==> h.ident[4] == 2
    ensures Type(elf) == h.fileType && Entry(elf) == h.entry
    ensures PhOff(elf) == h.phoff && PhEntSize(elf) == h.phentsize && PhNum(elf) == h.phnum
  {
    var t13 := Encoded(h.shstrndx, 2);
    var t12 := Encoded(h.shnum, 2) + t13;
    var t11 := Encoded(h.shentsize, 2) + t12;
    var t10 := Encoded(h.phnum, 2) + t11;
    var t9 := Encoded(h.phentsize, 2) + t10;
    var t8 := Encoded(h.ehsize, 2) + t9;
    var t7 := Encoded(h.flags, 4) + t8;
    var t6 := Encoded(h.shoff, 8) + t7;
    var t5 := Encoded(h.phoff, 8) + t6;
    var t4 := Encoded(h.entry, 8) + t5;
    var t3 := Encoded(h.version, 4) + t4;
    var t2 := Encoded(h.machine, 2) + t3;
    var t1 := Encoded(h.fileType, 2) + t2;
    assert h.Bytes() == h.ident + t1;
    HoldsParts(elf, 0, h.ident, t1);
    IdentRead(elf, h.ident);
    hide Holds, Encoded, Le, Load64, HasMagic, Is64Bit;
    HoldsParts(elf, 16, Encoded(h.fileType, 2), t2);
    HoldsParts(elf, 18, Encoded(h.machine, 2), t3);
    HoldsParts(elf, 20, Encoded(h.version, 4), t4);
    HoldsParts(elf, 24, Encoded(h.entry, 8), t5);
    HoldsParts(elf, 32, Encoded(h.phoff, 8), t6);
    HoldsParts(elf, 40, Encoded(h.shoff, 8), t7);
    HoldsParts(elf, 48, Encoded(h.flags, 4), t8);
    HoldsParts(elf, 52, Encoded(h.ehsize, 2), t9);
    HoldsParts(elf, 54, Encoded(h.phentsize, 2), t10);
    HoldsParts(elf, 56, Encoded(h.phnum, 2), t11);
    Reading16(elf, 16, h.fileType);
    Reading64(elf, 24, h.entry);
    Reading64(elf, 32, h.phoff);
    Reading16(elf, 54, h.phentsize);
    Reading16(elf, 56, h.phnum);
  }

  lemma {:induction false} IdentRead(elf: seq<byte>, ident: seq<byte>)
    requires IsSpace(elf) && |ident| == 16 && Holds(elf, 0, ident)
    ensures HasMagic(elf) <==> ident[0] == 127 && ident[1] == 69 && ident[2] == 76 && ident[3] == 70
    ensures Is64Bit(elf) <==> ident[4] == 2
  {
    assert elf[(0 + 0) % M64] == ident[0] && elf[(0 + 1) % M64] == ident[1] && elf[(0 + 2) % M64] == ident[2];
    assert elf[(0 + 3) % M64] == ident[3] && elf[(0 + 4) % M64] == ident[4];
  }

  /** A program header anywhere in memory. */
  lemma {:induction false} ProgramFields(m: seq<byte>, a: int, p: ProgramHeader)
    requires IsSpace(m) && p.Fits() && Holds(m, a, p.Bytes())
    ensures Le(m, Wrap(a), 4) == p.segmentType && Load64(m, Wrap(a + 8)) == p.offset
    ensures Load64(m, Wrap(a + 16)) == p.vaddr && Load64(m, Wrap(a + 24)) == p.paddr
    ensures Load64(m, Wrap(a + 32)) == p.filesz && Load64(m, Wrap(a + 40)) == p.memsz
  {
    hide Holds, Encoded, Le, Load64, Wrap;
    var t7 := Encoded(p.align, 8);
    var t6 := Encoded(p.memsz, 8) + t7;
    var t5 := Encoded(p.filesz, 8) + t6;
    var t4 := Encoded(p.paddr, 8) + t5;
    var t3 := Encoded(p.vaddr, 8) + t4;
    var t2 := Encoded(p.offset, 8) + t3;
    var t1 := Encoded(p.flags, 4) + t2;
    HoldsParts(m, a, Encoded(p.segmentType, 4), t1);
    HoldsParts(m, a + 4, Encoded(p.flags, 4), t2);
    HoldsParts(m, a + 8, Encoded(p.offset, 8), t3);
    HoldsParts(m, a + 16, Encoded(p.vaddr, 8), t4);
    HoldsParts(m, a + 24, Encoded(p.paddr, 8), t5);
    HoldsParts(m, a + 32, Encoded(p.filesz, 8), t6);
    HoldsParts(m, a + 40, Encoded(p.memsz, 8), t7);
    Reading32(m, a, p.segmentType);
    Reading64(m, a + 8, p.offset);
    Reading64(m, a + 16, p.vaddr);
    Reading64(m, a + 24, p.paddr);
    Reading64(m, a + 32, p.filesz);
    Reading64(m, a + 40, p.memsz);
  }

  /** The loader reads of each program header exactly what was written in it. */
  lemma {:induction false} ProgramHeaderRead(elf: seq<byte>, h: FileHeader, i: nat, p: ProgramHeader)
    requires IsSpace(elf) && h.Fits() && Holds(elf, 0, h.Bytes())
    requires i < h.phnum && p.Fits() && Holds(elf, h.phoff + i * h.phentsize, p.Bytes())
    ensures |Phdrs(elf)| == h.phnum
    ensures var r := Phdrs(elf)[i];
      && r.ptype == p.segmentType && r.offset == p.offset && r.vaddr == p.vaddr
      && r.filesz == p.filesz && r.memsz == p.memsz
  {
    hide Holds, Encoded, Le, Load64, HasMagic, Is64Bit;
    FileHeaderRead(elf, h);
    var a := h.phoff + i * h.phentsize;
    ProgramFields(elf, a, p);
    Further(a, 8);
    Further(a, 16);
    Further(a, 32);
    Further(a, 40);
    Commuted(h.phoff, i, h.phentsize);
  }

  lemma Further(a: int, k: nat)
    requires k < 64
    ensures Plus(Wrap(a), k) == Wrap(a + k)
  {
  }

  lemma Commuted(t: U64, i: nat, size: nat)
    ensures Element(t, size, i) == Wrap(t + i * size)
  {
  }

  /** An entry of a dynamic table: its tag and its value. */
  lemma {:induction false} DynamicRead(m: seq<byte>, d: U64, k: nat, tag: nat, val: nat)
    requires IsSpace(m) && tag < M64 && val < M64
    requires Holds(m, d + 16 * k, Encoded(tag, 8) + Encoded(val, 8))
    ensures DynAt(m, d, k).tag == tag && DynAt(m, d, k).val == val
  {
    hide Holds, Encoded, Load64;
    var a := d + 16 * k;
    HoldsParts(m, a, Encoded(tag, 8), Encoded(val, 8));
    Reading64(m, a, tag);
    Reading64(m, a + 8, val);
    Further(a, 8);
  }

  /** An entry of a RELA table; its type is in the low 32 bits of r_info, and R_AARCH64_RELATIVE is 1027. */
  lemma {:induction false} RelocationRead(m: seq<byte>, t: U64, k: nat, offset: nat, symbol: nat, kind: nat,
      addend: nat)
    requires IsSpace(m) && offset < M64 && symbol < M32 && kind < M32 && addend < M64
    requires Holds(m, t + 24 * k,
      Encoded(offset, 8) + (Encoded(symbol * 0x1_0000_0000 + kind, 8) + Encoded(addend, 8)))
    ensures var r := RelaAt(m, t, k); r.offset == offset && r.addend == addend && (r.IsRelative() <==> kind == 1027)
  {
    hide Holds, Encoded, Load64;
    var a, info := t + 24 * k, symbol * 0x1_0000_0000 + kind;
    HoldsParts(m, a, Encoded(offset, 8), Encoded(info, 8) + Encoded(addend, 8));
    HoldsParts(m, a + 8, Encoded(info, 8), Encoded(addend, 8));
    Reading64(m, a, offset);
    Reading64(m, a + 8, info);
    Reading64(m, a + 16, addend);
    Further(a, 8);
    Further(a, 16);
    assert info % M32 == kind;
  }
}
