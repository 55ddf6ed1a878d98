/**
 * The parts of the ELF object file format (System V ABI, chapter 4) that
 * hnm reads: the identification bytes of the file header, section
 * headers and symbol table entries.  The 32-bit and 64-bit layouts carry
 * the same fields at different widths; fread of the raw structures is not
 * modelled, so one datatype stands for both.
 */
module Elf {
  /** e_ident indexes and values: EI_CLASS, EI_DATA, ELFCLASS32/64, ELFDATA2LSB/MSB. */
  const EiNident := 16
  const EiClass := 4
  const EiData := 5
  const ElfClass32 := 1
  const ElfClass64 := 2
  const ElfData2Lsb := 1
  const ElfData2Msb := 2

  /** Section types SHT_PROGBITS, SHT_SYMTAB, SHT_DYNAMIC, SHT_NOBITS. */
  const ShtProgbits := 1
  const ShtSymtab := 2
  const ShtDynamic := 6
  const ShtNobits := 8

  /** Section flags SHF_WRITE, SHF_ALLOC, SHF_EXECINSTR. */
  const ShfWrite := 1
  const ShfAlloc := 2
  const ShfExecinstr := 4

  /** Special section indexes SHN_UNDEF, SHN_LORESERVE, SHN_ABS, SHN_COMMON. */
  const ShnUndef := 0
  const ShnLoreserve := 0xff00
  const ShnAbs := 0xfff1
  const ShnCommon := 0xfff2

  /** Symbol bindings STB_LOCAL, STB_GLOBAL, STB_WEAK, STB_GNU_UNIQUE. */
  const StbLocal := 0
  const StbGlobal := 1
  const StbWeak := 2
  const StbGnuUnique := 10

  /** Symbol types STT_OBJECT and STT_FILE. */
  const SttObject := 1
  const SttFile := 4

  /** The two file classes, whose structures differ in width only. */
  datatype ElfClass = Elf32 | Elf64

  /** sizeof(Elf32_Sym) and sizeof(Elf64_Sym). */
  function SymSize(c: ElfClass): (n: nat)
    ensures n == 16 || n == 24
  {
    if c.Elf32? then 16 else 24
  }

  /** The hex digits of an address: Elf32_Addr is 32 bits, Elf64_Addr 64. */
  function AddrWidth(c: ElfClass): (w: nat)
    ensures 4 * w == (if c.Elf32? then 32 else 64)
  {
    if c.Elf32? then 8 else 16
  }

  /** A section header: sh_type, sh_flags, sh_size and sh_link. */
  datatype Section = Section(shType: nat, flags: nat, size: nat, link: nat)

  /** A symbol table entry: st_name, st_info, st_shndx and st_value. */
  datatype Sym = Sym(name: nat, info: nat, shndx: nat, value: nat)

  /** ELF64_ST_BIND (the same as ELF32_ST_BIND): the high nibble of the info byte. */
  function Bind(info: nat): (b: nat)
    ensures b < 16
  {
    info % 256 / 16
  }

  /** ELF64_ST_TYPE (the same as ELF32_ST_TYPE): the low nibble. */
  function Type(info: nat): (t: nat)
    ensures t < 16
  {
    info % 16
  }

  /** The info byte of a symbol with binding b and type t (ELF64_ST_INFO). */
  function Info(b: nat, t: nat): (info: nat)
    requires b < 16 && t < 16
    ensures Bind(info) == b && Type(info) == t
  {
    b * 16 + t
  }

  /** Where the class and data bytes of e_ident send process_elf_file. */
  datatype Header = Supported | BadFormat | BadEndianness

  /**
   * The two checks on e_ident: the class must be ELFCLASS32 or ELFCLASS64,
   * then the data encoding must be little- or big-endian.
   */
  function CheckHeader(ident: seq<nat>): (h: Header)
    requires |ident| == EiNident
    ensures h.Supported? <==>
      ident[EiClass] in {ElfClass32, ElfClass64} && ident[EiData] in {ElfData2Lsb, ElfData2Msb}
    ensures h.BadEndianness? ==> ident[EiClass] in {ElfClass32, ElfClass64}
  {
    if ident[EiClass] != ElfClass32 && ident[EiClass] != ElfClass64 then BadFormat
    else
      var little := ident[EiData] == ElfData2Lsb;
      var big := ident[EiData] == ElfData2Msb;
      if !little && !big then BadEndianness else Supported
  }
}
