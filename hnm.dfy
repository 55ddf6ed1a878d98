/**
 * hnm: the nm-style symbol listing of print_symbol_table32/64 and the
 * file-level flow of process_elf_file32/64.  The 32-bit and 64-bit
 * functions are the same code at two widths, so each is modelled once
 * with the file class as a parameter: the letter chain does not depend
 * on it, and only the address column does.
 *
 * Section header and symbol table contents are what fread would give;
 * the reads themselves are parameters.
 */
module Hnm {
  import opened Wrappers
  import opened CString
  import opened Arith
  import opened Elf

  // ---------------------------------------------------------------------
  // The letter of a symbol
  // ---------------------------------------------------------------------

  /** Whether the letter chain looks up the section header at st_shndx. */
  predicate ReadsSection(s: Sym)
  {
    Bind(s.info) != StbWeak && s.shndx != ShnUndef && s.shndx < ShnLoreserve
  }

  /** The lookup has a section header to read. */
  predicate InTable(s: Sym, sections: seq<Section>)
  {
    ReadsSection(s) ==> s.shndx < |sections|
  }

  /** tolower on the letters the chain produces; other characters are kept. */
  function Lower(c: char): (r: char)
    ensures 'A' <= c <= 'Z' ==> r as int == c as int + 32
    ensures !('A' <= c <= 'Z') ==> r == c
  {
    if 'A' <= c <= 'Z' then (c as int + 32) as char else c
  }

  /** The letter chosen before the LOCAL lower-casing; '?' when no rule matches. */
  function BaseLetter(s: Sym, sections: seq<Section>): (c: char)
    requires InTable(s, sections)
    ensures c in {'?', 'A', 'B', 'C', 'D', 'R', 'T', 'U', 'V', 'W', 't', 'u', 'w'}
    ensures c == 'w' <==> Bind(s.info) == StbWeak && s.shndx == ShnUndef
    ensures c == 'U' <==> Bind(s.info) != StbWeak && s.shndx == ShnUndef
    ensures c == 'A' <==> Bind(s.info) != StbWeak && s.shndx == ShnAbs
    ensures c == 'C' <==> Bind(s.info) != StbWeak && s.shndx == ShnCommon
  {
    if Bind(s.info) == StbWeak then
      if s.shndx == ShnUndef then 'w'
      else if Type(s.info) == SttObject then 'V'
      else 'W'
    else if s.shndx == ShnUndef then 'U'
    else if s.shndx == ShnAbs then 'A'
    else if s.shndx == ShnCommon then 'C'
    else if s.shndx < ShnLoreserve then
      var sec := sections[s.shndx];
      if Bind(s.info) == StbGnuUnique then 'u'
      else if sec.shType == ShtNobits && sec.flags == ShfAlloc + ShfWrite then 'B'
      else if sec.shType == ShtProgbits then
        if sec.flags == ShfAlloc + ShfExecinstr then 'T'
        else if sec.flags == ShfAlloc then 'R'
        else if sec.flags == ShfAlloc + ShfWrite then 'D'
        else '?'
      else if sec.shType == ShtDynamic then 'D'
      else 't'
    else '?'
  }

  /** The letters the listing can show. */
  const Letters := {'?', 'A', 'B', 'C', 'D', 'R', 'T', 'U', 'V', 'W',
                    'a', 'b', 'c', 'd', 'r', 't', 'u', 'w'}

  /** The letter printed for a symbol: the chain, lower-cased for LOCAL binding. */
  function Letter(s: Sym, sections: seq<Section>): (c: char)
    requires InTable(s, sections)
    ensures c in Letters
    ensures Bind(s.info) != StbLocal ==> c == BaseLetter(s, sections)
  {
    var c := BaseLetter(s, sections);
    if Bind(s.info) == StbLocal then Lower(c) else c
  }

  /**
   * The weak test comes before the undefined test: an undefined symbol is
   * 'w' when weak, 'U' when global and 'u' when local.
   */
  lemma UndefinedLetter(s: Sym, sections: seq<Section>)
    requires s.shndx == ShnUndef
    ensures InTable(s, sections)
    ensures Letter(s, sections) ==
      if Bind(s.info) == StbWeak then 'w'
      else if Bind(s.info) == StbLocal then 'u'
      else 'U'
  {
  }

  /** A weak symbol is 'w', 'V' or 'W' whatever its section says. */
  lemma WeakLetter(s: Sym, sections: seq<Section>, other: seq<Section>)
    requires Bind(s.info) == StbWeak
    ensures InTable(s, sections) && InTable(s, other)
    ensures Letter(s, sections) == Letter(s, other)
    ensures Letter(s, sections) == 'w' <==> s.shndx == ShnUndef
    ensures Letter(s, sections) == 'V' <==> s.shndx != ShnUndef && Type(s.info) == SttObject
  {
  }

  /**
   * LOCAL binding lower-cases the letter a GLOBAL symbol with the same
   * type and section would get.
   */
  lemma LocalIsLowerGlobal(s: Sym, sections: seq<Section>)
    requires Bind(s.info) == StbLocal && InTable(s, sections)
    ensures var g := s.(info := Info(StbGlobal, Type(s.info)));
      InTable(g, sections) && Letter(s, sections) == Lower(Letter(g, sections))
  {
  }

  /**
   * The address column is left blank exactly for undefined symbols that
   * are not local: the letters 'U' and 'w' arise nowhere else.
   */
  lemma HiddenAddress(s: Sym, sections: seq<Section>)
    requires InTable(s, sections)
    ensures Letter(s, sections) in {'U', 'w'} <==> s.shndx == ShnUndef && Bind(s.info) != StbLocal
  {
  }

  /**
   * '?' is kept for a reserved index other than SHN_ABS and SHN_COMMON, and
   * for a PROGBITS section whose flags are none of A, AX and AW.
   */
  lemma UnknownLetter(s: Sym, sections: seq<Section>)
    requires InTable(s, sections)
    ensures Letter(s, sections) == '?' <==>
      Bind(s.info) != StbWeak && s.shndx !in {ShnUndef, ShnAbs, ShnCommon} &&
      (s.shndx >= ShnLoreserve ||
       (Bind(s.info) != StbGnuUnique && sections[s.shndx].shType == ShtProgbits &&
        sections[s.shndx].flags !in {ShfAlloc + ShfExecinstr, ShfAlloc, ShfAlloc + ShfWrite}))
  {
  }

  // ---------------------------------------------------------------------
  // The address column
  // ---------------------------------------------------------------------

  function Pow16(w: nat): (p: nat)
    ensures p >= 1
  {
    if w == 0 then 1 else 16 * Pow16(w - 1)
  }

  /** A lower-case hex digit, as %x prints them. */
  predicate IsHexDigit(c: char)
  {
    '0' <= c <= '9' || 'a' <= c <= 'f'
  }

  /** The digit for d < 16. */
  function Digit(d: nat): (c: char)
    requires d < 16
    ensures IsHexDigit(c)
  {
    if d < 10 then ('0' as int + d) as char else ('a' as int + d - 10) as char
  }

  /** printf's %0*x: the low w hex digits of v, most significant first. */
  function Hex(v: nat, w: nat): (r: string)
    ensures |r| == w
    ensures forall i :: 0 <= i < |r| ==> IsHexDigit(r[i])
  {
    if w == 0 then "" else Hex(v / 16, w - 1) + [Digit(v % 16)]
  }

  /** The value of one hex digit, the inverse of Digit. */
  function DigitValue(c: char): (d: nat)
    requires IsHexDigit(c)
    ensures d < 16 && Digit(d) == c
  {
    if '0' <= c <= '9' then c as int - '0' as int else c as int - 'a' as int + 10
  }

  /** Reads a string of hex digits back as a number. */
  function HexValue(t: string): nat
    requires forall i :: 0 <= i < |t| ==> IsHexDigit(t[i])
  {
    if t == [] then 0 else 16 * HexValue(t[..|t| - 1]) + DigitValue(t[|t| - 1])
  }

  /**
   * The digits printed read back as the value modulo 16^w; a value that
   * fits the width (every Elf32_Addr in 8 digits, every Elf64_Addr in 16)
   * reads back unchanged.
   */
  lemma {:induction false} HexRoundTrip(v: nat, w: nat)
    ensures HexValue(Hex(v, w)) == v % Pow16(w)
    ensures v < Pow16(w) ==> HexValue(Hex(v, w)) == v
  {
    if w == 0 {
      DivModUnique(v, 1, v, 0);
    } else {
      var t := Hex(v, w);
      assert t[..|t| - 1] == Hex(v / 16, w - 1);
      assert DigitValue(t[|t| - 1]) == v % 16;
      HexRoundTrip(v / 16, w - 1);
      DigitStep(v, Pow16(w - 1));
    }
    if v < Pow16(w) {
      DivModUnique(v, Pow16(w), 0, v);
    }
  }

  /** Dropping the last digit: the low digits of v / 16, then v's last digit. */
  lemma DigitStep(v: nat, m: nat)
    requires m >= 1
    ensures 16 * (v / 16 % m) + v % 16 == v % (16 * m)
  {
    var q := v / 16 / m;
    var b := v / 16 % m;
    assert v / 16 == q * m + b;
    assert v == 16 * (v / 16) + v % 16;
    assert v == q * (16 * m) + (16 * b + v % 16);
    DivModUnique(v, 16 * m, q, 16 * b + v % 16);
  }

  /** The address field and the space after it, or spaces of the same width for 'U' and 'w'. */
  function Address(c: ElfClass, value: nat, letter: char): (r: string)
    ensures |r| == AddrWidth(c) + 1 && r[AddrWidth(c)] == ' '
  {
    if letter != 'U' && letter != 'w' then Hex(value, AddrWidth(c)) + " "
    else seq(AddrWidth(c) + 1, _ => ' ')
  }

  // ---------------------------------------------------------------------
  // The listing
  // ---------------------------------------------------------------------

  /** A symbol is printed when it has a name and does not name a source file. */
  predicate Listed(s: Sym)
  {
    s.name != 0 && Type(s.info) != SttFile
  }

  /** What printing a listed symbol reads: its name and, maybe, its section. */
  predicate Readable(s: Sym, sections: seq<Section>, strtab: seq<char>)
  {
    Listed(s) ==> s.name < |strtab| && InTable(s, sections)
  }

  predicate AllReadable(syms: seq<Sym>, sections: seq<Section>, strtab: seq<char>)
  {
    forall i :: 0 <= i < |syms| ==> Readable(syms[i], sections, strtab)
  }

  /** One printed line: address column, letter, a space, the name and a newline. */
  function Line(c: ElfClass, s: Sym, sections: seq<Section>, strtab: seq<char>): string
    requires Terminated(strtab) && s.name < |strtab| && InTable(s, sections)
  {
    var letter := Letter(s, sections);
    Address(c, s.value, letter) + [letter, ' '] + CStr(strtab, s.name) + "\n"
  }

  /**
   * The address column is blank exactly for 'U' and 'w'; otherwise its
   * digits read back as the value modulo 16^width.
   */
  lemma AddressColumn(c: ElfClass, value: nat, letter: char)
    ensures var a := Address(c, value, letter); var w := AddrWidth(c);
      (letter in {'U', 'w'} <==> forall i :: 0 <= i < w ==> a[i] == ' ') &&
      (letter !in {'U', 'w'} ==>
        (forall i :: 0 <= i < w ==> IsHexDigit(a[i])) && HexValue(a[..w]) == value % Pow16(w))
  {
    var a := Address(c, value, letter);
    var w := AddrWidth(c);
    if letter !in {'U', 'w'} {
      assert a[..w] == Hex(value, w);
      HexRoundTrip(value, w);
      assert !IsHexDigit(' ');
      assert a[0] == Hex(value, w)[0];
    }
  }

  /** After the address column a line holds the letter, a space, the name and a newline. */
  lemma AfterAddress(c: ElfClass, s: Sym, sections: seq<Section>, strtab: seq<char>)
    requires Terminated(strtab) && s.name < |strtab| && InTable(s, sections)
    ensures Line(c, s, sections, strtab)[AddrWidth(c) + 1..] == [Letter(s, sections), ' '] + CStr(strtab, s.name) + "\n"
  {
    var letter := Letter(s, sections);
    var a := Address(c, s.value, letter);
    var rest := [letter, ' '] + CStr(strtab, s.name) + "\n";
    assert Line(c, s, sections, strtab) == a + rest;
  }

  /**
   * The columns of a line: the address (blank exactly for undefined
   * non-local symbols, else the value's digits), the letter, and the name
   * as the string table holds it.
   */
  lemma LineLayout(c: ElfClass, s: Sym, sections: seq<Section>, strtab: seq<char>)
    requires Terminated(strtab) && s.name < |strtab| && InTable(s, sections)
    ensures var l := Line(c, s, sections, strtab); var w := AddrWidth(c);
      l[w] == ' ' && l[w + 1..] == [Letter(s, sections), ' '] + CStr(strtab, s.name) + "\n" &&
      ((s.shndx == ShnUndef && Bind(s.info) != StbLocal) <==> forall i :: 0 <= i < w ==> l[i] == ' ') &&
      (!(s.shndx == ShnUndef && Bind(s.info) != StbLocal) ==>
        (forall i :: 0 <= i < w ==> IsHexDigit(l[i])) && HexValue(l[..w]) == s.value % Pow16(w))
  {
    var l := Line(c, s, sections, strtab);
    var w := AddrWidth(c);
    var letter := Letter(s, sections);
    var a := Address(c, s.value, letter);
    assert l == a + ([letter, ' '] + CStr(strtab, s.name) + "\n");
    assert l[..w] == a[..w];
    HiddenAddress(s, sections);
    AddressColumn(c, s.value, letter);
    AfterAddress(c, s, sections, strtab);
  }

  /**
   * The two widths print the same line for a symbol apart from the
   * address column: 9 characters wide for Elf32, 17 for Elf64.
   */
  lemma SameLineAfterAddress(s: Sym, sections: seq<Section>, strtab: seq<char>)
    requires Terminated(strtab) && s.name < |strtab| && InTable(s, sections)
    ensures Line(Elf32, s, sections, strtab)[9..] == Line(Elf64, s, sections, strtab)[17..]
  {
    AfterAddress(Elf32, s, sections, strtab);
    AfterAddress(Elf64, s, sections, strtab);
  }

  /** The listed symbols of a table, in table order. */
  function Filtered(syms: seq<Sym>): (r: seq<Sym>)
    ensures |r| <= |syms|
    ensures forall i :: 0 <= i < |r| ==> Listed(r[i])
  {
    if syms == [] then []
    else
      var last := syms[|syms| - 1];
      Filtered(syms[..|syms| - 1]) + (if Listed(last) then [last] else [])
  }

  /** Filtering keeps table order: it distributes over concatenation. */
  lemma {:induction false} FilteredAppend(a: seq<Sym>, b: seq<Sym>)
    ensures Filtered(a + b) == Filtered(a) + Filtered(b)
    decreases |b|
  {
    if b == [] {
      assert a + b == a;
    } else {
      var b' := b[..|b| - 1];
      assert (a + b)[..|a + b| - 1] == a + b';
      FilteredAppend(a, b');
    }
  }

  /** The listed symbols are exactly the ones with a name that are not files. */
  lemma {:induction false} FilteredMembers(syms: seq<Sym>, x: Sym)
    ensures x in Filtered(syms) <==> x in syms && Listed(x)
  {
    if syms != [] {
      var init := syms[..|syms| - 1];
      FilteredMembers(init, x);
      assert syms == init + [syms[|syms| - 1]];
    }
  }

  /** The lines print_symbol_table prints for the first entries of a table. */
  function Listing(c: ElfClass, syms: seq<Sym>, sections: seq<Section>, strtab: seq<char>): (r: seq<string>)
    requires Terminated(strtab) && AllReadable(syms, sections, strtab)
    ensures |r| == |Filtered(syms)|
  {
    if syms == [] then []
    else
      var last := syms[|syms| - 1];
      assert Readable(last, sections, strtab);
      Listing(c, syms[..|syms| - 1], sections, strtab) +
        (if Listed(last) then [Line(c, last, sections, strtab)] else [])
  }

  /** Line j of the listing is the line of the j-th listed symbol. */
  lemma {:induction false} ListingLines(c: ElfClass, syms: seq<Sym>, sections: seq<Section>, strtab: seq<char>, j: nat)
    requires Terminated(strtab) && AllReadable(syms, sections, strtab)
    requires j < |Filtered(syms)|
    ensures Filtered(syms)[j] in syms && Readable(Filtered(syms)[j], sections, strtab)
    ensures Listing(c, syms, sections, strtab)[j] == Line(c, Filtered(syms)[j], sections, strtab)
  {
    var init := syms[..|syms| - 1];
    var last := syms[|syms| - 1];
    FilteredMembers(syms, Filtered(syms)[j]);
    if j < |Filtered(init)| {
      assert AllReadable(init, sections, strtab) by {
        forall i | 0 <= i < |init| ensures Readable(init[i], sections, strtab) {
          assert init[i] == syms[i];
        }
      }
      ListingLines(c, init, sections, strtab, j);
    }
  }

  /** print_symbol_table: the for loop over the first sh_size / entry size entries. */
  method PrintSymbolTable(c: ElfClass, shSize: nat, syms: seq<Sym>, sections: seq<Section>, strtab: seq<char>)
    returns (lines: seq<string>)
    requires shSize / SymSize(c) <= |syms|
    requires Terminated(strtab) && AllReadable(syms, sections, strtab)
    ensures AllReadable(syms[..shSize / SymSize(c)], sections, strtab)
    ensures lines == Listing(c, syms[..shSize / SymSize(c)], sections, strtab)
  {
    var count := shSize / SymSize(c);
    lines := [];
    for i := 0 to count
      invariant AllReadable(syms[..i], sections, strtab)
      invariant lines == Listing(c, syms[..i], sections, strtab)
    {
      var s := syms[i];
      assert syms[..i + 1][..i] == syms[..i];
      assert Readable(s, sections, strtab);
      if s.name != 0 && Type(s.info) != SttFile {
        var letter := Letter(s, sections);
        var address := Address(c, s.value, letter);
        lines := lines + [address + [letter, ' '] + CStr(strtab, s.name) + "\n"];
      }
    }
  }

  // ---------------------------------------------------------------------
  // process_elf_file
  // ---------------------------------------------------------------------

  /** The index of the first SHT_SYMTAB section header, if there is one. */
  function FirstSymtab(sections: seq<Section>): (r: Option<nat>)
    ensures r.Some? ==> (r.value < |sections| && sections[r.value].shType == ShtSymtab &&
      forall j :: 0 <= j < r.value ==> sections[j].shType != ShtSymtab)
    ensures r.None? ==> forall j :: 0 <= j < |sections| ==> sections[j].shType != ShtSymtab
  {
    if sections == [] then None
    else if sections[0].shType == ShtSymtab then Some(0)
    else
      var r := FirstSymtab(sections[1..]);
      assert forall j :: 1 <= j < |sections| ==> sections[j] == sections[1..][j - 1];
      if r.None? then None else Some(r.value + 1)
  }

  /** The search loop over the e_shnum section headers; -1 when none is SHT_SYMTAB. */
  method FindSymtab(sections: seq<Section>) returns (index: int)
    ensures -1 <= index < |sections|
    ensures index == -1 <==> FirstSymtab(sections).None?
    ensures index >= 0 ==> FirstSymtab(sections) == Some(index)
  {
    index := -1;
    var i := 0;
    while i < |sections|
      invariant 0 <= i <= |sections|
      invariant forall j :: 0 <= j < i ==> sections[j].shType != ShtSymtab
    {
      if sections[i].shType == ShtSymtab {
        index := i;
        break;
      }
      i := i + 1;
    }
    FirstSymtabIs(sections, index);
  }

  /** Any index past a run of non-symtab headers and at a symtab is the first one. */
  lemma {:induction false} FirstSymtabIs(sections: seq<Section>, index: int)
    requires -1 <= index < |sections|
    requires index >= 0 ==> (sections[index].shType == ShtSymtab &&
      forall j :: 0 <= j < index ==> sections[j].shType != ShtSymtab)
    requires index == -1 ==> forall j :: 0 <= j < |sections| ==> sections[j].shType != ShtSymtab
    ensures index == -1 ==> FirstSymtab(sections).None?
    ensures index >= 0 ==> FirstSymtab(sections) == Some(index)
  {
    var r := FirstSymtab(sections);
    if r.Some? && index >= 0 {
      assert !(r.value < index) && !(index < r.value);
    }
  }

  /** What the run prints: an error line on stderr, or the listing on stdout. */
  datatype Report = Failed(message: string) | Printed(lines: seq<string>)

  function Error(path: string, what: string): string
  {
    "./hnm: " + path + ": " + what + "\n"
  }

  /**
   * What the symbol table and string table reads must give for the
   * listing to be read in bounds, once the symbol table is chosen.
   */
  predicate TablesFit(c: ElfClass, sections: seq<Section>, syms: seq<Sym>, strtab: seq<char>)
  {
    FirstSymtab(sections).Some? ==>
      sections[FirstSymtab(sections).value].size / SymSize(c) <= |syms| &&
      Terminated(strtab) && AllReadable(syms, sections, strtab)
  }

  /**
   * process_elf_file32/64: `openOk` says whether fopen succeeded and
   * `allocOk` whether the section-header malloc did; `ident` is e_ident,
   * `sections` the e_shnum headers read, `syms` the entries of the symbol
   * table section and `strtab` the section its sh_link names.
   */
  function Process(c: ElfClass, path: string, openOk: bool, ident: seq<nat>, allocOk: bool,
                   sections: seq<Section>, syms: seq<Sym>, strtab: seq<char>): (r: Report)
    requires |ident| == EiNident && TablesFit(c, sections, syms, strtab)
    ensures r.Printed? <==> openOk && CheckHeader(ident).Supported? && allocOk && FirstSymtab(sections).Some?
    ensures r.Printed? ==> |r.lines| == |Filtered(syms[..sections[FirstSymtab(sections).value].size / SymSize(c)])|
    ensures !openOk ==> r == Failed(Error(path, "failed to open file"))
  {
    if !openOk then Failed(Error(path, "failed to open file"))
    else
      var h := CheckHeader(ident);
      if h.BadFormat? then Failed(Error(path, "unsupported ELF file format"))
      else if h.BadEndianness? then Failed(Error(path, "unsupported ELF file endianness"))
      else if !allocOk then Failed(Error(path, "memory allocation error for section_headers"))
      else
        var k := FirstSymtab(sections);
        if k.None? then Failed(Error(path, "no symbols"))
        else
          var count := sections[k.value].size / SymSize(c);
          Printed(Listing(c, syms[..count], sections, strtab))
  }

  /** process_elf_file, with the symtab search and printing loops. */
  method ProcessElfFile(c: ElfClass, path: string, openOk: bool, ident: seq<nat>, allocOk: bool,
                        sections: seq<Section>, syms: seq<Sym>, strtab: seq<char>) returns (r: Report)
    requires |ident| == EiNident && TablesFit(c, sections, syms, strtab)
    ensures r == Process(c, path, openOk, ident, allocOk, sections, syms, strtab)
  {
    if !openOk {
      return Failed(Error(path, "failed to open file"));
    }
    if ident[EiClass] != ElfClass32 && ident[EiClass] != ElfClass64 {
      return Failed(Error(path, "unsupported ELF file format"));
    }
    var little := ident[EiData] == ElfData2Lsb;
    var big := ident[EiData] == ElfData2Msb;
    if !little && !big {
      return Failed(Error(path, "unsupported ELF file endianness"));
    }
    if !allocOk {
      return Failed(Error(path, "memory allocation error for section_headers"));
    }
    var index := FindSymtab(sections);
    if index == -1 {
      return Failed(Error(path, "no symbols"));
    }
    var lines := PrintSymbolTable(c, sections[index].size, syms, sections, strtab);
    return Printed(lines);
  }

  /**
   * "no symbols" is reported exactly when the file opened, its header was
   * accepted, the headers were allocated and none of them is a symbol table.
   */
  lemma NoSymbols(c: ElfClass, path: string, openOk: bool, ident: seq<nat>, allocOk: bool,
                  sections: seq<Section>, syms: seq<Sym>, strtab: seq<char>)
    requires |ident| == EiNident && TablesFit(c, sections, syms, strtab)
    ensures Process(c, path, openOk, ident, allocOk, sections, syms, strtab) == Failed(Error(path, "no symbols")) <==>
      openOk && CheckHeader(ident).Supported? && allocOk &&
      forall j :: 0 <= j < |sections| ==> sections[j].shType != ShtSymtab
  {
    var r := Process(c, path, openOk, ident, allocOk, sections, syms, strtab);
    if r.Failed? && r.message == Error(path, "no symbols") {
      ErrorsDiffer(path, "no symbols", "failed to open file");
      ErrorsDiffer(path, "no symbols", "unsupported ELF file format");
      ErrorsDiffer(path, "no symbols", "unsupported ELF file endianness");
      ErrorsDiffer(path, "no symbols", "memory allocation error for section_headers");
    }
  }

  /** Different errors give different messages. */
  lemma ErrorsDiffer(path: string, a: string, b: string)
    requires a != b
    ensures Error(path, a) != Error(path, b)
  {
    var n := |"./hnm: " + path + ": "|;
    assert Error(path, a)[n..] == a + "\n";
    assert Error(path, b)[n..] == b + "\n";
    assert (a + "\n")[..|a|] == a;
    assert (b + "\n")[..|b|] == b;
  }
}
