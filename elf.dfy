/**
 * The minimal ELF32 reader of ElfUtils.c: the header check and section
 * lookup of `get_section`, and the address-window checks
 * `CheckElfSectionLoadedBetween` / `CheckElfLoadedBetween`.
 *
 * Layouts follow the System V ABI (generic ABI, chapter 4, "ELF Header" and
 * "Sections"). The target is big-endian, and the C code reads the header
 * structs in place, so every multi-byte field is read big-endian.
 */
module Elf {
  import opened Words
  import opened Platform

  const EHDR_SIZE: nat := 52   // sizeof(Elf32_Ehdr)
  const SHDR_SIZE: nat := 40   // sizeof(Elf32_Shdr); the code indexes with it, not with e_shentsize
  const ET_EXEC: nat := 2
  const EM_PPC: nat := 20

  const TEXT: seq<byte> := [0x2E, 0x74, 0x65, 0x78, 0x74]               // ".text"
  const RODATA: seq<byte> := [0x2E, 0x72, 0x6F, 0x64, 0x61, 0x74, 0x61]  // ".rodata"
  const DATA: seq<byte> := [0x2E, 0x64, 0x61, 0x74, 0x61]               // ".data"
  const BSS: seq<byte> := [0x2E, 0x62, 0x73, 0x73]                      // ".bss"
  /** The sections the loader places, in the order it checks and copies them. */
  const SECTIONS: seq<seq<byte>> := [TEXT, RODATA, DATA, BSS]

  /** The window payload sections must fit in (load_loader_elf_from_sd). */
  const LOAD_START: u32 := 0x0080_0000
  const LOAD_END: u32 := 0x00FD_0000

  // ---- header fields ----

  function EType(data: seq<byte>): nat requires |data| >= EHDR_SIZE { Be16(data, 16) }
  function EMachine(data: seq<byte>): nat requires |data| >= EHDR_SIZE { Be16(data, 18) }
  function EEntry(data: seq<byte>): u32 requires |data| >= EHDR_SIZE { Be32(data, 24) }
  function EShoff(data: seq<byte>): u32 requires |data| >= EHDR_SIZE { Be32(data, 32) }
  function EShnum(data: seq<byte>): nat requires |data| >= EHDR_SIZE { Be16(data, 48) }
  function EShstrndx(data: seq<byte>): nat requires |data| >= EHDR_SIZE { Be16(data, 50) }

  /** `IS_ELF`: the four magic bytes 0x7F 'E' 'L' 'F'. */
  predicate HasMagic(data: seq<byte>)
    requires |data| >= EHDR_SIZE
  {
    data[0] == 0x7F && data[1] == 0x45 && data[2] == 0x4C && data[3] == 0x46
  }

  /** The header test of get_section; anything else is fatal. */
  predicate Accepted(data: seq<byte>)
    requires |data| >= EHDR_SIZE
  {
    HasMagic(data) && EType(data) == ET_EXEC && EMachine(data) == EM_PPC
  }

  /**
   * What the C code needs to stay inside the buffer: the header, and for an
   * accepted header the whole section header table, with the string table's
   * header among its entries.
   */
  predicate WellFormed(data: seq<byte>)
  {
    |data| >= EHDR_SIZE &&
    (Accepted(data) ==>
      EShoff(data) + 40 * EShnum(data) <= |data| &&
      (EShnum(data) > 0 ==> EShstrndx(data) < EShnum(data)))
  }

  // ---- section headers ----

  /** The fields of an Elf32_Shdr that the loader reads. */
  datatype Shdr = Shdr(name: u32, addr: u32, offset: u32, size: u32)

  /** The Elf32_Shdr at byte offset `b`: sh_name, sh_addr, sh_offset and sh_size. */
  function DecodeShdr(data: seq<byte>, b: nat): Shdr
    requires b + SHDR_SIZE <= |data|
  {
    Shdr(Be32(data, b), Be32(data, b + 12), Be32(data, b + 16), Be32(data, b + 20))
  }

  /** The first `n` entries of the section header table, `shdr[0..n)`. */
  function Table(data: seq<byte>, n: nat): (t: seq<Shdr>)
    requires WellFormed(data) && Accepted(data) && n <= EShnum(data)
    ensures |t| == n
  {
    if n == 0 then []
    else Table(data, n - 1) + [DecodeShdr(data, EShoff(data) + 40 * (n - 1))]  // 40 == SHDR_SIZE
  }

  /** `shdr[i]`. */
  function Header(data: seq<byte>, i: nat): Shdr
    requires WellFormed(data) && Accepted(data) && i < EShnum(data)
  {
    Table(data, EShnum(data))[i]
  }

  /** `shdr[i]` is the header decoded at `e_shoff + i * sizeof(Elf32_Shdr)`. */
  lemma {:induction false} TableAt(data: seq<byte>, n: nat, i: nat)
    requires WellFormed(data) && Accepted(data) && i < n <= EShnum(data)
    ensures Table(data, n)[i] == DecodeShdr(data, EShoff(data) + SHDR_SIZE * i)
  {
    if i < n - 1 {
      TableAt(data, n - 1, i);
    }
  }

  /**
   * `strcmp(data + p, name) == 0` for a name without NUL bytes: the bytes at
   * `p` spell `name` and are followed by a terminator. A name that would run
   * past the end of the buffer does not match.
   */
  predicate NameIs(data: seq<byte>, p: nat, name: seq<byte>)
    decreases |name|
  {
    p < |data| &&
    if |name| == 0 then data[p] == 0 else data[p] == name[0] && NameIs(data, p + 1, name[1..])
  }

  /** Header `i` is named `name` in the `.shstrtab` string table. */
  predicate Matches(data: seq<byte>, name: seq<byte>, i: nat)
    requires WellFormed(data) && Accepted(data) && i < EShnum(data)
  {
    NameIs(data, Header(data, EShstrndx(data)).offset + Header(data, i).name, name)
  }

  /** The linear search of get_section, from index `i` on. */
  function FindFrom(data: seq<byte>, name: seq<byte>, i: nat): (r: Option<nat>)
    requires WellFormed(data) && Accepted(data) && i <= EShnum(data)
    ensures r.Some? ==> i <= r.value < EShnum(data)
    decreases EShnum(data) - i
  {
    if i == EShnum(data) then None
    else if Matches(data, name, i) then Some(i)
    else FindFrom(data, name, i + 1)
  }

  /** The search finds the lowest-index match at or after `i`, and fails only when there is none. */
  lemma {:induction false} FindFromSpec(data: seq<byte>, name: seq<byte>, i: nat)
    requires WellFormed(data) && Accepted(data) && i <= EShnum(data)
    ensures var r := FindFrom(data, name, i);
      (r.Some? ==> Matches(data, name, r.value) && forall j :: i <= j < r.value ==> !Matches(data, name, j)) &&
      (r.None? ==> forall j :: i <= j < EShnum(data) ==> !Matches(data, name, j))
    decreases EShnum(data) - i
  {
    if i < EShnum(data) && !Matches(data, name, i) {
      FindFromSpec(data, name, i + 1);
    }
  }

  function FindSection(data: seq<byte>, name: seq<byte>): Option<nat>
    requires WellFormed(data) && Accepted(data)
  {
    FindFrom(data, name, 0)
  }

  /** What get_section hands back through its result and out-pointers. */
  datatype Section = Section(offset: u32, addr: u32, size: u32)

  function SectionAt(data: seq<byte>, i: nat): Section
    requires WellFormed(data) && Accepted(data) && i < EShnum(data)
  {
    var h := Header(data, i);
    Section(h.offset, h.addr, h.size)
  }

  /** Header `i` is the lowest-index header named `name`. */
  predicate FirstMatch(data: seq<byte>, name: seq<byte>, i: nat)
    requires WellFormed(data) && Accepted(data)
  {
    i < EShnum(data) && Matches(data, name, i) &&
    forall j :: 0 <= j < i ==> !Matches(data, name, j)
  }

  /**
   * get_section. `Returned(Some(s))` is a match (the C returns `s.offset`
   * and sets `*addr`, `*size`); `Returned(None)` is "return 0 with the
   * out-pointers untouched"; a bad header or a required missing name is
   * OSFatal.
   */
  function GetSection(data: seq<byte>, name: seq<byte>, failOnNotFound: bool): (r: Outcome<Option<Section>>)
    requires WellFormed(data)
    ensures r == Halted(InvalidElf) <==> !Accepted(data)
  {
    if !Accepted(data) then Halted(InvalidElf)
    else
      match FindSection(data, name)
      case Some(i) => Returned(Some(SectionAt(data, i)))
      case None => if failOnNotFound then Halted(MissingSection(name)) else Returned(None)
  }

  /**
   * get_section on an accepted header: a found section is the first header
   * with that name; none is found only when no header has it, which is
   * fatal exactly when the caller asked for that.
   */
  lemma GetSectionSpec(data: seq<byte>, name: seq<byte>, failOnNotFound: bool)
    requires WellFormed(data) && Accepted(data)
    ensures var r := GetSection(data, name, failOnNotFound);
      (r.Returned? && r.value.Some? ==> exists i :: FirstMatch(data, name, i) && r.value.value == SectionAt(data, i)) &&
      (r == Returned(None) <==> !failOnNotFound && forall j :: 0 <= j < EShnum(data) ==> !Matches(data, name, j)) &&
      (r == Halted(MissingSection(name)) <==> failOnNotFound && forall j :: 0 <= j < EShnum(data) ==> !Matches(data, name, j))
  {
    FindFromSpec(data, name, 0);
    var r := GetSection(data, name, failOnNotFound);
    if r.Returned? && r.value.Some? {
      assert FirstMatch(data, name, FindSection(data, name).value);
    }
  }

  /** The loader copies a found section only when its file offset is non-zero. */
  function Loaded(found: Option<Section>): Option<Section>
  {
    if found.Some? && found.value.offset > 0 then found else None
  }

  /** The section named `name` as the loader treats it: present or absent. */
  function Present(data: seq<byte>, name: seq<byte>): Option<Section>
    requires WellFormed(data) && Accepted(data)
  {
    match FindSection(data, name)
    case Some(i) => Loaded(Some(SectionAt(data, i)))
    case None => None
  }

  /** The four sections in check and copy order, each as the loader sees it. */
  function Layout(data: seq<byte>): (l: seq<Option<Section>>)
    requires WellFormed(data) && Accepted(data)
    ensures |l| == |SECTIONS|
  {
    [Present(data, TEXT), Present(data, RODATA), Present(data, DATA), Present(data, BSS)]
  }

  /** What get_section hands back is, once a zero offset is discarded, the section Present names. */
  lemma GetSectionPresent(data: seq<byte>, name: seq<byte>, failOnNotFound: bool)
    requires WellFormed(data) && Accepted(data)
    ensures var r := GetSection(data, name, failOnNotFound);
      (r.Returned? ==> Loaded(r.value) == Present(data, name)) &&
      (r.Halted? <==> failOnNotFound && FindSection(data, name).None?)
  {
  }

  /**
   * get_section as the C runs it: a header check, then a scan of the
   * section headers in index order that stops at the first name match.
   */
  method SearchSections(data: seq<byte>, name: seq<byte>, failOnNotFound: bool) returns (r: Outcome<Option<Section>>)
    requires WellFormed(data)
    ensures r == GetSection(data, name, failOnNotFound)
  {
    if !Accepted(data) {
      return Halted(InvalidElf);
    }
    var i := 0;
    while i < EShnum(data)
      invariant i <= EShnum(data)
      invariant FindFrom(data, name, i) == FindSection(data, name)
      decreases EShnum(data) - i
    {
      if Matches(data, name, i) {
        return Returned(Some(SectionAt(data, i)));
      }
      i := i + 1;
    }
    if failOnNotFound {
      return Halted(MissingSection(name));
    }
    r := Returned(None);
  }

  /** The bytes memcpy reads for every present section lie inside the file. */
  predicate SourcesInFile(data: seq<byte>, layout: seq<Option<Section>>)
  {
    forall i :: 0 <= i < |layout| && layout[i].Some? ==> layout[i].value.offset + layout[i].value.size <= |data|
  }

  /** A file the loader can read without leaving its buffer. */
  predicate ElfImage(data: seq<byte>)
  {
    WellFormed(data) && (Accepted(data) ==> SourcesInFile(data, Layout(data)))
  }

  // ---- address window ----

  predicate Within(a: int, start: int, end: int) { start <= a < end }

  /**
   * The test of CheckElfSectionLoadedBetween exactly as written:
   * `target_addr + len` is a 32-bit sum and wraps.
   */
  predicate InWindowAsWritten(addr: u32, len: u32, start: u32, end: u32)
  {
    !(addr < start || Add32(addr, len) > end)
  }

  /** The intended test: the sum taken without wrap-around. */
  predicate InWindow(addr: u32, len: u32, start: u32, end: u32)
  {
    !(addr < start || addr + len > end)
  }

  /** A present section must fit; an absent one (offset 0 or not found) passes. */
  predicate Fits(s: Option<Section>, start: u32, end: u32)
  {
    s.Some? ==> InWindow(s.value.addr, s.value.size, start, end)
  }

  /** Every section of a layout fits. */
  predicate AllFit(layout: seq<Option<Section>>, start: u32, end: u32)
  {
    forall i :: 0 <= i < |layout| ==> Fits(layout[i], start, end)
  }

  /** CheckElfSectionLoadedBetween, with the intended window test. */
  function CheckSection(data: seq<byte>, name: seq<byte>, start: u32, end: u32): (r: Outcome<bool>)
    requires WellFormed(data)
    ensures r == if Accepted(data) then Returned(Fits(Present(data, name), start, end)) else Halted(InvalidElf)
  {
    match GetSection(data, name, false)
    case Halted(h) => Halted(h)
    case Returned(found) =>
      Returned(!(found.Some? && found.value.offset > 0) ||
               InWindow(found.value.addr, found.value.size, start, end))
  }

  /** CheckElfLoadedBetween: `.text`, `.rodata`, `.data`, `.bss`, stopping at the first failure. */
  function CheckLoadedBetween(data: seq<byte>, start: u32, end: u32): (r: Outcome<bool>)
    requires WellFormed(data)
    ensures r == Halted(InvalidElf) <==> !Accepted(data)
    ensures r == Returned(true) <==> Accepted(data) && AllFit(Layout(data), start, end)
  {
    if !Accepted(data) then Halted(InvalidElf)
    else
    AllFitFour(Layout(data), start, end);
    var t := CheckSection(data, TEXT, start, end);
    if t != Returned(true) then t
    else
      var ro := CheckSection(data, RODATA, start, end);
      if ro != Returned(true) then ro
      else
        var d := CheckSection(data, DATA, start, end);
        if d != Returned(true) then d
        else CheckSection(data, BSS, start, end)
  }

  // ---- lemmas ----

  lemma AllFitFour(l: seq<Option<Section>>, start: u32, end: u32)
    requires |l| == 4
    ensures AllFit(l, start, end) <==>
      Fits(l[0], start, end) && Fits(l[1], start, end) && Fits(l[2], start, end) && Fits(l[3], start, end)
  {
    if Fits(l[0], start, end) && Fits(l[1], start, end) && Fits(l[2], start, end) && Fits(l[3], start, end) {
      forall i | 0 <= i < 4 ensures Fits(l[i], start, end) {
        if i == 0 {} else if i == 1 {} else if i == 2 {} else {}
      }
    }
  }

  /** For a non-empty range the check is exactly containment of every byte. */
  lemma WindowContainment(addr: u32, len: u32, start: u32, end: u32)
    requires len > 0
    ensures InWindow(addr, len, start, end) <==>
      forall a :: addr <= a < addr + len ==> Within(a, start, end)
  {
    if forall a :: addr <= a < addr + len ==> Within(a, start, end) {
      assert Within(addr, start, end);
      assert Within(addr + len - 1, start, end);
    }
  }

  /** Both window ends are inclusive: a range starting at `start` and ending at `end` passes. */
  lemma WindowBoundsInclusive(start: u32, end: u32)
    requires start <= end
    ensures InWindow(start, end - start, start, end)
    ensures start > 0 ==> !InWindow(start - 1, 1, start, end)
    ensures end < TWO32 - 1 ==> !InWindow(start, end - start + 1, start, end)
  {
  }

  /** Without overflow the written and the intended test agree. */
  lemma WindowChecksAgree(addr: u32, len: u32, start: u32, end: u32)
    requires addr + len < TWO32
    ensures InWindowAsWritten(addr, len, start, end) <==> InWindow(addr, len, start, end)
  {
  }

  /**
   * The written test accepts any section whose end wraps past 2^32 back
   * below the window end, although its bytes run far outside the window.
   */
  lemma WindowCheckWraps(addr: u32, len: u32)
    requires LOAD_START <= addr && addr + len >= TWO32 && addr + len - TWO32 <= LOAD_END
    ensures InWindowAsWritten(addr, len, LOAD_START, LOAD_END)
    ensures !InWindow(addr, len, LOAD_START, LOAD_END)
    ensures !Within(TWO32 - 1, LOAD_START, LOAD_END) && addr <= TWO32 - 1 < addr + len
  {
    assert Add32(addr, len) == addr + len - TWO32;
  }

  /**
   * A concrete instance from a 64 KiB section: `.text` at 0xFFFF0000 of size
   * 0x10000. The 32-bit end wraps to 0 and the test passes, although every
   * target byte lies above the window (and still inside the address space,
   * so the memcpy would go ahead).
   */
  lemma WindowCheckWrapsExample()
    ensures Add32(0xFFFF_0000, 0x1_0000) == 0
    ensures InWindowAsWritten(0xFFFF_0000, 0x1_0000, LOAD_START, LOAD_END)
    ensures !InWindow(0xFFFF_0000, 0x1_0000, LOAD_START, LOAD_END)
    ensures 0xFFFF_0000 + 0x1_0000 <= TWO32
    ensures forall a :: 0xFFFF_0000 <= a < 0xFFFF_0000 + 0x1_0000 ==> !Within(a, LOAD_START, LOAD_END)
  {
    WindowCheckWraps(0xFFFF_0000, 0x1_0000);
  }
}
