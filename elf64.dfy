/** The ELF-64 header and section-table queries of libelf. An image is its
    header, its section-header table and its bytes; a `char *` into the image is
    an offset from the image's base. The identification constants are those of
    the ELF header (`e_ident`) in chapter 4 of the System V gABI. */
module Elf64 {
  import opened Words

  /** EI_NIDENT: the length of `e_ident`. */
  const EI_NIDENT: nat := 16
  const EI_MAG0: nat := 0
  const EI_MAG1: nat := 1
  const EI_MAG2: nat := 2
  const EI_MAG3: nat := 3
  const EI_CLASS: nat := 4
  const ELFMAG0: Byte := 0x7f
  const ELFMAG1: Byte := 0x45   // 'E'
  const ELFMAG2: Byte := 0x4c   // 'L'
  const ELFMAG3: Byte := 0x46   // 'F'
  const ELFCLASS64: Byte := 2

  type Ident = s: seq<Byte> | |s| == EI_NIDENT witness seq(EI_NIDENT, i => 0)

  /** `struct Elf64_Header`, the fields this model reads or states it ignores. */
  datatype Header = Header(ident: Ident, fileType: U16, machine: U16, version: U32, entry: U64, flags: U32,
                           phentsize: U16, phnum: U16, shnum: U16, shstrndx: U16)

  /** `struct Elf64_Shdr`, the fields this model reads. */
  datatype SectionHeader = SectionHeader(name: U32, offset: U64, addr: U64, size: U64)

  /** An ELF file in memory: its header, its section-header table and its bytes. */
  datatype Image = Image(header: Header, sections: seq<SectionHeader>, bytes: seq<Byte>)

  datatype Option<T> = None | Some(value: T)

  /** A pointer into the image as an offset from its base, or NULL. */
  datatype Ptr = Null | At(offset: nat)

  /** What `elf64_getSectionName` returns: the string literal "<corrupted>", or
      a pointer into the image. */
  datatype NamePtr = Corrupted | InImage(offset: nat)

  /** The bytes of the string literal "<corrupted>". */
  const CORRUPTED: seq<Byte> := [0x3c, 0x63, 0x6f, 0x72, 0x72, 0x75, 0x70, 0x74, 0x65, 0x64, 0x3e]

  /** The ELF magic: the first four identification bytes are 0x7f 'E' 'L' 'F'. */
  predicate HasMagic(h: Header)
  {
    h.ident[..4] == [ELFMAG0, ELFMAG1, ELFMAG2, ELFMAG3]
  }

  // ---------------------------------------------------------------- header

  /** `elf64_checkFile`: -1 for a file without the ELF magic, -2 for one that is
      not of the 64-bit class, 0 otherwise. */
  function CheckFile(h: Header): (r: int)
    ensures r == -1 <==> !HasMagic(h)
    ensures r == -2 <==> HasMagic(h) && h.ident[EI_CLASS] != ELFCLASS64
    ensures r == 0 <==> HasMagic(h) && h.ident[EI_CLASS] == ELFCLASS64
  {
    if h.ident[EI_MAG0] != ELFMAG0 || h.ident[EI_MAG1] != ELFMAG1
       || h.ident[EI_MAG2] != ELFMAG2 || h.ident[EI_MAG3] != ELFMAG3 then -1
    else if h.ident[EI_CLASS] != ELFCLASS64 then -2
    else 0
  }

  /** `elf64_checkFile` looks at the first five identification bytes only: the
      data encoding, version, machine, type, program-header size and count and
      the flags are not checked. */
  lemma CheckFileReadsFiveBytes(h1: Header, h2: Header)
    requires h1.ident[..EI_CLASS + 1] == h2.ident[..EI_CLASS + 1]
    ensures CheckFile(h1) == CheckFile(h2)
  {
    assert forall j :: 0 <= j <= EI_CLASS ==> h1.ident[j] == h1.ident[..EI_CLASS + 1][j];
    assert forall j :: 0 <= j <= EI_CLASS ==> h2.ident[j] == h2.ident[..EI_CLASS + 1][j];
  }

  /** `elf64_getEntryPoint`. */
  function GetEntryPoint(h: Header): U64
  {
    h.entry
  }

  /** `elf64_getNumProgramHeaders`. */
  function GetNumProgramHeaders(h: Header): U16
  {
    h.phnum
  }

  /** `elf64_getNumSections`: `e_shnum`, the number of section headers. */
  function GetNumSections(h: Header): nat
  {
    h.shnum
  }

  // ---------------------------------------------------------------- sections

  /** The section-header indices the queries read are inside the table: the
      `e_shnum` headers the name search visits, and the section-name table
      when there is one. */
  predicate Indexable(img: Image)
  {
    img.header.shnum <= |img.sections| &&
    (img.header.shstrndx == 0 || img.header.shstrndx < |img.sections|)
  }

  /** `elf64_getStringTable`: the start of the data of section `s`. */
  function GetStringTable(img: Image, s: int): (p: Ptr)
    requires 0 <= s < |img.sections|
  {
    At(img.sections[s].offset)
  }

  /** `elf64_getSegmentStringTable`: the section-name table named by
      `e_shstrndx`, or NULL when that index is 0. */
  function GetSegmentStringTable(img: Image): (p: Ptr)
    requires img.header.shstrndx == 0 || img.header.shstrndx < |img.sections|
    ensures p == Null <==> img.header.shstrndx == 0
    ensures p != Null ==> p == At(img.sections[img.header.shstrndx].offset)
  {
    if img.header.shstrndx == 0 then Null else GetStringTable(img, img.header.shstrndx)
  }

  /** `elf64_getSection`: the start of the data of section `i`. */
  function GetSection(img: Image, i: int): (p: Ptr)
    requires 0 <= i < |img.sections|
  {
    At(img.sections[i].offset)
  }

  /** `elf64_getSectionName`: "<corrupted>" when there is no section-name table,
      otherwise the place `sh_name` bytes into that table. */
  function GetSectionName(img: Image, i: int): (n: NamePtr)
    requires 0 <= i < |img.sections|
    requires img.header.shstrndx == 0 || img.header.shstrndx < |img.sections|
    ensures n == Corrupted <==> img.header.shstrndx == 0
    ensures n != Corrupted ==>
              n.offset == img.sections[img.header.shstrndx].offset + img.sections[i].name
  {
    var table := GetSegmentStringTable(img);
    if table == Null then Corrupted else InImage(table.offset + img.sections[i].name)
  }

  /** `elf64_getSectionAddr`. */
  function GetSectionAddr(img: Image, i: int): U64
    requires 0 <= i < |img.sections|
  {
    img.sections[i].addr
  }

  /** `elf64_getSectionSize`. */
  function GetSectionSize(img: Image, i: int): U64
    requires 0 <= i < |img.sections|
  {
    img.sections[i].size
  }

  // ---------------------------------------------------------------- names

  /** The C string at offset `at` of `bytes`, as `strcmp` reads it: the bytes up
      to the first NUL. It stops at the end of the image, where C would read on. */
  function CStringAt(bytes: seq<Byte>, at: nat): seq<Byte>
    decreases |bytes| - at, 1
  {
    if at >= |bytes| || bytes[at] == 0 then [] else [bytes[at]] + CStringRest(bytes, at + 1)
  }

  /** The rest of a C string after its first byte; a separate step only so that
      the solver unfolds one byte of a name at a time. */
  function CStringRest(bytes: seq<Byte>, at: nat): seq<Byte>
    decreases if at <= |bytes| then |bytes| - at + 1 else 0, 0
  {
    CStringAt(bytes, at)
  }

  /** The string read at `at` is the run of bytes there up to, and not
      including, a NUL, or up to the end of the image. */
  lemma {:induction false} CStringAtReads(bytes: seq<Byte>, at: nat)
    ensures var s := CStringAt(bytes, at);
            (at <= |bytes| ==> at + |s| <= |bytes| && s == bytes[at..at + |s|]) &&
            (forall k :: 0 <= k < |s| ==> s[k] != 0) && (at + |s| < |bytes| ==> bytes[at + |s|] == 0)
    decreases |bytes| - at
  {
    if at < |bytes| && bytes[at] != 0 {
      CStringAtReads(bytes, at + 1);
      var rest := CStringAt(bytes, at + 1);
      assert CStringAt(bytes, at) == [bytes[at]] + rest;
      assert bytes[at..at + 1 + |rest|] == [bytes[at]] + bytes[at + 1..at + 1 + |rest|];
    }
  }

  /** The name of section `i` as `strcmp` sees it. */
  function SectionName(img: Image, i: int): seq<Byte>
    requires 0 <= i < |img.sections| && Indexable(img)
  {
    match GetSectionName(img, i)
    case Corrupted => CORRUPTED
    case InImage(at) => CStringAt(img.bytes, at)
  }

  /** The names of the `e_shnum` sections the search visits, in index order. */
  function SectionNames(img: Image): (names: seq<seq<Byte>>)
    requires Indexable(img)
    ensures |names| == img.header.shnum
    ensures forall j :: 0 <= j < |names| ==> names[j] == SectionName(img, j)
  {
    seq(img.header.shnum, j requires 0 <= j < img.header.shnum => SectionName(img, j))
  }

  /** The first index at `i` or above whose name in `names` is `str`. */
  function FindFrom(names: seq<seq<Byte>>, str: seq<Byte>, i: nat): (r: Option<nat>)
    ensures r.Some? ==> i <= r.value < |names| && names[r.value] == str
    decreases |names| - i
  {
    if i >= |names| then None
    else if names[i] == str then Some(i)
    else FindFrom(names, str, i + 1)
  }

  /** The section `elf64_getSectionNamed` finds. */
  function FindSection(img: Image, str: seq<Byte>): Option<nat>
    requires Indexable(img)
  {
    FindFrom(SectionNames(img), str, 0)
  }

  /** No name between `i` and the one the search from `i` finds is `str`. */
  lemma {:induction false} FindFromFirst(names: seq<seq<Byte>>, str: seq<Byte>, i: nat, j: nat)
    requires i <= j < |names|
    requires FindFrom(names, str, i).Some? ==> j < FindFrom(names, str, i).value
    ensures names[j] != str
    decreases j - i
  {
    if i < j {
      FindFromFirst(names, str, i + 1, j);
    }
  }

  /** The search from `i` finds the lowest matching index at or above `i`, and
      finds nothing exactly when no index from `i` up matches. */
  lemma FindFromLowest(names: seq<seq<Byte>>, str: seq<Byte>, i: nat)
    ensures var r := FindFrom(names, str, i);
            (r.Some? ==> forall j :: i <= j < r.value ==> names[j] != str) &&
            (r.None? <==> forall j :: i <= j < |names| ==> names[j] != str)
  {
    var r := FindFrom(names, str, i);
    forall j | i <= j < |names| && (r.Some? ==> j < r.value)
      ensures names[j] != str
    {
      FindFromFirst(names, str, i, j);
    }
  }

  /** `elf64_getSectionNamed` finds the section with the lowest index below
      `e_shnum` whose name is `str`, and nothing when no such section exists. */
  lemma FindSectionLowest(img: Image, str: seq<Byte>)
    requires Indexable(img)
    ensures var r := FindSection(img, str);
            (r.Some? ==> r.value < img.header.shnum && SectionName(img, r.value) == str &&
                         forall j :: 0 <= j < r.value ==> SectionName(img, j) != str) &&
            (r.None? <==> forall j :: 0 <= j < img.header.shnum ==> SectionName(img, j) != str)
  {
    FindFromLowest(SectionNames(img), str, 0);
  }

  /** Without a section-name table every section is called "<corrupted>": the
      search finds section 0 for that string, when there is a section, and
      nothing for any other string. */
  lemma {:induction false} FindWithoutNameTable(img: Image, str: seq<Byte>)
    requires Indexable(img) && img.header.shstrndx == 0
    ensures FindSection(img, str) == if str == CORRUPTED && 0 < img.header.shnum then Some(0) else None
  {
    if 0 < img.header.shnum && str != CORRUPTED {
      FindFromLowest(SectionNames(img), str, 0);
      forall j | 0 <= j < img.header.shnum
        ensures SectionName(img, j) != str
      {
        assert SectionName(img, j) == CORRUPTED;
      }
    }
  }

  /** `elf64_getSectionNamed`: the section whose name is the C string `str`
      holds (its bytes before the first NUL, as `strcmp` reads it), or NULL; its
      index is stored in `*id` when found and `id` is not NULL. */
  method GetSectionNamed(img: Image, str: seq<Byte>, id: array?<int>) returns (p: Ptr)
    requires Indexable(img) && (id != null ==> 1 <= id.Length)
    modifies id
    ensures match FindSection(img, CStringAt(str, 0))
            case None => p == Null && (id != null ==> id[..] == old(id[..]))
            case Some(k) => p == GetSection(img, k) && (id != null ==> id[..] == old(id[..])[0 := k])
  {
    var numSections := GetNumSections(img.header);
    var key := CStringAt(str, 0);
    ghost var names := SectionNames(img);
    var i := 0;
    while i < numSections
      invariant 0 <= i <= numSections
      invariant FindSection(img, key) == FindFrom(names, key, i)
    {
      var name := SectionName(img, i);
      assert name == names[i];
      if key == name {
        if id != null {
          id[0] := i;
        }
        return GetSection(img, i);
      }
      i := i + 1;
    }
    return Null;
  }
}
