/** ELF64 executables as the format writes them: a file header of 64 bytes, and program headers of
    56. Each is the encoding of its fields; nothing here is defined by how the loader reads. */
module ElfFormat {
  import opened Common
  import opened Records

  datatype FileHeader = FileHeader(ident: seq<byte>, kind: nat, machine: nat, version: nat, entry: nat, phoff: nat, shoff: nat,
                                   flags: nat, ehsize: nat, phentsize: nat, phnum: nat, shentsize: nat, shnum: nat, shstrndx: nat)

  datatype ProgramHeader = ProgramHeader(kind: nat, flags: nat, offset: nat, vaddr: nat, paddr: nat, filesz: nat, memsz: nat, align: nat)

  const FILE_HEADER := 64
  const PROGRAM_HEADER := 56

  /** The type of loadable segments. */
  const PT_LOAD := 1

  const MAGIC: seq<byte> := [0x7F, 0x45, 0x4C, 0x46]
  const CLASS64: byte := 2

  function FileHeaderBytes(h: FileHeader): seq<byte> {
    h.ident + Digits(h.kind, 2) + Digits(h.machine, 2) + Digits(h.version, 4) + Digits(h.entry, 8) + Digits(h.phoff, 8) + Digits(h.shoff, 8)
      + Digits(h.flags, 4) + Digits(h.ehsize, 2) + Digits(h.phentsize, 2) + Digits(h.phnum, 2) + Digits(h.shentsize, 2) + Digits(h.shnum, 2)
      + Digits(h.shstrndx, 2)
  }

  function ProgramHeaderBytes(h: ProgramHeader): seq<byte> {
    Digits(h.kind, 4) + Digits(h.flags, 4) + Digits(h.offset, 8) + Digits(h.vaddr, 8) + Digits(h.paddr, 8) + Digits(h.filesz, 8)
      + Digits(h.memsz, 8) + Digits(h.align, 8)
  }

  /** The fields fit the room they are given. */
  predicate FileHeaderFits(h: FileHeader) {
    |h.ident| == 16 && h.entry < Limit(8) && h.phoff < Limit(8) && h.phentsize < Limit(2) && h.phnum < Limit(2)
  }

  predicate ProgramHeaderFits(h: ProgramHeader) {
    h.kind < Limit(4) && h.offset < Limit(8) && h.vaddr < Limit(8) && h.filesz < Limit(8) && h.memsz < Limit(8)
  }

  ghost predicate HeaderIn(elf: seq<byte>, at: nat, h: ProgramHeader) {
    at + PROGRAM_HEADER <= |elf| && elf[at..at + PROGRAM_HEADER] == ProgramHeaderBytes(h) && ProgramHeaderFits(h)
  }

  /** The file is the executable with these headers. */
  ghost predicate Encodes(elf: seq<byte>, fh: FileHeader, phs: seq<ProgramHeader>) {
    && FileHeaderFits(fh) && |elf| >= FILE_HEADER && elf[..FILE_HEADER] == FileHeaderBytes(fh)
    && |phs| == fh.phnum && forall i :: 0 <= i < |phs| ==> HeaderIn(elf, fh.phoff + i * fh.phentsize, phs[i])
  }

  lemma FileHeaderFields(h: FileHeader)
    requires FileHeaderFits(h)
    ensures var b := FileHeaderBytes(h);
      |b| == FILE_HEADER && b[..16] == h.ident && Has(b, 0x18, 8, h.entry) && Has(b, 0x20, 8, h.phoff) && Has(b, 0x36, 2, h.phentsize) && Has(b, 0x38, 2, h.phnum)
  {
    hide Digits, Limit;
    var b := FileHeaderBytes(h);
    assert |b| == FILE_HEADER;
    assert b[0x18..0x20] == Digits(h.entry, 8) && b[0x20..0x28] == Digits(h.phoff, 8);
    assert b[0x36..0x38] == Digits(h.phentsize, 2) && b[0x38..0x3A] == Digits(h.phnum, 2);
  }

  lemma ProgramHeaderFields(h: ProgramHeader)
    requires ProgramHeaderFits(h)
    ensures var b := ProgramHeaderBytes(h);
      |b| == PROGRAM_HEADER && Has(b, 0, 4, h.kind) && Has(b, 8, 8, h.offset) && Has(b, 0x10, 8, h.vaddr) && Has(b, 0x20, 8, h.filesz) && Has(b, 0x28, 8, h.memsz)
  {
    hide Digits, Limit;
    var b := ProgramHeaderBytes(h);
    assert |b| == PROGRAM_HEADER;
    assert b[0..4] == Digits(h.kind, 4) && b[8..0x10] == Digits(h.offset, 8) && b[0x10..0x18] == Digits(h.vaddr, 8);
    assert b[0x20..0x28] == Digits(h.filesz, 8) && b[0x28..0x30] == Digits(h.memsz, 8);
  }
}
