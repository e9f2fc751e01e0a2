/** The LQE32 executable format of kernel/sched/exec.c: which images are accepted, and
    what relocating one means. */
module ExecImage {
  import opened Words

  const USER_EXEC_LOAD_ADDR: nat := 0x10_0000
  const USER_EXEC_MAX_SIZE: nat := 0x1_0000
  const USER_EXEC_END: nat := USER_EXEC_LOAD_ADDR + USER_EXEC_MAX_SIZE

  const HEADER_SIZE: nat := 8
  const RELOC_HEADER_SIZE: nat := 28
  const VERSION_FLAT: Byte := 1
  const VERSION_RELOC: Byte := 2

  type File = s: seq<Byte> | |s| < 0x8000_0000

  function ReadU32(buffer: seq<Byte>, offset: nat): U32
    requires offset + 4 <= |buffer|
  {
    Le32(buffer[offset], buffer[offset + 1], buffer[offset + 2], buffer[offset + 3])
  }

  predicate RangeInFile(offset: U32, size: U32, fileSize: U32) {
    offset <= fileSize && size <= fileSize - offset
  }

  /** struct ExecutableImageInfo */
  datatype Info = Info(loadSize: U32, preferredBase: U32, entry: U32, table: U32, count: U32, relocates: bool)

  /** Where relocation `i` applies, as an offset into the image. */
  function RelocOffset(buffer: seq<Byte>, info: Info, i: nat): U32
    requires info.table + 4 * i + 4 <= |buffer|
  {
    ReadU32(buffer, info.table + 4 * i)
  }

  /** The whole table lies in the file and every word it names lies in the image. */
  ghost predicate RelocationsOk(buffer: seq<Byte>, info: Info) {
    && info.table + 4 * info.count <= |buffer|
    && forall i :: 0 <= i < info.count ==> RelocOffset(buffer, info, i) + 4 <= info.loadSize
  }

  /** ValidateRelocations, with its 32-bit table size: it accepts exactly the proper tables. */
  method ValidateRelocations(buffer: File, info: Info) returns (ok: bool)
    ensures ok <==> RelocationsOk(buffer, info)
  {
    var size: U32 := |buffer|;
    var tableSize := info.count * 4 % 0x1_0000_0000;
    if info.count != 0 && tableSize / 4 != info.count {
      return false;
    }
    if !RangeInFile(info.table, tableSize, size) {
      return false;
    }
    var i := 0;
    while i < info.count
      invariant 0 <= i <= info.count
      invariant forall j :: 0 <= j < i ==> RelocOffset(buffer, info, j) + 4 <= info.loadSize
    {
      if !RangeInFile(RelocOffset(buffer, info, i), 4, info.loadSize) {
        return false;
      }
      i := i + 1;
    }
    return true;
  }

  predicate Signed(buffer: seq<Byte>) {
    |buffer| >= HEADER_SIZE && (buffer[0] == 0xEB || buffer[0] == 0xE9)
    && buffer[2..7] == [0x4C, 0x51, 0x45, 0x33, 0x32]
  }

  /** The header fields of a relocatable image. */
  function HeaderOf(buffer: seq<Byte>): Info
    requires |buffer| >= RELOC_HEADER_SIZE
  {
    Info(ReadU32(buffer, 8), ReadU32(buffer, 12), ReadU32(buffer, 16), ReadU32(buffer, 20), ReadU32(buffer, 24), true)
  }

  /** The images the loader accepts, with what it reads from them. */
  ghost predicate IsImage(buffer: seq<Byte>, info: Info) {
    Signed(buffer)
    && (if buffer[7] == VERSION_FLAT then
          |buffer| <= USER_EXEC_MAX_SIZE && info == Info(|buffer|, USER_EXEC_LOAD_ADDR, 0, 0, 0, false)
        else
          && buffer[7] == VERSION_RELOC && |buffer| >= RELOC_HEADER_SIZE && info == HeaderOf(buffer)
          && RELOC_HEADER_SIZE <= info.loadSize <= USER_EXEC_MAX_SIZE && info.loadSize <= |buffer|
          && info.entry < info.loadSize && RelocationsOk(buffer, info))
  }

  /** The same in terms of the file's bytes: a flat image of at most 64 KiB, or a header of five
      numbers with an entry point inside the image and a table inside the file whose words lie
      inside the image. */
  ghost predicate IsFormat(buffer: seq<Byte>, info: Info) {
    && |buffer| >= 8 && buffer[0] in {0xEB, 0xE9} && buffer[2..7] == [0x4C, 0x51, 0x45, 0x33, 0x32]
    && if buffer[7] == 1
       then |buffer| <= 0x1_0000 && info == Info(|buffer|, 0x10_0000, 0, 0, 0, false)
       else buffer[7] == 2 && |buffer| >= 28 && HasHeader(buffer, info) && HasTable(buffer, info)
  }

  /** Every word the table names lies in the image. */
  ghost predicate HasTable(buffer: seq<Byte>, info: Info) {
    && info.table + 4 * info.count <= |buffer|
    && forall i :: 0 <= i < info.count ==> Word(buffer, info.table + 4 * i) + 4 <= info.loadSize
  }

  function Word(buffer: seq<Byte>, at: nat): nat
    requires at + 4 <= |buffer|
  {
    Number(buffer[at..at + 4])
  }

  predicate HasHeader(buffer: seq<Byte>, info: Info)
    requires |buffer| >= 28
  {
    && info.loadSize == Word(buffer, 8) && info.preferredBase == Word(buffer, 12) && info.entry == Word(buffer, 16)
    && info.table == Word(buffer, 20) && info.count == Word(buffer, 24) && info.relocates
    && 28 <= info.loadSize <= 0x1_0000 && info.loadSize <= |buffer| && info.entry < info.loadSize
  }

  lemma WordIs(buffer: seq<Byte>, at: nat)
    requires at + 4 <= |buffer|
    ensures ReadU32(buffer, at) == Word(buffer, at)
  {
    NumberOfFour(buffer, at);
  }

  lemma HeaderByBytes(buffer: seq<Byte>, info: Info)
    requires |buffer| >= 28
    ensures HasHeader(buffer, info) <==>
      (info == HeaderOf(buffer) && 28 <= info.loadSize <= 0x1_0000 && info.loadSize <= |buffer|
       && info.entry < info.loadSize)
  {
    hide Word, ReadU32;
    WordIs(buffer, 8);
    WordIs(buffer, 12);
    WordIs(buffer, 16);
    WordIs(buffer, 20);
    WordIs(buffer, 24);
  }

  lemma TableByBytes(buffer: seq<Byte>, info: Info)
    ensures RelocationsOk(buffer, info) <==> HasTable(buffer, info)
  {
    hide Word, ReadU32;
    if RelocationsOk(buffer, info) {
      forall i | 0 <= i < info.count ensures Word(buffer, info.table + 4 * i) + 4 <= info.loadSize {
        WordIs(buffer, info.table + 4 * i);
        assert RelocOffset(buffer, info, i) + 4 <= info.loadSize;
      }
    }
    if HasTable(buffer, info) {
      forall i | 0 <= i < info.count ensures RelocOffset(buffer, info, i) + 4 <= info.loadSize {
        WordIs(buffer, info.table + 4 * i);
        assert Word(buffer, info.table + 4 * i) + 4 <= info.loadSize;
      }
    }
  }

  lemma ImageByBytes(buffer: seq<Byte>, info: Info)
    ensures IsImage(buffer, info) <==> IsFormat(buffer, info)
  {
    hide HeaderOf, HasHeader, RelocationsOk, HasTable;
    TableByBytes(buffer, info);
    if |buffer| >= 28 {
      HeaderByBytes(buffer, info);
    }
  }

  method ValidateExecutableImage(buffer: File) returns (r: Option<Info>)
    ensures r.Some? ==> IsImage(buffer, r.value) && IsFormat(buffer, r.value)
    ensures r.None? ==> forall info :: !IsImage(buffer, info) && !IsFormat(buffer, info)
  {
    forall info ensures IsImage(buffer, info) <==> IsFormat(buffer, info) {
      ImageByBytes(buffer, info);
    }
    if |buffer| < HEADER_SIZE
      || (buffer[0] != 0xEB && buffer[0] != 0xE9)
      || buffer[2..7] != [0x4C, 0x51, 0x45, 0x33, 0x32] {
      return None;
    }
    if buffer[7] == VERSION_FLAT {
      if |buffer| > USER_EXEC_MAX_SIZE {
        return None;
      }
      return Some(Info(|buffer|, USER_EXEC_LOAD_ADDR, 0, 0, 0, false));
    }
    if buffer[7] != VERSION_RELOC || |buffer| < RELOC_HEADER_SIZE {
      return None;
    }
    var info := HeaderOf(buffer);
    if info.loadSize < RELOC_HEADER_SIZE || info.loadSize > USER_EXEC_MAX_SIZE
      || info.loadSize > |buffer| || info.entry >= info.loadSize {
      return None;
    }
    var ok := ValidateRelocations(buffer, info);
    return if ok then Some(info) else None;
  }

  /** What every accepted image promises the loader. */
  lemma ImageFits(buffer: seq<Byte>, info: Info)
    requires IsImage(buffer, info)
    ensures HEADER_SIZE <= info.loadSize <= USER_EXEC_MAX_SIZE && info.loadSize <= |buffer|
      && info.entry < info.loadSize
    ensures info.relocates ==> RelocationsOk(buffer, info)
  {
  }

  // ------------------------------------------------------------- user memory

  /** User memory as bytes by address. */
  type Bytes = map<nat, Byte>

  predicate HasWord(mem: Bytes, a: nat) {
    a in mem && a + 1 in mem && a + 2 in mem && a + 3 in mem
  }

  function WordAt(mem: Bytes, a: nat): U32
    requires HasWord(mem, a)
  {
    Le32(mem[a], mem[a + 1], mem[a + 2], mem[a + 3])
  }

  function PutWord(mem: Bytes, a: nat, v: U32): Bytes {
    mem[a := ByteOf(v, 0)][a + 1 := ByteOf(v, 1)][a + 2 := ByteOf(v, 2)][a + 3 := ByteOf(v, 3)]
  }

  /** Reading back a word gives what was stored, and words apart from it are untouched. */
  lemma PutThenWord(mem: Bytes, a: nat, v: U32, b: nat)
    ensures HasWord(PutWord(mem, a, v), a) && WordAt(PutWord(mem, a, v), a) == v
    ensures HasWord(mem, b) ==> HasWord(PutWord(mem, a, v), b)
    ensures HasWord(mem, b) && (b + 4 <= a || a + 4 <= b) ==> WordAt(PutWord(mem, a, v), b) == WordAt(mem, b)
    ensures b in mem && (b < a || a + 4 <= b) ==> b in PutWord(mem, a, v) && PutWord(mem, a, v)[b] == mem[b]
  {
    Le32OfBytes(v);
    hide ByteOf, Le32;
  }

  function ImageByte(buffer: seq<Byte>, loadSize: nat, a: nat): Byte
    requires loadSize <= |buffer| && USER_EXEC_LOAD_ADDR <= a
  {
    if a - USER_EXEC_LOAD_ADDR < loadSize then buffer[a - USER_EXEC_LOAD_ADDR] else 0
  }

  /** The file's first `loadSize` bytes at the load address, zero behind them. */
  ghost function Loaded(buffer: seq<Byte>, loadSize: nat): Bytes
    requires loadSize <= |buffer|
  {
    map a: nat | USER_EXEC_LOAD_ADDR <= a < USER_EXEC_END :: ImageByte(buffer, loadSize, a)
  }

  function Delta(info: Info): U32 {
    (USER_EXEC_LOAD_ADDR - info.preferredBase) % 0x1_0000_0000
  }

  /** The address of relocation `i` in user memory. */
  function RelocAddress(buffer: seq<Byte>, info: Info, i: nat): nat
    requires info.table + 4 * i + 4 <= |buffer|
  {
    USER_EXEC_LOAD_ADDR + RelocOffset(buffer, info, i)
  }

  predicate InWindow(mem: Bytes) {
    forall a :: USER_EXEC_LOAD_ADDR <= a < USER_EXEC_END ==> a in mem
  }

  /** User memory after the first `n` relocations, one after the other. */
  ghost function Relocated(mem: Bytes, buffer: seq<Byte>, info: Info, n: nat): (r: Bytes)
    requires RelocationsOk(buffer, info) && n <= info.count && InWindow(mem) && info.loadSize <= USER_EXEC_MAX_SIZE
    ensures r.Keys == mem.Keys
  {
    if n == 0 then mem
    else
      var before := Relocated(mem, buffer, info, n - 1);
      var a := RelocAddress(buffer, info, n - 1);
      assert a + 4 <= USER_EXEC_END;
      PutWord(before, a, Add32(WordAt(before, a), Delta(info)))
  }

  /** No two relocations share a byte. */
  ghost predicate WordsApart(buffer: seq<Byte>, info: Info)
    requires RelocationsOk(buffer, info)
  {
    forall i, j :: 0 <= i < j < info.count ==>
      || RelocOffset(buffer, info, i) + 4 <= RelocOffset(buffer, info, j)
      || RelocOffset(buffer, info, j) + 4 <= RelocOffset(buffer, info, i)
  }

  ghost predicate Touched(buffer: seq<Byte>, info: Info, n: nat, a: nat)
    requires RelocationsOk(buffer, info) && n <= info.count
  {
    exists i :: 0 <= i < n && RelocAddress(buffer, info, i) <= a < RelocAddress(buffer, info, i) + 4
  }

  /** With words apart, relocating adds delta exactly once to exactly the listed words. */
  lemma {:induction false} RelocatedWord(mem: Bytes, buffer: seq<Byte>, info: Info, n: nat, i: nat)
    requires RelocationsOk(buffer, info) && n <= info.count && InWindow(mem) && info.loadSize <= USER_EXEC_MAX_SIZE
    requires WordsApart(buffer, info) && i < info.count
    ensures HasWord(mem, RelocAddress(buffer, info, i))
      && HasWord(Relocated(mem, buffer, info, n), RelocAddress(buffer, info, i))
    ensures WordAt(Relocated(mem, buffer, info, n), RelocAddress(buffer, info, i))
      == if i < n then Add32(WordAt(mem, RelocAddress(buffer, info, i)), Delta(info))
         else WordAt(mem, RelocAddress(buffer, info, i))
  {
    hide WordAt, PutWord, Add32, ReadU32, Delta;
    WordsInWindow(mem, buffer, info);
    if n > 0 {
      RelocatedWord(mem, buffer, info, n - 1, i);
      var before := Relocated(mem, buffer, info, n - 1);
      WordsInWindow(before, buffer, info);
      var b := RelocAddress(buffer, info, n - 1);
      PutThenWord(before, b, Add32(WordAt(before, b), Delta(info)), RelocAddress(buffer, info, i));
    }
  }

  /** Bytes outside the listed words are the image's. */
  lemma {:induction false} RelocatedByte(mem: Bytes, buffer: seq<Byte>, info: Info, n: nat, a: nat)
    requires RelocationsOk(buffer, info) && n <= info.count && InWindow(mem) && info.loadSize <= USER_EXEC_MAX_SIZE
    requires a in mem && !Touched(buffer, info, n, a)
    ensures Relocated(mem, buffer, info, n)[a] == mem[a]
  {
    hide WordAt, PutWord, Add32, ReadU32, Delta;
    if n > 0 {
      assert !Touched(buffer, info, n - 1, a);
      RelocatedByte(mem, buffer, info, n - 1, a);
      var before := Relocated(mem, buffer, info, n - 1);
      WordsInWindow(before, buffer, info);
      var b := RelocAddress(buffer, info, n - 1);
      PutThenWord(before, b, Add32(WordAt(before, b), Delta(info)), a);
    }
  }

  lemma WordsInWindow(mem: Bytes, buffer: seq<Byte>, info: Info)
    requires RelocationsOk(buffer, info) && InWindow(mem) && info.loadSize <= USER_EXEC_MAX_SIZE
    ensures forall i :: 0 <= i < info.count ==> HasWord(mem, RelocAddress(buffer, info, i))
  {
  }

  /** A word that held an address of the image as linked holds that address as loaded. */
  lemma RelocationMeansMoving(info: Info, offset: nat)
    ensures Add32(Add32(info.preferredBase, offset), Delta(info)) == Add32(USER_EXEC_LOAD_ADDR, offset)
  {
    AddTwice(info.preferredBase, offset, Delta(info));
    DeltaMoves(info, offset);
  }

  lemma DeltaMoves(info: Info, offset: nat)
    ensures Add32(info.preferredBase, offset + Delta(info)) == Add32(USER_EXEC_LOAD_ADDR, offset)
  {
  }
}
