/** The format kernel/fs/fat12.c reads and writes, byte by byte: what the other modules say of
    fields, cells, clusters and files, in terms of the bytes on the drive. */
module OnDisk {
  import opened Words
  import opened FatTable
  import opened Chains
  import opened FatOps
  import opened Directory
  import opened Names
  import opened Volume
  import opened VolumeLaws
  import opened WriteLaws
  import opened Disk
  import opened DiskView
  import opened Fat12

  // -------------------------------------------------------------- boot sector

  /** A boot sector is accepted exactly if it has sectors of 512 bytes, a power of two of them
      in a cluster, no empty field, and room for a cluster behind tables and root directory. */
  lemma BootSectorTaken(boot: seq<Byte>, reserved: nat, roots: nat, size: nat, total: nat)
    requires |boot| == 512
    requires reserved == Number(boot[14..16]) && roots == Number(boot[17..19]) && size == Number(boot[22..24])
    requires total == if Number(boot[19..21]) != 0 then Number(boot[19..21]) else Number(boot[32..36])
    ensures ParseInfo(boot).Some? <==>
      && Number(boot[11..13]) == 512 && boot[13] in {1, 2, 4, 8, 16, 32, 64, 128}
      && reserved > 0 && boot[16] > 0 && roots > 0 && size > 0
      && reserved + boot[16] * size + (32 * roots + 511) / 512 + boot[13] <= total
    ensures ParseInfo(boot).Some? ==> ParseInfo(boot).value == Info(boot[13], reserved, boot[16], roots, size, total)
  {
    hide Number, Le16, Le32;
    NumberOfTwo(boot, 11);
    NumberOfTwo(boot, 14);
    NumberOfTwo(boot, 17);
    NumberOfTwo(boot, 19);
    NumberOfTwo(boot, 22);
    NumberOfFour(boot, 32);
  }

  /** The boot sector of a 1.44 MB floppy, from the sector size to the table size. */
  predicate IsFloppyBoot(boot: seq<Byte>) {
    && |boot| == 512 && boot[11] == 0 && boot[12] == 2 && boot[13] == 1 && boot[14] == 1 && boot[15] == 0
    && boot[16] == 2 && boot[17] == 224 && boot[18] == 0 && boot[19] == 64 && boot[20] == 11
    && boot[22] == 9 && boot[23] == 0
  }

  /** And the layout it gives: the root directory at sector 19, clusters from 33, 2847 of them. */
  lemma StandardFloppy(boot: seq<Byte>)
    requires IsFloppyBoot(boot)
    ensures ParseInfo(boot) == Some(Info(1, 1, 2, 224, 9, 2880))
  {
    hide ParseInfo;
    FloppyFits();
    assert BootFields(boot) == Info(1, 1, 2, 224, 9, 2880);
  }

  lemma FloppyFits()
    ensures Info(1, 1, 2, 224, 9, 2880).Valid() && Info(1, 1, 2, 224, 9, 2880).TotalClusters() == 2847
    ensures Info(1, 1, 2, 224, 9, 2880).Mountable()
  {
  }

  lemma FloppyLayout()
    ensures Info(1, 1, 2, 224, 9, 2880).FirstRoot() == 19 && Info(1, 1, 2, 224, 9, 2880).FirstData() == 33
    ensures Info(1, 1, 2, 224, 9, 2880).ClusterBytes() == 512
  {
  }

  /** What a volume must satisfy to be mountable, in numbers: at most 4084 clusters, and the two
      bytes that hold the last one's cell inside the table. */
  lemma MountableNumbers(info: Info, n: nat)
    requires info.Valid() && n == info.TotalClusters()
    ensures info.Mountable() <==> n <= 4084 && 3 * (n + 1) / 2 + 1 < 512 * info.fatSize
    ensures var first := info.reserved + info.fatCount * info.fatSize + (32 * info.rootEntryCount + 511) / 512;
            first <= info.totalSectors && n == (info.totalSectors - first) / info.sectorsPerCluster
  {
  }

  // ------------------------------------------------------------- on the sectors

  lemma {:induction false} ReadRangeAt(d: Sectors, lba: nat, count: nat, j: nat)
    requires lba + count <= |d| && AllSectors(d) && j < 512 * count
    ensures lba + j / 512 < |d| && ReadRange(d, lba, count)[j] == d[lba + j / 512][j % 512]
  {
    if j < 512 * (count - 1) {
      ReadRangeAt(d, lba, count - 1, j);
    } else {
      assert j / 512 == count - 1;
    }
  }

  /** Table copies lie behind the reserved sectors, one after the other. */
  lemma FatOnDrive(d: Sectors, info: Info, copy: nat, j: nat)
    requires Mounted(d, info) && copy < info.fatCount && j < 512 * info.fatSize
    ensures var s := info.reserved + copy * info.fatSize + j / 512;
            s < |d| && j < |FatBytes(d, info, copy)| && FatBytes(d, info, copy)[j] == d[s][j % 512]
  {
    FatPlace(info, copy);
    ReadRangeAt(d, info.FatLba(copy), info.fatSize, j);
  }

  /** Then comes the root directory, in whole sectors. */
  lemma RootOnDrive(d: Sectors, info: Info, j: nat)
    requires Mounted(d, info) && j < 512 * ((32 * info.rootEntryCount + 511) / 512)
    ensures var s := info.reserved + info.fatCount * info.fatSize + j / 512;
            s < |d| && j < |RootBytes(d, info)| && RootBytes(d, info)[j] == d[s][j % 512]
  {
    ReadRangeAt(d, info.FirstRoot(), info.RootDirSectors(), j);
  }

  /** Cluster 2 lies behind the reserved sectors, the tables and the root directory. */
  function ClusterSector(info: Info, c: nat): nat
    requires c >= 2
  {
    info.reserved + info.fatCount * info.fatSize + (32 * info.rootEntryCount + 511) / 512
    + (c - 2) * info.sectorsPerCluster
  }

  /** And then the clusters, from number 2 on. */
  lemma ClusterOnDrive(d: Sectors, info: Info, c: nat, j: nat)
    requires Mounted(d, info) && 2 <= c < info.TotalClusters() + 2 && j < 512 * info.sectorsPerCluster
    ensures var s := ClusterSector(info, c) + j / 512;
            s < |d| && j < |ClusterData(d, info, c)| && ClusterData(d, info, c)[j] == d[s][j % 512]
  {
    ClusterPlace(info, c);
    ReadRangeAt(d, info.ClusterToLba(c), info.sectorsPerCluster, j);
  }

  // --------------------------------------------------------------- the table

  /** Two cells share three bytes: the even one has the low byte and the low half of the middle
      one, the odd one the high half of it and the high byte. */
  lemma CellsInBytes(fat: seq<Byte>, totalClusters: nat, g: nat)
    requires Holds(fat, totalClusters + 2) && 2 * g < totalClusters + 2
    ensures 3 * g + 1 < |fat| && Cells(fat, totalClusters)[2 * g] == EvenCell(fat[3 * g], fat[3 * g + 1])
    ensures 2 * g + 1 < totalClusters + 2 ==>
      3 * g + 2 < |fat| && Cells(fat, totalClusters)[2 * g + 1] == OddCell(fat[3 * g + 1], fat[3 * g + 2])
  {
    hide Le16, EvenCell, OddCell;
    Group(2 * g);
    EvenIs(fat[3 * g], fat[3 * g + 1]);
    if 2 * g + 1 < totalClusters + 2 {
      Group(2 * g + 1);
      OddIs(fat[3 * g + 1], fat[3 * g + 2]);
    }
  }

  function EvenCell(low: Byte, middle: Byte): nat {
    low as int + 256 * (middle as int % 16)
  }

  function OddCell(middle: Byte, high: Byte): nat {
    middle as int / 16 + 16 * high as int
  }

  lemma EvenIs(low: Byte, middle: Byte)
    ensures Le16(low, middle) % 4096 == EvenCell(low, middle)
  {
    assert Le16(low, middle) == low as int + 256 * (middle as int % 16) + 4096 * (middle as int / 16);
  }

  lemma OddIs(middle: Byte, high: Byte)
    ensures Le16(middle, high) / 16 == OddCell(middle, high)
  {
    assert Le16(middle, high) == middle as int % 16 + 16 * (middle as int / 16 + 16 * high as int);
  }

  /** A chain is followed from cell to cell, inside the volume, up to a cell of 0xFF8 or more. */
  lemma ChainByCells(next: seq<nat>, start: nat)
    ensures HasChain(next, start) <==> exists chain: seq<nat> :: FollowsCells(next, start, chain)
    ensures HasChain(next, start) ==> FollowsCells(next, start, ChainOf(next, start))
  {
    forall chain: seq<nat> ensures FollowsCells(next, start, chain) <==> IsChainFrom(next, start, chain) {
    }
  }

  ghost predicate FollowsCells(next: seq<nat>, start: nat, chain: seq<nat>) {
    && |chain| > 0 && chain[0] == start
    && (forall i :: 0 <= i < |chain| ==> 2 <= chain[i] < |next|)
    && (forall i :: 0 <= i < |chain| - 1 ==> next[chain[i]] == chain[i + 1])
    && next[chain[|chain| - 1]] >= 0xFF8
  }

  /** New chains are ended by 0xFFF, and their clusters were marked 0 before. */
  lemma NewChainCells(next: seq<nat>, count: nat, i: nat)
    requires IsTable(next) && i < count <= |FreeList(next)|
    ensures var chain, next' := Lowest(next, count), Allocate(next, count);
            && 2 <= chain[i] < |next| && next[chain[i]] == 0
            && next'[chain[i]] == if i + 1 < count then chain[i + 1] else 0xFFF
  {
    AllocateIs(next, count);
    LinkedCells(next, Lowest(next, count), count);
  }

  // ----------------------------------------------------------- the directory

  /** A slot's fields by their offsets: name, attributes, first cluster, size. */
  lemma SlotFields(s: Slot)
    ensures SlotName(s) == s[0..11] && SlotStart(s) == Number(s[26..28]) && SlotSize(s) == Number(s[28..32])
    ensures Fat12EntryIsEnd(s) <==> s[0] == 0
    ensures Fat12EntryIsDeleted(s) <==> s[0] == 0xE5
  {
    NumberOfTwo(s, 26);
    NumberOfFour(s, 28);
  }

  /** Deleted slots are no files, nor are directories (0x10) or volume labels (0x08), and with
      these long-name entries (0x0F); all others are. */
  lemma RegularByAttribute(s: Slot)
    ensures Fat12EntryIsRegularFile(s) <==> s[0] != 0xE5 && s[11] / 8 % 2 == 0 && s[11] / 16 % 2 == 0
    ensures s[11] == 0x0F || s[11] == 0x08 || s[11] == 0x10 ==> !Fat12EntryIsRegularFile(s)
    ensures s[0] != 0xE5 && s[11] == 0x20 ==> Fat12EntryIsRegularFile(s)
  {
  }

  /** A slot written for a file, by offsets. */
  lemma WrittenSlot(name: Name, start: U16, size: U32)
    ensures var s := FileSlot(name, start, size);
            && s[0..11] == name && s[11] == 0x20 && (forall k :: 12 <= k < 26 ==> s[k] == 0)
            && Number(s[26..28]) == start && Number(s[28..32]) == size
  {
    FileSlotFields(name, start, size);
    SlotFields(FileSlot(name, start, size));
  }

  lemma ErasedSlot(k: nat)
    requires k < 32
    ensures DeletedSlot()[k] == if k == 0 then 0xE5 else 0
  {
  }

  /** A name is found in the first of the slots before the end mark that is a file and has the
      name's eleven bytes. */
  lemma FoundByBytes(slots: seq<Slot>, count: nat, name: Name, i: nat)
    requires count <= |slots|
    ensures Lookup(slots, count, name) == Some(i) <==>
      (IsFound(slots, count, name, i) && forall j: nat :: j < i ==> !IsFound(slots, count, name, j))
  {
    forall j: nat ensures IsFound(slots, count, name, j) <==> Matches(slots, count, name, j) {
    }
    if IsFound(slots, count, name, i) && forall j: nat :: j < i ==> !IsFound(slots, count, name, j) {
      LookupUnique(slots, count, name, Lookup(slots, count, name), Some(i));
    }
  }

  predicate IsFound(slots: seq<Slot>, count: nat, name: Name, i: nat) {
    && i < count <= |slots| && (forall j :: 0 <= j <= i ==> slots[j][0] != 0)
    && slots[i][0..11] == name && slots[i][0] != 0xE5 && slots[i][11] / 8 % 2 == 0 && slots[i][11] / 16 % 2 == 0
  }

  /** A new name goes to the first slot that begins with 0 or 0xE5. */
  lemma FreeByBytes(slots: seq<Slot>, count: nat, i: nat)
    requires count <= |slots|
    ensures IsFreeSlot(slots, count, Some(i)) <==>
      && i < count && slots[i][0] in {0, 0xE5} && forall j :: 0 <= j < i ==> slots[j][0] !in {0, 0xE5}
    ensures IsFreeSlot(slots, count, None) <==> forall j :: 0 <= j < count ==> slots[j][0] !in {0, 0xE5}
  {
  }

  lemma SlotOfBytes(root: seq<Byte>, i: nat, k: nat)
    requires 32 * i + 32 <= |root| && k < 32
    ensures i < |Slots(root)| && Slots(root)[i][k] == root[32 * i + k]
  {
  }

  // ----------------------------------------------------------------- the file

  lemma {:induction false} ChainBytesAt(v: Volume, chain: seq<nat>, i: nat, j: nat)
    requires Shape(v) && i < |chain| && j < v.clusterBytes
    requires forall k :: 0 <= k < |chain| ==> IsData(v.next, chain[k])
    ensures i * v.clusterBytes + j < |ChainBytes(v, chain)|
    ensures |v.clusters[chain[i]]| == v.clusterBytes
    ensures ChainBytes(v, chain)[i * v.clusterBytes + j] == v.clusters[chain[i]][j]
  {
    var n := |chain| - 1;
    MulOrder(i, n + 1, v.clusterBytes);
    if i < n {
      ChainBytesAt(v, chain[..n], i, j);
    }
  }

  /** Byte `at` of a file is byte `j` of its cluster `i`. */
  predicate IsPlace(at: nat, size: nat, i: nat, j: nat) {
    j < size && at == i * size + j
  }

  lemma PlaceInChain(at: nat, size: nat, i: nat, j: nat, n: nat)
    requires IsPlace(at, size, i, j) && at < n * size
    ensures i < n
  {
    assert i >= n ==> (i - n) * size >= 0;
  }

  /** What a slot's file holds: its first cluster is in the slot, the next ones in the cells, and
      each byte at its place in its cluster. */
  lemma FileInClusters(v: Volume, s: Slot, at: nat, i: nat, j: nat)
    requires Shape(v) && Contents(v, s).Some? && at < |Contents(v, s).value| && IsPlace(at, v.clusterBytes, i, j)
    ensures |Contents(v, s).value| == Number(s[28..32])
    ensures FollowsCells(v.next, Number(s[26..28]), SlotChain(v, s)) && i < |SlotChain(v, s)|
    ensures var c := SlotChain(v, s)[i];
            2 <= c < |v.clusters| && |v.clusters[c]| == v.clusterBytes && Contents(v, s).value[at] == v.clusters[c][j]
  {
    hide Number;
    SlotFields(s);
    ChainByCells(v.next, SlotStart(s));
    var chain := SlotChain(v, s);
    assert HasChain(v.next, SlotStart(s));
    PlaceInChain(at, v.clusterBytes, i, j, |chain|);
    ChainBytesAt(v, chain, i, j);
  }

  /** Byte `j` of cluster `c` is `b` on the drive. */
  ghost predicate IsOnDrive(d: Sectors, info: Info, c: nat, j: nat, b: Byte) {
    c >= 2 && var s := ClusterSector(info, c) + j / 512; s < |d| && |d[s]| == 512 && d[s][j % 512] == b
  }

  /** And where each byte is on the drive. */
  lemma FileOnDrive(d: Sectors, info: Info, s: Slot, at: nat, i: nat, j: nat)
    requires Mounted(d, info) && Shape(View(d, info)) && Contents(View(d, info), s).Some?
    requires at < |Contents(View(d, info), s).value| && IsPlace(at, 512 * info.sectorsPerCluster, i, j)
    ensures i < |SlotChain(View(d, info), s)|
    ensures IsOnDrive(d, info, SlotChain(View(d, info), s)[i], j, Contents(View(d, info), s).value[at])
  {
    hide Number, Contents, FatBytes, RootBytes, ClusterData, ClusterSector, Shape, FollowsCells, IsPlace;
    var v := View(d, info);
    FileInClusters(v, s, at, i, j);
    PlaceIs(at, v.clusterBytes, i, j);
    var c := SlotChain(v, s)[i];
    assert v.clusters[c] == ClusterData(d, info, c);
    ClusterOnDrive(d, info, c, j);
  }

  lemma PlaceIs(at: nat, size: nat, i: nat, j: nat)
    requires IsPlace(at, size, i, j)
    ensures j < size
  {
  }

  /** A write stores the data cluster by cluster and fills up with zeros. */
  lemma WrittenClusters(v: Volume, name: Name, data: seq<Byte>, t: nat, at: nat, i: nat, j: nat)
    requires WriteCase(v, name, data, t) && i < |NewChain(v, name, |data|)| && IsPlace(at, v.clusterBytes, i, j)
    ensures var w, c := WriteResult(v, name, data, t), NewChain(v, name, |data|)[i];
            c < |w.clusters| && IsByte(w.clusters[c], j, if at < |data| then data[at] else 0)
  {
    hide Piece;
    var chain := NewChain(v, name, |data|);
    ReleasedCells(v, name);
    AllocateIs(Released(v, name), |chain|);
    StoredCells(v.clusters, chain, data, v.clusterBytes, |chain|);
    PieceAt(data, v.clusterBytes, at, i, j);
  }

  ghost predicate IsByte(bytes: seq<Byte>, j: nat, b: Byte) {
    j < |bytes| && bytes[j] == b
  }

  lemma PieceAt(data: seq<Byte>, size: nat, at: nat, i: nat, j: nat)
    requires IsPlace(at, size, i, j)
    ensures IsByte(Piece(data, i, size), j, if at < |data| then data[at] else 0)
  {
  }

  /** No more clusters are taken than the data needs. */
  lemma ClustersTaken(v: Volume, name: Name, length: nat)
    requires Shape(v) && CanWrite(v, name, length)
    ensures var n := |NewChain(v, name, length)|;
            length <= n * v.clusterBytes && (n > 0 ==> (n - 1) * v.clusterBytes < length)
  {
    NeededCovers(length, v.clusterBytes);
  }

  // ------------------------------------------------------------ an empty drive

  lemma {:induction false} SameSectors(d: Sectors, a: nat, b: nat, count: nat)
    requires AllSectors(d) && a + count <= |d| && b + count <= |d| && d[a..a + count] == d[b..b + count]
    ensures ReadRange(d, a, count) == ReadRange(d, b, count)
  {
    if count > 0 {
      var n := count - 1;
      assert d[a..a + n] == d[a..a + count][..n] && d[b..b + n] == d[b..b + count][..n];
      assert d[a + n] == d[a..a + count][n] && d[b + n] == d[b..b + count][n];
      SameSectors(d, a, b, n);
    }
  }

  lemma FloppyTables(d: Sectors, info: Info)
    requires Mounted(d, info) && info == Info(1, 1, 2, 224, 9, 2880)
    ensures AllSectors(d) && 2880 <= |d|
    ensures FatBytes(d, info, 0) == ReadRange(d, 1, 9) && FatBytes(d, info, 1) == ReadRange(d, 10, 9)
  {
    hide ParseInfo, BootFields, Le16, Le32, Info.Valid, Info.Mountable, Info.TotalClusters, ReadRange;
  }

  lemma TablesAgree(d: Sectors, info: Info)
    requires Mounted(d, info) && info == Info(1, 1, 2, 224, 9, 2880) && 2880 <= |d| && d[10..19] == d[1..10]
    ensures CopiesAgree(d, info)
  {
    hide Mounted, AllSectors, FatBytes, ReadRange;
    FloppyTables(d, info);
    SameSectors(d, 1, 10, 9);
  }

  lemma FloppyMounted(d: Sectors)
    requires |d| == 2880 && AllSectors(d) && IsFloppyBoot(d[0])
    ensures Mounted(d, Info(1, 1, 2, 224, 9, 2880)) && Layout(d) == Some(Info(1, 1, 2, 224, 9, 2880))
  {
    hide ParseInfo, Info.Valid, Info.Mountable, Info.TotalClusters, IsFloppyBoot;
    StandardFloppy(d[0]);
    FloppyFits();
  }

  lemma FloppyShape(d: Sectors, info: Info)
    requires Mounted(d, info) && info == Info(1, 1, 2, 224, 9, 2880)
    ensures Shape(View(d, info)) && View(d, info).slots == Slots(RootBytes(d, info)) && |View(d, info).slots| == 224
  {
    hide ParseInfo, FatBytes, ClusterData;
    FloppyFits();
    FloppyLayout();
    assert |RootBytes(d, info)| == 7168;
  }

  lemma NothingVisible(v: Volume, name: Name)
    requires Shape(v) && forall i :: 0 <= i < |v.slots| ==> Fat12EntryIsEnd(v.slots[i])
    ensures WellFormed(v) && ReadBack(v, name) == None
  {
    forall i | 0 <= i < |v.slots| ensures !Visible(v.slots, v.entryCount, i) {
      assert Fat12EntryIsEnd(v.slots[i]);
    }
  }

  /** With an empty root directory and equal tables a floppy is a good drive, on which no path
      reads as anything. */
  lemma EmptyFloppy(d: Sectors, path: seq<Byte>)
    requires |d| == 2880 && AllSectors(d) && IsFloppyBoot(d[0])
    requires d[10..19] == d[1..10]
    requires forall k :: 19 <= k < 33 ==> d[k] == Zeros(512)
    ensures GoodDrive(d) && FileAt(d, path) == None
  {
    hide ParseInfo, View, WellFormed, Shape, Mounted, CopiesAgree, ReadBack, NameFor, IsFloppyBoot;
    var info := Info(1, 1, 2, 224, 9, 2880);
    FloppyMounted(d);
    FloppyShape(d, info);
    TablesAgree(d, info);
    forall i | 0 <= i < 224 ensures Fat12EntryIsEnd(View(d, info).slots[i]) {
      RootIsEmpty(d, info, i);
    }
    NothingVisible(View(d, info), if NameFor(path).Some? then NameFor(path).value else Zeros(11));
  }

  lemma RootIsEmpty(d: Sectors, info: Info, i: nat)
    requires Mounted(d, info) && info == Info(1, 1, 2, 224, 9, 2880) && i < 224
    requires forall k :: 19 <= k < 33 ==> d[k] == Zeros(512)
    ensures i < |Slots(RootBytes(d, info))| && Fat12EntryIsEnd(Slots(RootBytes(d, info))[i])
  {
    hide ParseInfo, RootBytes;
    RootOnDrive(d, info, 32 * i);
    RootOnDrive(d, info, 32 * i + 31);
    SlotOfBytes(RootBytes(d, info), i, 0);
  }
}
