/** The whole-file operations of kernel/fs/fat12.c on a drive. Memory for the
    buffers is always available: kalloc panics rather than fail. */
module Fat12 {
  import opened Words
  import opened FatTable
  import opened Chains
  import opened FatOps
  import opened Directory
  import opened Names
  import opened Volume
  import opened VolumeLaws
  import opened WriteLaws
  import opened Disk
  import opened DiskView

  /** A drive whose boot sector, if Fat12LoadInfo takes it, describes a FAT12
      volume that fits the device. */
  ghost predicate Usable(d: Sectors) {
    && AllSectors(d) && d != []
    && (ParseInfo(d[0]).Some? ==> Mounted(d, ParseInfo(d[0]).value))
  }

  method Fat12LoadInfo(drive: Floppy) returns (r: Option<Info>)
    requires Usable(drive.sectors)
    modifies drive`faults
    ensures r.Some? ==> ParseInfo(drive.sectors[0]) == r && drive.faults == old(drive.faults)
    ensures r.None? ==> ParseInfo(drive.sectors[0]).None? || drive.faults > old(drive.faults)
    ensures drive.faults >= old(drive.faults)
  {
    var sector := new Byte[SECTOR_SIZE];
    var ok := drive.Fat12ReadSectors(0, 1, sector);
    if !ok {
      return None;
    }
    assert sector[..] == ReadRange(drive.sectors, 0, 1) == drive.sectors[0];
    return ParseInfo(sector[..]);
  }

  method Fat12LoadFat(info: Info, drive: Floppy) returns (fat: array?<Byte>)
    requires Mounted(drive.sectors, info)
    modifies drive`faults
    ensures fat != null ==>
      fresh(fat) && fat[..] == FatBytes(drive.sectors, info, 0) && drive.faults == old(drive.faults)
    ensures fat == null ==> drive.faults > old(drive.faults)
  {
    var buffer := new Byte[SECTOR_SIZE * info.fatSize];
    var ok := drive.Fat12ReadSectors(info.reserved, info.fatSize, buffer);
    return if ok then buffer else null;
  }

  method Fat12LoadRootDirectory(info: Info, drive: Floppy) returns (root: array?<Byte>)
    requires Mounted(drive.sectors, info)
    modifies drive`faults
    ensures root != null ==>
      fresh(root) && root[..] == RootBytes(drive.sectors, info) && drive.faults == old(drive.faults)
    ensures root == null ==> drive.faults > old(drive.faults)
  {
    var buffer := new Byte[SECTOR_SIZE * info.RootDirSectors()];
    var ok := drive.Fat12ReadSectors(info.FirstRoot(), info.RootDirSectors(), buffer);
    return if ok then buffer else null;
  }

  method Fat12FlushFat(info: Info, drive: Floppy, fat: array<Byte>) returns (ok: bool)
    requires Mounted(drive.sectors, info) && fat.Length == SECTOR_SIZE * info.fatSize
    modifies drive
    ensures AllSectors(drive.sectors) && SameOutside(old(drive.sectors), drive.sectors, info.reserved, info.FirstRoot())
    ensures Mounted(drive.sectors, info)
    ensures ok ==> forall k :: 0 <= k < info.fatCount ==> FatBytes(drive.sectors, info, k) == fat[..]
    ensures ok ==> drive.faults == old(drive.faults)
    ensures !ok ==> drive.faults > old(drive.faults)
  {
    ghost var before := drive.sectors;
    var copy: nat := 0;
    while copy < info.fatCount
      invariant copy <= info.fatCount && drive.faults == old(drive.faults)
      invariant Mounted(drive.sectors, info)
      invariant SameOutside(before, drive.sectors, info.reserved, info.FirstRoot())
      invariant forall k :: 0 <= k < copy ==> FatBytes(drive.sectors, info, k) == fat[..]
    {
      ghost var d := drive.sectors;
      FatPlace(info, copy);
      ok := drive.Fat12WriteSectors(info.FatLba(copy), info.fatSize, fat);
      assert SameOutside(d, drive.sectors, info.reserved, info.FirstRoot());
      FatWritten(d, drive.sectors, info);
      if !ok {
        return false;
      }
      forall k | 0 <= k < copy ensures FatBytes(drive.sectors, info, k) == fat[..] {
        FatCopyWritten(d, drive.sectors, info, copy, k);
      }
      copy := copy + 1;
    }
    return true;
  }

  method Fat12FlushRootDirectory(info: Info, drive: Floppy, root: array<Byte>) returns (ok: bool)
    requires Mounted(drive.sectors, info) && root.Length == SECTOR_SIZE * info.RootDirSectors()
    modifies drive
    ensures AllSectors(drive.sectors)
      && SameOutside(old(drive.sectors), drive.sectors, info.FirstRoot(), info.FirstData())
    ensures Mounted(drive.sectors, info)
    ensures ok ==> RootBytes(drive.sectors, info) == root[..]
    ensures ok ==> drive.faults == old(drive.faults)
    ensures !ok ==> drive.faults > old(drive.faults)
  {
    ok := drive.Fat12WriteSectors(info.FirstRoot(), info.RootDirSectors(), root);
    RootWritten(old(drive.sectors), drive.sectors, info);
  }

  /** Root directory and every copy of the table hold these bytes. */
  ghost predicate HoldsMeta(d: Sectors, info: Info, root: seq<Byte>, fat: seq<Byte>)
    requires Mounted(d, info)
  {
    RootBytes(d, info) == root && forall k :: 0 <= k < info.fatCount ==> FatBytes(d, info, k) == fat
  }

  /** How a write or delete ended. `restored`: both rollback flushes went through. */
  datatype Ending = Refused | DataLost | RolledBack(restored: bool) | Done

  /** Flushes root and tables; on failure puts the backups back as far as the drive lets it. */
  method Commit(info: Info, drive: Floppy, root: array<Byte>, fat: array<Byte>,
                rootBackup: array<Byte>, fatBackup: array<Byte>) returns (ending: Ending)
    requires Mounted(drive.sectors, info)
    requires root.Length == rootBackup.Length == SECTOR_SIZE * info.RootDirSectors()
    requires fat.Length == fatBackup.Length == SECTOR_SIZE * info.fatSize
    modifies drive
    ensures Mounted(drive.sectors, info) && Clusters(drive.sectors, info) == Clusters(old(drive.sectors), info)
    ensures ending == Done || ending.RolledBack?
    ensures ending == Done ==> HoldsMeta(drive.sectors, info, root[..], fat[..])
    ensures ending == RolledBack(true) ==> HoldsMeta(drive.sectors, info, rootBackup[..], fatBackup[..])
    ensures ending == Done ==> drive.faults == old(drive.faults)
    ensures ending != Done ==> drive.faults > old(drive.faults)
  {
    ghost var d0 := drive.sectors;
    var ok := Fat12FlushRootDirectory(info, drive, root);
    ghost var d1 := drive.sectors;
    RootWritten(d0, d1, info);
    if ok {
      ok := Fat12FlushFat(info, drive, fat);
      FatWritten(d1, drive.sectors, info);
      if ok {
        return Done;
      }
    }
    ghost var d2 := drive.sectors;
    var rootBack := Fat12FlushRootDirectory(info, drive, rootBackup);
    ghost var d3 := drive.sectors;
    RootWritten(d2, d3, info);
    var fatBack := Fat12FlushFat(info, drive, fatBackup);
    FatWritten(d3, drive.sectors, info);
    return RolledBack(rootBack && fatBack);
  }

  // ------------------------------------------------------------------ reading

  /** The bytes of a prefix of a chain are a prefix of its bytes. */
  lemma {:induction false} ChainBytesPrefix(v: Volume, chain: seq<nat>, k: nat)
    requires Shape(v) && k <= |chain| && forall i :: 0 <= i < |chain| ==> IsData(v.next, chain[i])
    ensures k * v.clusterBytes <= |chain| * v.clusterBytes
    ensures ChainBytes(v, chain[..k]) == ChainBytes(v, chain)[..k * v.clusterBytes]
    decreases |chain|
  {
    if k == |chain| {
      assert chain[..k] == chain;
    } else {
      var front := chain[..|chain| - 1];
      assert chain[..k] == front[..k];
      ChainBytesPrefix(v, front, k);
      assert ChainBytes(v, chain) == ChainBytes(v, front) + v.clusters[chain[|chain| - 1]];
      assert k * v.clusterBytes <= |ChainBytes(v, front)| <= |ChainBytes(v, chain)|;
    }
  }

  method Fat12ReadCluster(info: Info, drive: Floppy, cluster: nat, buffer: array<Byte>) returns (ok: bool)
    requires Mounted(drive.sectors, info) && 2 <= cluster < info.TotalClusters() + 2
    requires buffer.Length == info.ClusterBytes()
    modifies buffer, drive`faults
    ensures ok ==> buffer[..] == ClusterData(drive.sectors, info, cluster) && drive.faults == old(drive.faults)
    ensures !ok ==> drive.faults > old(drive.faults)
  {
    ClusterPlace(info, cluster);
    ok := drive.Fat12ReadSectors(info.ClusterToLba(cluster), info.sectorsPerCluster, buffer);
  }

  /** memcpy into a buffer at an offset. */
  method CopyInto(dest: array<Byte>, at: nat, src: array<Byte>, count: nat)
    requires at + count <= dest.Length && count <= src.Length && dest != src
    modifies dest
    ensures dest[..] == old(dest[..at]) + src[..count] + old(dest[at + count..])
  {
    var k: nat := 0;
    while k < count
      invariant k <= count
      invariant forall j :: 0 <= j < dest.Length ==> dest[j] == if at <= j < at + k then src[j - at] else old(dest[j])
    {
      dest[at + k] := src[k];
      k := k + 1;
    }
  }

  /** Where the `i`-th cluster of a chain stands in its bytes. */
  lemma ClusterOfChain(v: Volume, chain: seq<nat>, i: nat)
    requires Shape(v) && i < |chain| && forall k :: 0 <= k < |chain| ==> IsData(v.next, chain[k])
    ensures i * v.clusterBytes + v.clusterBytes == (i + 1) * v.clusterBytes <= |chain| * v.clusterBytes
    ensures ChainBytes(v, chain)[i * v.clusterBytes..(i + 1) * v.clusterBytes] == v.clusters[chain[i]]
  {
    ChainBytesPrefix(v, chain, i + 1);
    ChainBytesPrefix(v, chain, i);
    assert chain[..i + 1][..i] == chain[..i];
  }

  /** `out` holds the first `copied` of `size` bytes after `i` clusters. */
  ghost predicate Copied(whole: seq<Byte>, out: seq<Byte>, size: nat, i: nat, clusterBytes: nat, copied: nat) {
    && copied <= size <= |whole| && size <= |out|
    && (copied == size || copied == i * clusterBytes)
    && out[..copied] == whole[..copied]
  }

  lemma CopiedMore(whole: seq<Byte>, out: seq<Byte>, size: nat, i: nat, clusterBytes: nat, copied: nat,
                   piece: seq<Byte>, more: seq<Byte>)
    requires Copied(whole, out, size, i, clusterBytes, copied) && copied < size && |piece| == clusterBytes
    requires i * clusterBytes + clusterBytes == (i + 1) * clusterBytes <= |whole|
    requires piece == whole[i * clusterBytes..(i + 1) * clusterBytes]
    requires var toCopy := if size - copied < clusterBytes then size - copied else clusterBytes;
             more == out[..copied] + piece[..toCopy] + out[copied + toCopy..]
    ensures var toCopy := if size - copied < clusterBytes then size - copied else clusterBytes;
            Copied(whole, more, size, i + 1, clusterBytes, copied + toCopy)
    ensures more[size..] == out[size..]
  {
  }

  /** Copies a file out of its chain, a cluster at a time. */
  method ReadClusters(info: Info, drive: Floppy, chain: seq<nat>, size: nat, out: array<Byte>) returns (ok: bool)
    requires Mounted(drive.sectors, info)
    requires forall i :: 0 <= i < |chain| ==> IsData(View(drive.sectors, info).next, chain[i])
    requires size <= |chain| * info.ClusterBytes() && size < out.Length
    modifies out, drive`faults
    ensures out[size..] == old(out[size..])
    ensures ok ==> out[..size] == ChainBytes(View(drive.sectors, info), chain)[..size]
    ensures ok ==> drive.faults == old(drive.faults)
    ensures !ok ==> drive.faults > old(drive.faults)
  {
    ghost var v := View(drive.sectors, info);
    ghost var whole := ChainBytes(v, chain);
    var clusterBytes := info.ClusterBytes();
    var clusterBuffer := new Byte[clusterBytes];
    var copied: nat := 0;
    var i: nat := 0;
    while i < |chain| && copied < size
      invariant i <= |chain| && drive.faults == old(drive.faults)
      invariant out[size..] == old(out[size..])
      invariant Copied(whole, out[..], size, i, clusterBytes, copied)
    {
      var toCopy := if size - copied < clusterBytes then size - copied else clusterBytes;
      ok := Fat12ReadCluster(info, drive, chain[i], clusterBuffer);
      if !ok {
        return false;
      }
      ClusterOfChain(v, chain, i);
      ghost var before := out[..];
      CopyInto(out, copied, clusterBuffer, toCopy);
      CopiedMore(whole, before, size, i, clusterBytes, copied, clusterBuffer[..], out[..]);
      copied := copied + toCopy;
      i := i + 1;
    }
    return true;
  }

  /** The layout a usable drive carries, if any. */
  ghost function Layout(d: Sectors): (r: Option<Info>)
    requires Usable(d)
    ensures r.Some? ==> Mounted(d, r.value)
  {
    ParseInfo(d[0])
  }

  /** What reading a path gives. */
  ghost function FileAt(d: Sectors, path: seq<Byte>): Option<seq<Byte>>
    requires Usable(d)
  {
    if Layout(d).Some? && NameFor(path).Some?
    then ReadBack(View(d, Layout(d).value), NameFor(path).value)
    else None
  }

  /** The file's slot, as far as the drive can be read. */
  method FindFile(path: seq<Byte>, drive: Floppy) returns (info: Info, slot: Option<Slot>)
    requires Usable(drive.sectors)
    modifies drive`faults
    ensures slot.Some? ==> Layout(drive.sectors) == Some(info) && drive.faults == old(drive.faults)
    ensures slot.Some? ==> FileAt(drive.sectors, path) == Contents(View(drive.sectors, info), slot.value)
    ensures slot.None? ==> drive.faults > old(drive.faults) || FileAt(drive.sectors, path) == None
  {
    info := Info(0, 0, 0, 0, 0, 0);
    var name := Fat12NormalizeName(path);
    if name.None? {
      return info, None;
    }
    var loaded := Fat12LoadInfo(drive);
    if loaded.None? {
      return info, None;
    }
    info := loaded.value;
    var root := Fat12LoadRootDirectory(info, drive);
    if root == null {
      return info, None;
    }
    ghost var v := View(drive.sectors, info);
    var index := Fat12FindEntry(root, info.rootEntryCount, name.value);
    LookupUnique(v.slots, v.entryCount, name.value,
      if index < 0 then None else Some(index), Lookup(v.slots, v.entryCount, name.value));
    if index < 0 {
      return info, None;
    }
    var entry: Slot := root[SLOT_SIZE * index..SLOT_SIZE * index + SLOT_SIZE];
    assert entry == v.slots[index];
    return info, Some(entry);
  }

  /** The part of Fat12ReadFile behind the directory lookup. */
  method ReadSlot(info: Info, drive: Floppy, slot: Slot) returns (result: int, buffer: array?<Byte>)
    requires Mounted(drive.sectors, info)
    modifies drive`faults
    ensures result < 0 <==> buffer == null
    ensures result >= 0 ==> fresh(buffer) && buffer.Length == result + 1 && buffer[result] == 0
    ensures result >= 0 ==> Contents(View(drive.sectors, info), slot) == Some(buffer[..result])
    ensures result < 0 ==> drive.faults > old(drive.faults) || Contents(View(drive.sectors, info), slot) == None
  {
    hide FatBytes, RootBytes, Cells;
    var fat := Fat12LoadFat(info, drive);
    if fat == null {
      return -1, null;
    }
    var remaining := SlotSize(slot);
    if remaining == 0 {
      buffer := new Byte[1];
      buffer[0] := 0;
      assert buffer[..0] == [];
      return 0, buffer;
    }
    ghost var v := View(drive.sectors, info);
    var ok, chain := Fat12CollectChain(info.TotalClusters(), fat, SlotStart(slot));
    assert !HasChain(v.next, 0);
    assert chain == SlotChain(v, slot);
    if !ok || remaining > |chain| * info.ClusterBytes() {
      return -1, null;
    }
    result, buffer := ReadChain(info, drive, slot, chain);
  }

  /** The transfer itself: the clusters of the slot's chain, one after the other. */
  method ReadChain(info: Info, drive: Floppy, slot: Slot, chain: seq<nat>) returns (result: int, buffer: array?<Byte>)
    requires Mounted(drive.sectors, info) && ChainKnown(View(drive.sectors, info), slot) && SlotSize(slot) > 0
    requires chain == SlotChain(View(drive.sectors, info), slot) && SlotSize(slot) <= |chain| * info.ClusterBytes()
    modifies drive`faults
    ensures result < 0 <==> buffer == null
    ensures result >= 0 ==> fresh(buffer) && buffer.Length == result + 1 && buffer[result] == 0
    ensures result >= 0 ==> Contents(View(drive.sectors, info), slot) == Some(buffer[..result])
    ensures result < 0 ==> drive.faults > old(drive.faults)
  {
    hide FatBytes, RootBytes, Cells;
    var remaining := SlotSize(slot);
    buffer := new Byte[remaining + 1];
    buffer[remaining] := 0;
    var ok := ReadClusters(info, drive, chain, remaining, buffer);
    if !ok {
      return -1, null;
    }
    assert buffer[remaining..] == [0];
    assert buffer[remaining] == buffer[remaining..][0];
    return remaining, buffer;
  }

  /** Reads a whole file. On success the buffer is the contents and a zero byte;
      without a drive fault it fails only if there is nothing to read. */
  method Fat12ReadFile(path: seq<Byte>, drive: Floppy) returns (result: int, buffer: array?<Byte>)
    requires Usable(drive.sectors)
    modifies drive`faults
    ensures result < 0 <==> buffer == null
    ensures result >= 0 ==> fresh(buffer) && buffer.Length == result + 1 && buffer[result] == 0
    ensures result >= 0 ==> FileAt(drive.sectors, path) == Some(buffer[..result])
    ensures result < 0 ==> drive.faults > old(drive.faults) || FileAt(drive.sectors, path) == None
  {
    var info, slot := FindFile(path, drive);
    if slot.None? {
      return -1, null;
    }
    result, buffer := ReadSlot(info, drive, slot.value);
  }

  // ------------------------------------------------------------------ writing

  method Fat12DuplicateBuffer(source: array<Byte>) returns (copy: array<Byte>)
    ensures fresh(copy) && copy[..] == source[..]
  {
    copy := new Byte[source.Length];
    CopyInto(copy, 0, source, source.Length);
  }

  /** memset, then memcpy of what is left of the data, into a cluster buffer. */
  method FillPiece(buffer: array<Byte>, data: seq<Byte>, written: nat, toCopy: nat, ghost i: nat)
    requires buffer.Length > 0 && written == i * buffer.Length < |data|
    requires toCopy == if |data| - written < buffer.Length then |data| - written else buffer.Length
    modifies buffer
    ensures buffer[..] == Piece(data, i, buffer.Length)
  {
    var k: nat := 0;
    while k < buffer.Length
      invariant k <= buffer.Length
      invariant forall j :: 0 <= j < k ==> buffer[j] == Piece(data, i, buffer.Length)[j]
    {
      buffer[k] := if k < toCopy then data[written + k] else 0;
      k := k + 1;
    }
  }

  method Fat12WriteCluster(info: Info, drive: Floppy, cluster: nat, buffer: array<Byte>) returns (ok: bool)
    requires Mounted(drive.sectors, info) && 2 <= cluster < info.TotalClusters() + 2
    requires buffer.Length == info.ClusterBytes()
    modifies drive
    ensures Mounted(drive.sectors, info) && SameMeta(old(drive.sectors), drive.sectors, info)
    ensures Clusters(drive.sectors, info)
      == Clusters(old(drive.sectors), info)[cluster := ClusterData(drive.sectors, info, cluster)]
    ensures ok ==> ClusterData(drive.sectors, info, cluster) == buffer[..] && drive.faults == old(drive.faults)
    ensures !ok ==> drive.faults > old(drive.faults)
  {
    ClusterPlace(info, cluster);
    ok := drive.Fat12WriteSectors(info.ClusterToLba(cluster), info.sectorsPerCluster, buffer);
    ClusterWritten(old(drive.sectors), drive.sectors, info, cluster);
  }

  /** Only the clusters of `chain` may differ. */
  ghost predicate OnlyClusters(before: seq<seq<Byte>>, after: seq<seq<Byte>>, chain: seq<nat>) {
    |after| == |before| && forall c :: 0 <= c < |before| && c !in chain ==> after[c] == before[c]
  }

  lemma {:induction false} StoredOnly(clusters: seq<seq<Byte>>, chain: seq<nat>, data: seq<Byte>, clusterBytes: nat,
      count: nat)
    requires count <= |chain| && forall i :: 0 <= i < |chain| ==> chain[i] < |clusters|
    ensures OnlyClusters(clusters, Stored(clusters, chain, data, clusterBytes, count), chain)
  {
    if count > 0 {
      StoredOnly(clusters, chain, data, clusterBytes, count - 1);
    }
  }

  lemma PieceStarts(length: nat, clusterBytes: nat, i: nat)
    requires clusterBytes > 0 && i < ClustersNeeded(length, clusterBytes)
    ensures i * clusterBytes < length
    ensures i * clusterBytes + clusterBytes == (i + 1) * clusterBytes
    ensures i + 1 < ClustersNeeded(length, clusterBytes) ==> (i + 1) * clusterBytes < length
  {
    NeededCovers(length, clusterBytes);
    MulOrder(i, ClustersNeeded(length, clusterBytes), clusterBytes);
    if i + 1 < ClustersNeeded(length, clusterBytes) {
      MulOrder(i + 1, ClustersNeeded(length, clusterBytes), clusterBytes);
    }
  }

  /** Metadata as in `d0`, and the first `i` clusters of the chain stored. */
  ghost predicate StoredSoFar(d0: Sectors, d: Sectors, info: Info, chain: seq<nat>, data: seq<Byte>, i: nat)
    requires Mounted(d0, info)
    requires forall k :: 0 <= k < |chain| ==> 2 <= chain[k] < info.TotalClusters() + 2
  {
    && i <= |chain| && Mounted(d, info) && SameMeta(d0, d, info)
    && Clusters(d, info) == Stored(Clusters(d0, info), chain, data, info.ClusterBytes(), i)
  }

  method StorePiece(info: Info, drive: Floppy, chain: seq<nat>, data: seq<Byte>, i: nat, buffer: array<Byte>,
      ghost d0: Sectors)
    returns (ok: bool)
    requires Mounted(d0, info)
    requires forall k :: 0 <= k < |chain| ==> 2 <= chain[k] < info.TotalClusters() + 2
    requires i < |chain| && StoredSoFar(d0, drive.sectors, info, chain, data, i)
    requires buffer.Length == info.ClusterBytes() && buffer[..] == Piece(data, i, buffer.Length)
    modifies drive
    ensures ok ==> StoredSoFar(d0, drive.sectors, info, chain, data, i + 1) && drive.faults == old(drive.faults)
    ensures !ok ==> drive.faults > old(drive.faults)
    ensures Mounted(drive.sectors, info) && SameMeta(d0, drive.sectors, info)
    ensures OnlyClusters(Clusters(d0, info), Clusters(drive.sectors, info), chain)
  {
    StoredOnly(Clusters(d0, info), chain, data, info.ClusterBytes(), i);
    ok := Fat12WriteCluster(info, drive, chain[i], buffer);
  }

  /** Writes the data into the clusters of a new chain, one by one. */
  method StoreClusters(info: Info, drive: Floppy, chain: seq<nat>, data: seq<Byte>) returns (ok: bool)
    requires Mounted(drive.sectors, info)
    requires forall i :: 0 <= i < |chain| ==> 2 <= chain[i] < info.TotalClusters() + 2
    requires |chain| == ClustersNeeded(|data|, info.ClusterBytes())
    modifies drive
    ensures Mounted(drive.sectors, info) && SameMeta(old(drive.sectors), drive.sectors, info)
    ensures OnlyClusters(Clusters(old(drive.sectors), info), Clusters(drive.sectors, info), chain)
    ensures ok ==> drive.faults == old(drive.faults)
    ensures ok ==> StoredSoFar(old(drive.sectors), drive.sectors, info, chain, data, |chain|)
    ensures !ok ==> drive.faults > old(drive.faults)
  {
    ghost var d0 := drive.sectors;
    var clusterBytes := info.ClusterBytes();
    var clusterBuffer := new Byte[clusterBytes];
    var written: nat := 0;
    var i: nat := 0;
    while i < |chain|
      invariant i <= |chain| && drive.faults == old(drive.faults)
      invariant i < |chain| ==> written == i * clusterBytes
      invariant StoredSoFar(d0, drive.sectors, info, chain, data, i)
      invariant OnlyClusters(Clusters(d0, info), Clusters(drive.sectors, info), chain)
    {
      PieceStarts(|data|, clusterBytes, i);
      var remaining := |data| - written;
      var toCopy := if remaining < clusterBytes then remaining else clusterBytes;
      FillPiece(clusterBuffer, data, written, toCopy, i);
      ok := StorePiece(info, drive, chain, data, i, clusterBuffer, d0);
      if !ok {
        return false;
      }
      written := written + toCopy;
      i := i + 1;
    }
    return true;
  }

  /** Loads what a write or delete works on. */
  method LoadForUpdate(path: seq<Byte>, drive: Floppy)
    returns (ok: bool, info: Info, name: Name, root: array<Byte>, fat: array<Byte>)
    requires Usable(drive.sectors)
    modifies drive`faults
    ensures fresh(root) && fresh(fat) && root != fat
    ensures ok ==> NameFor(path) == Some(name) && Layout(drive.sectors) == Some(info)
    ensures ok ==> root[..] == RootBytes(drive.sectors, info) && fat[..] == FatBytes(drive.sectors, info, 0)
    ensures ok ==> drive.faults == old(drive.faults)
    ensures drive.faults >= old(drive.faults)
    ensures !ok ==> drive.faults > old(drive.faults) || NameFor(path) == None || Layout(drive.sectors) == None
  {
    ok, info, name := false, Info(0, 0, 0, 0, 0, 0), seq(NAME_SIZE, _ => 0);
    root, fat := new Byte[0], new Byte[0];
    var named := Fat12NormalizeName(path);
    if named.None? {
      return;
    }
    name := named.value;
    var loaded := Fat12LoadInfo(drive);
    if loaded.None? {
      return;
    }
    info := loaded.value;
    var r := Fat12LoadRootDirectory(info, drive);
    if r == null {
      return;
    }
    var f := Fat12LoadFat(info, drive);
    if f == null {
      return;
    }
    ok, root, fat := true, r, f;
  }

  /** The in-memory half of a write: picks the slot, frees the old version and
      allocates the new chain. */
  method Prepare(info: Info, root: array<Byte>, fat: array<Byte>, name: Name, length: nat, ghost v: Volume)
    returns (ok: bool, index: nat, chain: seq<nat>)
    requires info.Mountable() && Shape(v) && root != fat
    requires v.entryCount == info.rootEntryCount && v.clusterBytes == info.ClusterBytes()
    requires SLOT_SIZE * info.rootEntryCount <= root.Length && v.slots == Slots(root[..])
    requires Holds(fat[..], info.TotalClusters() + 2) && v.next == Cells(fat[..], info.TotalClusters())
    modifies root, fat
    ensures ok <==> CanWrite(v, name, length)
    ensures ok ==> IsTarget(v, name, index) && index < info.rootEntryCount
    ensures ok ==> chain == NewChain(v, name, length)
    ensures ok ==> Slots(root[..])[index := v.slots[index]] == v.slots
    ensures Holds(fat[..], info.TotalClusters() + 2)
    ensures ok ==> Cells(fat[..], info.TotalClusters()) == Allocate(Released(v, name), |chain|)
  {
    ok, index, chain := false, 0, [];
    var i := Fat12FindEntry(root, info.rootEntryCount, name);
    LookupUnique(v.slots, v.entryCount, name,
      if i < 0 then None else Some(i), Lookup(v.slots, v.entryCount, name));
    if i < 0 {
      i := Fat12FindFreeEntry(root, info.rootEntryCount);
      if i < 0 {
        return;
      }
      StoreSlot(root, i, Zeros(SLOT_SIZE));
    } else {
      var entry: Slot := root[SLOT_SIZE * i..SLOT_SIZE * i + SLOT_SIZE];
      assert entry == v.slots[i];
      Fat12FreeChain(info.TotalClusters(), fat, SlotStart(entry));
    }
    assert IsTarget(v, name, i);
    index := i;
    ok, chain := Fat12AllocateChain(info.TotalClusters(), fat, ClustersNeeded(length, info.ClusterBytes()));
  }

  /** Everything a failed write may have changed lies in the new chain's clusters. */
  ghost predicate OnlyNewChain(d0: Sectors, d1: Sectors, info: Info, name: Name, length: nat)
    requires Mounted(d0, info)
  {
    && Mounted(d1, info) && CanWrite(View(d0, info), name, length)
    && OnlyClusters(Clusters(d0, info), Clusters(d1, info), NewChain(View(d0, info), name, length))
  }

  /** The write as a relation between the sectors before and after. */
  ghost predicate WriteEnded(d0: Sectors, d1: Sectors, path: seq<Byte>, data: seq<Byte>, ending: Ending, t: nat)
    requires Usable(d0) && |data| < 0x8000_0000
  {
    if ending.Refused? then d1 == d0
    else
      && Layout(d0).Some? && NameFor(path).Some?
      && WriteChanged(d0, d1, Layout(d0).value, NameFor(path).value, data, ending, t)
  }

  ghost predicate WriteChanged(d0: Sectors, d1: Sectors, info: Info, name: Name, data: seq<Byte>, ending: Ending,
      t: nat)
    requires Mounted(d0, info) && |data| < 0x8000_0000
  {
    && OnlyNewChain(d0, d1, info, name, |data|)
    && (ending.DataLost? ==> SameMeta(d0, d1, info))
    && (ending == RolledBack(true) ==> HoldsMeta(d1, info, RootBytes(d0, info), FatBytes(d0, info, 0)))
    && (ending.Done? ==>
          && IsTarget(View(d0, info), name, t)
          && View(d1, info) == WriteResult(View(d0, info), name, data, t)
          && CopiesAgree(d1, info))
  }

  /** Writes a whole file, replacing any older version. */
  method Fat12WriteFile(path: seq<Byte>, data: seq<Byte>, drive: Floppy)
    returns (result: int, ending: Ending, ghost t: nat)
    requires Usable(drive.sectors) && |data| < 0x8000_0000
    modifies drive
    ensures WriteEnded(old(drive.sectors), drive.sectors, path, data, ending, t) && drive.faults >= old(drive.faults)
    ensures result == if ending.Done? then |data| else -1
    ensures ending.Done? ==> drive.faults == old(drive.faults)
    ensures !ending.Done? && drive.faults == old(drive.faults) ==> ending == Refused
    ensures ending == Refused && drive.faults == old(drive.faults) ==>
      var d := drive.sectors;
      Layout(d).None? || NameFor(path).None? || !CanWrite(View(d, Layout(d).value), NameFor(path).value, |data|)
  {
    result, ending, t := -1, Refused, 0;
    var ok, info, name, root, fat := LoadForUpdate(path, drive);
    if !ok {
      return;
    }
    var fatBackup := Fat12DuplicateBuffer(fat);
    var rootBackup := Fat12DuplicateBuffer(root);
    var index, chain;
    ok, index, chain := Prepare(info, root, fat, name, |data|, View(drive.sectors, info));
    if !ok {
      return;
    }
    t := index;
    ending := StoreAndCommit(info, drive, name, data, index, chain, root, fat, rootBackup, fatBackup);
    if ending.Done? {
      result := |data|;
    }
  }

  /** The buffers hold the volume a write would leave, but for the target's slot. */
  ghost predicate Prepared(d0: Sectors, info: Info, name: Name, length: nat, index: nat, chain: seq<nat>,
                           root: seq<Byte>, fat: seq<Byte>)
    requires Mounted(d0, info)
  {
    var v := View(d0, info);
    && CanWrite(v, name, length) && IsTarget(v, name, index) && index < info.rootEntryCount
    && chain == NewChain(v, name, length)
    && |root| == |RootBytes(d0, info)| && Slots(root)[index := v.slots[index]] == v.slots
    && |fat| == |FatBytes(d0, info, 0)|
    && Cells(fat, info.TotalClusters()) == Allocate(Released(v, name), |chain|)
  }

  lemma ReplaceSame(a: seq<Slot>, b: seq<Slot>, index: nat, s: Slot)
    requires index < |a| == |b| && a[index := b[index]] == b
    ensures a[index := s] == b[index := s]
  {
  }

  /** The half of Fat12WriteFile that touches the drive. */
  method StoreAndCommit(info: Info, drive: Floppy, name: Name, data: seq<Byte>, index: nat, chain: seq<nat>,
                        root: array<Byte>, fat: array<Byte>, rootBackup: array<Byte>, fatBackup: array<Byte>)
    returns (ending: Ending)
    requires Mounted(drive.sectors, info) && |data| < 0x8000_0000
    requires Prepared(drive.sectors, info, name, |data|, index, chain, root[..], fat[..])
    requires rootBackup[..] == RootBytes(drive.sectors, info) && fatBackup[..] == FatBytes(drive.sectors, info, 0)
    requires root != fat && root != rootBackup && root != fatBackup
    modifies drive, root
    ensures ending != Refused && WriteChanged(old(drive.sectors), drive.sectors, info, name, data, ending, index)
    ensures ending.Done? ==> drive.faults == old(drive.faults)
    ensures !ending.Done? ==> drive.faults > old(drive.faults)
  {
    ghost var d0 := drive.sectors;
    var ok := StoreClusters(info, drive, chain, data);
    if !ok {
      return DataLost;
    }
    var startCluster := if |chain| == 0 then 0 else chain[0];
    ReplaceSame(Slots(root[..]), View(d0, info).slots, index, FileSlot(name, startCluster, |data|));
    StoreSlot(root, index, FileSlot(name, startCluster, |data|));
    ending := Commit(info, drive, root, fat, rootBackup, fatBackup);
    CommitEnds(d0, drive.sectors, info, name, data, ending, index, root[..], fat[..]);
  }

  /** The flushed buffers and the stored clusters make up the written volume. */
  lemma CommitEnds(d0: Sectors, d: Sectors, info: Info, name: Name, data: seq<Byte>, ending: Ending, t: nat,
                   root: seq<Byte>, fat: seq<Byte>)
    requires Mounted(d0, info) && Mounted(d, info) && |data| < 0x8000_0000
    requires ending == Done || ending.RolledBack?
    requires OnlyNewChain(d0, d, info, name, |data|) && IsTarget(View(d0, info), name, t)
    requires ending == RolledBack(true) ==> HoldsMeta(d, info, RootBytes(d0, info), FatBytes(d0, info, 0))
    requires ending.Done? ==> HoldsMeta(d, info, root, fat) && Written(View(d0, info), info, name, data, t, root, fat)
    requires ending.Done? ==>
      var v, chain := View(d0, info), NewChain(View(d0, info), name, |data|);
      Clusters(d, info) == Stored(v.clusters, chain, data, v.clusterBytes, |chain|)
    ensures WriteChanged(d0, d, info, name, data, ending, t)
  {
  }

  /** The buffers hold the tables and the root directory of the written volume. */
  ghost predicate Written(v: Volume, info: Info, name: Name, data: seq<Byte>, t: nat, root: seq<Byte>, fat: seq<Byte>)
    requires info.Valid() && Shape(v) && CanWrite(v, name, |data|) && t < |v.slots| && |data| < 0x8000_0000
  {
    var chain := NewChain(v, name, |data|);
    && Holds(fat, info.TotalClusters() + 2)
    && Cells(fat, info.TotalClusters()) == Allocate(Released(v, name), |chain|)
    && Slots(root) == v.slots[t := FileSlot(name, if chain == [] then 0 else chain[0], |data|)]
  }

  // ----------------------------------------------------------------- deleting

  /** The delete as a relation between the sectors before and after. */
  ghost predicate DeleteEnded(d0: Sectors, d1: Sectors, path: seq<Byte>, ending: Ending)
    requires Usable(d0)
  {
    if ending.Refused? then d1 == d0
    else
      && Layout(d0).Some? && NameFor(path).Some?
      && DeleteChanged(d0, d1, Layout(d0).value, NameFor(path).value, ending)
  }

  ghost predicate DeleteChanged(d0: Sectors, d1: Sectors, info: Info, name: Name, ending: Ending)
    requires Mounted(d0, info)
  {
    && Mounted(d1, info) && Clusters(d1, info) == Clusters(d0, info) && !ending.DataLost?
    && Lookup(View(d0, info).slots, info.rootEntryCount, name).Some?
    && (ending == RolledBack(true) ==> HoldsMeta(d1, info, RootBytes(d0, info), FatBytes(d0, info, 0)))
    && (ending.Done? ==> View(d1, info) == DeleteResult(View(d0, info), name) && CopiesAgree(d1, info))
  }

  /** Removes a file and frees its clusters. */
  method Fat12DeleteFile(path: seq<Byte>, drive: Floppy) returns (result: int, ending: Ending)
    requires Usable(drive.sectors)
    modifies drive
    ensures DeleteEnded(old(drive.sectors), drive.sectors, path, ending) && drive.faults >= old(drive.faults)
    ensures result == if ending.Done? then 0 else -1
    ensures ending.Done? ==> drive.faults == old(drive.faults)
    ensures !ending.Done? && drive.faults == old(drive.faults) ==> ending == Refused
    ensures ending == Refused && drive.faults == old(drive.faults) ==>
      var d := drive.sectors;
      Layout(d).None? || NameFor(path).None?
      || Lookup(View(d, Layout(d).value).slots, Layout(d).value.rootEntryCount, NameFor(path).value).None?
  {
    result, ending := -1, Refused;
    var ok, info, name, root, fat := LoadForUpdate(path, drive);
    if !ok {
      return;
    }
    ghost var v := View(drive.sectors, info);
    var fatBackup := Fat12DuplicateBuffer(fat);
    var rootBackup := Fat12DuplicateBuffer(root);
    ok := Remove(info, root, fat, name, v);
    if !ok {
      return;
    }
    ending := Commit(info, drive, root, fat, rootBackup, fatBackup);
    if ending.Done? {
      result := 0;
      assert View(drive.sectors, info) == DeleteResult(v, name);
    }
  }

  /** The in-memory half of a delete. */
  method Remove(info: Info, root: array<Byte>, fat: array<Byte>, name: Name, ghost v: Volume) returns (ok: bool)
    requires info.Mountable() && root != fat && v.entryCount == info.rootEntryCount
    requires SLOT_SIZE * info.rootEntryCount <= root.Length && v.slots == Slots(root[..])
    requires Holds(fat[..], info.TotalClusters() + 2) && v.next == Cells(fat[..], info.TotalClusters())
    modifies root, fat
    ensures ok <==> Lookup(v.slots, v.entryCount, name).Some?
    ensures Holds(fat[..], info.TotalClusters() + 2)
    ensures ok ==> Slots(root[..]) == DeleteResult(v, name).slots
    ensures ok ==> Cells(fat[..], info.TotalClusters()) == DeleteResult(v, name).next
  {
    var index := Fat12FindEntry(root, info.rootEntryCount, name);
    LookupUnique(v.slots, v.entryCount, name,
      if index < 0 then None else Some(index), Lookup(v.slots, v.entryCount, name));
    if index < 0 {
      return false;
    }
    var entry: Slot := root[SLOT_SIZE * index..SLOT_SIZE * index + SLOT_SIZE];
    assert entry == v.slots[index];
    Fat12FreeChain(info.TotalClusters(), fat, SlotStart(entry));
    StoreSlot(root, index, DeletedSlot());
    return true;
  }

  // ------------------------------------------------------------- what it means

  /** A drive with a sound volume: copies of the table alike, chains proper. */
  ghost predicate GoodDrive(d: Sectors) {
    && Usable(d) && Layout(d).Some?
    && WellFormed(View(d, Layout(d).value)) && CopiesAgree(d, Layout(d).value)
  }

  lemma LayoutKept(d0: Sectors, d1: Sectors, info: Info)
    requires Usable(d0) && Layout(d0) == Some(info) && Mounted(d1, info)
    ensures Usable(d1) && Layout(d1) == Some(info)
  {
  }

  /** After a successful write the path reads back as the data, unless its name
      starts with the deleted mark; every path with another name reads as
      before; the drive stays good. */
  lemma WriteDone(d0: Sectors, d1: Sectors, path: seq<Byte>, data: seq<Byte>, t: nat)
    requires GoodDrive(d0) && 0 !in path && |data| < 0x8000_0000
    requires WriteEnded(d0, d1, path, data, Done, t)
    ensures GoodDrive(d1)
    ensures FileAt(d1, path) == Some(data) <==> NameFor(path).value[0] != DELETED
    ensures forall other :: NameFor(other) != NameFor(path) ==> FileAt(d1, other) == FileAt(d0, other)
  {
    hide Contents, EndsTogether, RegularAt;
    var info, name := Layout(d0).value, NameFor(path).value;
    LayoutKept(d0, d1, info);
    DenotesNonzero(path, name);
    WriteTheorem(View(d0, info), name, data, t);
  }

  /** An empty volume with one slot and one data cluster. */
  function TinyVolume(): Volume {
    Volume(1, 512, [0, 0, 0], [Zeros(SLOT_SIZE)], [Zeros(512), Zeros(512), Zeros(512)])
  }

  lemma TinyVolumeIsGood(name: Name)
    requires name[0] != 0
    ensures WriteCase(TinyVolume(), name, [1], 0)
  {
    var v := TinyVolume();
    assert Fat12EntryIsEnd(v.slots[0]);
    assert forall i :: !Regular(v, i);
    assert Lookup(v.slots, v.entryCount, name) == None;
    assert IsTarget(v, name, 0);
    FreeListIs(v.next);
    assert 2 in FreeList(v.next);
  }

  /** The path of the one byte 0xE5, written on that volume, cannot be read back, and its
      cluster is lost. */
  lemma HiddenExample()
    ensures NameFor([DELETED]) == Some([DELETED] + seq(10, _ => SPACE))
    ensures WriteCase(TinyVolume(), NameFor([DELETED]).value, [1], 0)
    ensures var w := WriteResult(TinyVolume(), NameFor([DELETED]).value, [1], 0);
      Shape(w) && ReadBack(w, NameFor([DELETED]).value) == None && exists c :: Orphan(w, c) && !Orphan(TinyVolume(), c)
  {
    var name: Name := [DELETED] + seq(10, _ => SPACE);
    assert Splits([DELETED], [DELETED], []) && NameOf([DELETED], []) == name;
    assert Denotes([DELETED], name);
    DenotesOne([DELETED], name, NameFor([DELETED]).value);
    TinyVolumeIsGood(name);
    WriteShape(TinyVolume(), name, [1], 0);
    var w := WriteResult(TinyVolume(), name, [1], 0);
    HiddenName(w.slots, w.entryCount, name);
    WriteOrphans(TinyVolume(), name, [1], 0);
    assert forall c :: !Orphan(TinyVolume(), c);
  }

  /** A volume with two empty files in the same slot bytes. */
  function TwinVolume(s: Slot): Volume {
    Volume(2, 512, [0, 0, 0], [s, s], [Zeros(512), Zeros(512), Zeros(512)])
  }

  /** A visible empty file. */
  predicate IsEmptyFile(s: Slot) {
    Fat12EntryIsRegularFile(s) && !Fat12EntryIsEnd(s) && SlotStart(s) == 0 && SlotSize(s) == 0
  }

  lemma TwinsAreGood(s: Slot)
    requires IsEmptyFile(s)
    ensures var v := TwinVolume(s);
            && WellFormed(v) && Matches(v.slots, v.entryCount, SlotName(s), 0)
            && Matches(v.slots, v.entryCount, SlotName(s), 1)
  {
    hide SlotName, SlotStart, SlotSize, Fat12EntryIsRegularFile, Fat12EntryIsEnd;
    var v := TwinVolume(s);
    assert !HasChain(v.next, 0);
  }

  /** A second entry shows through when the name is deleted. */
  ghost predicate ShowsThrough(v: Volume, name: Name) {
    && WellFormed(v) && Lookup(v.slots, v.entryCount, name) == Some(0)
    && ReadBack(DeleteResult(v, name), name) != None
  }

  lemma TwinShowsThrough(s: Slot)
    requires IsEmptyFile(s)
    ensures var v, name := TwinVolume(s), SlotName(s);
            && WellFormed(v) && Lookup(v.slots, v.entryCount, name) == Some(0)
            && ReadBack(DeleteResult(v, name), name) != None
  {
    hide WellFormed, SlotName, IsEmptyFile, Matches;
    var v, name := TwinVolume(s), SlotName(s);
    TwinsAreGood(s);
    LookupUnique(v.slots, v.entryCount, name, Lookup(v.slots, v.entryCount, name), Some(0));
    DeletedIsGone(v, name);
  }

  /** Deleting a name that has two entries brings the second one to light. */
  lemma TwoEntriesExample(name: Name)
    requires name[0] != 0 && name[0] != DELETED
    ensures ShowsThrough(TwinVolume(FileSlot(name, 0, 0)), name)
  {
    hide SlotName, IsEmptyFile, FileSlot, TwinVolume;
    EmptyFileSlot(name);
    TwinShowsThrough(FileSlot(name, 0, 0));
  }

  lemma EmptyFileSlot(name: Name)
    requires name[0] != 0 && name[0] != DELETED
    ensures IsEmptyFile(FileSlot(name, 0, 0)) && SlotName(FileSlot(name, 0, 0)) == name
  {
    hide FileSlot;
    FileSlotFields(name, 0, 0);
  }

  /** A failed write: sectors that are not the new chain's are those of a volume
      that reads the same under every other name; after a full rollback, or
      when the data failed, root directory and tables are byte for byte the old. A
      path that read as nothing still does. */
  lemma WriteFailed(d0: Sectors, d1: Sectors, path: seq<Byte>, data: seq<Byte>, ending: Ending, t: nat)
    requires GoodDrive(d0) && 0 !in path && |data| < 0x8000_0000
    requires WriteEnded(d0, d1, path, data, ending, t)
    requires ending in {Refused, DataLost, RolledBack(true)}
    ensures GoodDrive(d1) && SameMeta(d0, d1, Layout(d0).value)
    ensures forall other :: NameFor(other) != NameFor(path) ==> FileAt(d1, other) == FileAt(d0, other)
    ensures FileAt(d0, path) == None ==> FileAt(d1, path) == None
    ensures ending == Refused ==> d1 == d0
  {
    hide RegularAt, Contents;
    if !ending.Refused? {
      var info, name := Layout(d0).value, NameFor(path).value;
      LayoutKept(d0, d1, info);
      assert SameMeta(d0, d1, info);
      FailedWriteKeeps(View(d0, info), View(d1, info), name, |data|);
      NothingToRead(View(d0, info), name);
    }
  }

  /** On a well-formed volume a name reads as nothing exactly if it has no entry. */
  lemma NothingToRead(v: Volume, name: Name)
    requires WellFormed(v)
    ensures ReadBack(v, name) == None <==> Lookup(v.slots, v.entryCount, name) == None
  {
  }

  lemma FailedWriteKeeps(v: Volume, w: Volume, name: Name, length: nat)
    requires WellFormed(v) && Shape(w) && w == v.(clusters := w.clusters) && CanWrite(v, name, length)
    requires OnlyClusters(v.clusters, w.clusters, NewChain(v, name, length))
    ensures WellFormed(w)
    ensures forall other: Name :: other != name ==> ReadBack(w, other) == ReadBack(v, other)
  {
    var t :| IsTarget(v, name, t);
    TargetPlace(v, name, t);
    forall i, c | Regular(v, i) && i != t && c in SlotChain(v, v.slots[i]) ensures w.clusters[c] == v.clusters[c] {
      TakenApart(v, name, length, t, i);
      ChainInUse(v.next, SlotStart(v.slots[i]));
    }
    forall other: Name | other != name ensures ReadBack(w, other) == ReadBack(v, other) {
      OtherNamesKept(v, w, t, other);
    }
  }

  /** After a successful delete every other path reads as before, and the path
      itself reads as nothing exactly if no second entry had its name. */
  lemma DeleteDone(d0: Sectors, d1: Sectors, path: seq<Byte>)
    requires GoodDrive(d0) && DeleteEnded(d0, d1, path, Done)
    ensures GoodDrive(d1)
    ensures forall other :: NameFor(other) != NameFor(path) ==> FileAt(d1, other) == FileAt(d0, other)
    ensures FileAt(d1, path) == None <==> OneEntry(View(d0, Layout(d0).value), NameFor(path).value)
  {
    var info, name := Layout(d0).value, NameFor(path).value;
    LayoutKept(d0, d1, info);
    DeleteTheorem(View(d0, info), name);
    DeletedIsGone(View(d0, info), name);
  }

  /** A delete that was refused, or rolled back in full, changes nothing that can be read. */
  lemma DeleteFailed(d0: Sectors, d1: Sectors, path: seq<Byte>, ending: Ending)
    requires GoodDrive(d0) && DeleteEnded(d0, d1, path, ending)
    requires ending in {Refused, RolledBack(true)}
    ensures GoodDrive(d1) && SameMeta(d0, d1, Layout(d0).value)
    ensures forall other :: FileAt(d1, other) == FileAt(d0, other)
  {
    if !ending.Refused? {
      var info := Layout(d0).value;
      LayoutKept(d0, d1, info);
      assert View(d1, info) == View(d0, info);
    }
  }
}
