/** The sector device and the on-disk layout of kernel/fs/fat12.c. */
module Disk {
  import opened Words
  import opened FatTable
  import opened Chains
  import opened Directory

  /** The boot sector fields Fat12LoadInfo keeps, and what it derives from them.
      None of the sums leaves 32 bits: every operand is a byte or a 16-bit word
      but `totalSectors`, which bounds them. */
  datatype Info = Info(
    sectorsPerCluster: nat, reserved: nat, fatCount: nat,
    rootEntryCount: nat, fatSize: nat, totalSectors: nat)
  {
    function RootDirSectors(): nat {
      (rootEntryCount * SLOT_SIZE + (SECTOR_SIZE - 1)) / SECTOR_SIZE
    }

    function FirstRoot(): nat {
      reserved + fatCount * fatSize
    }

    function FirstData(): nat {
      FirstRoot() + RootDirSectors()
    }

    function FatLba(copy: nat): nat {
      reserved + copy * fatSize
    }

    function ClusterBytes(): nat {
      SECTOR_SIZE * sectorsPerCluster
    }

    /** The checks of Fat12LoadInfo. */
    predicate Valid() {
      && sectorsPerCluster in {1, 2, 4, 8, 16, 32, 64, 128}
      && 0 < fatCount < 256 && 0 < reserved && 0 < rootEntryCount && 0 < fatSize
      && FirstData() + sectorsPerCluster <= totalSectors
    }

    function TotalClusters(): nat
      requires Valid()
    {
      (totalSectors - FirstData()) / sectorsPerCluster
    }

    function ClusterToLba(cluster: nat): nat
      requires cluster >= 2
    {
      FirstData() + (cluster - 2) * sectorsPerCluster
    }

    /** What Fat12LoadInfo leaves unchecked: the volume is FAT12 and its table
        has a cell for every cluster. */
    predicate Mountable() {
      && Valid()
      && TotalClusters() <= MAX_CLUSTERS
      && EntryOffset(TotalClusters() + 1) + 1 < SECTOR_SIZE * fatSize
    }
  }

  /** The layout fields of a boot sector, taken at their word. */
  function BootFields(boot: seq<Byte>): Info
    requires |boot| == SECTOR_SIZE
  {
    var sectors16 := Le16(boot[19], boot[20]);
    var total := if sectors16 != 0 then sectors16 else Le32(boot[32], boot[33], boot[34], boot[35]);
    Info(boot[13], Le16(boot[14], boot[15]), boot[16], Le16(boot[17], boot[18]), Le16(boot[22], boot[23]), total)
  }

  /** Fat12LoadInfo on the bytes of sector 0: its checks amount to a layout with room
      for at least one cluster. */
  function ParseInfo(boot: seq<Byte>): (r: Option<Info>)
    requires |boot| == SECTOR_SIZE
    ensures r.Some? <==> Le16(boot[11], boot[12]) == SECTOR_SIZE && BootFields(boot).Valid()
    ensures r.Some? ==> r.value == BootFields(boot) && r.value.TotalClusters() >= 1
  {
    var info := BootFields(boot);
    if Le16(boot[11], boot[12]) != SECTOR_SIZE then None
    else if info.sectorsPerCluster == 0 || info.fatCount == 0 then None
    else if info.sectorsPerCluster !in {1, 2, 4, 8, 16, 32, 64, 128} then None
    else if info.reserved == 0 || info.rootEntryCount == 0 then None
    else if info.fatSize == 0 || info.totalSectors == 0 then None
    else if info.FirstData() >= info.totalSectors then None
    else if info.totalSectors - info.FirstData() < info.sectorsPerCluster then None
    else Some(info)
  }

  // -------------------------------------------------------------- layout

  lemma MulOrder(a: nat, b: nat, k: nat)
    requires a < b
    ensures a * k + k <= b * k
  {
    assert (b - a - 1) * k >= 0;
  }

  /** Clusters lie behind the root directory, inside the device, and apart. */
  lemma ClusterPlace(info: Info, c: nat)
    requires info.Valid() && 2 <= c < info.TotalClusters() + 2
    ensures info.FirstData() <= info.ClusterToLba(c)
    ensures info.ClusterToLba(c) + info.sectorsPerCluster <= info.totalSectors
  {
  }

  lemma ClustersApart(info: Info, c: nat, d: nat)
    requires info.Valid() && 2 <= c < d
    ensures info.ClusterToLba(c) + info.sectorsPerCluster <= info.ClusterToLba(d)
  {
  }

  lemma FatPlace(info: Info, copy: nat)
    requires copy < info.fatCount
    ensures info.FatLba(copy) + info.fatSize <= info.FirstRoot()
    ensures info.reserved <= info.FatLba(copy)
  {
    MulOrder(copy, info.fatCount, info.fatSize);
  }

  // -------------------------------------------------------------- sectors

  ghost predicate AllSectors(d: seq<seq<Byte>>) {
    forall s :: 0 <= s < |d| ==> |d[s]| == SECTOR_SIZE
  }

  /** The bytes of `count` sectors from `lba` on. */
  ghost function ReadRange(d: seq<seq<Byte>>, lba: nat, count: nat): (r: seq<Byte>)
    requires lba + count <= |d| && AllSectors(d)
    ensures |r| == SECTOR_SIZE * count
  {
    if count == 0 then [] else ReadRange(d, lba, count - 1) + d[lba + count - 1]
  }

  /** Only sectors in [lo, hi) differ. */
  ghost predicate SameOutside(d: seq<seq<Byte>>, e: seq<seq<Byte>>, lo: nat, hi: nat) {
    |e| == |d| && forall s :: 0 <= s < |d| && !(lo <= s < hi) ==> e[s] == d[s]
  }

  lemma {:induction false} ReadRangeFrame(d: seq<seq<Byte>>, e: seq<seq<Byte>>, lba: nat, count: nat)
    requires lba + count <= |d| && |e| == |d| && AllSectors(d) && AllSectors(e)
    requires forall s :: lba <= s < lba + count ==> e[s] == d[s]
    ensures ReadRange(e, lba, count) == ReadRange(d, lba, count)
  {
    if count > 0 {
      ReadRangeFrame(d, e, lba, count - 1);
    }
  }

  /** A drive whose sector transfers may fail. A failed write may leave that one
      sector with any contents. `faults` counts the failed transfers. */
  class Floppy {
    var sectors: seq<seq<Byte>>
    ghost var faults: nat

    constructor (image: seq<seq<Byte>>)
      ensures sectors == image && faults == 0
    {
      sectors := image;
      faults := 0;
    }

    method FloppyReadSector(lba: nat, buffer: array<Byte>, at: nat) returns (ok: bool)
      requires AllSectors(sectors) && at + SECTOR_SIZE <= buffer.Length
      modifies buffer, this`faults
      ensures ok ==> lba < |sectors| && faults == old(faults)
      ensures ok ==> buffer[..at + SECTOR_SIZE] == old(buffer[..at]) + sectors[lba]
      ensures !ok ==> faults == old(faults) + 1
    {
      var fails: bool := *;
      if fails || lba >= |sectors| {
        faults := faults + 1;
        return false;
      }
      var k: nat := 0;
      while k < SECTOR_SIZE
        invariant k <= SECTOR_SIZE && faults == old(faults)
        invariant buffer[..at + k] == old(buffer[..at]) + sectors[lba][..k]
      {
        ghost var done := buffer[..at + k];
        buffer[at + k] := sectors[lba][k];
        k := k + 1;
        assert buffer[..at + k] == done + [sectors[lba][k - 1]];
      }
      return true;
    }

    method FloppyWriteSector(lba: nat, buffer: array<Byte>, at: nat) returns (ok: bool)
      requires AllSectors(sectors) && at + SECTOR_SIZE <= buffer.Length
      modifies this
      ensures AllSectors(sectors) && SameOutside(old(sectors), sectors, lba, lba + 1)
      ensures ok ==> lba < |sectors| && sectors[lba] == buffer[at..at + SECTOR_SIZE] && faults == old(faults)
      ensures !ok ==> faults == old(faults) + 1
    {
      var fails: bool := *;
      if fails || lba >= |sectors| {
        faults := faults + 1;
        var torn: bool := *;
        if torn && lba < |sectors| {
          var junk: seq<Byte> :| |junk| == SECTOR_SIZE;
          sectors := sectors[lba := junk];
        }
        return false;
      }
      sectors := sectors[lba := buffer[at..at + SECTOR_SIZE]];
      return true;
    }

    method Fat12ReadSectors(lba: nat, count: nat, buffer: array<Byte>) returns (ok: bool)
      requires AllSectors(sectors) && buffer.Length == SECTOR_SIZE * count
      modifies buffer, this`faults
      ensures ok && count > 0 ==> lba + count <= |sectors| && buffer[..] == ReadRange(sectors, lba, count)
      ensures ok ==> faults == old(faults)
      ensures !ok ==> faults > old(faults)
    {
      var i: nat := 0;
      while i < count
        invariant i <= count && faults == old(faults)
        invariant i > 0 ==> lba + i <= |sectors| && buffer[..SECTOR_SIZE * i] == ReadRange(sectors, lba, i)
      {
        ok := FloppyReadSector(lba + i, buffer, SECTOR_SIZE * i);
        if !ok {
          return false;
        }
        assert buffer[..SECTOR_SIZE * i + SECTOR_SIZE] == buffer[..SECTOR_SIZE * (i + 1)];
        i := i + 1;
      }
      return true;
    }

    method Fat12WriteSectors(lba: nat, count: nat, buffer: array<Byte>) returns (ok: bool)
      requires AllSectors(sectors) && buffer.Length == SECTOR_SIZE * count
      modifies this
      ensures AllSectors(sectors) && SameOutside(old(sectors), sectors, lba, lba + count)
      ensures ok && count > 0 ==> lba + count <= |sectors| && ReadRange(sectors, lba, count) == buffer[..]
      ensures ok ==> faults == old(faults)
      ensures !ok ==> faults > old(faults)
    {
      var i: nat := 0;
      while i < count
        invariant i <= count && faults == old(faults)
        invariant AllSectors(sectors) && SameOutside(old(sectors), sectors, lba, lba + i)
        invariant i > 0 ==> lba + i <= |sectors| && ReadRange(sectors, lba, i) == buffer[..SECTOR_SIZE * i]
      {
        ghost var before := sectors;
        ok := FloppyWriteSector(lba + i, buffer, SECTOR_SIZE * i);
        if !ok {
          return false;
        }
        ReadRangeFrame(before, sectors, lba, i);
        assert buffer[..SECTOR_SIZE * i] + buffer[SECTOR_SIZE * i..SECTOR_SIZE * i + SECTOR_SIZE]
            == buffer[..SECTOR_SIZE * (i + 1)];
        i := i + 1;
      }
      return true;
    }
  }
}
