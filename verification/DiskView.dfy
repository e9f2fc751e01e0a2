/** How a volume lies on the sectors of a drive, and what a write to one part of
    it leaves alone. */
module DiskView {
  import opened Words
  import opened FatTable
  import opened FatOps
  import opened Directory
  import opened Volume
  import opened Disk

  type Sectors = seq<seq<Byte>>

  /** The device carries a volume of this layout. */
  ghost predicate Mounted(d: Sectors, info: Info) {
    AllSectors(d) && info.Mountable() && info.totalSectors <= |d| && ParseInfo(d[0]) == Some(info)
  }

  ghost function FatBytes(d: Sectors, info: Info, copy: nat): (r: seq<Byte>)
    requires Mounted(d, info) && copy < info.fatCount
    ensures Holds(r, info.TotalClusters() + 2)
  {
    FatPlace(info, copy);
    ReadRange(d, info.FatLba(copy), info.fatSize)
  }

  ghost function RootBytes(d: Sectors, info: Info): seq<Byte>
    requires Mounted(d, info)
  {
    ReadRange(d, info.FirstRoot(), info.RootDirSectors())
  }

  ghost function ClusterData(d: Sectors, info: Info, c: nat): (r: seq<Byte>)
    requires Mounted(d, info) && 2 <= c < info.TotalClusters() + 2
    ensures |r| == info.ClusterBytes()
  {
    ClusterPlace(info, c);
    ReadRange(d, info.ClusterToLba(c), info.sectorsPerCluster)
  }

  ghost function Clusters(d: Sectors, info: Info): (r: seq<seq<Byte>>)
    requires Mounted(d, info)
    ensures |r| == info.TotalClusters() + 2
    ensures forall c :: 2 <= c < |r| ==> r[c] == ClusterData(d, info, c)
  {
    seq(info.TotalClusters() + 2, c requires 0 <= c < info.TotalClusters() + 2 =>
      if c < 2 then [] else ClusterData(d, info, c))
  }

  ghost function View(d: Sectors, info: Info): Volume
    requires Mounted(d, info)
  {
    Volume(info.rootEntryCount, info.ClusterBytes(), Cells(FatBytes(d, info, 0), info.TotalClusters()),
      Slots(RootBytes(d, info)), Clusters(d, info))
  }

  ghost predicate CopiesAgree(d: Sectors, info: Info)
    requires Mounted(d, info)
  {
    forall k :: 0 <= k < info.fatCount ==> FatBytes(d, info, k) == FatBytes(d, info, 0)
  }

  /** The tables and the root directory are byte for byte the same. */
  ghost predicate SameMeta(d: Sectors, e: Sectors, info: Info)
    requires Mounted(d, info) && Mounted(e, info)
  {
    RootBytes(e, info) == RootBytes(d, info)
    && forall k :: 0 <= k < info.fatCount ==> FatBytes(e, info, k) == FatBytes(d, info, k)
  }

  // ---------------------------------------------------------------- frames

  lemma FatSame(d: Sectors, e: Sectors, info: Info)
    requires Mounted(d, info) && Mounted(e, info) && |e| == |d|
    requires forall s :: 0 <= s < info.FirstRoot() ==> e[s] == d[s]
    ensures forall k :: 0 <= k < info.fatCount ==> FatBytes(e, info, k) == FatBytes(d, info, k)
  {
    forall k | 0 <= k < info.fatCount ensures FatBytes(e, info, k) == FatBytes(d, info, k) {
      FatPlace(info, k);
      var lba := info.FatLba(k);
      ReadRangeFrame(d, e, lba, info.fatSize);
    }
  }

  /** Everything of the layout below the data area is a range of sectors. */
  lemma BelowData(d: Sectors, e: Sectors, info: Info)
    requires Mounted(d, info) && AllSectors(e) && |e| == |d|
    requires forall s :: 0 <= s < info.FirstData() ==> e[s] == d[s]
    ensures Mounted(e, info) && SameMeta(d, e, info)
  {
    ReadRangeFrame(d, e, info.FirstRoot(), info.RootDirSectors());
    FatSame(d, e, info);
  }

  lemma SameClusters(d: Sectors, e: Sectors, info: Info)
    requires Mounted(d, info) && Mounted(e, info) && |e| == |d|
    requires forall s :: info.FirstData() <= s < |d| ==> e[s] == d[s]
    ensures Clusters(e, info) == Clusters(d, info)
  {
    forall c | 2 <= c < info.TotalClusters() + 2 ensures ClusterData(e, info, c) == ClusterData(d, info, c) {
      ClusterPlace(info, c);
      ReadRangeFrame(d, e, info.ClusterToLba(c), info.sectorsPerCluster);
    }
  }

  /** Writing one cluster touches no other part of the volume. */
  lemma ClusterWritten(d: Sectors, e: Sectors, info: Info, c: nat)
    requires Mounted(d, info) && 2 <= c < info.TotalClusters() + 2 && AllSectors(e)
    requires SameOutside(d, e, info.ClusterToLba(c), info.ClusterToLba(c) + info.sectorsPerCluster)
    ensures Mounted(e, info) && SameMeta(d, e, info)
    ensures Clusters(e, info) == Clusters(d, info)[c := ClusterData(e, info, c)]
  {
    ClusterPlace(info, c);
    BelowData(d, e, info);
    forall b | 2 <= b < info.TotalClusters() + 2 && b != c
      ensures ClusterData(e, info, b) == ClusterData(d, info, b)
    {
      ClusterPlace(info, b);
      if b < c {
        ClustersApart(info, b, c);
      } else {
        ClustersApart(info, c, b);
      }
      ReadRangeFrame(d, e, info.ClusterToLba(b), info.sectorsPerCluster);
    }
  }

  /** Writing the root directory touches neither tables nor clusters. */
  lemma RootWritten(d: Sectors, e: Sectors, info: Info)
    requires Mounted(d, info) && AllSectors(e) && SameOutside(d, e, info.FirstRoot(), info.FirstData())
    ensures Mounted(e, info) && Clusters(e, info) == Clusters(d, info)
    ensures forall k :: 0 <= k < info.fatCount ==> FatBytes(e, info, k) == FatBytes(d, info, k)
  {
    SameClusters(d, e, info);
    FatSame(d, e, info);
  }

  /** Writing the tables touches neither root directory nor clusters. */
  lemma FatWritten(d: Sectors, e: Sectors, info: Info)
    requires Mounted(d, info) && AllSectors(e) && SameOutside(d, e, info.reserved, info.FirstRoot())
    ensures Mounted(e, info) && Clusters(e, info) == Clusters(d, info)
    ensures RootBytes(e, info) == RootBytes(d, info)
  {
    SameClusters(d, e, info);
    ReadRangeFrame(d, e, info.FirstRoot(), info.RootDirSectors());
  }

  /** Writing one copy of the table leaves the others. */
  lemma FatCopyWritten(d: Sectors, e: Sectors, info: Info, copy: nat, other: nat)
    requires Mounted(d, info) && AllSectors(e) && copy < info.fatCount && other < info.fatCount && other != copy
    requires SameOutside(d, e, info.FatLba(copy), info.FatLba(copy) + info.fatSize)
    requires Mounted(e, info)
    ensures FatBytes(e, info, other) == FatBytes(d, info, other)
  {
    if other < copy {
      MulOrder(other, copy, info.fatSize);
    } else {
      MulOrder(copy, other, info.fatSize);
    }
    FatPlace(info, other);
    ReadRangeFrame(d, e, info.FatLba(other), info.fatSize);
  }
}
