/** A FAT12 volume as kernel/fs/fat12.c sees it between two calls: the cells of
    the first FAT, the root slots and the cluster contents. Reading, writing
    and deleting a file are functions on it. */
module Volume {
  import opened Words
  import opened Chains
  import opened Directory

  datatype Volume = Volume(
    entryCount: nat,
    clusterBytes: nat,
    next: seq<nat>,
    slots: seq<Slot>,
    clusters: seq<seq<Byte>>)

  ghost predicate Shape(v: Volume) {
    && IsTable(v.next)
    && 0 < v.clusterBytes <= 0x1_0000
    && v.entryCount <= |v.slots|
    && |v.clusters| == |v.next|
    && forall c :: IsData(v.next, c) ==> |v.clusters[c]| == v.clusterBytes
  }

  /** The bytes of a chain of clusters, in order. */
  ghost function ChainBytes(v: Volume, chain: seq<nat>): (r: seq<Byte>)
    requires Shape(v) && forall i :: 0 <= i < |chain| ==> IsData(v.next, chain[i])
    ensures |r| == |chain| * v.clusterBytes
  {
    if chain == [] then []
    else ChainBytes(v, chain[..|chain| - 1]) + v.clusters[chain[|chain| - 1]]
  }

  ghost function SlotChain(v: Volume, s: Slot): seq<nat> {
    ChainOf(v.next, SlotStart(s))
  }

  /** What Fat12CollectChain accepts: no chain at all, or a proper one. */
  ghost predicate ChainKnown(v: Volume, s: Slot) {
    SlotStart(s) == 0 || HasChain(v.next, SlotStart(s))
  }

  /** The slot's chain is proper and covers its size. */
  ghost predicate Covered(v: Volume, s: Slot) {
    ChainKnown(v, s) && SlotSize(s) <= |SlotChain(v, s)| * v.clusterBytes
  }

  /** What reading the file of a slot gives. */
  ghost function Contents(v: Volume, s: Slot): Option<seq<Byte>>
    requires Shape(v)
  {
    if SlotSize(s) == 0 then Some([])
    else if Covered(v, s) then Some(ChainBytes(v, SlotChain(v, s))[..SlotSize(s)])
    else None
  }

  /** What reading a file by name gives. */
  ghost function ReadBack(v: Volume, name: Name): Option<seq<Byte>>
    requires Shape(v)
  {
    match Lookup(v.slots, v.entryCount, name)
    case None => None
    case Some(i) => Contents(v, v.slots[i])
  }

  // ------------------------------------------------------ well-formedness

  ghost predicate Regular(v: Volume, i: int) {
    RegularAt(v.slots, v.entryCount, i)
  }

  /** Every slot after the first end marker is one too. */
  ghost predicate EndsTogether(v: Volume) {
    forall i, j :: 0 <= i < j < v.entryCount <= |v.slots| && Fat12EntryIsEnd(v.slots[i]) ==> Fat12EntryIsEnd(v.slots[j])
  }

  ghost predicate Apart(a: seq<nat>, b: seq<nat>) {
    forall c :: c in a ==> c !in b
  }

  ghost predicate WellFormed(v: Volume) {
    && Shape(v) && EndsTogether(v)
    && (forall i :: Regular(v, i) ==> Covered(v, v.slots[i]))
    && (forall i, j :: Regular(v, i) && Regular(v, j) && i != j ==>
         Apart(SlotChain(v, v.slots[i]), SlotChain(v, v.slots[j])))
  }

  ghost predicate UniqueNames(v: Volume) {
    forall i, j :: Regular(v, i) && Regular(v, j) && SlotName(v.slots[i]) == SlotName(v.slots[j]) ==> i == j
  }

  ghost predicate Owned(v: Volume, c: int) {
    exists i :: Regular(v, i) && c in SlotChain(v, v.slots[i])
  }

  /** In use, but on no visible regular file's chain. */
  ghost predicate Orphan(v: Volume, c: int) {
    IsData(v.next, c) && v.next[c] != 0 && !Owned(v, c)
  }

  // ------------------------------------------------------------ operations

  /** The slot a write goes to: the file's own, or the first free one. */
  ghost predicate IsTarget(v: Volume, name: Name, t: nat) {
    match Lookup(v.slots, v.entryCount, name)
    case Some(i) => t == i
    case None => IsFreeSlot(v.slots, v.entryCount, Some(t))
  }

  /** The table after the clusters of the file's old version are freed. */
  ghost function Released(v: Volume, name: Name): (r: seq<nat>)
    ensures |r| == |v.next|
  {
    match Lookup(v.slots, v.entryCount, name)
    case Some(i) => Freed(v.next, SlotStart(v.slots[i]))
    case None => v.next
  }

  function ClustersNeeded(length: nat, clusterBytes: nat): nat
    requires clusterBytes > 0
  {
    (length + clusterBytes - 1) / clusterBytes
  }

  /** The contents of the `i`-th cluster of a file, zero padded. */
  function Piece(data: seq<Byte>, i: nat, clusterBytes: nat): (r: seq<Byte>)
    ensures |r| == clusterBytes
  {
    seq(clusterBytes, k requires 0 <= k < clusterBytes =>
      if i * clusterBytes + k < |data| then data[i * clusterBytes + k] else 0)
  }

  /** Cluster contents after the first `count` clusters of `chain` took their pieces. */
  function Stored(clusters: seq<seq<Byte>>, chain: seq<nat>, data: seq<Byte>, clusterBytes: nat,
      count: nat): (r: seq<seq<Byte>>)
    requires count <= |chain| && forall i :: 0 <= i < |chain| ==> chain[i] < |clusters|
    ensures |r| == |clusters|
  {
    if count == 0 then clusters
    else
      Stored(clusters, chain, data, clusterBytes, count - 1)
        [chain[count - 1] := Piece(data, count - 1, clusterBytes)]
  }

  /** There is a slot and there are enough clusters once the old version is freed. */
  ghost predicate CanWrite(v: Volume, name: Name, length: nat)
    requires Shape(v)
  {
    && (exists t :: IsTarget(v, name, t))
    && ClustersNeeded(length, v.clusterBytes) <= |FreeList(Released(v, name))|
  }

  ghost function NewChain(v: Volume, name: Name, length: nat): (chain: seq<nat>)
    requires Shape(v) && CanWrite(v, name, length)
    ensures |chain| == ClustersNeeded(length, v.clusterBytes)
    ensures forall i :: 0 <= i < |chain| ==> IsData(v.next, chain[i])
  {
    Lowest(Released(v, name), ClustersNeeded(length, v.clusterBytes))
  }

  ghost function WriteResult(v: Volume, name: Name, data: seq<Byte>, t: nat): Volume
    requires Shape(v) && CanWrite(v, name, |data|) && IsTarget(v, name, t) && |data| < 0x8000_0000
  {
    var chain := NewChain(v, name, |data|);
    var start := if chain == [] then 0 else chain[0];
    v.(next := Allocate(Released(v, name), |chain|),
       clusters := Stored(v.clusters, chain, data, v.clusterBytes, |chain|),
       slots := v.slots[t := FileSlot(name, start, |data|)])
  }

  ghost function DeleteResult(v: Volume, name: Name): Volume
    requires Lookup(v.slots, v.entryCount, name).Some?
  {
    v.(next := Released(v, name),
       slots := v.slots[Lookup(v.slots, v.entryCount, name).value := DeletedSlot()])
  }
}
