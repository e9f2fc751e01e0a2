/** The packed 12-bit file allocation table (kernel/fs/fat12.c): two clusters
    share three bytes. */
module FatTable {
  import opened Words

  /** Offset of the first of the two bytes that hold a cluster's entry. */
  function EntryOffset(cluster: nat): nat {
    cluster * 3 / 2
  }

  function ReadEntry(fat: seq<Byte>, cluster: nat): (value: nat)
    requires EntryOffset(cluster) + 1 < |fat|
    ensures value < 4096
  {
    var pair := Le16(fat[EntryOffset(cluster)], fat[EntryOffset(cluster) + 1]);
    if cluster % 2 == 0 then pair % 4096 else pair / 16
  }

  /** The table after one entry is overwritten; the value is cut to 12 bits. */
  function PutEntry(fat: seq<Byte>, cluster: nat, value: nat): (r: seq<Byte>)
    requires EntryOffset(cluster) + 1 < |fat|
    ensures |r| == |fat|
  {
    var o := EntryOffset(cluster);
    var v := value % 4096;
    if cluster % 2 == 0 then
      fat[o := v % 256][o + 1 := fat[o + 1] / 16 * 16 + v / 256]
    else
      fat[o := fat[o] % 16 + v % 16 * 16][o + 1 := v / 16]
  }

  /** The packed table behaves as an array of 12-bit cells, also for the
      neighbour that shares a byte. */
  lemma PutThenRead(fat: seq<Byte>, cluster: nat, value: nat, other: nat)
    requires EntryOffset(cluster) + 1 < |fat| && EntryOffset(other) + 1 < |fat|
    ensures ReadEntry(PutEntry(fat, cluster, value), other)
         == if other == cluster then value % 4096 else ReadEntry(fat, other)
  {
    if cluster == other {
      PutThenReadSame(fat, cluster, value);
    } else if cluster / 2 == other / 2 {
      PutThenReadNeighbour(fat, cluster, value, other);
    } else {
      Group(cluster);
      Group(other);
    }
  }

  lemma PutThenReadSame(fat: seq<Byte>, cluster: nat, value: nat)
    requires EntryOffset(cluster) + 1 < |fat|
    ensures ReadEntry(PutEntry(fat, cluster, value), cluster) == value % 4096
  {
    hide Le16;
    var o := EntryOffset(cluster);
    Unpack(value % 4096, if cluster % 2 == 0 then fat[o + 1] else fat[o]);
  }

  lemma PutThenReadNeighbour(fat: seq<Byte>, cluster: nat, value: nat, other: nat)
    requires EntryOffset(cluster) + 1 < |fat| && EntryOffset(other) + 1 < |fat|
    requires cluster != other && cluster / 2 == other / 2
    ensures ReadEntry(PutEntry(fat, cluster, value), other) == ReadEntry(fat, other)
  {
    var o, p := EntryOffset(cluster), EntryOffset(other);
    var put := PutEntry(fat, cluster, value);
    Group(cluster);
    Group(other);
    if cluster % 2 == 0 {
      assert p == o + 1;
      Pack(value % 4096, fat[o + 1]);
      Upper(put[p], fat[p], fat[p + 1]);
    } else {
      assert o == p + 1;
      Pack(value % 4096, fat[o]);
      Lower(fat[p], put[o], fat[o]);
    }
  }

  lemma Upper(a: Byte, b: Byte, hi: Byte)
    requires a / 16 == b / 16
    ensures Le16(a, hi) / 16 == Le16(b, hi) / 16
  {
  }

  lemma Lower(lo: Byte, a: Byte, b: Byte)
    requires a % 16 == b % 16
    ensures Le16(lo, a) % 4096 == Le16(lo, b) % 4096
  {
    assert Le16(lo, a) == lo + 256 * (a % 16) + 4096 * (a / 16);
    assert Le16(lo, b) == lo + 256 * (b % 16) + 4096 * (b / 16);
  }

  lemma Group(cluster: nat)
    ensures EntryOffset(cluster) == 3 * (cluster / 2) + cluster % 2
  {
  }

  /** A 12-bit value shares a byte with half a neighbour without disturbing it. */
  lemma Pack(v: nat, shared: Byte)
    requires v < 4096
    ensures v % 256 + 256 * (shared / 16 * 16 + v / 256) == v + 4096 * (shared / 16)
    ensures (shared / 16 * 16 + v / 256) / 16 == shared / 16
    ensures shared % 16 + v % 16 * 16 + 256 * (v / 16) == shared % 16 + 16 * v
    ensures (shared % 16 + v % 16 * 16) % 16 == shared % 16
  {
  }

  lemma Unpack(v: nat, shared: Byte)
    requires v < 4096
    ensures Le16(v % 256, shared / 16 * 16 + v / 256) % 4096 == v
    ensures Le16(shared % 16 + v % 16 * 16, v / 16) / 16 == v
  {
    Pack(v, shared);
    Cut(v, shared / 16, shared % 16);
  }

  lemma Cut(v: nat, upper: nat, lower: nat)
    requires v < 4096 && lower < 16
    ensures (v + 4096 * upper) % 4096 == v && (lower + 16 * v) / 16 == v
  {
  }

  /** The table is long enough for every cluster below `count`. */
  predicate Holds(fat: seq<Byte>, count: nat) {
    count == 0 || EntryOffset(count - 1) + 1 < |fat|
  }

  /** The table seen as an array of cells. */
  function Entries(fat: seq<Byte>, count: nat): (r: seq<nat>)
    requires Holds(fat, count)
    ensures |r| == count
    ensures forall c :: 0 <= c < count ==> r[c] == ReadEntry(fat, c) < 4096
  {
    seq(count, c requires 0 <= c < count => ReadEntry(fat, c))
  }

  lemma EntriesAfterPut(fat: seq<Byte>, count: nat, cluster: nat, value: nat)
    requires Holds(fat, count) && cluster < count
    ensures Entries(PutEntry(fat, cluster, value), count) == Entries(fat, count)[cluster := value % 4096]
  {
    forall c | 0 <= c < count
      ensures Entries(PutEntry(fat, cluster, value), count)[c] == Entries(fat, count)[cluster := value % 4096][c]
    {
      PutThenRead(fat, cluster, value, c);
    }
  }

  method Fat12WriteEntry(fat: array<Byte>, cluster: nat, value: nat)
    requires EntryOffset(cluster) + 1 < fat.Length
    modifies fat
    ensures fat[..] == PutEntry(old(fat[..]), cluster, value)
  {
    var offset := cluster * 3 / 2;
    var v := value % 4096;
    if cluster % 2 == 0 {
      fat[offset] := v % 256;
      fat[offset + 1] := fat[offset + 1] / 16 * 16 + v / 256;
    } else {
      fat[offset] := fat[offset] % 16 + v % 16 * 16;
      fat[offset + 1] := v / 16;
    }
  }
}
