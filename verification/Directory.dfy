/** The fixed root directory of kernel/fs/fat12.c: 32-byte slots scanned up to
    the first end marker. */
module Directory {
  import opened Words

  const SLOT_SIZE: nat := 32
  const NAME_SIZE: nat := 11
  const DELETED: Byte := 0xE5

  type Slot = s: seq<Byte> | |s| == SLOT_SIZE witness seq(SLOT_SIZE, _ => 0)
  type Name = s: seq<Byte> | |s| == NAME_SIZE witness seq(NAME_SIZE, _ => 0)

  function SlotName(s: Slot): Name {
    s[..NAME_SIZE]
  }

  function SlotStart(s: Slot): U16 {
    Le16(s[26], s[27])
  }

  function SlotSize(s: Slot): U32 {
    Le32(s[28], s[29], s[30], s[31])
  }

  predicate Fat12EntryIsEnd(s: Slot) {
    s[0] == 0
  }

  predicate Fat12EntryIsDeleted(s: Slot) {
    s[0] == DELETED
  }

  /** Neither deleted, long-name (attr & 0x0F), directory (0x10) nor label (0x08). */
  predicate Fat12EntryIsRegularFile(s: Slot) {
    !Fat12EntryIsDeleted(s) && s[11] % 16 != 15 && s[11] / 16 % 2 == 0 && s[11] / 8 % 2 == 0
  }

  /** The slot of a freshly written file: archive attribute, no timestamps. */
  function FileSlot(name: Name, start: U16, size: U32): Slot {
    name + [0x20] + Zeros(14) + [ByteOf(start, 0), ByteOf(start, 1),
      ByteOf(size, 0), ByteOf(size, 1), ByteOf(size, 2), ByteOf(size, 3)]
  }

  /** A written slot reads back, and is a visible regular file unless its name starts with 0xE5. */
  lemma FileSlotFields(name: Name, start: U16, size: U32)
    ensures var s := FileSlot(name, start, size);
            && SlotName(s) == name && SlotStart(s) == start && SlotSize(s) == size
            && (name[0] != DELETED <==> Fat12EntryIsRegularFile(s))
            && (name[0] == 0 <==> Fat12EntryIsEnd(s))
  {
  }

  function DeletedSlot(): Slot {
    [DELETED] + seq(31, _ => 0)
  }

  // ------------------------------------------------------------- the scan

  /** Slot `i` lies before the first end marker. */
  ghost predicate Visible(slots: seq<Slot>, count: nat, i: int) {
    0 <= i < count <= |slots| && forall j :: 0 <= j <= i ==> !Fat12EntryIsEnd(slots[j])
  }

  ghost predicate RegularAt(slots: seq<Slot>, count: nat, i: int) {
    Visible(slots, count, i) && Fat12EntryIsRegularFile(slots[i])
  }

  ghost predicate Matches(slots: seq<Slot>, count: nat, name: Name, i: int) {
    RegularAt(slots, count, i) && SlotName(slots[i]) == name
  }

  /** `r` is the first visible regular slot of that name, if there is one. */
  ghost predicate IsLookup(slots: seq<Slot>, count: nat, name: Name, r: Option<nat>) {
    match r
    case Some(i) => Matches(slots, count, name, i) && forall j :: 0 <= j < i ==> !Matches(slots, count, name, j)
    case None => forall j :: !Matches(slots, count, name, j)
  }

  lemma LookupUnique(slots: seq<Slot>, count: nat, name: Name, a: Option<nat>, b: Option<nat>)
    requires IsLookup(slots, count, name, a) && IsLookup(slots, count, name, b)
    ensures a == b
  {
  }

  lemma {:induction false} LookupExists(slots: seq<Slot>, count: nat, name: Name, bound: nat)
    ensures (exists r :: IsLookup(slots, count, name, r))
         || (forall j :: 0 <= j < bound ==> !Matches(slots, count, name, j))
  {
    if bound > 0 {
      LookupExists(slots, count, name, bound - 1);
      if Matches(slots, count, name, bound - 1) && forall j :: 0 <= j < bound - 1 ==> !Matches(slots, count, name, j) {
        assert IsLookup(slots, count, name, Some(bound - 1));
      }
    }
  }

  ghost function Lookup(slots: seq<Slot>, count: nat, name: Name): (r: Option<nat>)
    ensures IsLookup(slots, count, name, r)
  {
    LookupExists(slots, count, name, count);
    if exists r :: IsLookup(slots, count, name, r) then
      var r :| IsLookup(slots, count, name, r); r
    else None
  }

  /** `r` is the first slot a new file may take: an end marker or a deleted one. */
  ghost predicate IsFreeSlot(slots: seq<Slot>, count: nat, r: Option<nat>) {
    match r
    case Some(i) => i < count <= |slots| && (Fat12EntryIsEnd(slots[i]) || Fat12EntryIsDeleted(slots[i]))
      && forall j :: 0 <= j < i ==> !Fat12EntryIsEnd(slots[j]) && !Fat12EntryIsDeleted(slots[j])
    case None => forall j :: 0 <= j < count && j < |slots| ==>
      !Fat12EntryIsEnd(slots[j]) && !Fat12EntryIsDeleted(slots[j])
  }

  /** The byte buffer of the directory, slot by slot. */
  function Slots(root: seq<Byte>): (r: seq<Slot>)
    ensures |r| == |root| / SLOT_SIZE
  {
    seq(|root| / SLOT_SIZE, i requires 0 <= i < |root| / SLOT_SIZE => root[SLOT_SIZE * i..SLOT_SIZE * i + SLOT_SIZE])
  }

  method Fat12FindEntry(root: array<Byte>, entryCount: nat, name: Name) returns (index: int)
    requires SLOT_SIZE * entryCount <= root.Length
    ensures IsLookup(Slots(root[..]), entryCount, name, if index < 0 then None else Some(index))
  {
    ghost var slots := Slots(root[..]);
    var i: nat := 0;
    while i < entryCount
      invariant i <= entryCount
      invariant forall j :: 0 <= j < i ==> !Fat12EntryIsEnd(slots[j]) && !Matches(slots, entryCount, name, j)
    {
      var entry: Slot := root[SLOT_SIZE * i..SLOT_SIZE * i + SLOT_SIZE];
      assert entry == slots[i];
      if Fat12EntryIsEnd(entry) {
        break;
      }
      if Fat12EntryIsRegularFile(entry) {
        var matched := true;
        var j: nat := 0;
        while j < NAME_SIZE && matched
          invariant j <= NAME_SIZE
          invariant matched <==> entry[..j] == name[..j]
          decreases NAME_SIZE - j
        {
          assert entry[..j + 1] == entry[..j] + [entry[j]] && name[..j + 1] == name[..j] + [name[j]];
          matched := entry[j] == name[j];
          j := j + 1;
        }
        if matched {
          assert name == name[..NAME_SIZE];
          return i;
        }
        assert entry[..j] == SlotName(entry)[..j];
      }
      i := i + 1;
    }
    return -1;
  }

  method Fat12FindFreeEntry(root: array<Byte>, entryCount: nat) returns (index: int)
    requires SLOT_SIZE * entryCount <= root.Length
    ensures IsFreeSlot(Slots(root[..]), entryCount, if index < 0 then None else Some(index))
  {
    ghost var slots := Slots(root[..]);
    var i: nat := 0;
    while i < entryCount
      invariant i <= entryCount
      invariant forall j :: 0 <= j < i ==> !Fat12EntryIsEnd(slots[j]) && !Fat12EntryIsDeleted(slots[j])
    {
      var entry: Slot := root[SLOT_SIZE * i..SLOT_SIZE * i + SLOT_SIZE];
      assert entry == slots[i];
      if Fat12EntryIsEnd(entry) || Fat12EntryIsDeleted(entry) {
        return i;
      }
      i := i + 1;
    }
    return -1;
  }

  /** Overwrites one slot of the directory buffer. */
  method StoreSlot(root: array<Byte>, index: nat, slot: Slot)
    requires SLOT_SIZE * index + SLOT_SIZE <= root.Length
    modifies root
    ensures Slots(root[..]) == Slots(old(root[..]))[index := slot]
  {
    hide Slots;
    ghost var before := root[..];
    var at := SLOT_SIZE * index;
    var k: nat := 0;
    while k < SLOT_SIZE
      invariant k <= SLOT_SIZE
      invariant root[..] == before[..at] + slot[..k] + before[at + k..]
    {
      root[at + k] := slot[k];
      k := k + 1;
    }
    assert root[..] == before[..at] + slot + before[at + SLOT_SIZE..];
    SlotStored(before, index, slot);
  }

  lemma SlotStored(root: seq<Byte>, index: nat, slot: Slot)
    requires SLOT_SIZE * index + SLOT_SIZE <= |root|
    ensures var at := SLOT_SIZE * index;
            Slots(root[..at] + slot + root[at + SLOT_SIZE..]) == Slots(root)[index := slot]
  {
    var at := SLOT_SIZE * index;
    var stored := root[..at] + slot + root[at + SLOT_SIZE..];
    assert |stored| == |root|;
    forall i | 0 <= i < |root| / SLOT_SIZE ensures Slots(stored)[i] == Slots(root)[index := slot][i] {
      var p := SLOT_SIZE * i;
      if i < index {
        assert p + SLOT_SIZE <= at;
      } else if i > index {
        assert p >= at + SLOT_SIZE;
      }
      assert stored[p..p + SLOT_SIZE] == if i == index then slot else root[p..p + SLOT_SIZE];
    }
  }
}
