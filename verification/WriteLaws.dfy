/** What a write does to a well-formed volume, and runs of writes and deletes. */
module WriteLaws {
  import opened Words
  import opened Chains
  import opened Directory
  import opened Volume
  import opened VolumeLaws

  // -------------------------------------------------------- the data clusters

  /** `data` followed by zeros, `length` bytes in all. */
  ghost predicate IsPadded(bytes: seq<Byte>, data: seq<Byte>, length: nat) {
    |bytes| == length
    && forall j :: 0 <= j < length ==> bytes[j] == if j < |data| then data[j] else 0
  }

  lemma {:induction false} StoredCells(clusters: seq<seq<Byte>>, chain: seq<nat>, data: seq<Byte>, clusterBytes: nat,
      count: nat)
    requires count <= |chain| && Distinct(chain)
    requires forall i :: 0 <= i < |chain| ==> chain[i] < |clusters|
    ensures forall i :: 0 <= i < count ==>
      Stored(clusters, chain, data, clusterBytes, count)[chain[i]] == Piece(data, i, clusterBytes)
    ensures forall c :: 0 <= c < |clusters| && c !in chain ==>
      Stored(clusters, chain, data, clusterBytes, count)[c] == clusters[c]
    ensures forall c :: 0 <= c < |clusters| ==>
      |Stored(clusters, chain, data, clusterBytes, count)[c]| == |clusters[c]|
      || |Stored(clusters, chain, data, clusterBytes, count)[c]| == clusterBytes
  {
    if count > 0 {
      StoredCells(clusters, chain, data, clusterBytes, count - 1);
    }
  }

  lemma PieceExtends(bytes: seq<Byte>, data: seq<Byte>, count: nat, clusterBytes: nat)
    requires IsPadded(bytes, data, count * clusterBytes)
    ensures IsPadded(bytes + Piece(data, count, clusterBytes), data, (count + 1) * clusterBytes)
  {
  }

  /** Reading a chain whose clusters took their pieces gives the padded data. */
  lemma {:induction false} ChainBytesPadded(v: Volume, chain: seq<nat>, data: seq<Byte>)
    requires Shape(v) && forall i :: 0 <= i < |chain| ==> IsData(v.next, chain[i])
    requires forall i :: 0 <= i < |chain| ==> v.clusters[chain[i]] == Piece(data, i, v.clusterBytes)
    ensures IsPadded(ChainBytes(v, chain), data, |chain| * v.clusterBytes)
  {
    if chain != [] {
      var front := chain[..|chain| - 1];
      ChainBytesPadded(v, front, data);
      PieceExtends(ChainBytes(v, front), data, |front|, v.clusterBytes);
    }
  }

  /** The clusters asked for are enough, and none is asked for without need. */
  lemma NeededCovers(length: nat, clusterBytes: nat)
    requires clusterBytes > 0
    ensures length <= ClustersNeeded(length, clusterBytes) * clusterBytes
    ensures ClustersNeeded(length, clusterBytes) * clusterBytes < length + clusterBytes
    ensures ClustersNeeded(length, clusterBytes) == 0 <==> length == 0
  {
  }

  // ---------------------------------------------------------------- one write

  ghost predicate WriteCase(v: Volume, name: Name, data: seq<Byte>, t: nat) {
    && WellFormed(v) && CanWrite(v, name, |data|) && IsTarget(v, name, t)
    && |data| < 0x8000_0000 && name[0] != 0
  }

  lemma WriteShape(v: Volume, name: Name, data: seq<Byte>, t: nat)
    requires WriteCase(v, name, data, t)
    ensures Shape(WriteResult(v, name, data, t))
  {
    var chain := NewChain(v, name, |data|);
    ReleasedCells(v, name);
    AllocateIs(Released(v, name), |chain|);
    StoredCells(v.clusters, chain, data, v.clusterBytes, |chain|);
  }

  /** A cluster of another file is never taken. */
  lemma TakenApart(v: Volume, name: Name, length: nat, t: nat, i: int)
    requires WellFormed(v) && CanWrite(v, name, length) && IsTarget(v, name, t) && Regular(v, i) && i != t
    ensures Apart(SlotChain(v, v.slots[i]), NewChain(v, name, length))
  {
    ReleasedCells(v, name);
    OldChainApart(v, name, t, i);
    ChainInUse(v.next, SlotStart(v.slots[i]));
  }

  /** Another file's clusters and cells stay. */
  lemma WriteElsewhere(v: Volume, name: Name, data: seq<Byte>, t: nat, i: int, c: nat)
    requires WriteCase(v, name, data, t) && Regular(v, i) && i != t && c in SlotChain(v, v.slots[i])
    ensures var w := WriteResult(v, name, data, t);
            && Shape(w) && c < |v.next| == |w.next| && w.next[c] == v.next[c] && w.clusters[c] == v.clusters[c]
  {
    hide EndsTogether, Stored, Released, Fat12EntryIsEnd;
    var chain := NewChain(v, name, |data|);
    WriteShape(v, name, data, t);
    ReleasedCells(v, name);
    AllocateIs(Released(v, name), |chain|);
    StoredCells(v.clusters, chain, data, v.clusterBytes, |chain|);
    TakenApart(v, name, |data|, t, i);
    OldChainApart(v, name, t, i);
    ChainInUse(v.next, SlotStart(v.slots[i]));
  }

  lemma WriteSlots(v: Volume, name: Name, data: seq<Byte>, t: nat)
    requires WriteCase(v, name, data, t)
    ensures var w := WriteResult(v, name, data, t);
            && EndsTogether(w) && t < |v.slots| == |w.slots| && w.entryCount == v.entryCount
            && (forall i :: 0 <= i < |v.slots| && i != t ==> w.slots[i] == v.slots[i])
            && (forall i :: i != t ==> (Regular(w, i) <==> Regular(v, i)))
            && (Regular(w, t) <==> name[0] != DELETED)
  {
    hide IsTarget, Allocate, Stored, Released;
    var w, chain := WriteResult(v, name, data, t), NewChain(v, name, |data|);
    TargetPlace(v, name, t);
    FileSlotFields(name, if chain == [] then 0 else chain[0], |data|);
    VisibleAfter(v, t, w.slots[t]);
    assert w.slots == v.slots[t := w.slots[t]];
  }

  lemma WriteKeepsOthers(v: Volume, name: Name, data: seq<Byte>, t: nat)
    requires WriteCase(v, name, data, t)
    ensures Shape(WriteResult(v, name, data, t)) && EndsTogether(WriteResult(v, name, data, t))
    ensures OthersKept(v, WriteResult(v, name, data, t), t)
    ensures Regular(WriteResult(v, name, data, t), t) <==> name[0] != DELETED
  {
    hide EndsTogether, IsTarget, Fat12EntryIsEnd, Allocate, Stored, Released;
    var w := WriteResult(v, name, data, t);
    WriteShape(v, name, data, t);
    WriteSlots(v, name, data, t);
    forall i, c | Regular(v, i) && i != t && c in SlotChain(v, v.slots[i])
      ensures w.next[c] == v.next[c] && w.clusters[c] == v.clusters[c]
    {
      WriteElsewhere(v, name, data, t, i, c);
    }
  }

  /** The written slot's chain is the new one, and reads back as the data. */
  lemma WriteTarget(v: Volume, name: Name, data: seq<Byte>, t: nat)
    requires WriteCase(v, name, data, t)
    ensures Shape(WriteResult(v, name, data, t)) && t < |v.slots|
    ensures var w := WriteResult(v, name, data, t);
            && SlotChain(w, w.slots[t]) == NewChain(v, name, |data|)
            && Covered(w, w.slots[t])
            && Contents(w, w.slots[t]) == Some(data)
  {
    var w := WriteResult(v, name, data, t);
    var chain := NewChain(v, name, |data|);
    WriteShape(v, name, data, t);
    TargetPlace(v, name, t);
    ReleasedCells(v, name);
    AllocateIs(Released(v, name), |chain|);
    StoredCells(v.clusters, chain, data, v.clusterBytes, |chain|);
    NeededCovers(|data|, v.clusterBytes);
    FileSlotFields(name, if chain == [] then 0 else chain[0], |data|);
    if chain == [] {
      assert !HasChain(w.next, 0);
    } else {
      ChainBytesPadded(w, chain, data);
      assert ChainBytes(w, chain)[..|data|] == data;
    }
  }

  lemma WrittenIsFound(v: Volume, name: Name, data: seq<Byte>, t: nat)
    requires WriteCase(v, name, data, t) && name[0] != DELETED
    ensures var w := WriteResult(v, name, data, t);
            Lookup(w.slots, w.entryCount, name) == Some(t)
  {
    var w := WriteResult(v, name, data, t);
    var chain := NewChain(v, name, |data|);
    WriteKeepsOthers(v, name, data, t);
    TargetPlace(v, name, t);
    FileSlotFields(name, if chain == [] then 0 else chain[0], |data|);
    assert Regular(w, t) && Matches(w.slots, w.entryCount, name, t);
    forall j | 0 <= j < t ensures !Matches(w.slots, w.entryCount, name, j) {
      assert Regular(w, j) <==> Regular(v, j);
      assert !Matches(v.slots, v.entryCount, name, j);
    }
    LookupUnique(w.slots, w.entryCount, name, Lookup(w.slots, w.entryCount, name), Some(t));
  }

  /** A deleted mark hides a name from every lookup. */
  lemma HiddenName(slots: seq<Slot>, count: nat, name: Name)
    requires name[0] == DELETED
    ensures Lookup(slots, count, name) == None
  {
  }

  /** A written file reads back exactly, unless its name starts with the deleted
      mark 0xE5; every other name reads as before; the volume stays well formed. */
  lemma WriteTheorem(v: Volume, name: Name, data: seq<Byte>, t: nat)
    requires WriteCase(v, name, data, t)
    ensures WellFormed(WriteResult(v, name, data, t))
    ensures ReadBack(WriteResult(v, name, data, t), name) == Some(data) <==> name[0] != DELETED
    ensures forall other: Name :: other != name ==> ReadBack(WriteResult(v, name, data, t), other) == ReadBack(v, other)
  {
    var w := WriteResult(v, name, data, t);
    WriteKeepsOthers(v, name, data, t);
    WriteTarget(v, name, data, t);
    forall i | Regular(v, i) && i != t ensures Apart(SlotChain(w, w.slots[t]), SlotChain(v, v.slots[i])) {
      TakenApart(v, name, |data|, t, i);
    }
    StaysWellFormed(v, w, t);
    if name[0] != DELETED {
      WrittenIsFound(v, name, data, t);
    } else {
      HiddenName(w.slots, w.entryCount, name);
    }
    forall other: Name | other != name ensures ReadBack(w, other) == ReadBack(v, other) {
      TargetPlace(v, name, t);
      FileSlotFields(name, if NewChain(v, name, |data|) == [] then 0 else NewChain(v, name, |data|)[0], |data|);
      OtherNamesKept(v, w, t, other);
    }
  }

  /** The clusters a write takes were free or belonged to the file's old version,
      and the table moves nowhere else. */
  lemma WriteCells(v: Volume, name: Name, data: seq<Byte>, t: nat)
    requires WriteCase(v, name, data, t)
    ensures var w := WriteResult(v, name, data, t);
            var chain := NewChain(v, name, |data|);
            && (forall c :: c in chain ==> IsData(v.next, c) && (v.next[c] == 0 || c in OldChain(v, name)))
            && (forall c :: c in chain ==> w.next[c] != 0)
            && (forall c :: IsData(v.next, c) && c !in chain ==>
                  w.next[c] == if c in OldChain(v, name) then 0 else v.next[c])
  {
    var chain := NewChain(v, name, |data|);
    ReleasedCells(v, name);
    AllocateIs(Released(v, name), |chain|);
    if chain != [] {
      ChainInUse(Allocate(Released(v, name), |chain|), chain[0]);
    }
  }

  /** A write leaks no cluster and seizes none, unless the name it was given can
      never be found again. */
  lemma WriteOrphans(v: Volume, name: Name, data: seq<Byte>, t: nat)
    requires WriteCase(v, name, data, t)
    ensures (forall c :: Orphan(WriteResult(v, name, data, t), c) <==> Orphan(v, c))
       <==> (name[0] != DELETED || data == [])
  {
    var w := WriteResult(v, name, data, t);
    var chain := NewChain(v, name, |data|);
    WriteKeepsOthers(v, name, data, t);
    WriteTarget(v, name, data, t);
    WriteCells(v, name, data, t);
    TargetPlace(v, name, t);
    NeededCovers(|data|, v.clusterBytes);
    if name[0] == DELETED {
      HiddenName(v.slots, v.entryCount, name);
    }
    assert ChainAt(v, t) == OldChain(v, name);
    if name[0] != DELETED || data == [] {
      assert ChainAt(w, t) == chain;
      OrphansKept(v, w, t);
    } else {
      var c := chain[0];
      HiddenIsOrphan(v, w, t, c);
      assert !Orphan(v, c);
    }
  }

  lemma HiddenIsOrphan(v: Volume, w: Volume, t: nat, c: int)
    requires WellFormed(v) && Shape(w) && OthersKept(v, w, t) && !Regular(w, t)
    requires IsData(v.next, c) && v.next[c] == 0 && w.next[c] != 0
    ensures Orphan(w, c)
  {
    if Owned(w, c) {
      var i :| Regular(w, i) && c in SlotChain(w, w.slots[i]);
      ChainInUse(v.next, SlotStart(v.slots[i]));
      OtherSlotKept(v, w, t, i);
    }
  }

  // --------------------------------------------------------------------- runs

  datatype Op = Write(name: Name, data: seq<Byte>) | Delete(name: Name)

  /** Names that can be found again: not starting with an end or deleted mark. */
  predicate Usable(op: Op) {
    op.name[0] != 0 && op.name[0] != DELETED && (op.Write? ==> |op.data| < 0x8000_0000)
  }

  /** The call goes through; otherwise it returns -1 and leaves the volume alone. */
  ghost predicate Accepted(v: Volume, op: Op)
    requires Shape(v)
  {
    match op
    case Write(name, data) => CanWrite(v, name, |data|)
    case Delete(name) => Lookup(v.slots, v.entryCount, name).Some?
  }

  ghost function Apply(v: Volume, op: Op): Volume
    requires Shape(v) && Usable(op)
  {
    if !Accepted(v, op) then v
    else match op
      case Write(name, data) => var t :| IsTarget(v, name, t); WriteResult(v, name, data, t)
      case Delete(name) => DeleteResult(v, name)
  }

  /** The files by name. */
  ghost function Files(v: Volume): imap<Name, seq<Byte>>
    requires Shape(v)
  {
    imap name: Name | ReadBack(v, name).Some? :: ReadBack(v, name).value
  }

  /** The same operation on a plain map from names to contents. */
  ghost function ApplyToFiles(files: imap<Name, seq<Byte>>, op: Op): imap<Name, seq<Byte>> {
    match op
    case Write(name, data) => files[name := data]
    case Delete(name) => files - {name}
  }

  lemma WriteKeepsNames(v: Volume, name: Name, data: seq<Byte>, t: nat)
    requires WriteCase(v, name, data, t) && UniqueNames(v)
    ensures UniqueNames(WriteResult(v, name, data, t))
  {
    var w := WriteResult(v, name, data, t);
    WriteKeepsOthers(v, name, data, t);
    TargetPlace(v, name, t);
    FileSlotFields(name, if NewChain(v, name, |data|) == [] then 0 else NewChain(v, name, |data|)[0], |data|);
    forall i | Regular(w, i) && i != t ensures SlotName(w.slots[i]) != name {
      assert Regular(v, i);
      assert Matches(v.slots, v.entryCount, name, i) <==> SlotName(v.slots[i]) == name;
    }
  }

  /** No visible entry but the first has the name. */
  ghost predicate OneEntry(v: Volume, name: Name)
    requires Lookup(v.slots, v.entryCount, name).Some?
  {
    forall i :: Matches(v.slots, v.entryCount, name, i) ==> i == Lookup(v.slots, v.entryCount, name).value
  }

  /** A deleted name reads as nothing exactly if it had one entry; otherwise the next entry
      shows through. */
  lemma DeletedIsGone(v: Volume, name: Name)
    requires WellFormed(v) && Lookup(v.slots, v.entryCount, name).Some?
    ensures Shape(DeleteResult(v, name))
    ensures ReadBack(DeleteResult(v, name), name) == None <==> OneEntry(v, name)
    ensures UniqueNames(v) ==> OneEntry(v, name) && UniqueNames(DeleteResult(v, name))
  {
    var w, t := DeleteResult(v, name), Lookup(v.slots, v.entryCount, name).value;
    DeleteKeepsOthers(v, name);
    forall i ensures Matches(w.slots, w.entryCount, name, i) <==> Matches(v.slots, v.entryCount, name, i) && i != t {
      assert i != t ==> (Regular(w, i) <==> Regular(v, i));
    }
    match Lookup(w.slots, w.entryCount, name)
    case None =>
    case Some(i) => OtherSlotKept(v, w, t, i);
  }

  /** An accepted delete of a name that has a second visible entry. */
  ghost predicate Shadowed(v: Volume, op: Op)
    requires Shape(v)
  {
    op.Delete? && Accepted(v, op) && !OneEntry(v, op.name)
  }

  lemma FilesWith(v: Volume, w: Volume, name: Name, data: seq<Byte>)
    requires Shape(v) && Shape(w) && ReadBack(w, name) == Some(data)
    requires forall other: Name :: other != name ==> ReadBack(w, other) == ReadBack(v, other)
    ensures Files(w) == Files(v)[name := data]
  {
    hide ReadBack, Shape;
  }

  lemma FilesWithout(v: Volume, w: Volume, name: Name)
    requires Shape(v) && Shape(w)
    requires forall other: Name :: other != name ==> ReadBack(w, other) == ReadBack(v, other)
    ensures Files(w) == Files(v) - {name} <==> ReadBack(w, name) == None
  {
    hide ReadBack, Shape;
    if ReadBack(w, name) == None {
      forall other: Name ensures other in Files(w) <==> other in Files(v) - {name} {
      }
    } else {
      assert name in Files(w) && name !in Files(v) - {name};
    }
  }

  lemma WriteStep(v: Volume, op: Op, t: nat)
    requires WellFormed(v) && Usable(op) && op.Write? && Accepted(v, op) && IsTarget(v, op.name, t)
    ensures var w := WriteResult(v, op.name, op.data, t);
            && WellFormed(w) && (UniqueNames(v) ==> UniqueNames(w))
            && (forall c :: Orphan(w, c) <==> Orphan(v, c))
            && Files(w) == ApplyToFiles(Files(v), op)
  {
    hide WellFormed, Files;
    WriteTheorem(v, op.name, op.data, t);
    WriteOrphans(v, op.name, op.data, t);
    if UniqueNames(v) {
      WriteKeepsNames(v, op.name, op.data, t);
    }
    HasShape(v);
    HasShape(WriteResult(v, op.name, op.data, t));
    FilesWith(v, WriteResult(v, op.name, op.data, t), op.name, op.data);
  }

  lemma HasShape(v: Volume)
    requires WellFormed(v)
    ensures Shape(v)
  {
  }

  lemma DeleteStep(v: Volume, op: Op)
    requires WellFormed(v) && Usable(op) && op.Delete? && Accepted(v, op)
    ensures var w := DeleteResult(v, op.name);
            && WellFormed(w) && (UniqueNames(v) ==> UniqueNames(w) && !Shadowed(v, op))
            && (forall c :: Orphan(w, c) <==> Orphan(v, c))
            && (Files(w) == ApplyToFiles(Files(v), op) <==> !Shadowed(v, op))
  {
    DeleteTheorem(v, op.name);
    DeletedIsGone(v, op.name);
    FilesWithout(v, DeleteResult(v, op.name), op.name);
  }

  /** One call: the volume stays well formed and its orphans stay. Its files change as the
      plain map does, but for one case: deleting a name that has a second entry. */
  lemma StepTheorem(v: Volume, op: Op)
    requires WellFormed(v) && Usable(op)
    ensures WellFormed(Apply(v, op))
    ensures forall c :: Orphan(Apply(v, op), c) <==> Orphan(v, c)
    ensures !Shadowed(v, op) <==>
      Files(Apply(v, op)) == if Accepted(v, op) then ApplyToFiles(Files(v), op) else Files(v)
    ensures UniqueNames(v) ==> UniqueNames(Apply(v, op)) && !Shadowed(v, op)
  {
    hide WellFormed, Orphan, Files, UniqueNames, ApplyToFiles, OneEntry;
    HasShape(v);
    if Accepted(v, op) {
      if op.Write? {
        var t :| IsTarget(v, op.name, t) && Apply(v, op) == WriteResult(v, op.name, op.data, t);
        WriteStep(v, op, t);
      } else {
        DeleteStep(v, op);
      }
    }
  }

  lemma StepWellFormed(v: Volume, op: Op)
    requires WellFormed(v) && Usable(op)
    ensures WellFormed(Apply(v, op))
  {
    StepTheorem(v, op);
  }

  ghost predicate AllUsable(ops: seq<Op>) {
    forall i :: 0 <= i < |ops| ==> Usable(ops[i])
  }

  ghost function Run(v: Volume, ops: seq<Op>): Volume
    requires WellFormed(v) && AllUsable(ops)
    decreases |ops|
  {
    if ops == [] then v
    else
      StepWellFormed(v, ops[0]);
      Run(Apply(v, ops[0]), ops[1..])
  }

  /** Which calls of a run go through. */
  ghost function Outcomes(v: Volume, ops: seq<Op>): (r: seq<bool>)
    requires WellFormed(v) && AllUsable(ops)
    ensures |r| == |ops|
    decreases |ops|
  {
    if ops == [] then []
    else
      StepWellFormed(v, ops[0]);
      [Accepted(v, ops[0])] + Outcomes(Apply(v, ops[0]), ops[1..])
  }

  /** No delete of the run meets a second entry of its name. */
  ghost predicate NeverShadowed(v: Volume, ops: seq<Op>)
    requires WellFormed(v) && AllUsable(ops)
    decreases |ops|
  {
    ops == [] || (
      StepWellFormed(v, ops[0]);
      !Shadowed(v, ops[0]) && NeverShadowed(Apply(v, ops[0]), ops[1..]))
  }

  ghost function RunFiles(files: imap<Name, seq<Byte>>, ops: seq<Op>, done: seq<bool>): imap<Name, seq<Byte>>
    requires |ops| == |done|
  {
    if ops == [] then files
    else RunFiles(if done[0] then ApplyToFiles(files, ops[0]) else files, ops[1..], done[1..])
  }

  /** Any run of writes and deletes keeps the volume well formed, and neither leaks nor seizes
      a cluster. As long as no delete meets a second entry, it refines the same run on a plain
      map. */
  lemma {:induction false} RunTheorem(v: Volume, ops: seq<Op>)
    requires WellFormed(v) && AllUsable(ops)
    ensures WellFormed(Run(v, ops))
    ensures forall c :: Orphan(Run(v, ops), c) <==> Orphan(v, c)
    ensures NeverShadowed(v, ops) ==> Files(Run(v, ops)) == RunFiles(Files(v), ops, Outcomes(v, ops))
    decreases |ops|
  {
    hide WellFormed, Orphan, Files, Shadowed, ApplyToFiles, Apply, Accepted;
    if ops != [] {
      HasShape(v);
      StepTheorem(v, ops[0]);
      RunTheorem(Apply(v, ops[0]), ops[1..]);
      assert Outcomes(v, ops)[1..] == Outcomes(Apply(v, ops[0]), ops[1..]);
    }
  }

  /** From a volume without duplicate names no run ever meets one. */
  lemma {:induction false} UniqueStaysUnique(v: Volume, ops: seq<Op>)
    requires WellFormed(v) && AllUsable(ops) && UniqueNames(v)
    ensures NeverShadowed(v, ops) && UniqueNames(Run(v, ops))
    decreases |ops|
  {
    hide WellFormed, UniqueNames, Shadowed, Apply, Accepted, Orphan, Files, ApplyToFiles;
    if ops != [] {
      HasShape(v);
      StepTheorem(v, ops[0]);
      UniqueStaysUnique(Apply(v, ops[0]), ops[1..]);
    }
  }
}
