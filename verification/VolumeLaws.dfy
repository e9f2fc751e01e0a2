/** What one write or delete does to a well-formed volume. */
module VolumeLaws {
  import opened Words
  import opened Chains
  import opened Directory
  import opened Volume

  // -------------------------------------------------- one slot is replaced

  /** Every slot up to and including `t` can be seen once slot `t` is filled. */
  lemma VisibleAfter(v: Volume, t: nat, s: Slot)
    requires EndsTogether(v) && t < v.entryCount <= |v.slots|
    requires forall j :: 0 <= j < t ==> !Fat12EntryIsEnd(v.slots[j])
    requires !Fat12EntryIsEnd(s)
    ensures forall i :: i != t ==> (RegularAt(v.slots[t := s], v.entryCount, i) <==> Regular(v, i))
    ensures RegularAt(v.slots[t := s], v.entryCount, t) <==> Fat12EntryIsRegularFile(s)
    ensures EndsTogether(v.(slots := v.slots[t := s]))
  {
  }

  /** Nothing of the files other than slot `t` moves from `v` to `w`. */
  ghost predicate OthersKept(v: Volume, w: Volume, t: nat)
    requires Shape(v) && Shape(w)
  {
    && |w.next| == |v.next| && w.clusterBytes == v.clusterBytes
    && w.entryCount == v.entryCount && |w.slots| == |v.slots| && t < |v.slots|
    && (forall i :: 0 <= i < |v.slots| && i != t ==> w.slots[i] == v.slots[i])
    && (forall i :: i != t ==> (Regular(w, i) <==> Regular(v, i)))
    && (forall i, c :: Regular(v, i) && i != t && c in SlotChain(v, v.slots[i]) ==>
          w.next[c] == v.next[c] && w.clusters[c] == v.clusters[c])
  }

  lemma {:induction false} ChainBytesFrame(v: Volume, w: Volume, chain: seq<nat>)
    requires Shape(v) && Shape(w) && |v.next| == |w.next| && v.clusterBytes == w.clusterBytes
    requires forall i :: 0 <= i < |chain| ==> IsData(v.next, chain[i])
    requires forall c :: c in chain ==> w.clusters[c] == v.clusters[c]
    ensures ChainBytes(w, chain) == ChainBytes(v, chain)
  {
    if chain != [] {
      ChainBytesFrame(v, w, chain[..|chain| - 1]);
    }
  }

  /** A file away from the target keeps its chain and its contents. */
  lemma OtherSlotKept(v: Volume, w: Volume, t: nat, i: nat)
    requires WellFormed(v) && Shape(w) && OthersKept(v, w, t)
    requires Regular(v, i) && i != t
    ensures SlotChain(w, w.slots[i]) == SlotChain(v, v.slots[i])
    ensures Covered(w, w.slots[i])
    ensures Contents(w, w.slots[i]) == Contents(v, v.slots[i])
  {
    var s := v.slots[i];
    assert Covered(v, s);
    if SlotStart(s) == 0 {
      assert !HasChain(w.next, 0);
      assert !HasChain(v.next, 0);
    } else {
      ChainFrame(v.next, w.next, SlotStart(s));
      ChainBytesFrame(v, w, SlotChain(v, s));
    }
  }

  /** Reading any name but the target's own is unaffected. */
  lemma OtherNamesKept(v: Volume, w: Volume, t: nat, name: Name)
    requires WellFormed(v) && Shape(w) && OthersKept(v, w, t)
    requires Regular(v, t) ==> SlotName(v.slots[t]) != name
    requires Regular(w, t) ==> SlotName(w.slots[t]) != name
    ensures ReadBack(w, name) == ReadBack(v, name)
  {
    forall i ensures Matches(w.slots, w.entryCount, name, i) <==> Matches(v.slots, v.entryCount, name, i) {
      if i != t {
        assert Regular(w, i) <==> Regular(v, i);
      }
    }
    LookupUnique(v.slots, v.entryCount, name,
      Lookup(v.slots, v.entryCount, name), Lookup(w.slots, w.entryCount, name));
    match Lookup(v.slots, v.entryCount, name)
    case Some(i) => OtherSlotKept(v, w, t, i);
    case None =>
  }

  /** Well-formedness survives when the target's own slot is fit afterwards. */
  lemma StaysWellFormed(v: Volume, w: Volume, t: nat)
    requires WellFormed(v) && Shape(w) && OthersKept(v, w, t) && EndsTogether(w)
    requires Regular(w, t) ==> Covered(w, w.slots[t])
    requires Regular(w, t) ==>
      forall i :: Regular(v, i) && i != t ==> Apart(SlotChain(w, w.slots[t]), SlotChain(v, v.slots[i]))
    ensures WellFormed(w)
  {
    forall i | Regular(w, i) ensures Covered(w, w.slots[i]) {
      if i != t {
        OtherSlotKept(v, w, t, i);
      }
    }
    forall i, j | Regular(w, i) && Regular(w, j) && i != j
      ensures Apart(SlotChain(w, w.slots[i]), SlotChain(w, w.slots[j]))
    {
      if i != t {
        OtherSlotKept(v, w, t, i);
      }
      if j != t {
        OtherSlotKept(v, w, t, j);
      }
    }
  }

  // ------------------------------------------------------ freeing a version

  /** The clusters of the version of the file that is about to go. */
  ghost function OldChain(v: Volume, name: Name): seq<nat> {
    match Lookup(v.slots, v.entryCount, name)
    case Some(i) => SlotChain(v, v.slots[i])
    case None => []
  }

  lemma NothingBehindZero(next: seq<nat>, k: nat)
    ensures Orbit(next, 0, k) == 0
  {
  }

  /** Freeing on a well-formed volume clears exactly the old version's clusters. */
  lemma ReleasedCells(v: Volume, name: Name)
    requires WellFormed(v)
    ensures IsTable(Released(v, name))
    ensures forall c :: 0 <= c < |v.next| ==>
      Released(v, name)[c] == if c in OldChain(v, name) then 0 else v.next[c]
  {
    match Lookup(v.slots, v.entryCount, name)
    case None =>
    case Some(i) =>
      var start := SlotStart(v.slots[i]);
      assert Covered(v, v.slots[i]);
      if start == 0 {
        forall c: nat ensures !Reaches(v.next, 0, c) {
          forall k: nat ensures Orbit(v.next, 0, k) == 0 {
            NothingBehindZero(v.next, k);
          }
        }
      } else {
        ChainReaches(v.next, start);
      }
  }

  lemma OldChainApart(v: Volume, name: Name, t: nat, i: nat)
    requires WellFormed(v) && IsTarget(v, name, t) && Regular(v, i) && i != t
    ensures Apart(SlotChain(v, v.slots[i]), OldChain(v, name))
  {
  }

  /** The slot a write goes to leaves every earlier slot visible. */
  lemma TargetPlace(v: Volume, name: Name, t: nat)
    requires IsTarget(v, name, t)
    ensures t < v.entryCount <= |v.slots|
    ensures forall j :: 0 <= j < t ==> !Fat12EntryIsEnd(v.slots[j])
    ensures Regular(v, t) ==> Lookup(v.slots, v.entryCount, name) == Some(t)
  {
  }

  // ---------------------------------------------------------------- deleting

  lemma DeletedSlotIs()
    ensures !Fat12EntryIsEnd(DeletedSlot()) && !Fat12EntryIsRegularFile(DeletedSlot())
  {
  }

  lemma DeleteKeepsOthers(v: Volume, name: Name)
    requires WellFormed(v) && Lookup(v.slots, v.entryCount, name).Some?
    ensures Shape(DeleteResult(v, name)) && EndsTogether(DeleteResult(v, name))
    ensures OthersKept(v, DeleteResult(v, name), Lookup(v.slots, v.entryCount, name).value)
    ensures !Regular(DeleteResult(v, name), Lookup(v.slots, v.entryCount, name).value)
  {
    var w := DeleteResult(v, name);
    var t := Lookup(v.slots, v.entryCount, name).value;
    ReleasedCells(v, name);
    DeletedSlotIs();
    VisibleAfter(v, t, DeletedSlot());
    assert EndsTogether(w);
    forall i, c | Regular(v, i) && i != t && c in SlotChain(v, v.slots[i])
      ensures w.next[c] == v.next[c] && w.clusters[c] == v.clusters[c]
    {
      OldChainApart(v, name, t, i);
      ChainInUse(v.next, SlotStart(v.slots[i]));
    }
  }

  /** Deleting keeps the volume well formed, every other file, and the orphans;
      the freed clusters are exactly those of the file. */
  lemma DeleteTheorem(v: Volume, name: Name)
    requires WellFormed(v) && Lookup(v.slots, v.entryCount, name).Some?
    ensures WellFormed(DeleteResult(v, name))
    ensures forall other: Name :: other != name ==> ReadBack(DeleteResult(v, name), other) == ReadBack(v, other)
    ensures forall c :: Orphan(DeleteResult(v, name), c) <==> Orphan(v, c)
    ensures forall c :: IsData(v.next, c) ==>
      (DeleteResult(v, name).next[c] == 0 <==> v.next[c] == 0 || c in OldChain(v, name))
  {
    var w := DeleteResult(v, name);
    var t := Lookup(v.slots, v.entryCount, name).value;
    DeleteKeepsOthers(v, name);
    StaysWellFormed(v, w, t);
    forall other: Name | other != name ensures ReadBack(w, other) == ReadBack(v, other) {
      OtherNamesKept(v, w, t, other);
    }
    ReleasedCells(v, name);
    OrphansKept(v, w, t);
  }

  // ----------------------------------------------------------------- orphans

  /** The chain of slot `t` while it is a visible regular file. */
  ghost function ChainAt(v: Volume, t: nat): seq<nat> {
    if Regular(v, t) then SlotChain(v, v.slots[t]) else []
  }

  /** If the target's clusters are replaced and the table changes only there, no
      cluster is leaked or seized. */
  lemma OrphansKept(v: Volume, w: Volume, t: nat)
    requires WellFormed(v) && Shape(w) && OthersKept(v, w, t)
    requires forall c :: c in ChainAt(w, t) ==> IsData(v.next, c) && (v.next[c] == 0 || c in ChainAt(v, t))
    requires forall c :: IsData(v.next, c) && c !in ChainAt(w, t) ==>
      w.next[c] == if c in ChainAt(v, t) then 0 else v.next[c]
    ensures forall c :: Orphan(w, c) <==> Orphan(v, c)
  {
    forall c | IsData(v.next, c) ensures Orphan(w, c) <==> Orphan(v, c) {
      if c in ChainAt(w, t) {
        assert Owned(w, c);
        assert c in ChainAt(v, t) ==> Owned(v, c);
      } else if c in ChainAt(v, t) {
        assert Owned(v, c);
      } else {
        OwnedElsewhere(v, w, t, c);
      }
    }
  }

  lemma OwnedElsewhere(v: Volume, w: Volume, t: nat, c: int)
    requires WellFormed(v) && Shape(w) && OthersKept(v, w, t)
    requires c !in ChainAt(v, t) && c !in ChainAt(w, t)
    ensures Owned(w, c) <==> Owned(v, c)
  {
    if Owned(v, c) {
      var i :| Regular(v, i) && c in SlotChain(v, v.slots[i]);
      OtherSlotKept(v, w, t, i);
      assert Regular(w, i) && c in SlotChain(w, w.slots[i]);
    }
    if Owned(w, c) {
      var i :| Regular(w, i) && c in SlotChain(w, w.slots[i]);
      OtherSlotKept(v, w, t, i);
      assert Regular(v, i) && c in SlotChain(v, v.slots[i]);
    }
  }
}
