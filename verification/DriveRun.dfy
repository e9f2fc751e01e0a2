/** Whole runs of kernel/fs/fat12.c on one drive: writes and deletes whose transfers may fail at
    any sector, as long as no rollback fails too. */
module DriveRun {
  import opened Words
  import opened Directory
  import opened Names
  import opened Volume
  import opened VolumeLaws
  import opened WriteLaws
  import opened Disk
  import opened DiskView
  import opened Fat12

  datatype DriveCall =
    | Store(path: seq<Byte>, data: seq<Byte>)
    | Remove(path: seq<Byte>)

  predicate Proper(c: DriveCall) {
    c.Store? ==> 0 !in c.path && |c.data| < 0x8000_0000
  }

  ghost predicate Ended(d0: Sectors, d1: Sectors, c: DriveCall, ending: Ending) {
    && Fat12.Usable(d0) && Proper(c)
    && match c
       case Store(path, data) => exists t: nat :: WriteEnded(d0, d1, path, data, ending, t)
       case Remove(path) => DeleteEnded(d0, d1, path, ending)
  }

  ghost function VolumeOn(d: Sectors): Volume
    requires GoodDrive(d)
  {
    View(d, Layout(d).value)
  }

  /** What a program that knows only calls and results knows of a path. */
  datatype Knowledge = Unknown | Known(contents: Option<seq<Byte>>)

  ghost predicate IsTrue(d: Sectors, path: seq<Byte>, k: Knowledge) {
    Fat12.Usable(d) && (k.Known? ==> FileAt(d, path) == k.contents)
  }

  /** A call about another name, or refused, teaches nothing. A failed write may have spoilt an
      older version but makes no new one; a failed delete changes nothing. Where names occur
      twice, a delete may bring an older file to light. */
  ghost function Learn(k: Knowledge, c: DriveCall, ending: Ending, path: seq<Byte>, unique: bool): Knowledge {
    if ending == Refused || NameFor(c.path) != NameFor(path) || NameFor(path) == None then k
    else match c
      case Store(_, data) =>
        if NameFor(path).value[0] == DELETED then Known(None)
        else if ending == Done then Known(Some(data))
        else if k == Known(None) then k
        else Unknown
      case Remove(_) =>
        if ending != Done then k
        else if unique then Known(None)
        else Unknown
  }

  /** A write under a name that cannot be found again. */
  ghost predicate Loses(c: DriveCall, ending: Ending) {
    c.Store? && ending == Done && c.data != [] && NameFor(c.path).Some? && NameFor(c.path).value[0] == DELETED
  }

  /** What one call keeps. */
  ghost predicate Keeps(d0: Sectors, d1: Sectors, c: DriveCall, ending: Ending) {
    && GoodDrive(d0) && GoodDrive(d1)
    && (UniqueNames(VolumeOn(d0)) ==> UniqueNames(VolumeOn(d1)))
    && (!Loses(c, ending) ==> forall x :: Orphan(VolumeOn(d1), x) <==> Orphan(VolumeOn(d0), x))
    && forall path, k ::
      IsTrue(d0, path, k) ==> IsTrue(d1, path, Learn(k, c, ending, path, UniqueNames(VolumeOn(d0))))
  }

  lemma HiddenReadsNothing(d: Sectors, path: seq<Byte>)
    requires Fat12.Usable(d) && NameFor(path).Some? && NameFor(path).value[0] == DELETED
    ensures FileAt(d, path) == None
  {
    if Layout(d).Some? {
      HiddenName(View(d, Layout(d).value).slots, View(d, Layout(d).value).entryCount, NameFor(path).value);
    }
  }

  /** What a completed call does to the volume, and what it does to the paths. */
  ghost predicate VolumeKept(d0: Sectors, d1: Sectors, lost: bool)
    requires GoodDrive(d0) && GoodDrive(d1)
  {
    && (UniqueNames(VolumeOn(d0)) ==> UniqueNames(VolumeOn(d1)))
    && (!lost ==> forall x :: Orphan(VolumeOn(d1), x) <==> Orphan(VolumeOn(d0), x))
  }

  lemma StoreKeepsVolume(d0: Sectors, d1: Sectors, c: DriveCall, t: nat)
    requires GoodDrive(d0) && GoodDrive(d1) && Proper(c) && c.Store? && WriteEnded(d0, d1, c.path, c.data, Done, t)
    ensures VolumeKept(d0, d1, Loses(c, Done))
  {
    hide WellFormed, Contents, Orphan, UniqueNames, Shape, ReadBack;
    var v, name := VolumeOn(d0), NameFor(c.path).value;
    LayoutKept(d0, d1, Layout(d0).value);
    DenotesNonzero(c.path, name);
    WriteOrphans(v, name, c.data, t);
    if UniqueNames(v) {
      WriteKeepsNames(v, name, c.data, t);
    }
  }

  lemma StoreDone(d0: Sectors, d1: Sectors, c: DriveCall, t: nat)
    requires GoodDrive(d0) && Proper(c) && c.Store? && WriteEnded(d0, d1, c.path, c.data, Done, t)
    ensures Keeps(d0, d1, c, Done)
  {
    hide GoodDrive, Orphan, UniqueNames, IsTrue, Learn, WriteChanged;
    WriteDone(d0, d1, c.path, c.data, t);
    StoreKeepsVolume(d0, d1, c, t);
    GoodIsUsable(d1);
    forall path, k | IsTrue(d0, path, k)
      ensures IsTrue(d1, path, Learn(k, c, Done, path, UniqueNames(VolumeOn(d0))))
    {
      StoreTeaches(d0, d1, c, path, k, UniqueNames(VolumeOn(d0)));
    }
  }

  lemma StoreTeaches(d0: Sectors, d1: Sectors, c: DriveCall, path: seq<Byte>, k: Knowledge, unique: bool)
    requires Fat12.Usable(d0) && Fat12.Usable(d1) && c.Store? && NameFor(c.path).Some? && IsTrue(d0, path, k)
    requires FileAt(d1, c.path) == Some(c.data) <==> NameFor(c.path).value[0] != DELETED
    requires forall other :: NameFor(other) != NameFor(c.path) ==> FileAt(d1, other) == FileAt(d0, other)
    ensures IsTrue(d1, path, Learn(k, c, Done, path, unique))
  {
    hide FileAt;
    SameName(d1, c.path, path);
    if NameFor(path).Some? && NameFor(path).value[0] == DELETED {
      HiddenReadsNothing(d1, path);
    }
  }

  lemma SameName(d: Sectors, path: seq<Byte>, other: seq<Byte>)
    requires Fat12.Usable(d)
    ensures NameFor(path) == NameFor(other) ==> FileAt(d, path) == FileAt(d, other)
  {
  }

  /** The root directory and the tables fix names and lost clusters. */
  lemma MetaFixes(d0: Sectors, d1: Sectors)
    requires GoodDrive(d0) && GoodDrive(d1) && Layout(d1) == Layout(d0) && SameMeta(d0, d1, Layout(d0).value)
    ensures UniqueNames(VolumeOn(d0)) <==> UniqueNames(VolumeOn(d1))
    ensures forall x :: Orphan(VolumeOn(d1), x) <==> Orphan(VolumeOn(d0), x)
  {
    hide WellFormed;
    var v, w := VolumeOn(d0), VolumeOn(d1);
    assert w == v.(clusters := w.clusters);
  }

  lemma StoreFailed(d0: Sectors, d1: Sectors, c: DriveCall, ending: Ending, t: nat)
    requires GoodDrive(d0) && Proper(c) && c.Store? && WriteEnded(d0, d1, c.path, c.data, ending, t)
    requires ending in {Refused, DataLost, RolledBack(true)}
    ensures Keeps(d0, d1, c, ending)
  {
    hide WellFormed, Contents, Orphan, UniqueNames, Shape, ReadBack, SameMeta, IsTrue, Learn;
    WriteFailed(d0, d1, c.path, c.data, ending, t);
    if ending != Refused {
      LayoutKept(d0, d1, Layout(d0).value);
    }
    MetaFixes(d0, d1);
    forall path, k | IsTrue(d0, path, k)
      ensures IsTrue(d1, path, Learn(k, c, ending, path, UniqueNames(VolumeOn(d0))))
    {
      FailureTeaches(d0, d1, c, ending, path, k, UniqueNames(VolumeOn(d0)));
    }
  }

  lemma FailureTeaches(d0: Sectors, d1: Sectors, c: DriveCall, ending: Ending, path: seq<Byte>, k: Knowledge,
      unique: bool)
    requires Fat12.Usable(d0) && Fat12.Usable(d1) && c.Store? && ending != Done && IsTrue(d0, path, k)
    requires if ending == Refused then d1 == d0 else NameFor(c.path).Some?
    requires forall other :: NameFor(other) != NameFor(c.path) ==> FileAt(d1, other) == FileAt(d0, other)
    requires FileAt(d0, c.path) == None ==> FileAt(d1, c.path) == None
    ensures IsTrue(d1, path, Learn(k, c, ending, path, unique))
  {
    hide FileAt;
    SameName(d0, c.path, path);
    SameName(d1, c.path, path);
    if NameFor(path).Some? && NameFor(path).value[0] == DELETED {
      HiddenReadsNothing(d1, path);
    }
  }

  lemma RemoveDone(d0: Sectors, d1: Sectors, c: DriveCall)
    requires GoodDrive(d0) && c.Remove? && DeleteEnded(d0, d1, c.path, Done)
    ensures Keeps(d0, d1, c, Done)
  {
    hide WellFormed, Contents, Orphan, UniqueNames, Shape, ReadBack;
    var info, name := Layout(d0).value, NameFor(c.path).value;
    DeleteDone(d0, d1, c.path);
    LayoutKept(d0, d1, info);
    var v := View(d0, info);
    DeleteTheorem(v, name);
    DeletedIsGone(v, name);
    forall path, k | IsTrue(d0, path, k) ensures IsTrue(d1, path, Learn(k, c, Done, path, UniqueNames(v))) {
      SameName(d1, c.path, path);
    }
  }

  lemma RemoveFailed(d0: Sectors, d1: Sectors, c: DriveCall, ending: Ending)
    requires GoodDrive(d0) && c.Remove? && DeleteEnded(d0, d1, c.path, ending)
    requires ending in {Refused, RolledBack(true)}
    ensures Keeps(d0, d1, c, ending)
  {
    hide WellFormed, Contents, Orphan, UniqueNames, Shape, ReadBack, SameMeta;
    DeleteFailed(d0, d1, c.path, ending);
    if ending != Refused {
      LayoutKept(d0, d1, Layout(d0).value);
    }
    MetaFixes(d0, d1);
  }

  /** One call on a good drive keeps it good, and what was known true. */
  lemma CallKeeps(d0: Sectors, d1: Sectors, c: DriveCall, ending: Ending)
    requires GoodDrive(d0) && Ended(d0, d1, c, ending) && ending != RolledBack(false)
    ensures Keeps(d0, d1, c, ending)
  {
    hide GoodDrive, WriteChanged, Keeps;
    match c
    case Store(path, data) =>
      var t: nat :| WriteEnded(d0, d1, path, data, ending, t);
      if ending == Done {
        StoreDone(d0, d1, c, t);
      } else {
        StoreFailed(d0, d1, c, ending, t);
      }
    case Remove(path) =>
      if ending == Done {
        RemoveDone(d0, d1, c);
      } else {
        RemoveFailed(d0, d1, c, ending);
      }
  }

  // ---------------------------------------------------------------- the run

  /** The drive before, between and after the calls. */
  ghost predicate Lived(states: seq<Sectors>, calls: seq<DriveCall>, endings: seq<Ending>) {
    && |states| == |endings| + 1 && |endings| == |calls| && GoodDrive(states[0])
    && forall i :: 0 <= i < |calls| ==>
      endings[i] != RolledBack(false) && Ended(states[i], states[i + 1], calls[i], endings[i])
  }

  /** What calls and results tell of a path that began with `contents`. */
  ghost function KnownAfter(contents: Option<seq<Byte>>, calls: seq<DriveCall>, endings: seq<Ending>, path: seq<Byte>,
      unique: bool): Knowledge
    requires |endings| == |calls|
    decreases |calls|
  {
    if calls == [] then Known(contents)
    else
      var n := |calls| - 1;
      Learn(KnownAfter(contents, calls[..n], endings[..n], path, unique), calls[n], endings[n], path, unique)
  }

  /** Over any run of calls, refused and failed ones included, the drive stays good, no second
      entry of a name is made, no cluster is lost or seized but under a name that begins with
      0xE5, and every path reads as calls and results tell. */
  lemma {:induction false} RunOnDrive(states: seq<Sectors>, calls: seq<DriveCall>, endings: seq<Ending>,
      path: seq<Byte>)
    requires Lived(states, calls, endings)
    ensures var n := |calls|;
            && GoodDrive(states[n])
            && (UniqueNames(VolumeOn(states[0])) ==> UniqueNames(VolumeOn(states[n])))
            && ((forall i :: 0 <= i < n ==> !Loses(calls[i], endings[i])) ==>
                  forall x :: Orphan(VolumeOn(states[n]), x) <==> Orphan(VolumeOn(states[0]), x))
            && IsTrue(states[n], path,
                 KnownAfter(FileAt(states[0], path), calls, endings, path, UniqueNames(VolumeOn(states[0]))))
    decreases |calls|
  {
    hide GoodDrive, UniqueNames, Orphan, Ended, Loses, FileAt;
    GoodIsUsable(states[0]);
    if calls != [] {
      var n := |calls| - 1;
      RunOnDrive(states[..n + 1], calls[..n], endings[..n], path);
      CallKeeps(states[n], states[n + 1], calls[n], endings[n]);
      var unique := UniqueNames(VolumeOn(states[0]));
      var k := KnownAfter(FileAt(states[0], path), calls[..n], endings[..n], path, unique);
      LearnLess(states[n + 1], k, calls[n], endings[n], path, unique, UniqueNames(VolumeOn(states[n])));
    }
  }

  lemma GoodIsUsable(d: Sectors)
    requires GoodDrive(d)
    ensures Fat12.Usable(d)
  {
  }

  /** Without the names' being unique, less is known. */
  lemma LearnLess(d: Sectors, k: Knowledge, c: DriveCall, ending: Ending, path: seq<Byte>, less: bool, more: bool)
    requires IsTrue(d, path, Learn(k, c, ending, path, more)) && (less ==> more)
    ensures IsTrue(d, path, Learn(k, c, ending, path, less))
  {
  }

  /** From call `i` on, only calls about other names go through. */
  ghost predicate Spares(calls: seq<DriveCall>, endings: seq<Ending>, path: seq<Byte>, i: nat) {
    |endings| == |calls|
    && forall k :: i <= k < |calls| ==> endings[k] == Refused || NameFor(calls[k].path) != NameFor(path)
  }

  /** The last write of a name stays what it reads as, whatever is done to other names, unless
      it cannot be found at all. */
  lemma LastWriteStays(states: seq<Sectors>, calls: seq<DriveCall>, endings: seq<Ending>, path: seq<Byte>, i: nat)
    requires Lived(states, calls, endings) && i < |calls| && Spares(calls, endings, path, i + 1)
    requires calls[i].Store? && endings[i] == Done
    requires NameFor(calls[i].path) == NameFor(path) != None && NameFor(path).value[0] != 0xE5
    ensures Fat12.Usable(states[|calls|]) && FileAt(states[|calls|], path) == Some(calls[i].data)
  {
    hide FileAt, Fat12.Usable, GoodDrive, UniqueNames, Orphan, Ended, Loses;
    GoodIsUsable(states[0]);
    RunOnDrive(states, calls, endings, path);
    KnownStays(FileAt(states[0], path), calls, endings, path, UniqueNames(VolumeOn(states[0])), i + 1);
  }

  /** And a deleted file does not come back, if no name occurred twice at the start. */
  lemma DeletedStaysAway(states: seq<Sectors>, calls: seq<DriveCall>, endings: seq<Ending>, path: seq<Byte>, i: nat)
    requires Lived(states, calls, endings) && i < |calls| && Spares(calls, endings, path, i + 1)
    requires UniqueNames(VolumeOn(states[0])) && calls[i].Remove? && endings[i] == Done
    requires NameFor(calls[i].path) == NameFor(path) != None
    ensures Fat12.Usable(states[|calls|]) && FileAt(states[|calls|], path) == None
  {
    hide FileAt, Fat12.Usable, GoodDrive, UniqueNames, Orphan, Ended, Loses;
    GoodIsUsable(states[0]);
    RunOnDrive(states, calls, endings, path);
    KnownStays(FileAt(states[0], path), calls, endings, path, true, i + 1);
  }

  /** A path whose name no call has touched reads as it did. */
  lemma UntouchedStays(states: seq<Sectors>, calls: seq<DriveCall>, endings: seq<Ending>, path: seq<Byte>)
    requires Lived(states, calls, endings) && Spares(calls, endings, path, 0)
    ensures Fat12.Usable(states[0]) && Fat12.Usable(states[|calls|])
    ensures FileAt(states[|calls|], path) == FileAt(states[0], path)
  {
    hide FileAt, Fat12.Usable, GoodDrive, UniqueNames, Orphan, Ended, Loses;
    GoodIsUsable(states[0]);
    RunOnDrive(states, calls, endings, path);
    KnownStays(FileAt(states[0], path), calls, endings, path, UniqueNames(VolumeOn(states[0])), 0);
  }

  /** And no cluster is lost or seized while no name begins with 0xE5. */
  lemma NothingIsLost(states: seq<Sectors>, calls: seq<DriveCall>, endings: seq<Ending>, x: int)
    requires Lived(states, calls, endings)
    requires forall i :: 0 <= i < |calls| && NameFor(calls[i].path).Some? ==> NameFor(calls[i].path).value[0] != 0xE5
    ensures GoodDrive(states[|calls|])
    ensures Orphan(VolumeOn(states[|calls|]), x) <==> Orphan(VolumeOn(states[0]), x)
  {
    hide FileAt, GoodDrive, Orphan, Ended;
    RunOnDrive(states, calls, endings, []);
    forall i | 0 <= i < |calls| ensures !Loses(calls[i], endings[i]) {
    }
  }

  lemma {:induction false} KnownStays(contents: Option<seq<Byte>>, calls: seq<DriveCall>, endings: seq<Ending>,
      path: seq<Byte>, unique: bool, i: nat)
    requires i <= |calls| && Spares(calls, endings, path, i)
    ensures KnownAfter(contents, calls, endings, path, unique)
      == KnownAfter(contents, calls[..i], endings[..i], path, unique)
  {
    var n := |calls| - 1;
    if i == |calls| {
      assert calls[..i] == calls && endings[..i] == endings;
    } else {
      KnownStays(contents, calls[..n], endings[..n], path, unique, i);
      assert calls[..n][..i] == calls[..i] && endings[..n][..i] == endings[..i];
    }
  }

  /** The calls on a drive, up to the first whose rollback fails. Without a drive fault each of
      them goes through or is refused. */
  method Serve(drive: Floppy, calls: seq<DriveCall>) returns (endings: seq<Ending>, ghost states: seq<Sectors>)
    requires GoodDrive(drive.sectors) && forall c :: c in calls ==> Proper(c)
    modifies drive
    ensures |endings| <= |calls| && |states| == |endings| + 1
    ensures states[0] == old(drive.sectors) && states[|endings|] == drive.sectors
    ensures RolledBack(false) in endings || (|endings| == |calls| && Lived(states, calls, endings))
    ensures |endings| > 0 && endings[|endings| - 1] == RolledBack(false) ==>
      Lived(states[..|endings|], calls[..|endings| - 1], endings[..|endings| - 1])
    ensures drive.faults == old(drive.faults) ==> forall i :: 0 <= i < |endings| ==> endings[i] in {Done, Refused}
  {
    hide GoodDrive;
    endings, states := [], [drive.sectors];
    var i := 0;
    while i < |calls|
      invariant 0 <= i <= |calls| && |endings| == i && states != [] && states[0] == old(drive.sectors)
      invariant Lived(states, calls[..i], endings) && states[i] == drive.sectors && GoodDrive(drive.sectors)
      invariant RolledBack(false) !in endings && drive.faults >= old(drive.faults)
      invariant drive.faults == old(drive.faults) ==> forall k :: 0 <= k < i ==> endings[k] in {Done, Refused}
    {
      var ending := Call(drive, calls[i]);
      ghost var before := states;
      states, endings := states + [drive.sectors], endings + [ending];
      if ending == RolledBack(false) {
        assert states[..|endings|] == before && endings[..|endings| - 1] + [ending] == endings;
        return;
      }
      LivedOn(before, calls, endings[..i], i, drive.sectors, ending);
      assert endings[..i] + [ending] == endings;
      i := i + 1;
    }
    assert calls[..i] == calls;
  }

  lemma LivedOn(states: seq<Sectors>, calls: seq<DriveCall>, endings: seq<Ending>, i: nat, d: Sectors, ending: Ending)
    requires i < |calls| && Lived(states, calls[..i], endings) && ending != RolledBack(false)
    requires Ended(states[i], d, calls[i], ending)
    ensures Lived(states + [d], calls[..i + 1], endings + [ending])
  {
    hide GoodDrive, Ended;
    var states', calls', endings' := states + [d], calls[..i + 1], endings + [ending];
    forall k | 0 <= k < i + 1
      ensures endings'[k] != RolledBack(false) && Ended(states'[k], states'[k + 1], calls'[k], endings'[k])
    {
      if k < i {
        assert calls'[k] == calls[..i][k] && endings'[k] == endings[k];
        assert states'[k] == states[k] && states'[k + 1] == states[k + 1];
      }
    }
  }

  method Call(drive: Floppy, c: DriveCall) returns (ending: Ending)
    requires GoodDrive(drive.sectors) && Proper(c)
    modifies drive
    ensures Ended(old(drive.sectors), drive.sectors, c, ending) && drive.faults >= old(drive.faults)
    ensures ending != RolledBack(false) ==> GoodDrive(drive.sectors)
    ensures drive.faults == old(drive.faults) ==> ending in {Done, Refused}
  {
    hide GoodDrive, WriteEnded, DeleteEnded;
    GoodIsUsable(drive.sectors);
    var result;
    match c {
      case Store(path, data) =>
        ghost var t;
        result, ending, t := Fat12WriteFile(path, data, drive);
      case Remove(path) => result, ending := Fat12DeleteFile(path, drive);
    }
    if ending != RolledBack(false) {
      CallKeeps(old(drive.sectors), drive.sectors, c, ending);
    }
  }
}
