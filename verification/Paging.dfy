/** Address spaces over the page allocator: kernel/page/paging.c with the
    kalloc wrapper of kernel/page/kalloc.c. Frames are physical memory indexed
    by address, whatever page directory is loaded. */
module Paging {
  import opened Words
  import opened PageRuns
  import opened PageAllocator
  import opened PageTables

  /** sizeof(AddressSpace): the directory pointer and 1024 flags. */
  const SPACE_BYTES: nat := 1028

  /** The pages of an address range, with the 32-bit wraps of the source. */
  function FirstPage(virt: U32): nat {
    virt / PAGE_SIZE
  }

  function EndPage(virt: U32, size: U32): (r: nat)
    ensures r <= VPAGES
  {
    PageAlignUp(Add32(virt, size)) / PAGE_SIZE
  }

  /** Below the wrap a range has exactly the pages that hold one of its bytes. */
  lemma RangePages(virt: U32, size: U32, u: nat)
    requires 0 < size && virt + size <= 0xFFFF_F000
    ensures FirstPage(virt) <= u < EndPage(virt, size) <==> virt <= 4096 * u + 4095 && 4096 * u < virt + size
  {
  }

  lemma PageRange(first: nat, end: nat)
    requires first <= end < VPAGES
    ensures FirstPage(PAGE_SIZE * first) == first
    ensures EndPage(PAGE_SIZE * first, PAGE_SIZE * (end - first)) == end
  {
  }

  // ------------------------------------------------- what nobody claims here

  ghost predicate ClaimedFrame(tables: Tables, spaces: Spaces, a: nat)
    requires Shape(tables, spaces)
  {
    exists c :: Claimed(tables, spaces, c) && FrameOf(tables, spaces, c) == a
  }

  /** The live runs that belong to no address space. */
  ghost function RestOf(live: map<nat, nat>, tables: Tables, spaces: Spaces): map<nat, nat>
    requires Shape(tables, spaces)
  {
    map a | a in live && !ClaimedFrame(tables, spaces, a) :: live[a]
  }

  ghost predicate ClaimedBy(tables: Tables, spaces: Spaces, t: nat, a: nat)
    requires Shape(tables, spaces)
  {
    exists c: Claim :: Claimed(tables, spaces, c) && c.s == t && FrameOf(tables, spaces, c) == a
  }

  ghost function HeldBy(live: map<nat, nat>, tables: Tables, spaces: Spaces, t: nat): set<nat>
    requires Shape(tables, spaces)
  {
    set a | a in live && ClaimedBy(tables, spaces, t, a)
  }

  /** The frames each space holds. */
  ghost function HeldOf(live: map<nat, nat>, tables: Tables, spaces: Spaces): map<nat, set<nat>>
    requires Shape(tables, spaces)
  {
    map t | t in spaces :: HeldBy(live, tables, spaces, t)
  }

  /** What the other spaces hold is untouched when their claims are. */
  lemma HeldElsewhere(live: map<nat, nat>, tables: Tables, spaces: Spaces, live': map<nat, nat>, tables': Tables,
      spaces': Spaces, s: nat)
    requires Shape(tables, spaces) && Backed(live, tables, spaces)
    requires Shape(tables', spaces') && Backed(live', tables', spaces')
    requires spaces.Keys - {s} == spaces'.Keys - {s}
    requires forall c: Claim :: c.s != s ==> (Claimed(tables', spaces', c) <==> Claimed(tables, spaces, c))
    requires forall c: Claim :: c.s != s && Claimed(tables, spaces, c) ==>
      FrameOf(tables', spaces', c) == FrameOf(tables, spaces, c)
    ensures HeldOf(live', tables', spaces') - {s} == HeldOf(live, tables, spaces) - {s}
  {
    forall t, a: nat | t != s
      ensures ClaimedBy(tables', spaces', t, a) <==> ClaimedBy(tables, spaces, t, a)
      ensures ClaimedBy(tables, spaces, t, a) ==> a in live && a in live'
    {
      if ClaimedBy(tables, spaces, t, a) {
        var c :| Claimed(tables, spaces, c) && c.s == t && FrameOf(tables, spaces, c) == a;
        assert Claimed(tables', spaces', c);
      }
      if ClaimedBy(tables', spaces', t, a) {
        var c :| Claimed(tables', spaces', c) && c.s == t && FrameOf(tables', spaces', c) == a;
        assert Claimed(tables, spaces, c);
      }
    }
    forall t | t != s ensures HeldBy(live', tables', spaces', t) == HeldBy(live, tables, spaces, t) {
    }
    var h, h' := HeldOf(live, tables, spaces) - {s}, HeldOf(live', tables', spaces') - {s};
    assert h.Keys == spaces.Keys - {s} && h'.Keys == spaces'.Keys - {s};
    assert forall t :: t in h ==> h[t] == h'[t];
  }

  /** Every claimed frame is a live run of one page. */
  ghost predicate Backed(live: map<nat, nat>, tables: Tables, spaces: Spaces)
    requires Shape(tables, spaces)
  {
    forall c :: Claimed(tables, spaces, c) ==>
      FrameOf(tables, spaces, c) in live && live[FrameOf(tables, spaces, c)] == 1
  }

  lemma RestIsFresh(live: map<nat, nat>, tables: Tables, spaces: Spaces, a: nat)
    requires Shape(tables, spaces)
      && (a in RestOf(live, tables, spaces) || (Backed(live, tables, spaces) && a !in live))
    ensures Fresh(tables, spaces, a)
  {
  }

  /** One claim more: the claims of the second state are those of the first and `c0`. */
  ghost predicate OneMore(tables: Tables, spaces: Spaces, tables': Tables, spaces': Spaces, c0: Claim)
    requires Shape(tables, spaces) && Shape(tables', spaces')
  {
    && !Claimed(tables, spaces, c0) && Claimed(tables', spaces', c0)
    && (forall c :: c != c0 ==> (Claimed(tables', spaces', c) <==> Claimed(tables, spaces, c)))
    && (forall c :: c != c0 && Claimed(tables, spaces, c) ==>
         FrameOf(tables', spaces', c) == FrameOf(tables, spaces, c))
  }

  /** Claiming a run takes exactly it out of the rest. */
  lemma ClaimTakes(live: map<nat, nat>, tables: Tables, spaces: Spaces, tables': Tables, spaces': Spaces, c0: Claim)
    requires Shape(tables, spaces) && Shape(tables', spaces') && OneMore(tables, spaces, tables', spaces', c0)
    requires Backed(live, tables, spaces)
    requires var f := FrameOf(tables', spaces', c0); f in live && live[f] == 1
    ensures Backed(live, tables', spaces')
    ensures RestOf(live, tables', spaces') == RestOf(live, tables, spaces) - {FrameOf(tables', spaces', c0)}
  {
    var f := FrameOf(tables', spaces', c0);
    forall a ensures ClaimedFrame(tables', spaces', a) <==> ClaimedFrame(tables, spaces, a) || a == f {
      if ClaimedFrame(tables, spaces, a) {
        var c :| Claimed(tables, spaces, c) && FrameOf(tables, spaces, c) == a;
        assert Claimed(tables', spaces', c);
      }
      if ClaimedFrame(tables', spaces', a) {
        var c :| Claimed(tables', spaces', c) && FrameOf(tables', spaces', c) == a;
        assert c != c0 ==> Claimed(tables, spaces, c);
      }
    }
  }

  /** Giving a claim up puts its run back into the rest. */
  lemma UnclaimReturns(live: map<nat, nat>, tables: Tables, spaces: Spaces, tables': Tables, spaces': Spaces, c0: Claim)
    requires Ok(tables, spaces) && Shape(tables', spaces') && OneMore(tables', spaces', tables, spaces, c0)
    requires Backed(live, tables, spaces)
    ensures Backed(live, tables', spaces')
    ensures RestOf(live, tables', spaces') == RestOf(live, tables, spaces)[FrameOf(tables, spaces, c0) := 1]
  {
    ClaimIsSeparate(tables, spaces, tables', spaces', c0);
    ClaimTakes(live, tables', spaces', tables, spaces, c0);
    assert Claimed(tables, spaces, c0);
  }

  lemma ClaimIsSeparate(tables: Tables, spaces: Spaces, tables': Tables, spaces': Spaces, c0: Claim)
    requires Ok(tables, spaces) && Shape(tables', spaces') && OneMore(tables', spaces', tables, spaces, c0)
    ensures !ClaimedFrame(tables', spaces', FrameOf(tables, spaces, c0))
  {
  }

  /** A run nobody held joins the rest. */
  lemma RestPlus(live: map<nat, nat>, tables: Tables, spaces: Spaces, a: nat, count: nat)
    requires Shape(tables, spaces) && Backed(live, tables, spaces) && a !in live
    ensures Fresh(tables, spaces, a) && Backed(live[a := count], tables, spaces)
    ensures a !in RestOf(live, tables, spaces)
    ensures RestOf(live[a := count], tables, spaces) == RestOf(live, tables, spaces)[a := count]
    ensures HeldOf(live[a := count], tables, spaces) == HeldOf(live, tables, spaces)
  {
    assert !ClaimedFrame(tables, spaces, a);
    forall t ensures HeldBy(live[a := count], tables, spaces, t) == HeldBy(live, tables, spaces, t) {
      assert !ClaimedBy(tables, spaces, t, a);
    }
  }

  lemma RestMinus(live: map<nat, nat>, tables: Tables, spaces: Spaces, a: nat)
    requires Shape(tables, spaces) && Backed(live, tables, spaces) && a in RestOf(live, tables, spaces)
    ensures a in live && Backed(live - {a}, tables, spaces)
    ensures RestOf(live - {a}, tables, spaces) == RestOf(live, tables, spaces) - {a}
    ensures HeldOf(live - {a}, tables, spaces) == HeldOf(live, tables, spaces)
  {
    assert !ClaimedFrame(tables, spaces, a);
    forall t ensures HeldBy(live - {a}, tables, spaces, t) == HeldBy(live, tables, spaces, t) {
      assert !ClaimedBy(tables, spaces, t, a);
    }
  }

  lemma ClaimedIsHeld(live: map<nat, nat>, tables: Tables, spaces: Spaces, a: nat)
    requires Shape(tables, spaces) && Backed(live, tables, spaces)
    ensures ClaimedFrame(tables, spaces, a) <==>
      exists t :: t in HeldOf(live, tables, spaces) && a in HeldOf(live, tables, spaces)[t]
  {
    if ClaimedFrame(tables, spaces, a) {
      var c :| Claimed(tables, spaces, c) && FrameOf(tables, spaces, c) == a;
      assert ClaimedBy(tables, spaces, c.s, a);
      assert a in HeldOf(live, tables, spaces)[c.s];
    }
  }

  /** The live runs are exactly what the spaces hold and the rest. */
  lemma LiveFromParts(live: map<nat, nat>, tables: Tables, spaces: Spaces, live': map<nat, nat>, tables': Tables,
      spaces': Spaces)
    requires Shape(tables, spaces) && Shape(tables', spaces')
    requires Backed(live, tables, spaces) && Backed(live', tables', spaces')
    requires RestOf(live, tables, spaces) == RestOf(live', tables', spaces')
    requires HeldOf(live, tables, spaces) == HeldOf(live', tables', spaces')
    ensures live == live'
  {
    forall a: nat
      ensures a in live <==> a in live'
      ensures a in live ==> live[a] == live'[a]
    {
      ClaimedIsHeld(live, tables, spaces, a);
      ClaimedIsHeld(live', tables', spaces', a);
      assert a in RestOf(live, tables, spaces) <==> a in RestOf(live', tables', spaces');
    }
  }

  /** What the spaces hold and what nobody's space holds fix the set of free pages. */
  lemma SamePartsSameCount(e: Pages, tables: Tables, spaces: Spaces, f: Pages, tables': Tables, spaces': Spaces)
    requires Structured(e) && Structured(f) && SameAvailability(e, f)
    requires Shape(tables, spaces) && Shape(tables', spaces')
    requires Backed(Live(e), tables, spaces) && Backed(Live(f), tables', spaces')
    requires RestOf(Live(e), tables, spaces) == RestOf(Live(f), tables', spaces')
    requires HeldOf(Live(e), tables, spaces) == HeldOf(Live(f), tables', spaces')
    ensures FreePages(e) == FreePages(f)
  {
    LiveFromParts(Live(e), tables, spaces, Live(f), tables', spaces');
    LiveFixesFreePages(e, f);
  }

  class Memory {
    const pages: PageBitmap
    var tables: Tables
    var spaces: Spaces
    /** Contents of data frames. */
    var data: map<nat, seq<Byte>>
    /** The directory in CR3. */
    var loaded: nat

    /** The flat page map the tables implement. */
    ghost var flat: PageMap
    /** The live runs that belong to no address space. */
    ghost var rest: map<nat, nat>
    /** The frames each space holds. */
    ghost var held: map<nat, set<nat>>

    ghost predicate Valid()
      reads this`tables, this`spaces, this`flat, this`rest, this`held, pages`live, pages`free, pages.entries
      ensures Valid() ==> Domains()
    {
      && pages.Sound() && Ok(tables, spaces) && Backed(pages.live, tables, spaces)
      && flat == FlatOf(tables, spaces) && rest == RestOf(pages.live, tables, spaces)
      && held == HeldOf(pages.live, tables, spaces)
    }

    /** What callers need to know to speak of the maps. */
    ghost predicate Domains()
      reads this`spaces, this`flat, this`rest, this`held, pages`live
    {
      && held.Keys == spaces.Keys
      && KERNEL in spaces && 0 !in spaces && pages.total <= pages.entries.Length
      && (forall s :: s in spaces ==> |spaces[s].owned| == PAGE_ENTRIES)
      && (forall p :: p in flat <==> p.0 in spaces && p.1 < VPAGES)
      && (forall a :: a in rest ==> a in pages.live && rest[a] == pages.live[a])
      && 0 !in rest
    }

    constructor (pages: PageBitmap)
      ensures this.pages == pages
    {
      this.pages := pages;
      tables, spaces, data, loaded := map[], map[], map[], 0;
    }

    /** What Valid says, part by part. */
    lemma Parts()
      requires Valid()
      ensures pages.Sound() && Shape(tables, spaces) && Ok(tables, spaces) && Backed(pages.live, tables, spaces)
      ensures flat == FlatOf(tables, spaces) && rest == RestOf(pages.live, tables, spaces)
      ensures held == HeldOf(pages.live, tables, spaces)
    {
      hide Structured, Sharing, Separate, Supervisor, Backed, FlatOf, RestOf, HeldOf;
    }

    lemma Whole()
      requires pages.Sound() && Shape(tables, spaces) && Ok(tables, spaces) && Backed(pages.live, tables, spaces)
      requires flat == FlatOf(tables, spaces) && rest == RestOf(pages.live, tables, spaces)
      requires held == HeldOf(pages.live, tables, spaces)
      ensures Valid()
    {
      hide Structured, Separate, Supervisor, Backed, Shape;
    }

    lemma RestIsLive(a: nat)
      requires Shape(tables, spaces) && rest == RestOf(pages.live, tables, spaces) && a in rest
      ensures a in pages.live && rest[a] == pages.live[a]
    {
    }

    /** The flat map shows the leaf the walk finds. */
    lemma ShowsLeaf(s: nat, v: nat)
      requires Shape(tables, spaces) && flat == FlatOf(tables, spaces)
      ensures (s, v) in flat <==> s in spaces && v < VPAGES
      ensures (s, v) in flat ==> flat[(s, v)] == Leaf(tables, spaces, s, v)
    {
      hide Shape, Leaf;
    }

    // ------------------------------------------------------------ raw pages

    lemma OnePage()
      ensures PageCount(PAGE_SIZE) == 1
    {
    }

    lemma PagesAreStructured()
      requires Valid()
      ensures pages.Valid() && Structured(pages.Pages())
    {
    }

    lemma DirectoriesDiffer(s: nat, t: nat)
      requires Valid() && s in spaces && t in spaces && s != t
      ensures spaces[s].directory != spaces[t].directory
    {
      assert Claimed(tables, spaces, Dir(s)) && Claimed(tables, spaces, Dir(t)) && Dir(s) != Dir(t);
      assert FrameOf(tables, spaces, Dir(s)) == spaces[s].directory
        && FrameOf(tables, spaces, Dir(t)) == spaces[t].directory;
    }

    /** Window pages of user mode have frames of their own: no other page of any space shows them. */
    lemma PrivateApart(s: nat, u: nat, t: nat, v: nat)
      requires Valid() && (s, u) != (t, v)
      requires IsPrivate(flat, s, u) && IsPrivate(flat, t, v)
      ensures PageDown(flat[(s, u)]) != PageDown(flat[(t, v)])
    {
      hide Structured, Backed, RestOf, HeldOf, PageDown;
      assert Claimed(tables, spaces, Page(s, u)) && Claimed(tables, spaces, Page(t, v)) && Page(s, u) != Page(t, v);
      assert FrameOf(tables, spaces, Page(s, u)) == PageDown(flat[(s, u)])
        && FrameOf(tables, spaces, Page(t, v)) == PageDown(flat[(t, v)]);
    }

    lemma PrivateIsBacked(s: nat, u: nat)
      requires Valid() && IsPrivate(flat, s, u)
      ensures PageDown(flat[(s, u)]) in pages.live && PageDown(flat[(s, u)]) >= MEMORY_BASE
    {
      hide Structured, RestOf, HeldOf, PageDown;
      PrivateIsLive(s, u);
      LiveIs(pages.Pages(), PageDown(flat[(s, u)]));
    }

    /** A window page stands on a live page that is nobody's run. */
    lemma PrivateFrame(s: nat, u: nat)
      requires Valid() && IsPrivate(flat, s, u)
      ensures u < VPAGES && Present(flat[(s, u)])
      ensures var a := PageDown(flat[(s, u)]); a in pages.live && pages.live[a] == 1 && a !in rest
    {
      hide Structured, HeldOf, PageDown, Present;
      Parts();
      ShowsLeaf(s, u);
      assert Claimed(tables, spaces, Page(s, u)) && FrameOf(tables, spaces, Page(s, u)) == PageDown(flat[(s, u)]);
    }

    /** Every live run is held by a space or belongs to none. */
    lemma LiveIsHeld(a: nat)
      requires Valid() && a in pages.live
      ensures a in rest || exists t :: t in held && a in held[t]
    {
      hide Structured, Separate, Supervisor, Sharing;
      Parts();
      ClaimedIsHeld(pages.live, tables, spaces, a);
    }

    /** The frame of a window page is held by its own space alone. */
    lemma PrivateIsHeldAlone(s: nat, u: nat, t: nat)
      requires Valid() && IsPrivate(flat, s, u) && t in held && PageDown(flat[(s, u)]) in held[t]
      ensures t == s
    {
      hide Structured, Backed, RestOf, PageDown;
      var f := PageDown(flat[(s, u)]);
      assert Claimed(tables, spaces, Page(s, u)) && FrameOf(tables, spaces, Page(s, u)) == f;
      assert f in HeldBy(pages.live, tables, spaces, t);
      var c: Claim :| Claimed(tables, spaces, c) && c.s == t && FrameOf(tables, spaces, c) == f;
      assert c == Page(s, u);
    }

    /** The same holdings leave the same pages free. */
    twostate lemma SameParts()
      requires old(Valid()) && Valid() && rest == old(rest) && held == old(held)
      ensures FreePages(pages.Pages()) == old(FreePages(pages.Pages()))
    {
      hide Separate, Sharing, Supervisor, Backed, Structured, RestOf, HeldOf, FlatOf, FreePages, Shape;
      SamePartsSameCount(old(pages.Pages()), old(tables), old(spaces), pages.Pages(), tables, spaces);
    }

    /** KAlloc, for a run the child count can describe: it joins the rest. */
    method AllocateRun(bytes: U32) returns (address: U32)
      requires Valid() && PageCount(bytes) <= MAX_RUN
      modifies this`rest, pages, pages.entries
      ensures Valid()
      ensures address == 0 ==> rest == old(rest) && pages.live == old(pages.live)
      ensures address != 0 ==> PageDown(address) == address && address !in old(pages.live) && address !in old(rest)
      ensures address != 0 ==> pages.live == old(pages.live)[address := PageCount(bytes)]
      ensures address != 0 ==> rest == old(rest)[address := PageCount(bytes)] && PageCount(bytes) > 0
      ensures address == 0 <==> PageCount(bytes) == 0 || !RunExists(old(pages.Pages()), PageCount(bytes))
      ensures pages.refusals == old(pages.refusals) + if address == 0 && PageCount(bytes) > 0 then 1 else 0
      ensures pages.free == old(pages.free) - if address == 0 then 0 else PageCount(bytes)
      ensures PageCount(bytes) == 1 ==> (address == 0 <==> old(pages.free) == 0)
    {
      hide Valid, Ok, Shape, Backed, Structured, RestOf, HeldOf, FlatOf, PageCount, RunExists, AllocStep;
      Parts();
      address := pages.KAlloc(bytes);
      if address != 0 {
        RestPlus(old(pages.live), tables, spaces, address, PageCount(bytes));
        rest := rest[address := PageCount(bytes)];
      }
      Whole();
    }

    /** KAlloc for any size: a run too long for the child count breaks the page words. */
    method AllocateAny(bytes: U32) returns (address: U32)
      requires Valid()
      modifies this`rest, pages, pages.entries
      ensures pages.Valid()
      ensures PageCount(bytes) <= MAX_RUN || address == 0 ==> Valid()
      ensures address == 0 <==> PageCount(bytes) == 0 || !RunExists(old(pages.Pages()), PageCount(bytes))
      ensures address == 0 || PageCount(bytes) > MAX_RUN ==> rest == old(rest)
      ensures address != 0 ==>
        PageDown(address) == address && AllocStep(old(pages.Pages()), pages.Pages(), PageCount(bytes), address)
      ensures address != 0 && PageCount(bytes) <= MAX_RUN ==> address !in old(pages.live) && address !in old(rest)
      ensures address != 0 && PageCount(bytes) <= MAX_RUN ==>
        pages.live == old(pages.live)[address := PageCount(bytes)] && rest == old(rest)[address := PageCount(bytes)]
      ensures pages.refusals == old(pages.refusals) + if address == 0 && PageCount(bytes) > 0 then 1 else 0
      ensures pages.free == old(pages.free) - if address == 0 then 0 else PageCount(bytes)
    {
      hide Valid, Ok, Shape, Backed, Structured, RestOf, HeldOf, FlatOf, PageCount, RunExists, AllocStep;
      Parts();
      address := pages.KAlloc(bytes);
      if address != 0 && PageCount(bytes) <= MAX_RUN {
        RestPlus(old(pages.live), tables, spaces, address, PageCount(bytes));
        rest := rest[address := PageCount(bytes)];
      }
      if PageCount(bytes) <= MAX_RUN || address == 0 {
        Whole();
      }
    }

    /** KAlloc(PAGE_SIZE): a frame no one holds, or 0. */
    method TakePage() returns (frame: U32)
      requires Valid()
      modifies this`rest, pages, pages.entries
      ensures Valid()
      ensures frame == 0 ==> rest == old(rest) && pages.live == old(pages.live)
      ensures frame != 0 ==> PageDown(frame) == frame && frame !in old(pages.live) && frame !in old(rest)
      ensures frame != 0 ==> pages.live == old(pages.live)[frame := 1] && rest == old(rest)[frame := 1]
      ensures frame == 0 <==> old(pages.free) == 0
      ensures pages.refusals == old(pages.refusals) + if frame == 0 then 1 else 0
      ensures pages.free == old(pages.free) - if frame == 0 then 0 else 1
    {
      hide Valid;
      OnePage();
      frame := AllocateRun(PAGE_SIZE);
    }

    /** KFree on a run that belongs to no space: it always succeeds. */
    method GiveBack(frame: nat) returns (r: int)
      requires Valid() && frame in rest
      modifies this`rest, pages`live, pages`free, pages`hint, pages.entries
      ensures Valid() && r == 0
      ensures rest == old(rest) - {frame} && pages.live == old(pages.live) - {frame}
      ensures pages.free == old(pages.free) + old(rest)[frame]
    {
      hide Valid, Ok, Shape, Backed, Structured, RestOf, HeldOf, FlatOf;
      Parts();
      RestMinus(pages.live, tables, spaces, frame);
      LiveIs(pages.Pages(), frame);
      r := pages.KFree(frame);
      rest := rest - {frame};
      Whole();
    }

    /** KFree on a run just taken, of whatever length. */
    method GiveBackAny(frame: U32) returns (r: int)
      requires pages.Valid() && (Valid() ==> frame in rest)
      modifies this`rest, pages`live, pages`free, pages`hint, pages.entries
      ensures pages.Valid()
      ensures old(Valid()) ==> Valid() && r == 0
      ensures rest == if old(Valid()) then old(rest) - {frame} else old(rest)
      ensures IsRunAddress(old(pages.Pages()), frame) ==>
        pages.Pages() == MarkFreed(old(pages.Pages()), PageOf(frame), RunLength(old(pages.Pages()), PageOf(frame)))
    {
      hide Valid, Ok, Shape, Backed, Structured, RestOf, HeldOf, FlatOf;
      ghost var ok := Valid();
      if ok {
        Parts();
        RestMinus(pages.live, tables, spaces, frame);
        LiveIs(pages.Pages(), frame);
      }
      r := pages.KFree(frame);
      if ok {
        rest := rest - {frame};
        Whole();
      }
    }

    // --------------------------------------------------------------- tables

    /** Gives a space a table of its own at slot `i`. No translation of any space changes. */
    method EnsurePrivatePageTable(s: nat, i: nat) returns (r: int)
      requires Valid() && s in spaces && s != KERNEL && i < PAGE_ENTRIES
      modifies this`tables, this`spaces, this`rest, this`held, pages, pages.entries
      ensures Valid() && rest == old(rest) && spaces.Keys == old(spaces).Keys && held - {s} == old(held) - {s}
      ensures old(pages.live).Keys <= pages.live.Keys
      ensures r == 0 || r == -1
      ensures r == -1 ==> tables == old(tables)
      ensures spaces == if r == 0 then Owning(old(spaces), s, i) else old(spaces)
      ensures r == 0 <==> OwnsTable(old(spaces), s, i) || old(pages.free) > 0
      ensures pages.refusals == old(pages.refusals) + if r == 0 then 0 else 1
      ensures pages.free == old(pages.free) - if r != 0 || OwnsTable(old(spaces), s, i) then 0 else 1
    {
      hide Valid;
      if spaces[s].owned[i] {
        OwningOnce(spaces, spaces, s, i);
        return 0;
      }
      var frame := TakePage();
      if frame == 0 {
        return -1;
      }
      InstallTable(s, i, frame, MakeEntry(frame, RW_USER));
      return 0;
    }

    /** Puts a table into a fresh frame, as a copy of what slot `i` showed before. */
    method InstallTable(s: nat, i: nat, frame: U32, w: U32)
      requires Valid() && s in spaces && i < PAGE_ENTRIES && !spaces[s].owned[i]
      requires frame in rest && rest[frame] == 1 && Present(w) && Lets(s, w) && PageDown(w) == frame
      modifies this`tables, this`spaces, this`rest, this`held
      ensures Valid() && rest == old(rest) - {frame} && held - {s} == old(held) - {s}
      ensures spaces == old(spaces)[s := old(spaces[s]).(owned := old(spaces[s].owned)[i := true])]
    {
      hide Valid, Structured, Shape, Ok, Backed, RestOf, HeldOf, FlatOf, Fresh, PageDown, Present, DirEntry,
        pages.Sound, Domains;
      Parts();
      InDirectory(s, i);
      RestIsLive(frame);
      ghost var tables0, spaces0 := tables, spaces;
      var dir := spaces[s].directory;
      RestIsFresh(pages.live, tables, spaces, frame);
      DirectoryIsNot(s, frame);
      var copy: seq<U32> :=
        if Present(tables[dir][i]) then tables[PageDown(tables[dir][i])] else seq(PAGE_ENTRIES, _ => 0);
      var words: seq<U32> := tables[dir][i := w];
      tables := tables[frame := copy][dir := words];
      spaces := spaces[s := spaces[s].(owned := spaces[s].owned[i := true])];
      Privatized(tables0, spaces0, s, i, w);
      rest, held := rest - {frame}, HeldOf(pages.live, tables, spaces);
      Whole();
    }

    /** Where the walk of a space begins. */
    lemma InDirectory(s: nat, i: nat)
      requires Shape(tables, spaces) && s in spaces && i < PAGE_ENTRIES
      ensures |spaces[s].owned| == PAGE_ENTRIES
      ensures spaces[s].directory in tables && |tables[spaces[s].directory]| == PAGE_ENTRIES
      ensures DirEntry(tables, spaces, s, i) == tables[spaces[s].directory][i]
      ensures Present(DirEntry(tables, spaces, s, i)) ==>
        && PageDown(DirEntry(tables, spaces, s, i)) in tables
        && |tables[PageDown(DirEntry(tables, spaces, s, i))]| == PAGE_ENTRIES
    {
    }

    lemma DirectoryIsNot(s: nat, frame: nat)
      requires Ok(tables, spaces) && s in spaces && Fresh(tables, spaces, frame)
      ensures spaces[s].directory != frame
    {
      assert Claimed(tables, spaces, Dir(s));
      assert FrameOf(tables, spaces, Dir(s)) == spaces[s].directory;
    }

    lemma Privatized(tables0: Tables, spaces0: Spaces, s: nat, i: nat, w: U32)
      requires PrivatizeCase(tables0, spaces0, s, i, w)
      requires pages.Sound() && Backed(pages.live, tables0, spaces0)
      requires PageDown(w) in pages.live && pages.live[PageDown(w)] == 1
      requires tables == PrivatizedTables(tables0, spaces0, s, i, w) && spaces == PrivatizedSpaces(spaces0, s, i)
      ensures Shape(tables, spaces) && Ok(tables, spaces) && Backed(pages.live, tables, spaces)
      ensures FlatOf(tables, spaces) == FlatOf(tables0, spaces0)
      ensures RestOf(pages.live, tables, spaces) == RestOf(pages.live, tables0, spaces0) - {PageDown(w)}
      ensures HeldOf(pages.live, tables, spaces) - {s} == HeldOf(pages.live, tables0, spaces0) - {s}
    {
      hide pages.Sound;
      PrivatizeOk(tables0, spaces0, s, i, w);
      forall c
        ensures Claimed(tables, spaces, c) <==> Claimed(tables0, spaces0, c) || c == Table(s, i)
        ensures Claimed(tables0, spaces0, c) ==>
          c != Table(s, i) && FrameOf(tables, spaces, c) == FrameOf(tables0, spaces0, c)
      {
        PrivatizeClaims(tables0, spaces0, s, i, w, c);
      }
      PrivatizeClaims(tables0, spaces0, s, i, w, Table(s, i));
      ClaimTakes(pages.live, tables0, spaces0, tables, spaces, Table(s, i));
      HeldElsewhere(pages.live, tables0, spaces0, pages.live, tables, spaces, s);
      forall t, v | t in spaces && 0 <= v < VPAGES ensures Leaf(tables, spaces, t, v) == Leaf(tables0, spaces0, t, v) {
        PrivatizeLeaf(tables0, spaces0, s, i, w, t, v);
      }
    }

    // --------------------------------------------------------------- leaves

    /** Writes one leaf in a table of the space's own. */
    method SetLeaf(s: nat, v: nat, w: U32)
      requires Valid() && LeafCase(tables, spaces, s, v, w)
      requires !IsPrivate(flat, s, v)
      requires PrivateWord(s, v, w) ==> PageDown(w) in rest && rest[PageDown(w)] == 1
      modifies this`tables, this`flat, this`rest, this`held
      ensures Valid() && held - {s} == old(held) - {s}
      ensures rest == if PrivateWord(s, v, w) then old(rest) - {PageDown(w)} else old(rest)
      ensures flat == old(flat)[(s, v) := w]
    {
      hide Valid, Structured, Ok, Shape, Backed, RestOf, HeldOf, FlatOf, PageDown, Present, UserBit;
      Parts();
      ShowsLeaf(s, v);
      OwnedWalk(s, v);
      ghost var tables0 := tables;
      var f := PageDown(tables[spaces[s].directory][v / PAGE_ENTRIES]);
      var words: seq<U32> := tables[f][v % PAGE_ENTRIES := w];
      tables := tables[f := words];
      LeafSet(tables0, s, v, w);
      flat, rest := FlatOf(tables, spaces), RestOf(pages.live, tables, spaces);
      held := HeldOf(pages.live, tables, spaces);
      Whole();
    }

    lemma LeafSet(tables0: Tables, s: nat, v: nat, w: U32)
      requires LeafCase(tables0, spaces, s, v, w)
      requires pages.Sound() && Backed(pages.live, tables0, spaces)
      requires !PrivateWord(s, v, Leaf(tables0, spaces, s, v))
      requires PrivateWord(s, v, w) ==>
        PageDown(w) in RestOf(pages.live, tables0, spaces) && RestOf(pages.live, tables0, spaces)[PageDown(w)] == 1
      requires tables == WithLeaf(tables0, spaces, s, v, w)
      ensures Shape(tables, spaces) && Ok(tables, spaces) && Backed(pages.live, tables, spaces)
      ensures RestOf(pages.live, tables, spaces) == if PrivateWord(s, v, w)
        then RestOf(pages.live, tables0, spaces) - {PageDown(w)} else RestOf(pages.live, tables0, spaces)
      ensures FlatOf(tables, spaces) == FlatOf(tables0, spaces)[(s, v) := w]
      ensures HeldOf(pages.live, tables, spaces) - {s} == HeldOf(pages.live, tables0, spaces) - {s}
    {
      hide Structured, PageDown, Present, UserBit, Separate, HeldOf, FlatOf;
      if PrivateWord(s, v, w) {
        RestIsFresh(pages.live, tables0, spaces, PageDown(w));
      }
      LeafOk(tables0, spaces, s, v, w);
      forall c
        ensures c != Page(s, v) ==> (Claimed(tables, spaces, c) <==> Claimed(tables0, spaces, c))
        ensures c != Page(s, v) && Claimed(tables0, spaces, c) ==>
          FrameOf(tables, spaces, c) == FrameOf(tables0, spaces, c)
      {
        LeafClaims(tables0, spaces, s, v, w, c);
      }
      LeafClaims(tables0, spaces, s, v, w, Page(s, v));
      assert !Claimed(tables0, spaces, Page(s, v));
      if Claimed(tables, spaces, Page(s, v)) {
        ClaimTakes(pages.live, tables0, spaces, tables, spaces, Page(s, v));
      } else {
        SameClaims(pages.live, tables0, tables, spaces);
      }
      HeldElsewhere(pages.live, tables0, spaces, pages.live, tables, spaces, s);
      FlatWritten(tables0, s, v, w);
    }

    lemma FlatWritten(tables0: Tables, s: nat, v: nat, w: U32)
      requires LeafCase(tables0, spaces, s, v, w)
      requires tables == WithLeaf(tables0, spaces, s, v, w) && Shape(tables, spaces)
      ensures FlatOf(tables, spaces) == FlatOf(tables0, spaces)[(s, v) := w]
    {
      hide PageDown, Present, UserBit, Ok, Leaf, WithLeaf, Shape, DirEntry;
      LeafCaseFacts(tables0, spaces, s, v, w);
      forall t, u | t in spaces && 0 <= u < VPAGES
        ensures Leaf(tables, spaces, t, u) == if t == s && u == v then w else Leaf(tables0, spaces, t, u)
      {
        LeafWritten(tables0, spaces, s, v, w, t, u);
      }
    }

    static lemma SameClaims(live: map<nat, nat>, tables0: Tables, tables: Tables, spaces: Spaces)
      requires Shape(tables0, spaces) && Shape(tables, spaces) && Backed(live, tables0, spaces)
      requires forall c :: Claimed(tables, spaces, c) <==> Claimed(tables0, spaces, c)
      requires forall c :: Claimed(tables0, spaces, c) ==> FrameOf(tables, spaces, c) == FrameOf(tables0, spaces, c)
      ensures Backed(live, tables, spaces) && RestOf(live, tables, spaces) == RestOf(live, tables0, spaces)
    {
    }

    /** Maps one virtual page of a user space; every other page of every space keeps its translation. */
    method MapPage(s: nat, v: nat, phys: U32, flags: nat) returns (r: int)
      requires Valid() && s in spaces && s != KERNEL && v < VPAGES && (flags == RW || flags == RW_USER)
      requires !IsPrivate(flat, s, v)
      requires PrivateWord(s, v, MakeEntry(phys, flags)) ==> PageDown(phys) in rest && rest[PageDown(phys)] == 1
      modifies this`tables, this`spaces, this`flat, this`rest, this`held, pages, pages.entries
      ensures Valid() && spaces.Keys == old(spaces).Keys && held - {s} == old(held) - {s}
      ensures old(pages.live).Keys <= pages.live.Keys
      ensures r == 0 || r == -1
      ensures spaces == if r == 0 then Owning(old(spaces), s, v / PAGE_ENTRIES) else old(spaces)
      ensures rest == if r == 0
        && PrivateWord(s, v, MakeEntry(phys, flags)) then old(rest) - {PageDown(phys)} else old(rest)
      ensures flat == if r == 0 then old(flat)[(s, v) := MakeEntry(phys, flags)] else old(flat)
      ensures r == 0 <==> OwnsTable(old(spaces), s, v / PAGE_ENTRIES) || old(pages.free) > 0
      ensures pages.refusals == old(pages.refusals) + if r == 0 then 0 else 1
      ensures pages.free == old(pages.free) - if r != 0 || OwnsTable(old(spaces), s, v / PAGE_ENTRIES) then 0 else 1
    {
      hide Valid, PageDown, PrivateWord, IsPrivate, LeafCase, Owning, OwnsTable;
      r := EnsurePrivatePageTable(s, v / PAGE_ENTRIES);
      if r != 0 {
        return;
      }
      OwningHas(old(spaces), s, v / PAGE_ENTRIES);
      MayWrite(s, v, MakeEntry(phys, flags));
      SetLeaf(s, v, MakeEntry(phys, flags));
    }

    lemma MayWrite(s: nat, v: nat, w: U32)
      requires Valid() && OwnsTable(spaces, s, v / PAGE_ENTRIES) && v < VPAGES && s != KERNEL
      ensures LeafCase(tables, spaces, s, v, w)
    {
      hide Structured, Separate, Sharing, Supervisor, Backed, Shape, FlatOf, RestOf, HeldOf;
    }

    /** Takes the user page behind a leaf back and clears the leaf. */
    method FreePrivate(s: nat, v: nat) returns (r: int)
      requires Valid() && IsPrivate(flat, s, v)
      modifies this`tables, this`flat, this`held, pages`live, pages`free, pages`hint, pages.entries
      ensures Valid() && r == 0 && held - {s} == old(held) - {s}
      ensures flat == old(flat)[(s, v) := 0]
    {
      hide Valid, Structured, Ok, Shape, Backed, RestOf, HeldOf, FlatOf, PageDown, Present, UserBit, Domains;
      Parts();
      ShowsLeaf(s, v);
      PrivateIsOwned(s, v);
      OwnedWalk(s, v);
      PrivateIsLive(s, v);
      ghost var tables0, live0 := tables, pages.live;
      var f := PageDown(tables[spaces[s].directory][v / PAGE_ENTRIES]);
      var entry := tables[f][v % PAGE_ENTRIES];
      r := pages.KFree(PageDown(entry));
      var words: seq<U32> := tables[f][v % PAGE_ENTRIES := 0];
      tables := tables[f := words];
      LeafCleared(tables0, live0, s, v);
      flat, held := FlatOf(tables, spaces), HeldOf(pages.live, tables, spaces);
      Whole();
    }

    /** The walk to a leaf in a table of the space's own. */
    lemma OwnedWalk(s: nat, v: nat)
      requires Ok(tables, spaces) && s in spaces && v < VPAGES && spaces[s].owned[v / PAGE_ENTRIES]
      ensures Shape(tables, spaces) && Present(DirEntry(tables, spaces, s, v / PAGE_ENTRIES))
      ensures spaces[s].directory in tables && |tables[spaces[s].directory]| == PAGE_ENTRIES
      ensures var f := PageDown(tables[spaces[s].directory][v / PAGE_ENTRIES]);
              f in tables && |tables[f]| == PAGE_ENTRIES && Leaf(tables, spaces, s, v) == tables[f][v % PAGE_ENTRIES]
    {
    }

    /** The frame of a user page is a live run of one page. */
    lemma PrivateIsLive(s: nat, v: nat)
      requires Ok(tables, spaces) && Backed(pages.live, tables, spaces)
      requires s in spaces && v < VPAGES && PrivateWord(s, v, Leaf(tables, spaces, s, v))
      ensures Private(tables, spaces, s, v)
      ensures PageDown(Leaf(tables, spaces, s, v)) in pages.live
    {
      assert Claimed(tables, spaces, Page(s, v));
      assert FrameOf(tables, spaces, Page(s, v)) == PageDown(Leaf(tables, spaces, s, v));
    }

    /** A user page is always reached through a table of the space's own. */
    lemma PrivateIsOwned(s: nat, v: nat)
      requires Ok(tables, spaces) && s in spaces && v < VPAGES && PrivateWord(s, v, Leaf(tables, spaces, s, v))
      ensures spaces[s].owned[v / PAGE_ENTRIES] && LeafCase(tables, spaces, s, v, 0)
    {
      if !spaces[s].owned[v / PAGE_ENTRIES] {
        SharedIsSupervisor(s, v);
      }
    }

    lemma SharedIsSupervisor(s: nat, v: nat)
      requires Ok(tables, spaces) && s in spaces && v < VPAGES && !spaces[s].owned[v / PAGE_ENTRIES]
      ensures !(Present(Leaf(tables, spaces, s, v)) && UserBit(Leaf(tables, spaces, s, v)))
    {
      if Present(DirEntry(tables, spaces, s, v / PAGE_ENTRIES)) {
        assert Leaf(tables, spaces, s, v) == Leaf(tables, spaces, KERNEL, v);
      }
    }

    lemma LeafCleared(tables0: Tables, live0: map<nat, nat>, s: nat, v: nat)
      requires LeafCase(tables0, spaces, s, v, 0) && Private(tables0, spaces, s, v)
      requires pages.Sound() && Backed(live0, tables0, spaces)
      requires pages.live == live0 - {PageDown(Leaf(tables0, spaces, s, v))}
      requires tables == WithLeaf(tables0, spaces, s, v, 0)
      ensures Shape(tables, spaces) && Ok(tables, spaces) && Backed(pages.live, tables, spaces)
      ensures RestOf(pages.live, tables, spaces) == RestOf(live0, tables0, spaces)
      ensures FlatOf(tables, spaces) == FlatOf(tables0, spaces)[(s, v) := 0]
      ensures HeldOf(pages.live, tables, spaces) - {s} == HeldOf(live0, tables0, spaces) - {s}
    {
      hide Structured, PageDown, UserBit, Separate, HeldOf, FlatOf;
      LeafOk(tables0, spaces, s, v, 0);
      var p := Page(s, v);
      forall c
        ensures c != p ==> (Claimed(tables, spaces, c) <==> Claimed(tables0, spaces, c))
        ensures c != p && Claimed(tables0, spaces, c) ==> FrameOf(tables, spaces, c) == FrameOf(tables0, spaces, c)
      {
        LeafClaims(tables0, spaces, s, v, 0, c);
      }
      LeafClaims(tables0, spaces, s, v, 0, p);
      assert Claimed(tables0, spaces, p) && !Claimed(tables, spaces, p);
      UnclaimReturns(live0, tables0, spaces, tables, spaces, p);
      RestMinus(live0, tables, spaces, FrameOf(tables0, spaces, p));
      assert ClaimedFrame(tables0, spaces, FrameOf(tables0, spaces, p));
      HeldElsewhere(live0, tables0, spaces, pages.live, tables, spaces, s);
      FlatWritten(tables0, s, v, 0);
    }

    // --------------------------------------------------------------- ranges

    /** The user page at one address of FreeUserRange's loop. */
    method FreeUserPage(s: nat, u: nat)
      requires Valid() && s in spaces && s != KERNEL && u < VPAGES && InWindows(u)
      modifies this`tables, this`flat, this`held, pages`live, pages`free, pages`hint, pages.entries
      ensures Valid() && held - {s} == old(held) - {s}
      ensures flat == if IsPrivate(old(flat), s, u) then old(flat)[(s, u) := 0] else old(flat)
    {
      if !spaces[s].owned[u / PAGE_ENTRIES] {
        SharedIsSupervisor(s, u);
        return;
      }
      var entry := tables[PageDown(tables[spaces[s].directory][u / PAGE_ENTRIES])][u % PAGE_ENTRIES];
      if Present(entry) && UserBit(entry) {
        var r := FreePrivate(s, u);
        assert r == 0;
      }
    }

    /** Frees the space's own pages in a range of windows; nothing else moves. */
    method FreeUserRange(s: nat, virt: U32, size: U32)
      requires Valid() && s in spaces && s != KERNEL
      requires forall u :: FirstPage(virt) <= u < EndPage(virt, size) ==> InWindows(u)
      modifies this`tables, this`flat, this`held, pages`live, pages`free, pages`hint, pages.entries
      ensures Valid() && held - {s} == old(held) - {s}
      ensures flat == Revoked(old(flat), s, FirstPage(virt), EndPage(virt, size))
    {
      hide Valid, Revoked;
      var u := FirstPage(virt);
      var end := EndPage(virt, size);
      RevokedNothing(old(flat), s, u, u);
      while u < end
        invariant FirstPage(virt) <= u && (u <= end || u == FirstPage(virt))
        invariant Valid() && held - {s} == old(held) - {s} && flat == Revoked(old(flat), s, FirstPage(virt), u)
      {
        RevokedStep(old(flat), s, FirstPage(virt), u);
        FreeUserPage(s, u);
        u := u + 1;
      }
      RevokedNothing(old(flat), s, FirstPage(virt), end);
    }

    /** Frames that are live keep their contents and stay live. */
    ghost predicate KeepsData(data0: map<nat, seq<Byte>>, live0: map<nat, nat>)
      reads this`data, pages`live
    {
      Keeps(data0, live0, data, pages.live)
    }

    /** Backs every page of a range of windows with a zeroed page of its own. When the free
        pages run out after `done` of them, these pages are freed again and left unmapped. */
    method PagingMapUserRange(s: nat, virt: U32, size: U32) returns (r: int, ghost done: nat)
      requires Valid() && (s in spaces || s == 0)
      requires s in spaces ==> Unclaimed(flat, s, FirstPage(virt), EndPage(virt, size))
      modifies this`tables, this`spaces, this`data, this`flat, this`rest, this`held, pages, pages.entries
      ensures Valid() && rest == old(rest) && OwnsMore(old(spaces), spaces, s) && held - {s} == old(held) - {s}
      ensures s == 0 || s == KERNEL || EndPage(virt, size) < FirstPage(virt) ==> r == -1 && done == 0
      ensures s != 0 && s != KERNEL && FirstPage(virt) <= EndPage(virt, size) ==>
        IsMapped(r, done, EndPage(virt, size) - FirstPage(virt), old(pages.free), OwnsTable(old(spaces), s, 0))
      ensures r == 0 ==> s in spaces && s != KERNEL && KeepsData(old(data), old(pages.live))
      ensures r == 0 ==> Zeroed(flat, data, pages.live, s, FirstPage(virt), EndPage(virt, size))
      ensures r == 0 ==> OpenRange(s, FirstPage(virt), EndPage(virt, size))
      ensures r == 0 ==> SameButRange(old(flat), flat, s, FirstPage(virt), EndPage(virt, size))
      ensures r != 0 ==> flat == Blanked(old(flat), s, FirstPage(virt), FirstPage(virt) + done)
      ensures KeepsBytes(old(data), old(pages.live), data)
      ensures old(pages.refusals) <= pages.refusals
      ensures s != 0 && s != KERNEL && FirstPage(virt) <= EndPage(virt, size) ==>
        (r == 0 <==> pages.refusals == old(pages.refusals))
    {
      hide Valid, Zeroed, SameButRange, Blanked, OwnsMore, Keeps, Unclaimed, IsMapped, OwnsTable, OpenRange;
      var start, end := FirstPage(virt), EndPage(virt, size);
      BlankedNone(flat, s, start);
      OwnsItself(spaces, s);
      if s == 0 || s == KERNEL || end < start {
        return -1, 0;
      }
      r, done := MapZeroPages(s, start, end);
      if r == 0 {
        ZeroedIsOpen(s, start, end);
      }
    }

    /** The loop of PagingMapUserRange; a failure frees what it has mapped. */
    method MapZeroPages(s: nat, start: nat, end: nat) returns (r: int, ghost done: nat)
      requires Valid() && s in spaces && s != KERNEL && start <= end <= VPAGES && Unclaimed(flat, s, start, end)
      modifies this`tables, this`spaces, this`data, this`flat, this`rest, this`held, pages, pages.entries
      ensures Valid() && rest == old(rest) && OwnsMore(old(spaces), spaces, s) && held - {s} == old(held) - {s}
      ensures IsMapped(r, done, end - start, old(pages.free), OwnsTable(old(spaces), s, 0))
      ensures r == 0 ==> s in spaces && KeepsData(old(data), old(pages.live))
      ensures r == 0 ==> Zeroed(flat, data, pages.live, s, start, end)
      ensures r == 0 ==> SameButRange(old(flat), flat, s, start, end)
      ensures r != 0 ==> flat == Blanked(old(flat), s, start, start + done)
      ensures KeepsBytes(old(data), old(pages.live), data)
      ensures old(pages.refusals) <= pages.refusals && (r == 0 <==> pages.refusals == old(pages.refusals))
    {
      hide Valid, Zeroed, OwnsMore, SameButRange, Keeps, Blanked, Unclaimed, OwnsTable, PagesFor, IsMapped,
        MappedTill, Domains;
      var u;
      u, done := MapWhileFree(s, start, end);
      FreeMeets(done, end - start, pages.free, old(pages.free), OwnsTable(old(spaces), s, 0));
      MappedParts(old(flat), old(data), old(pages.live), flat, data, pages.live, s, start, u);
      if u < end {
        assert IsMapped(-1, done, end - start, old(pages.free), OwnsTable(old(spaces), s, 0));
        UnmapZeroPages(s, old(flat), start, u, done, end);
        return -1, done;
      }
      assert u == end && IsMapped(0, done, end - start, old(pages.free), OwnsTable(old(spaces), s, 0));
      return 0, done;
    }

    /** Maps page after page until the free pages run out. */
    method MapWhileFree(s: nat, start: nat, end: nat) returns (u: nat, ghost done: nat)
      requires Valid() && s in spaces && s != KERNEL && start <= end <= VPAGES && Unclaimed(flat, s, start, end)
      modifies this`tables, this`spaces, this`data, this`flat, this`rest, this`held, pages, pages.entries
      ensures u == start + done <= end && s in spaces
      ensures Valid() && rest == old(rest) && OwnsMore(old(spaces), spaces, s) && held - {s} == old(held) - {s}
      ensures MappedTill(old(flat), old(data), old(pages.live), flat, data, pages.live, s, start, u)
      ensures pages.free + PagesFor(done, OwnsTable(old(spaces), s, 0)) == old(pages.free)
      ensures u < end ==> pages.free < PagesFor(1, OwnsTable(old(spaces), s, 0) || done > 0)
      ensures pages.refusals == old(pages.refusals) + if u < end then 1 else 0
    {
      hide Valid, PageDown, ZeroPage, OwnsMore, Owning, Keeps, Unclaimed, OwnsTable, PagesFor, MappedTill, Domains;
      PagesOfSpace(s);
      OwnsItself(spaces, s);
      MappedStarts(flat, data, pages.live, s, start);
      ghost var owned := OwnsTable(spaces, s, 0);
      NoPages(owned);
      u, done := start, 0;
      while u < end
        invariant u == start + done <= end
        invariant Valid() && rest == old(rest) && held - {s} == old(held) - {s}
        invariant spaces == if done == 0 then old(spaces) else Owning(old(spaces), s, 0)
        invariant MappedTill(old(flat), old(data), old(pages.live), flat, data, pages.live, s, start, u)
        invariant pages.free + PagesFor(done, owned) == old(pages.free) && pages.refusals == old(pages.refusals)
      {
        OwningOnce(old(spaces), spaces, s, 0);
        FreeMeets(done, done, pages.free, old(pages.free), owned);
        var ok := MapNext(s, old(flat), old(data), old(pages.live), start, u, end);
        if !ok {
          return;
        }
        u, done := u + 1, done + 1;
      }
      OwningOnce(old(spaces), spaces, s, 0);
    }

    lemma PagesOfSpace(s: nat)
      requires Valid() && s in spaces
      ensures |spaces[s].owned| == PAGE_ENTRIES && forall u: nat :: u < VPAGES ==> (s, u) in flat
    {
    }

    lemma KernelIsSupervisor()
      requires Valid()
      ensures forall v :: (KERNEL, v) in flat ==> !UserBit(flat[(KERNEL, v)])
    {
      hide Structured, Separate, Sharing, Backed, RestOf, HeldOf, FlatOf, UserBit;
      Parts();
      forall v: nat | (KERNEL, v) in flat ensures !UserBit(flat[(KERNEL, v)]) {
        ShowsLeaf(KERNEL, v);
      }
    }

    /** User mode may read and write every page of the range. */
    ghost predicate OpenRange(s: nat, first: nat, end: nat)
      reads this`tables, this`spaces
    {
      forall u: nat :: first <= u < end ==> UserWrites(tables, spaces, s, u)
    }

    /** User mode can not even read a page of the range. */
    ghost predicate ClosedRange(s: nat, first: nat, end: nat)
      reads this`tables, this`spaces
    {
      forall u: nat :: first <= u < end ==> !UserReads(tables, spaces, s, u)
    }

    /** The flat map tells what user mode may do. */
    lemma UserRights(s: nat, v: nat)
      requires Valid() && (s, v) in flat
      ensures UserReads(tables, spaces, s, v) <==> Present(flat[(s, v)]) && UserBit(flat[(s, v)])
      ensures UserWrites(tables, spaces, s, v) <==>
        Present(flat[(s, v)]) && UserBit(flat[(s, v)]) && WriteBit(flat[(s, v)])
    {
      hide Ok, Structured, Backed, RestOf, HeldOf, FlatOf, Present, UserBit, WriteBit, UserReads, UserWrites;
      Parts();
      ShowsLeaf(s, v);
      LeafDecides(tables, spaces, s, v);
    }

    lemma ZeroedIsOpen(s: nat, first: nat, end: nat)
      requires Valid() && Zeroed(flat, data, pages.live, s, first, end)
      ensures OpenRange(s, first, end)
    {
      hide Valid, Present, UserBit, WriteBit, UserReads, UserWrites, ZeroPage, PageDown;
      forall u: nat | first <= u < end ensures UserWrites(tables, spaces, s, u) {
        ZeroPageBits(data, flat[(s, u)]);
        UserRights(s, u);
      }
    }

    /** A physical range is open to user mode exactly if it was mapped for it. */
    lemma MappedRights(m: PageMap, s: nat, first: nat, end: nat, phys: U32, user: bool)
      requires Valid() && s in spaces && end <= VPAGES
      requires flat == MappedTo(m, s, first, end, phys, if user then RW_USER else RW)
      ensures if user then OpenRange(s, first, end) else ClosedRange(s, first, end)
    {
      hide Valid, Present, UserBit, WriteBit, UserReads, UserWrites, PageDown, Add32, MakeEntry;
      PagesOfSpace(s);
      forall u: nat | first <= u < end
        ensures if user then UserWrites(tables, spaces, s, u) else !UserReads(tables, spaces, s, u)
      {
        assert flat[(s, u)] ==
          MakeEntry(Add32(PageDown(phys), PAGE_SIZE * (u - first)), if user then RW_USER else RW);
        UserRights(s, u);
      }
    }

    lemma NoSpaceIsNull()
      requires Valid()
      ensures 0 !in spaces && KERNEL in spaces
    {
    }

    /** Frees the pages mapped so far; their leaves stay cleared, whatever they were before. */
    method UnmapZeroPages(s: nat, ghost flat0: PageMap, start: nat, u: nat, ghost count: nat, ghost end: nat)
      requires Valid() && s in spaces && s != KERNEL && u == start + count < end <= VPAGES
      requires Unclaimed(flat0, s, start, end)
      requires SameButRange(flat0, flat, s, start, u) && Zeroed(flat, data, pages.live, s, start, u)
      modifies this`tables, this`flat, this`held, pages`live, pages`free, pages`hint, pages.entries
      ensures Valid() && held - {s} == old(held) - {s} && flat == Blanked(flat0, s, start, start + count)
    {
      hide Valid, PageDown, Zeroed, ZeroPage, SameButRange, Blanked, Revoked, Unclaimed, InWindows;
      RevokedIsBlanked(flat0, flat, data, pages.live, s, start, u, end);
      PageRange(start, u);
      FreeUserRange(s, PAGE_SIZE * start, PAGE_SIZE * (u - start));
    }

    /** One turn of the loop above. */
    method MapNext(s: nat, ghost flat0: PageMap, ghost data0: map<nat, seq<Byte>>, ghost live0: map<nat, nat>,
        ghost start: nat, u: nat, ghost end: nat)
      returns (ok: bool)
      requires Valid() && s in spaces && s != KERNEL && start <= u < end <= VPAGES && Unclaimed(flat0, s, start, end)
      requires (s, u) in flat0 && MappedTill(flat0, data0, live0, flat, data, pages.live, s, start, u)
      modifies this`tables, this`spaces, this`data, this`flat, this`rest, this`held, pages, pages.entries
      ensures Valid() && rest == old(rest) && held - {s} == old(held) - {s}
      ensures MappedTill(flat0, data0, live0, flat, data, pages.live, s, start, if ok then u + 1 else u)
      ensures spaces == if ok then Owning(old(spaces), s, 0) else old(spaces)
      ensures ok <==> PagesFor(1, OwnsTable(old(spaces), s, 0)) <= old(pages.free)
      ensures pages.free == old(pages.free) - if ok then PagesFor(1, OwnsTable(old(spaces), s, 0)) else 0
      ensures pages.refusals == old(pages.refusals) + if ok then 0 else 1
    {
      hide Valid, PageDown, ZeroPage, Owning, Keeps, Unclaimed, OwnsTable, PagesFor, MappedTill;
      StillUnclaimed(flat0, data0, live0, flat, data, pages.live, s, start, u, end);
      ghost var w;
      ok, w := MapZeroPage(s, u);
      if ok {
        MappedOn(flat0, data0, live0, old(flat), old(data), old(pages.live), data, pages.live, s, start, u, w);
      } else {
        MappedStays(flat0, data0, live0, old(flat), old(data), old(pages.live), data, pages.live, s, start, u);
      }
    }

    /** Takes a page, zeroes it and maps it. */
    method MapZeroPage(s: nat, u: nat) returns (ok: bool, ghost w: U32)
      requires Valid() && s in spaces && s != KERNEL && Unclaimed(flat, s, u, u + 1)
      modifies this`tables, this`spaces, this`data, this`flat, this`rest, this`held, pages, pages.entries
      ensures Valid() && rest == old(rest) && held - {s} == old(held) - {s}
      ensures KeepsData(old(data), old(pages.live))
      ensures ok ==> ZeroPage(data, w) && PageDown(w) in pages.live
      ensures flat == if ok then old(flat)[(s, u) := w] else old(flat)
      ensures spaces == if ok then Owning(old(spaces), s, 0) else old(spaces)
      ensures ok <==> PagesFor(1, OwnsTable(old(spaces), s, 0)) <= old(pages.free)
      ensures pages.free == old(pages.free) - if ok then PagesFor(1, OwnsTable(old(spaces), s, 0)) else 0
      ensures pages.refusals == old(pages.refusals) + if ok then 0 else 1
    {
      hide Valid, Present, UserBit, PageDown, ZeroBytes, Owning, OwnsTable, Keeps, InWindows, PrivateWord, Unclaimed,
        IsPrivate, PagesFor, Domains;
      OneFor(OwnsTable(spaces, s, 0));
      UnclaimedPage(flat, s, u);
      KeepsItself(data, pages.live);
      var page := TakePage();
      if page == 0 {
        return false, 0;
      }
      data := data[page := ZeroBytes()];
      w := MakeEntry(page, RW_USER);
      FreshIsPrivate(s, u, page);
      PlusMinus(old(rest), page, 1);
      var r := MapPage(s, u, page, RW_USER);
      KeysKept(old(pages.live), page, pages.live);
      if r != 0 {
        var given := GiveBack(page);
      }
      KeepsFresh(old(data), old(pages.live), page, ZeroBytes(), pages.live);
      return r == 0, w;
    }

    lemma PlusMinus(rest: map<nat, nat>, a: nat, n: nat)
      requires a !in rest
      ensures rest[a := n] - {a} == rest
    {
    }

    lemma KeysKept(live: map<nat, nat>, a: nat, live': map<nat, nat>)
      requires a !in live && live[a := 1].Keys <= live'.Keys
      ensures a in live' && live.Keys <= live'.Keys && live.Keys <= (live' - {a}).Keys
    {
      assert live.Keys <= live[a := 1].Keys && a in live[a := 1].Keys;
    }

    lemma PlusMinusTwo(rest: map<nat, nat>, a: nat, b: nat)
      requires a !in rest && b !in rest[a := 1]
      ensures rest[a := 1][b := 1] - {a, b} == rest
    {
    }

    lemma FreshIsPrivate(s: nat, u: nat, page: U32)
      requires s != KERNEL && InWindows(u)
      ensures PrivateWord(s, u, MakeEntry(page, RW_USER))
    {
    }

    /** Maps a physical range outside the windows, page by page. `done` pages are
        mapped when it stops; within one table it maps all of them or none. */
    method PagingMapUserPhysicalRange(s: nat, virt: U32, phys: U32, size: U32, user: bool)
      returns (r: int, ghost done: nat)
      requires Valid() && (s in spaces || s == 0)
      requires forall u :: FirstPage(virt) <= u < EndPage(virt, size) ==> !InWindows(u)
      modifies this`tables, this`spaces, this`flat, this`rest, this`held, pages, pages.entries
      ensures Valid() && rest == old(rest) && OwnsMore(old(spaces), spaces, s) && held - {s} == old(held) - {s}
      ensures old(pages.live).Keys <= pages.live.Keys
      ensures s == 0 || s == KERNEL ==> r == -1 && flat == old(flat) && held == old(held)
      ensures r == 0 || r == -1
      ensures done > 0 ==> FirstPage(virt) + done <= EndPage(virt, size)
      ensures flat ==
        MappedTo(old(flat), s, FirstPage(virt), FirstPage(virt) + done, phys, if user then RW_USER else RW)
      ensures r == 0 ==> s in spaces && s != KERNEL && FirstPage(virt) + done == EndPage(virt, size)
      ensures r == 0 ==> OwnsPages(spaces, s, FirstPage(virt), EndPage(virt, size))
      ensures r == 0 && user ==> OpenRange(s, FirstPage(virt), EndPage(virt, size))
      ensures r == 0 && !user ==>
        forall u: nat :: FirstPage(virt) <= u < EndPage(virt, size) ==> !UserReads(tables, spaces, s, u)
      ensures r == -1 && InOneTable(FirstPage(virt), EndPage(virt, size)) ==> done == 0
      ensures IsOwnedRange(old(spaces), s, virt, phys, size) ==> r == 0
      ensures !IsRange(s, virt, phys, size) ==> r == -1 && done == 0 && pages.free == old(pages.free)
      ensures IsRange(s, virt, phys, size) ==>
        IsStop(r, old(spaces), s, FirstPage(virt), done, EndPage(virt, size), old(pages.free))
      ensures IsRange(s, virt, phys, size) ==>
        pages.free + TablesMissing(old(spaces), s, FirstPage(virt), FirstPage(virt) + done) == old(pages.free)
      ensures old(pages.refusals) <= pages.refusals
      ensures r == 0 <==> IsRange(s, virt, phys, size) && pages.refusals == old(pages.refusals)
    {
      hide Valid, MappedTo, InWindows, IsStop, OwnsUpTo, TablesMissing, OwnsTable, InOneTable, Domains, OwnsPages,
        OpenRange, OwnsMore;
      MappedNone(flat, s, FirstPage(virt), phys, if user then RW_USER else RW);
      OwnsItself(spaces, s);
      if s == 0 || s == KERNEL || size == 0 || virt % PAGE_SIZE != phys % PAGE_SIZE {
        return -1, 0;
      }
      var start, end := FirstPage(virt), EndPage(virt, size);
      if end < start {
        return -1, 0;
      }
      r, done := MapFrames(s, start, end, phys, if user then RW_USER else RW);
      StopFacts(r, old(spaces), s, start, done, end, old(pages.free));
      OwnedStays(old(spaces), spaces, s, 0);
      if r == 0 {
        PagesOfSpace(s);
        OwnsThem(old(spaces), spaces, s, start, end);
        MappedRights(old(flat), s, start, end, phys, user);
      }
    }

    /** The loop of PagingMapUserPhysicalRange. It stops where a table is missing and no page
        is free. */
    method MapFrames(s: nat, start: nat, end: nat, phys: U32, flags: nat) returns (r: int, ghost done: nat)
      requires Valid() && s in spaces && s != KERNEL && start <= end <= VPAGES && (flags == RW || flags == RW_USER)
      requires forall u :: start <= u < end ==> !InWindows(u)
      modifies this`tables, this`spaces, this`flat, this`rest, this`held, pages, pages.entries
      ensures Valid() && rest == old(rest) && OwnsMore(old(spaces), spaces, s) && held - {s} == old(held) - {s}
      ensures old(pages.live).Keys <= pages.live.Keys
      ensures start + done <= end && flat == MappedTo(old(flat), s, start, start + done, phys, flags)
      ensures OwnsUpTo(old(spaces), spaces, s, start, start + done)
      ensures pages.free + TablesMissing(old(spaces), s, start, start + done) == old(pages.free)
      ensures IsStop(r, old(spaces), s, start, done, end, old(pages.free))
      ensures pages.refusals == old(pages.refusals) + if r == 0 then 0 else 1
    {
      hide Valid, MappedTo, InWindows, PrivateWord, IsPrivate, MakeEntry, PageDown, Add32, OwnsMore, Owning,
        OwnsTable, OwnsUpTo, TablesMissing, Domains;
      done := 0;
      MappedNone(flat, s, start, phys, flags);
      OwnsItself(spaces, s);
      PagesOfSpace(s);
      NoneMissing(spaces, s, start, start);
      var pagePhys: U32 := Add32(PageDown(phys), 0);
      var u := start;
      while u < end
        invariant u == start + done <= end
        invariant Valid() && rest == old(rest) && OwnsMore(old(spaces), spaces, s) && held - {s} == old(held) - {s}
        invariant old(pages.live).Keys <= pages.live.Keys
        invariant pagePhys == Add32(PageDown(phys), PAGE_SIZE * done)
        invariant flat == MappedTo(old(flat), s, start, u, phys, flags)
        invariant OwnsUpTo(old(spaces), spaces, s, start, u) && pages.refusals == old(pages.refusals)
        invariant pages.free + TablesMissing(old(spaces), s, start, u) == old(pages.free)
      {
        MappedStep(old(flat), s, start, u, phys, flags);
        OwnedStays(old(spaces), spaces, s, 0);
        PagesOfSpace(s);
        MissingStep(old(spaces), spaces, s, start, u, end);
        OwningStep(old(spaces), spaces, s, u / PAGE_ENTRIES);
        OutsideIsForeign(flat, s, u, MakeEntry(pagePhys, flags));
        r := MapPage(s, u, pagePhys, flags);
        if r != 0 {
          assert u == start + done;
          return;
        }
        pagePhys := Add32(pagePhys, PAGE_SIZE);
        u := u + 1;
        done := done + 1;
      }
      assert u == start + done && u == end;
      return 0, done;
    }

    lemma OutsideIsForeign(flat: PageMap, s: nat, u: nat, w: U32)
      requires !InWindows(u)
      ensures !PrivateWord(s, u, w) && !IsPrivate(flat, s, u)
    {
    }

    /** Clears the leaves of a range outside the windows; the frames stay live. */
    method PagingUnmapUserRange(s: nat, virt: U32, size: U32) returns (r: int)
      requires Valid() && (s in spaces || s == 0)
      requires forall u :: FirstPage(virt) <= u < EndPage(virt, size) ==> !InWindows(u)
      modifies this`tables, this`flat, this`rest, this`held
      ensures Valid() && rest == old(rest) && held - {s} == old(held) - {s}
      ensures r == if s == 0 || s == KERNEL || size == 0 || EndPage(virt, size) < FirstPage(virt) then -1 else 0
      ensures r == -1 ==> flat == old(flat)
      ensures r == 0 ==> flat == Unmapped(old(flat), s, FirstPage(virt), EndPage(virt, size), spaces[s].owned)
    {
      hide Valid, Unmapped, InWindows, LeafCase;
      if s == 0 || s == KERNEL || size == 0 {
        return -1;
      }
      var start, end := FirstPage(virt), EndPage(virt, size);
      if end < start {
        return -1;
      }
      var u := start;
      UnmappedNone(flat, s, start, spaces[s].owned);
      while u < end
        invariant start <= u <= end
        invariant Valid() && rest == old(rest) && held - {s} == old(held) - {s}
        invariant flat == Unmapped(old(flat), s, start, u, spaces[s].owned)
      {
        UnmappedStep(old(flat), s, start, u, spaces[s].owned);
        if spaces[s].owned[u / PAGE_ENTRIES] {
          ClearLeaf(s, u);
        }
        u := u + 1;
      }
      return 0;
    }

    method ClearLeaf(s: nat, u: nat)
      requires Valid() && s in spaces && s != KERNEL && u < VPAGES && !InWindows(u) && spaces[s].owned[u / PAGE_ENTRIES]
      modifies this`tables, this`flat, this`rest, this`held
      ensures Valid() && rest == old(rest) && held - {s} == old(held) - {s} && flat == old(flat)[(s, u) := 0]
    {
      hide Structured, Shape, Separate, Sharing, Supervisor, Backed, RestOf, HeldOf, FlatOf;
      SetLeaf(s, u, 0);
    }

    /** Where the kernel finds a byte of a space; 0 when it is not mapped. */
    method PagingVirtualToKernel(s: nat, virt: U32) returns (r: U32)
      requires Valid() && (s in spaces || s == 0)
      ensures r == Physical(s, virt)
    {
      hide Valid, Shape, Ok, Structured, Backed, FlatOf, RestOf, HeldOf, Present, DirEntry, pages.Sound, Domains;
      NoSpaceIsNull();
      Parts();
      ShowsLeaf(s, FirstPage(virt));
      if s != 0 {
        InDirectory(s, FirstPage(virt) / PAGE_ENTRIES);
        NoBits();
      }
      if s == 0 || !Present(tables[spaces[s].directory][FirstPage(virt) / PAGE_ENTRIES]) {
        return 0;
      }
      var table := PageDown(tables[spaces[s].directory][FirstPage(virt) / PAGE_ENTRIES]);
      var entry := tables[table][FirstPage(virt) % PAGE_ENTRIES];
      if !Present(entry) {
        return 0;
      }
      return PageDown(entry) + virt % PAGE_SIZE;
    }

    predicate HasWalk(d: U32, virt: U32)
      reads this`tables
    {
      d - d % 4096 in tables && virt / 4096 % 1024 < |tables[d - d % 4096]|
    }

    /** The walk the processor makes: ten bits of the address choose the directory entry, ten
        the table entry, and twelve the byte; entries hold the frame's base and a present bit. */
    lemma WalksLikeProcessor(s: nat, virt: U32)
      requires Valid() && s in spaces
      ensures spaces[s].directory in tables && virt / 0x40_0000 < |tables[spaces[s].directory]|
      ensures var d := tables[spaces[s].directory][virt / 0x40_0000];
              if d % 2 == 0 then Physical(s, virt) == 0 && !UserReads(tables, spaces, s, virt / 4096)
              else
                HasWalk(d, virt) && var e := tables[d - d % 4096][virt / 4096 % 1024];
                && Physical(s, virt) == (if e % 2 == 0 then 0 else e - e % 4096 + virt % 4096)
                && (UserReads(tables, spaces, s, virt / 4096) <==> d / 4 % 2 == 1 && e % 2 == 1 && e / 4 % 2 == 1)
                && (UserWrites(tables, spaces, s, virt / 4096) <==> d / 2 % 4 == 3 && e % 8 == 7)
    {
      hide Valid, Ok, Structured, Backed, RestOf, HeldOf, FlatOf, Shape;
      Parts();
      ShowsLeaf(s, virt / 4096);
      InDirectory(s, virt / 4096 / 1024);
      assert virt / 4096 / 1024 == virt / 0x40_0000;
      NoBits();
      ThreeBits(tables[spaces[s].directory][virt / 0x40_0000]);
      if (s, virt / 4096) in flat {
        ThreeBits(flat[(s, virt / 4096)]);
      }
    }

    /** The physical address the flat map gives. */
    ghost function Physical(s: nat, virt: U32): U32
      reads this`flat
    {
      PhysicalIn(flat, s, virt)
    }

    // --------------------------------------------------------------- spaces

    /** kalloc: a run for `size` bytes and a header. Exhaustion panics in the
        kernel; here it shows as 0. */
    method kalloc(size: nat) returns (p: nat)
      requires Valid() && 0 < size && BlockPages(size) <= MAX_RUN
      modifies this`rest, pages, pages.entries
      ensures Valid()
      ensures p == 0 ==> rest == old(rest) && pages.live == old(pages.live)
      ensures p != 0 ==> p >= BLOCK_HEADER && p - BLOCK_HEADER !in old(pages.live) && p - BLOCK_HEADER !in old(rest)
      ensures p != 0 ==> pages.live == old(pages.live)[p - BLOCK_HEADER := BlockPages(size)]
      ensures p != 0 ==> rest == old(rest)[p - BLOCK_HEADER := BlockPages(size)]
      ensures old(pages.refusals) <= pages.refusals
      ensures p == 0 <==> pages.refusals != old(pages.refusals)
      ensures p == 0 <==> !RunExists(old(pages.Pages()), BlockPages(size))
      ensures pages.free == old(pages.free) - if p == 0 then 0 else BlockPages(size)
      ensures BlockPages(size) == 1 ==> (p == 0 <==> old(pages.free) == 0)
    {
      hide Valid, BlockPages, PageCount;
      BlockPagesIs(size);
      var base := AllocateRun(size + BLOCK_HEADER);
      return if base == 0 then 0 else base + BLOCK_HEADER;
    }

    method kfree(p: nat)
      requires Valid() && p >= BLOCK_HEADER && p - BLOCK_HEADER in rest
      modifies this`rest, pages`live, pages`free, pages`hint, pages.entries
      ensures Valid() && rest == old(rest) - {p - BLOCK_HEADER} && pages.live == old(pages.live) - {p - BLOCK_HEADER}
      ensures pages.free == old(pages.free) + old(rest)[p - BLOCK_HEADER]
    {
      hide Valid;
      var r := GiveBack(p - BLOCK_HEADER);
    }

    /** A new user space; it shows what the kernel's shows. 0 when memory is short. */
    method PagingCreateUserAddressSpace() returns (s: nat)
      requires Valid()
      modifies this`tables, this`spaces, this`flat, this`rest, this`held, pages, pages.entries
      ensures Valid() && rest == old(rest)
      ensures s == 0 ==> spaces == old(spaces) && flat == old(flat) && held == old(held)
      ensures s != 0 ==> s !in old(held) && s in held && held - {s} == old(held)
      ensures s != 0 ==>
        s !in old(spaces) && spaces.Keys == old(spaces).Keys + {s} && spaces[s].owned == seq(PAGE_ENTRIES, _ => false)
      ensures s != 0 ==> IsCreated(old(flat), flat, s)
      ensures forall t :: t in old(spaces) ==> spaces[t] == old(spaces)[t]
      ensures old(pages.live).Keys <= pages.live.Keys
      ensures old(pages.refusals) <= pages.refusals
      ensures s == 0 <==> pages.refusals != old(pages.refusals)
      ensures s == 0 <==> old(pages.free) < 2
      ensures pages.free == old(pages.free) - if s == 0 then 0 else 2
    {
      hide Valid, IsCreated, PageDown, BlockPages, RunExists, WithSpace;
      SpaceIsOnePage();
      s := kalloc(SPACE_BYTES);
      if s == 0 {
        return 0;
      }
      PlusMinus(old(rest), s - BLOCK_HEADER, 1);
      var directory := TakePage();
      if directory == 0 {
        kfree(s);
        return 0;
      }
      PlusMinusTwo(old(rest), s - BLOCK_HEADER, directory);
      AddSpace(s, directory);
      WithSpaceIs(old(spaces), s, directory);
    }

    lemma WithSpaceIs(spaces: Spaces, s: nat, directory: nat)
      requires s !in spaces
      ensures var spaces' := WithSpace(spaces, s, directory);
              && spaces'.Keys == spaces.Keys + {s} && spaces'[s].owned == seq(PAGE_ENTRIES, _ => false)
              && forall t :: t in spaces ==> spaces'[t] == spaces[t]
    {
    }

    lemma SpaceIsOnePage()
      ensures BlockPages(SPACE_BYTES) == 1
    {
    }

    /** Fills the directory and the structure of a new space. */
    method AddSpace(s: nat, directory: U32)
      requires Valid() && s >= BLOCK_HEADER && directory != s - BLOCK_HEADER
      requires s - BLOCK_HEADER in rest && rest[s - BLOCK_HEADER] == 1 && directory in rest && rest[directory] == 1
      modifies this`tables, this`spaces, this`flat, this`rest, this`held
      ensures Valid() && rest == old(rest) - {s - BLOCK_HEADER, directory}
      ensures s !in old(held) && s in held && held - {s} == old(held)
      ensures s !in old(spaces) && spaces == WithSpace(old(spaces), s, directory)
      ensures IsCreated(old(flat), flat, s)
    {
      hide Valid, Structured, Shape, Ok, Backed, Fresh, RestOf, FlatOf, IsCreated, HeldOf, WithSpace, WithDirectory,
        pages.Sound, Domains;
      Parts();
      RestIsFresh(pages.live, tables, spaces, s - BLOCK_HEADER);
      RestIsFresh(pages.live, tables, spaces, directory);
      RestIsLive(s - BLOCK_HEADER);
      RestIsLive(directory);
      FreshIsNew(s);
      KernelTables(0);
      ghost var tables0, spaces0 := tables, spaces;
      tables := WithDirectory(tables, spaces, directory);
      spaces := WithSpace(spaces, s, directory);
      Added(tables0, spaces0, s, directory);
      flat, rest := FlatOf(tables, spaces), RestOf(pages.live, tables, spaces);
      held := HeldOf(pages.live, tables, spaces);
      Whole();
    }

    /** No space can be at a block nobody has claimed. */
    lemma FreshIsNew(s: nat)
      requires Ok(tables, spaces) && s >= BLOCK_HEADER && Fresh(tables, spaces, s - BLOCK_HEADER)
      ensures s !in spaces
    {
      if s in spaces {
        BlockIsClaimed(s);
        assert false;
      }
    }

    lemma BlockIsClaimed(s: nat)
      requires Shape(tables, spaces) && s in spaces && s >= BLOCK_HEADER
      ensures Claimed(tables, spaces, Block(s)) && FrameOf(tables, spaces, Block(s)) == s - BLOCK_HEADER
    {
    }

    lemma Added(tables0: Tables, spaces0: Spaces, s: nat, directory: nat)
      requires AddCase(tables0, spaces0, s, directory) && Backed(pages.live, tables0, spaces0)
      requires s - BLOCK_HEADER in pages.live && pages.live[s - BLOCK_HEADER] == 1
      requires directory in pages.live && pages.live[directory] == 1
      requires tables == WithDirectory(tables0, spaces0, directory) && spaces == WithSpace(spaces0, s, directory)
      ensures Shape(tables, spaces) && Ok(tables, spaces) && Backed(pages.live, tables, spaces)
      ensures RestOf(pages.live, tables, spaces) == RestOf(pages.live, tables0, spaces0) - {s - BLOCK_HEADER, directory}
      ensures IsCreated(FlatOf(tables0, spaces0), FlatOf(tables, spaces), s)
      ensures HeldOf(pages.live, tables, spaces) - {s} == HeldOf(pages.live, tables0, spaces0)
      ensures s in HeldOf(pages.live, tables, spaces) && s !in HeldOf(pages.live, tables0, spaces0)
    {
      AddOk(tables0, spaces0, s, directory);
      forall c
        ensures Claimed(tables, spaces, c) <==> Claimed(tables0, spaces0, c) || c == Block(s) || c == Dir(s)
        ensures Claimed(tables0, spaces0, c) ==> FrameOf(tables, spaces, c) == FrameOf(tables0, spaces0, c)
        ensures c == Block(s) ==> FrameOf(tables, spaces, c) == s - BLOCK_HEADER
        ensures c == Dir(s) ==> FrameOf(tables, spaces, c) == directory
      {
        AddClaims(tables0, spaces0, s, directory, c);
      }
      forall a ensures ClaimedFrame(tables, spaces, a) <==>
        ClaimedFrame(tables0, spaces0, a) || a == s - BLOCK_HEADER || a == directory
      {
        assert Claimed(tables, spaces, Block(s)) && Claimed(tables, spaces, Dir(s));
        if ClaimedFrame(tables0, spaces0, a) {
          var c :| Claimed(tables0, spaces0, c) && FrameOf(tables0, spaces0, c) == a;
          assert Claimed(tables, spaces, c);
        }
        if ClaimedFrame(tables, spaces, a) {
          var c :| Claimed(tables, spaces, c) && FrameOf(tables, spaces, c) == a;
          assert Claimed(tables0, spaces0, c) || c == Block(s) || c == Dir(s);
        }
      }
      HeldElsewhere(pages.live, tables0, spaces0, pages.live, tables, spaces, s);
      assert HeldOf(pages.live, tables0, spaces0) - {s} == HeldOf(pages.live, tables0, spaces0);
      forall t, v | (t in spaces0 || t == s) && 0 <= v < VPAGES
        ensures Leaf(tables, spaces, t, v) == Leaf(tables0, spaces0, if t == s then KERNEL else t, v)
      {
        AddLeaf(tables0, spaces0, s, directory, t, v);
      }
    }

    /** Gives back everything a user space took: its window pages, tables, directory and structure. */
    method PagingDestroyAddressSpace(s: nat)
      requires Valid() && (s in spaces || s == 0)
      requires s in spaces ==> loaded != spaces[s].directory
      modifies this`tables, this`spaces, this`flat, this`rest, this`held, pages`live, pages`free, pages`hint,
        pages.entries
      ensures Valid() && rest == old(rest)
      ensures held == if s == KERNEL then old(held) else old(held) - {s}
      ensures spaces == if s == KERNEL then old(spaces) else old(spaces) - {s}
      ensures flat == if s == KERNEL then old(flat) else Without(old(flat), s)
    {
      if s == 0 || s == KERNEL {
        assert Without(flat, 0) == flat && held - {0} == held;
        return;
      }
      RevokeWindows(s);
      FreeStructures(s);
    }

    /** Frees every window page of a space. */
    method RevokeWindows(s: nat)
      requires Valid() && s in spaces && s != KERNEL
      modifies this`tables, this`flat, this`held, pages`live, pages`free, pages`hint, pages.entries
      ensures Valid() && Without(flat, s) == Without(old(flat), s) && held - {s} == old(held) - {s}
      ensures forall v :: !IsPrivate(flat, s, v)
    {
      hide Valid, Domains;
      PageRange(USER_EXEC_PAGE, USER_EXEC_PAGE + USER_EXEC_PAGES);
      PageRange(USER_STACK_PAGE, USER_STACK_PAGE + USER_STACK_PAGES);
      FreeUserRange(s, PAGE_SIZE * USER_EXEC_PAGE, PAGE_SIZE * USER_EXEC_PAGES);
      FreeUserRange(s, PAGE_SIZE * USER_STACK_PAGE, PAGE_SIZE * USER_STACK_PAGES);
    }

    /** Frees tables, directory and structure of a space that has no window page left. */
    method FreeStructures(s: nat)
      requires Valid() && s in spaces && s != KERNEL && forall v :: !IsPrivate(flat, s, v)
      modifies this`spaces, this`flat, this`rest, this`held, pages`live, pages`free, pages`hint, pages.entries
      ensures Valid() && rest == old(rest) && held == old(held) - {s}
      ensures spaces == old(spaces) - {s} && flat == Without(old(flat), s)
    {
      hide Valid, TablesFrom, RestWith, Present, PageDown, Without, IsPrivate, IsDirectory, Domains;
      var directory, owned, block := spaces[s].directory, spaces[s].owned, BlockRun(s);
      var words := Forget(s);
      DirectoryLengths(words, owned, directory, block);
      var i: nat := 0;
      while i < PAGE_ENTRIES
        invariant i <= PAGE_ENTRIES && Valid() && held == old(held) - {s}
        invariant spaces == old(spaces) - {s} && flat == Without(old(flat), s)
        invariant TablesFrom(words, owned, i) + {directory, block} !! old(rest).Keys
        invariant rest == RestWith(old(rest), TablesFrom(words, owned, i) + {directory, block})
      {
        TablesStep(words, owned, i, directory, block);
        if owned[i] && Present(words[i]) {
          RestWithout(old(rest), TablesFrom(words, owned, i) + {directory, block}, PageDown(words[i]));
          var r := GiveBack(PageDown(words[i]));
        }
        i := i + 1;
      }
      TablesNone(words, owned, directory, block);
      RestWithout(old(rest), {directory, block}, directory);
      var r := GiveBack(directory);
      assert {directory, block} - {directory} == {block};
      RestWithout(old(rest), {block}, block);
      kfree(s);
      assert {block} - {block} == {};
      RestWithNone(old(rest));
    }

    /** Drops a space whose only claims are its structure, directory and tables;
        their frames are still live and now belong to the rest. */
    method Forget(s: nat) returns (words: seq<U32>)
      requires Valid() && s in spaces && s != KERNEL && forall v :: !IsPrivate(flat, s, v)
      modifies this`spaces, this`flat, this`rest, this`held
      ensures Valid() && spaces == old(spaces) - {s} && flat == Without(old(flat), s) && held == old(held) - {s}
      ensures s >= BLOCK_HEADER && IsDirectory(words, old(spaces)[s].owned, old(spaces)[s].directory, BlockRun(s))
      ensures FramesIn(words, old(spaces)[s], BlockRun(s)) !! old(rest).Keys
      ensures rest == RestWith(old(rest), FramesIn(words, old(spaces)[s], BlockRun(s)))
    {
      hide Valid, Structured, Shape, Ok, Backed, FlatOf, RestOf, HeldOf, IsDirectory, FramesIn, RestWith, Without,
        IsPrivate;
      Parts();
      InDirectory(s, 0);
      ZeroIsNotLive();
      NothingPrivate(s);
      SpaceClaims(pages.live, tables, spaces, s);
      Forgotten(pages.live, tables, spaces, s);
      words := tables[spaces[s].directory];
      spaces := spaces - {s};
      flat, rest := FlatOf(tables, spaces), RestOf(pages.live, tables, spaces);
      held := HeldOf(pages.live, tables, spaces);
      Whole();
    }

    lemma ZeroIsNotLive()
      requires pages.Sound()
      ensures 0 !in pages.live
    {
      LiveIs(pages.Pages(), 0);
    }

    lemma NothingPrivate(s: nat)
      requires Shape(tables, spaces) && flat == FlatOf(tables, spaces) && s in spaces
      requires forall v :: !IsPrivate(flat, s, v)
      ensures forall v: nat :: v < VPAGES ==> !PrivateWord(s, v, Leaf(tables, spaces, s, v))
    {
      hide Shape, Leaf, PrivateWord;
      forall v: nat | v < VPAGES ensures !PrivateWord(s, v, Leaf(tables, spaces, s, v)) {
        ShowsLeaf(s, v);
        assert !IsPrivate(flat, s, v);
      }
    }

    // ----------------------------------------------------------------- boot

    /** Builds the kernel's space and loads it; false stands for the panic when memory is short.
        It takes a page for the directory and one for each table. */
    method PagingInit(mapSize: U32) returns (ok: bool)
      requires pages.Sound()
      modifies this, pages, pages.entries
      ensures ok ==> Valid() && spaces.Keys == {KERNEL} && loaded == spaces[KERNEL].directory
      ensures ok ==> rest == old(pages.live)
      ensures ok ==> MapsFirst(flat, EndPage(0, mapSize))
      ensures ok <==> BootPages(mapSize) <= old(pages.free)
      ensures ok ==> pages.free == old(pages.free) - BootPages(mapSize)
      ensures old(pages.refusals) <= pages.refusals && (ok <==> pages.refusals == old(pages.refusals))
    {
      hide Valid, IdentityMapped, IdentityEntry, TablesMissing, pages.Sound, PageDown;
      ok := EmptyKernelSpace();
      if !ok {
        return;
      }
      ghost var empty := flat;
      AllMissing(spaces, EndPage(0, mapSize));
      ok := IdentityMapRange(0, mapSize);
      IdentityFromEmpty(empty, EndPage(0, mapSize));
      loaded := spaces[KERNEL].directory;
    }

    /** The kernel's directory, still without any table. */
    method EmptyKernelSpace() returns (ok: bool)
      requires pages.Sound()
      modifies this, pages, pages.entries
      ensures ok <==> old(pages.free) > 0
      ensures ok ==> Valid() && spaces.Keys == {KERNEL} && rest == old(pages.live)
      ensures ok ==> forall i :: !OwnsTable(spaces, KERNEL, i)
      ensures ok ==> forall p :: p in flat <==> p.0 == KERNEL && p.1 < VPAGES
      ensures ok ==> forall p :: p in flat ==> flat[p] == 0
      ensures pages.free == old(pages.free) - if ok then 1 else 0
      ensures pages.refusals == old(pages.refusals) + if ok then 0 else 1
    {
      hide Structured, Ok, Shape, Backed, RestOf, HeldOf, FlatOf, Leaf, Valid, PageBitmap.Valid;
      OnePage();
      var directory := pages.KAlloc(PAGE_SIZE);
      if directory == 0 {
        return false;
      }
      tables := map[directory := seq(PAGE_ENTRIES, _ => 0)];
      spaces := map[KERNEL := Space(directory, seq(PAGE_ENTRIES, _ => false))];
      BootOk(old(pages.live), tables, spaces, directory);
      flat, rest := FlatOf(tables, spaces), RestOf(pages.live, tables, spaces);
      held := HeldOf(pages.live, tables, spaces);
      Whole();
      return true;
    }

    /** Maps kernel pages to themselves, while only the kernel has a space. */
    method IdentityMapRange(start: U32, size: U32) returns (ok: bool)
      requires Valid() && spaces.Keys == {KERNEL}
      modifies this`tables, this`spaces, this`flat, this`rest, this`held, pages, pages.entries
      ensures Valid() && rest == old(rest) && spaces.Keys == {KERNEL}
      ensures ok ==> flat == IdentityMapped(old(flat), FirstPage(start), EndPage(start, size))
      ensures ok <==> TablesMissing(old(spaces), KERNEL, FirstPage(start), EndPage(start, size)) <= old(pages.free)
      ensures ok ==>
        pages.free + TablesMissing(old(spaces), KERNEL, FirstPage(start), EndPage(start, size)) == old(pages.free)
      ensures pages.refusals == old(pages.refusals) + if ok then 0 else 1
    {
      hide Valid, IdentityMapped, PageDown, MakeEntry, TablesMissing, OwnsTable, Owning, OwnsUpTo, FirstPage, EndPage;
      var u, end := FirstPage(start), EndPage(start, size);
      IdentityNone(flat, u, u);
      NoneMissing(spaces, KERNEL, u, u);
      while u < end
        invariant FirstPage(start) <= u && (u <= end || u == FirstPage(start))
        invariant Valid() && rest == old(rest) && spaces.Keys == {KERNEL}
        invariant flat == IdentityMapped(old(flat), FirstPage(start), u)
        invariant OwnsUpTo(old(spaces), spaces, KERNEL, FirstPage(start), u)
        invariant pages.free + TablesMissing(old(spaces), KERNEL, FirstPage(start), u) == old(pages.free)
        invariant pages.refusals == old(pages.refusals)
      {
        IdentityStep(old(flat), FirstPage(start), u);
        MissingStep(old(spaces), spaces, KERNEL, FirstPage(start), u, end);
        ok := IdentityMapPage(u);
        if !ok {
          return;
        }
        u := u + 1;
      }
      RangeIsDone(old(flat), old(spaces), FirstPage(start), u, end);
      return true;
    }

    /** One page of the loop above. */
    method IdentityMapPage(u: nat) returns (ok: bool)
      requires Valid() && spaces.Keys == {KERNEL} && u < VPAGES
      modifies this`tables, this`spaces, this`flat, this`rest, this`held, pages, pages.entries
      ensures Valid() && rest == old(rest) && spaces.Keys == {KERNEL}
      ensures flat == if ok then old(flat)[(KERNEL, u) := IdentityEntry(u)] else old(flat)
      ensures ok <==> OwnsTable(old(spaces), KERNEL, u / PAGE_ENTRIES) || old(pages.free) > 0
      ensures spaces == if ok then Owning(old(spaces), KERNEL, u / PAGE_ENTRIES) else old(spaces)
      ensures pages.free == old(pages.free) - if !ok || OwnsTable(old(spaces), KERNEL, u / PAGE_ENTRIES) then 0 else 1
      ensures pages.refusals == old(pages.refusals) + if ok then 0 else 1
    {
      hide Valid, PageDown, MakeEntry, Present, OwnsTable, Owning, LeafCase, PrivateWord;
      ok := EnsureKernelTable(u / PAGE_ENTRIES);
      if ok {
        MayWriteKernel(u, IdentityEntry(u));
        KernelIsNeverPrivate(flat, u, IdentityEntry(u));
        SetLeaf(KERNEL, u, IdentityEntry(u));
      }
    }

    lemma MayWriteKernel(v: nat, w: U32)
      requires Valid() && OwnsTable(spaces, KERNEL, v / PAGE_ENTRIES) && v < VPAGES && spaces.Keys == {KERNEL}
      requires !UserBit(w)
      ensures LeafCase(tables, spaces, KERNEL, v, w)
    {
      hide Structured, Separate, Sharing, Supervisor, Backed, Shape, FlatOf, RestOf, HeldOf;
    }

    lemma KernelIsNeverPrivate(flat: PageMap, u: nat, w: U32)
      ensures !IsPrivate(flat, KERNEL, u) && !PrivateWord(KERNEL, u, w)
    {
    }

    method EnsureKernelTable(i: nat) returns (ok: bool)
      requires Valid() && i < PAGE_ENTRIES
      modifies this`tables, this`spaces, this`flat, this`rest, this`held, pages, pages.entries
      ensures Valid() && rest == old(rest) && flat == old(flat) && spaces.Keys == old(spaces).Keys
      ensures ok <==> OwnsTable(old(spaces), KERNEL, i) || old(pages.free) > 0
      ensures ok ==> OwnsTable(spaces, KERNEL, i)
      ensures spaces == if ok then Owning(old(spaces), KERNEL, i) else old(spaces)
      ensures pages.free == old(pages.free) - if !ok || OwnsTable(old(spaces), KERNEL, i) then 0 else 1
      ensures pages.refusals == old(pages.refusals) + if ok then 0 else 1
    {
      hide Valid, PageDown, MakeEntry, UserBit, Present;
      KernelTables(i);
      OwningOnce(spaces, spaces, KERNEL, i);
      OwningHas(spaces, KERNEL, i);
      if !Present(tables[spaces[KERNEL].directory][i]) {
        var frame := TakePage();
        if frame == 0 {
          return false;
        }
        PlusMinus(old(rest), frame, 1);
        InstallTable(KERNEL, i, frame, MakeEntry(frame, RW));
      }
      return true;
    }

    /** The kernel owns exactly the tables its directory shows. */
    lemma KernelTables(i: nat)
      requires Valid() && i < PAGE_ENTRIES
      ensures KERNEL in spaces && |spaces[KERNEL].owned| == PAGE_ENTRIES
      ensures spaces[KERNEL].directory in tables && |tables[spaces[KERNEL].directory]| == PAGE_ENTRIES
      ensures Present(tables[spaces[KERNEL].directory][i]) <==> spaces[KERNEL].owned[i]
    {
      hide Structured, Backed, RestOf, HeldOf, FlatOf, Separate, Supervisor;
      Parts();
      InDirectory(KERNEL, i);
    }
  }

  /** The tables of pages [first, end) that a space does not own. */
  function TablesMissing(spaces: Spaces, s: nat, first: nat, end: nat): nat
    decreases end
  {
    if end <= first then 0
    else
      TablesMissing(spaces, s, first, end - 1)
      + if OwnsTable(spaces, s, (end - 1) / PAGE_ENTRIES) then 0
        else if end - 1 == first || (end - 1) % PAGE_ENTRIES == 0 then 1 else 0
  }

  /** The pages PagingInit takes: the directory and its tables. */
  function BootPages(mapSize: U32): nat {
    1 + (EndPage(0, mapSize) + PAGE_ENTRIES - 1) / PAGE_ENTRIES
  }

  lemma NoneMissing(spaces: Spaces, s: nat, first: nat, end: nat)
    ensures end <= first ==> TablesMissing(spaces, s, first, end) == 0 && OwnsUpTo(spaces, spaces, s, first, end)
  {
  }

  /** At the end of the loop, whether or not it has turned at all. */
  lemma RangeIsDone(m: PageMap, spaces: Spaces, first: nat, u: nat, end: nat)
    requires end <= u && (u == end || u == first)
    ensures IdentityMapped(m, first, u) == IdentityMapped(m, first, end)
    ensures TablesMissing(spaces, KERNEL, first, u) == TablesMissing(spaces, KERNEL, first, end)
  {
    hide IdentityEntry;
  }

  lemma {:induction false} AllMissing(spaces: Spaces, end: nat)
    requires forall i :: !OwnsTable(spaces, KERNEL, i)
    ensures TablesMissing(spaces, KERNEL, 0, end) == (end + PAGE_ENTRIES - 1) / PAGE_ENTRIES
  {
    if end > 0 {
      AllMissing(spaces, end - 1);
    }
  }

  /** Some page of [first, end) lies in table `i`. */
  predicate SlotOf(first: nat, end: nat, i: nat) {
    first < end && first / PAGE_ENTRIES <= i <= (end - 1) / PAGE_ENTRIES
  }

  /** Beside what it owned before, a space owns the tables of pages [first, end). */
  ghost predicate OwnsUpTo(a: Spaces, b: Spaces, s: nat, first: nat, end: nat) {
    forall i: nat :: OwnsTable(b, s, i) <==> OwnsTable(a, s, i) || SlotOf(first, end, i)
  }

  lemma {:induction false} MissingGrows(spaces: Spaces, s: nat, first: nat, u: nat, end: nat)
    requires u <= end
    ensures TablesMissing(spaces, s, first, u) <= TablesMissing(spaces, s, first, end)
  {
    if u < end {
      MissingGrows(spaces, s, first, u, end - 1);
    }
  }

  lemma MissingStep(a: Spaces, b: Spaces, s: nat, first: nat, u: nat, end: nat)
    requires OwnsUpTo(a, b, s, first, u) && first <= u < end <= VPAGES && s in b && |b[s].owned| == PAGE_ENTRIES
    ensures TablesMissing(a, s, first, u + 1) ==
      TablesMissing(a, s, first, u) + if OwnsTable(b, s, u / PAGE_ENTRIES) then 0 else 1
    ensures TablesMissing(a, s, first, u + 1) <= TablesMissing(a, s, first, end)
    ensures OwnsUpTo(a, Owning(b, s, u / PAGE_ENTRIES), s, first, u + 1)
  {
    MissingGrows(a, s, first, u + 1, end);
    var j := u / PAGE_ENTRIES;
    forall i: nat ensures OwnsTable(Owning(b, s, j), s, i) <==> OwnsTable(b, s, i) || i == j {
    }
    assert first < u ==> (u - 1) / PAGE_ENTRIES <= j <= (u - 1) / PAGE_ENTRIES + 1;
    assert forall i: nat :: SlotOf(first, u + 1, i) <==> SlotOf(first, u, i) || i == j;
  }

  // ------------------------------------------------------ a mapping that fails

  /** A machine with a few pages behind the user window opens just these. */
  lemma FewPages(kernelEnd: nat, few: nat)
    requires kernelEnd <= USER_SPACE_END && few <= 200
    ensures |FreePages(InitialPages(32 + few, kernelEnd))| == few
  {
    InitialStructured(32 + few, kernelEnd);
    assert StartPage(kernelEnd) == 32;
    assert FreePages(InitialPages(32 + few, kernelEnd)) == Interval(32, few);
  }

  /** Such a machine with its first pages mapped to themselves: four pages are left. */
  method SmallMachine(kernelEnd: nat, mapped: nat) returns (m: Memory)
    requires kernelEnd <= USER_SPACE_END && 0 < mapped <= 2 * PAGE_ENTRIES
    ensures fresh(m) && fresh(m.pages) && fresh(m.pages.entries) && m.Valid() && m.pages.free == 4
    ensures MapsFirst(m.flat, mapped)
  {
    hide m.Valid, Structured, InitialPages, FreePages, m.Domains;
    var few := BootPages(mapped * PAGE_SIZE) + 4;
    FewPages(kernelEnd, few);
    var pages := new PageBitmap((32 + few) * PAGE_SIZE, kernelEnd);
    m := new Memory(pages);
    BitmapCounts(pages);
    var ok := m.PagingInit(mapped * PAGE_SIZE);
  }

  /** The kernel maps its first `n` pages to themselves and nothing else. */
  ghost predicate MapsFirst(m: PageMap, n: nat) {
    forall v: nat :: v < VPAGES ==> (KERNEL, v) in m && m[(KERNEL, v)] == if v < n then IdentityEntry(v) else 0
  }

  /** There a new space cannot back its image window: it gets one page and a table, gives the
      page back, and the kernel's identity entry that stood in its place is gone. */
  method FailureExample(kernelEnd: nat)
    returns (m: Memory, s: nat, r: int, ghost done: nat, ghost before: PageMap)
    requires kernelEnd <= USER_SPACE_END
    ensures m.Valid() && s in m.spaces && r == -1 && done == 1
    ensures (s, USER_EXEC_PAGE) in before && before[(s, USER_EXEC_PAGE)] == IdentityEntry(USER_EXEC_PAGE)
    ensures m.flat == Blanked(before, s, USER_EXEC_PAGE, USER_EXEC_PAGE + 1) && m.flat != before
  {
    hide m.Valid, MapsFirst, Blanked, Unclaimed, OwnsTable, IdentityEntry, m.Domains;
    m := SmallMachine(kernelEnd, 294);
    s := TwoPagesLeft(m, 294);
    before := m.flat;
    NoneIsPrivate(before, s, 294);
    r, done := FailedWindow(m, s);
    BlankedSurvives(before, s, USER_EXEC_PAGE, USER_EXEC_PAGE + 1);
  }

  /** The image window of a space without tables, when two pages are left. */
  method FailedWindow(m: Memory, s: nat) returns (r: int, ghost done: nat)
    requires m.Valid() && m.pages.free == 2 && s in m.spaces && s != 0 && s != KERNEL && !OwnsTable(m.spaces, s, 0)
    requires Unclaimed(m.flat, s, USER_EXEC_PAGE, USER_EXEC_PAGE + USER_EXEC_PAGES)
    modifies m`tables, m`spaces, m`data, m`flat, m`rest, m`held, m.pages, m.pages.entries
    ensures m.Valid() && s in m.spaces && r == -1 && done == 1
    ensures m.flat == Blanked(old(m.flat), s, USER_EXEC_PAGE, USER_EXEC_PAGE + 1)
  {
    hide m.Valid, Blanked, Unclaimed, OwnsTable, SameButRange, Keeps, KeepsBytes, Zeroed, IsMapped, FirstPage, EndPage;
    PageRange(USER_EXEC_PAGE, USER_EXEC_PAGE + USER_EXEC_PAGES);
    r, done := m.PagingMapUserRange(s, PAGE_SIZE * USER_EXEC_PAGE, PAGE_SIZE * USER_EXEC_PAGES);
    TwoAreTooFew(r, done, USER_EXEC_PAGES);
  }

  /** Without a table of its own, a space gets one page out of two free ones. */
  lemma TwoAreTooFew(r: int, done: nat, wanted: nat)
    requires IsMapped(r, done, wanted, 2, false) && wanted > 1
    ensures r == -1 && done == 1
  {
  }

  /** The new space of the example shows what the kernel's does. */
  method TwoPagesLeft(m: Memory, ghost mapped: nat) returns (s: nat)
    requires m.Valid() && m.pages.free == 4 && MapsFirst(m.flat, mapped)
    modifies m`tables, m`spaces, m`flat, m`rest, m`held, m.pages, m.pages.entries
    ensures m.Valid() && m.pages.free == 2 && s in m.spaces && s != 0 && s != KERNEL
    ensures |m.spaces[s].owned| == PAGE_ENTRIES && forall i :: !OwnsTable(m.spaces, s, i)
    ensures forall v: nat :: v < VPAGES ==>
      (s, v) in m.flat && m.flat[(s, v)] == if v < mapped then IdentityEntry(v) else 0
  {
    hide m.Valid, m.Domains, IdentityEntry;
    m.NoSpaceIsNull();
    s := m.PagingCreateUserAddressSpace();
    ghost var before := old(m.flat);
    assert forall v: nat :: v < VPAGES ==> m.flat[(s, v)] == before[(KERNEL, v)];
  }

  lemma BitmapCounts(pages: PageBitmap)
    requires pages.Valid() && pages.total <= pages.entries.Length
    ensures pages.free == |FreePages(pages.Pages())|
  {
  }

  /** Supervisor pages are nobody's own. */
  lemma NoneIsPrivate(m: PageMap, s: nat, n: nat)
    requires forall v: nat :: v < VPAGES ==> (s, v) in m && m[(s, v)] == if v < n then IdentityEntry(v) else 0
    ensures Unclaimed(m, s, USER_EXEC_PAGE, USER_EXEC_PAGE + USER_EXEC_PAGES)
  {
    hide PageDown;
  }

  /** The physical address a flat map gives; 0 when the page is not mapped. */
  ghost function PhysicalIn(flat: PageMap, s: nat, virt: U32): U32 {
    var p := (s, FirstPage(virt));
    if p in flat && Present(flat[p]) then PageDown(flat[p]) + virt % PAGE_SIZE else 0
  }

  /** The arguments PagingMapUserPhysicalRange accepts. */
  predicate IsRange(s: nat, virt: U32, phys: U32, size: U32) {
    && s != 0 && s != KERNEL && size != 0 && virt % PAGE_SIZE == phys % PAGE_SIZE
    && FirstPage(virt) <= EndPage(virt, size)
  }

  /** A proper range in a table the space owns already: mapping it takes no memory. */
  predicate IsOwnedRange(spaces: Spaces, s: nat, virt: U32, phys: U32, size: U32) {
    && IsRange(s, virt, phys, size) && FirstPage(virt) < EndPage(virt, size)
    && InOneTable(FirstPage(virt), EndPage(virt, size)) && OwnsTable(spaces, s, FirstPage(virt) / PAGE_ENTRIES)
  }

  /** A supervisor entry that maps a page to itself. */
  function IdentityEntry(u: nat): (w: U32)
    requires u < VPAGES
    ensures Present(w) && WriteBit(w) && !UserBit(w)
  {
    MakeEntry(PAGE_SIZE * u, RW)
  }

  ghost function IdentityMapped(m: PageMap, first: nat, end: nat): PageMap {
    imap p | p in m :: if p.0 == KERNEL && first <= p.1 < end && p.1 < VPAGES then IdentityEntry(p.1) else m[p]
  }

  lemma IdentityNone(m: PageMap, first: nat, end: nat)
    ensures end <= first ==> IdentityMapped(m, first, end) == m
  {
  }

  lemma IdentityFromEmpty(m: PageMap, end: nat)
    requires end <= VPAGES && forall p :: p in m ==> p.0 == KERNEL && m[p] == 0
    ensures forall v: nat :: (KERNEL, v) in m && v < VPAGES ==>
      IdentityMapped(m, 0, end)[(KERNEL, v)] == if v < end then IdentityEntry(v) else 0
  {
  }

  lemma IdentityStep(m: PageMap, first: nat, u: nat)
    requires (KERNEL, u) in m && first <= u < VPAGES
    ensures IdentityMapped(m, first, u + 1) == IdentityMapped(m, first, u)[(KERNEL, u) := IdentityEntry(u)]
  {
  }

  /** The empty kernel space is a proper starting point. */
  lemma BootOk(live: map<nat, nat>, tables: Tables, spaces: Spaces, directory: nat)
    requires directory !in live
    requires tables == map[directory := seq(PAGE_ENTRIES, _ => 0)]
    requires spaces == map[KERNEL := Space(directory, seq(PAGE_ENTRIES, _ => false))]
    ensures Shape(tables, spaces) && Ok(tables, spaces) && Backed(live[directory := 1], tables, spaces)
    ensures RestOf(live[directory := 1], tables, spaces) == live
    ensures forall p :: p in FlatOf(tables, spaces) <==> p.0 == KERNEL && p.1 < VPAGES
    ensures forall p :: p in FlatOf(tables, spaces) ==> FlatOf(tables, spaces)[p] == 0
  {
    assert Shape(tables, spaces);
    assert forall v :: 0 <= v < VPAGES ==> Leaf(tables, spaces, KERNEL, v) == 0;
    assert forall c :: Claimed(tables, spaces, c) ==> c == Dir(KERNEL);
    assert Claimed(tables, spaces, Dir(KERNEL)) && FrameOf(tables, spaces, Dir(KERNEL)) == directory;
    forall a: nat ensures ClaimedFrame(tables, spaces, a) <==> a == directory {
    }
  }

  /** The frames of the owned tables from slot `i` on. */
  ghost function TablesFrom(words: seq<U32>, owned: seq<bool>, i: nat): set<nat>
    requires |words| == |owned| == PAGE_ENTRIES
  {
    set j | i <= j < PAGE_ENTRIES && owned[j] :: PageDown(words[j])
  }

  /** The frames of a space without window pages. */
  ghost function FramesIn(words: seq<U32>, space: Space, block: nat): set<nat> {
    (if |words| == |space.owned| == PAGE_ENTRIES then TablesFrom(words, space.owned, 0) else {})
    + {space.directory, block}
  }

  /** Tables, directory and structure are pairwise different frames. */
  ghost predicate IsDirectory(words: seq<U32>, owned: seq<bool>, directory: nat, block: nat) {
    && |words| == |owned| == PAGE_ENTRIES && directory != block
    && (forall j :: 0 <= j < PAGE_ENTRIES && owned[j] ==>
          Present(words[j]) && PageDown(words[j]) != directory && PageDown(words[j]) != block)
    && (forall j, k :: 0 <= j < k < PAGE_ENTRIES && owned[j] && owned[k] ==> PageDown(words[j]) != PageDown(words[k]))
  }

  /** A rest with some single-page runs more. */
  ghost function RestWith(rest: map<nat, nat>, more: set<nat>): map<nat, nat> {
    map a | a in rest.Keys + more :: if a in more then 1 else rest[a]
  }

  lemma DirectoryLengths(words: seq<U32>, owned: seq<bool>, directory: nat, block: nat)
    requires IsDirectory(words, owned, directory, block)
    ensures |words| == |owned| == PAGE_ENTRIES && directory != block
  {
  }

  lemma TablesStep(words: seq<U32>, owned: seq<bool>, i: nat, directory: nat, block: nat)
    requires i < PAGE_ENTRIES && IsDirectory(words, owned, directory, block)
    ensures owned[i] ==> Present(words[i]) && PageDown(words[i]) in TablesFrom(words, owned, i)
    ensures TablesFrom(words, owned, i + 1) + {directory, block} ==
      if owned[i] then TablesFrom(words, owned, i) + {directory, block} - {PageDown(words[i])}
      else TablesFrom(words, owned, i) + {directory, block}
  {
  }

  lemma TablesNone(words: seq<U32>, owned: seq<bool>, directory: nat, block: nat)
    requires |words| == |owned| == PAGE_ENTRIES
    ensures TablesFrom(words, owned, PAGE_ENTRIES) + {directory, block} == {directory, block}
  {
  }

  lemma RestWithout(rest: map<nat, nat>, more: set<nat>, f: nat)
    requires f in more && more !! rest.Keys
    ensures f in RestWith(rest, more) && RestWith(rest, more) - {f} == RestWith(rest, more - {f})
    ensures more - {f} !! rest.Keys
  {
  }

  lemma RestWithNone(rest: map<nat, nat>)
    ensures RestWith(rest, {}) == rest
  {
  }

  /** The claims of a space without window pages. */
  lemma SpaceClaims(live: map<nat, nat>, tables: Tables, spaces: Spaces, s: nat)
    requires Ok(tables, spaces) && Backed(live, tables, spaces) && 0 !in live && s in spaces && s != KERNEL
    ensures s >= BLOCK_HEADER
    ensures IsDirectory(tables[spaces[s].directory], spaces[s].owned, spaces[s].directory, BlockRun(s))
  {
    assert Claimed(tables, spaces, Block(s)) && Claimed(tables, spaces, Dir(s));
    assert FrameOf(tables, spaces, Block(s)) in live;
    assert FrameOf(tables, spaces, Dir(s)) == spaces[s].directory;
    forall j | 0 <= j < PAGE_ENTRIES && spaces[s].owned[j]
      ensures Claimed(tables, spaces, Table(s, j))
      ensures FrameOf(tables, spaces, Table(s, j)) == PageDown(tables[spaces[s].directory][j])
    {
    }
    forall j, k | 0 <= j < k < PAGE_ENTRIES && spaces[s].owned[j] && spaces[s].owned[k]
      ensures PageDown(tables[spaces[s].directory][j]) != PageDown(tables[spaces[s].directory][k])
    {
      assert Table(s, j) != Table(s, k);
      assert FrameOf(tables, spaces, Table(s, j)) != FrameOf(tables, spaces, Table(s, k));
    }
    forall j | 0 <= j < PAGE_ENTRIES && spaces[s].owned[j]
      ensures PageDown(tables[spaces[s].directory][j]) != spaces[s].directory
      ensures PageDown(tables[spaces[s].directory][j]) != s - BLOCK_HEADER
    {
      assert FrameOf(tables, spaces, Table(s, j)) != FrameOf(tables, spaces, Dir(s));
      assert FrameOf(tables, spaces, Table(s, j)) != FrameOf(tables, spaces, Block(s));
    }
  }

  /** The frames a space without window pages holds. */
  ghost function FramesOfSpace(tables: Tables, spaces: Spaces, s: nat): set<nat>
    requires Shape(tables, spaces) && s in spaces
  {
    FramesIn(tables[spaces[s].directory], spaces[s], BlockRun(s))
  }

  lemma FramesAreClaims(tables: Tables, spaces: Spaces, s: nat, a: nat)
    requires Ok(tables, spaces) && s in spaces && s != KERNEL && s >= BLOCK_HEADER
    requires forall v: nat :: v < VPAGES ==> !PrivateWord(s, v, Leaf(tables, spaces, s, v))
    ensures a in FramesOfSpace(tables, spaces, s) <==>
      exists c :: Claimed(tables, spaces, c) && c.s == s && FrameOf(tables, spaces, c) == a
  {
    if a in FramesOfSpace(tables, spaces, s) {
      if a == BlockRun(s) {
        assert Claimed(tables, spaces, Block(s)) && FrameOf(tables, spaces, Block(s)) == a;
      } else if a == spaces[s].directory {
        assert Claimed(tables, spaces, Dir(s)) && FrameOf(tables, spaces, Dir(s)) == a;
      } else {
        var j :| 0 <= j < PAGE_ENTRIES && spaces[s].owned[j] && PageDown(tables[spaces[s].directory][j]) == a;
        assert Claimed(tables, spaces, Table(s, j)) && FrameOf(tables, spaces, Table(s, j)) == a;
      }
    }
  }

  lemma ForgottenElsewhere(live: map<nat, nat>, tables: Tables, spaces: Spaces, s: nat)
    requires Ok(tables, spaces) && Backed(live, tables, spaces) && s in spaces && s != KERNEL
    ensures Shape(tables, spaces - {s}) && Backed(live, tables, spaces - {s})
    ensures FlatOf(tables, spaces - {s}) == Without(FlatOf(tables, spaces), s)
    ensures HeldOf(live, tables, spaces - {s}) == HeldOf(live, tables, spaces) - {s}
  {
    hide PageDown, Present, UserBit, Leaf;
    RemoveSpace(tables, spaces, s);
    HeldElsewhere(live, tables, spaces, live, tables, spaces - {s}, s);
    assert HeldOf(live, tables, spaces - {s}) - {s} == HeldOf(live, tables, spaces - {s});
  }

  /** Forgetting the space hands exactly its frames to the rest. */
  lemma Forgotten(live: map<nat, nat>, tables: Tables, spaces: Spaces, s: nat)
    requires Ok(tables, spaces) && Backed(live, tables, spaces) && s in spaces && s != KERNEL && s >= BLOCK_HEADER
    requires forall v: nat :: v < VPAGES ==> !PrivateWord(s, v, Leaf(tables, spaces, s, v))
    ensures Shape(tables, spaces - {s}) && Ok(tables, spaces - {s}) && Backed(live, tables, spaces - {s})
    ensures FlatOf(tables, spaces - {s}) == Without(FlatOf(tables, spaces), s)
    ensures RestOf(live, tables, spaces - {s}) ==
      RestWith(RestOf(live, tables, spaces), FramesOfSpace(tables, spaces, s))
    ensures FramesOfSpace(tables, spaces, s) !! RestOf(live, tables, spaces).Keys
    ensures HeldOf(live, tables, spaces - {s}) == HeldOf(live, tables, spaces) - {s}
  {
    RemoveSpace(tables, spaces, s);
    ForgottenElsewhere(live, tables, spaces, s);
    hide PageDown, Present, UserBit, FlatOf, HeldOf, FramesOfSpace;
    forall a: nat
      ensures a in FramesOfSpace(tables, spaces, s) ==>
        ClaimedFrame(tables, spaces, a) && !ClaimedFrame(tables, spaces - {s}, a) && a in live && live[a] == 1
      ensures a !in FramesOfSpace(tables, spaces, s) ==>
        (ClaimedFrame(tables, spaces, a) <==> ClaimedFrame(tables, spaces - {s}, a))
    {
      FramesAreClaims(tables, spaces, s, a);
      if a in FramesOfSpace(tables, spaces, s) {
        var c :| Claimed(tables, spaces, c) && c.s == s && FrameOf(tables, spaces, c) == a;
        forall d | Claimed(tables, spaces - {s}, d) ensures FrameOf(tables, spaces - {s}, d) != a {
          assert Claimed(tables, spaces, d) && d != c;
        }
      }
    }
  }

  /** The run of a kalloc block; 0 for a null pointer. */
  function BlockRun(p: nat): nat {
    if p < BLOCK_HEADER then 0 else p - BLOCK_HEADER
  }

  /** What creation does to the flat map. */
  ghost predicate IsCreated(m: PageMap, n: PageMap, s: nat) {
    && (forall p :: p in n <==> p in m || (p.0 == s && p.1 < VPAGES))
    && (forall p :: p in m ==> p.0 != s && n[p] == m[p])
    && (forall v: nat :: v < VPAGES ==> (KERNEL, v) in m && n[(s, v)] == m[(KERNEL, v)])
  }

  /** The map without a space. */
  ghost function Without(m: PageMap, s: nat): PageMap {
    imap p | p in m && p.0 != s :: m[p]
  }

  /** The pages of a kalloc block of `size` bytes. */
  function BlockPages(size: nat): nat {
    (size + BLOCK_HEADER + PAGE_SIZE - 1) / PAGE_SIZE
  }

  /** A block has room for its eight bytes of header, and wastes less than a page. */
  lemma BlockCovers(size: nat)
    ensures size + 8 <= 4096 * BlockPages(size) < size + 8 + 4096
  {
  }

  lemma BlockPagesIs(size: nat)
    requires BlockPages(size) <= MAX_RUN
    ensures size + BLOCK_HEADER < 0x1_0000_0000 && PageCount(size + BLOCK_HEADER) == BlockPages(size) > 0
  {
  }

  /** The map after pages [first, end) of `s` are cleared where it owns the table. */
  ghost function Unmapped(m: PageMap, s: nat, first: nat, end: nat, owned: seq<bool>): PageMap
    requires |owned| == PAGE_ENTRIES
  {
    imap p | p in m :: if p.0 == s && first <= p.1 < end && p.1 < VPAGES && owned[p.1 / PAGE_ENTRIES] then 0 else m[p]
  }

  lemma UnmappedNone(m: PageMap, s: nat, first: nat, owned: seq<bool>)
    requires |owned| == PAGE_ENTRIES
    ensures Unmapped(m, s, first, first, owned) == m
  {
  }

  lemma UnmappedStep(m: PageMap, s: nat, first: nat, u: nat, owned: seq<bool>)
    requires |owned| == PAGE_ENTRIES && (s, u) in m && first <= u < VPAGES
    ensures Unmapped(m, s, first, u + 1, owned) ==
      if owned[u / PAGE_ENTRIES] then Unmapped(m, s, first, u, owned)[(s, u) := 0] else Unmapped(m, s, first, u, owned)
  {
  }

  /** Where a mapping stops: at the end if there are pages for all tables it misses, and
      otherwise before the first table there is no page for. */
  predicate IsStop(r: int, spaces: Spaces, s: nat, start: nat, done: nat, end: nat, free: nat) {
    && (r == 0 || r == -1) && (r == 0 <==> TablesMissing(spaces, s, start, end) <= free)
    && if r == 0 then start + done == end
       else
         start + done < end && TablesMissing(spaces, s, start, start + done) == free
         && TablesMissing(spaces, s, start, start + done + 1) == free + 1
  }

  /** Pages of one table miss one table at most. */
  lemma {:induction false} OneTableMissing(spaces: Spaces, s: nat, start: nat, end: nat)
    requires start < end && InOneTable(start, end)
    ensures TablesMissing(spaces, s, start, end) == if OwnsTable(spaces, s, start / PAGE_ENTRIES) then 0 else 1
  {
    if end - 1 > start {
      OneTableMissing(spaces, s, start, end - 1);
    }
  }

  /** A mapping within one table stops at once or not at all, and not at all where the space
      has the table. */
  lemma StopFacts(r: int, spaces: Spaces, s: nat, start: nat, done: nat, end: nat, free: nat)
    requires IsStop(r, spaces, s, start, done, end, free) && start <= end
    ensures (r == 0 || r == -1) && start + done <= end && (r == 0 ==> start + done == end)
    ensures r == -1 && InOneTable(start, end) ==> done == 0
    ensures InOneTable(start, end) && OwnsTable(spaces, s, start / PAGE_ENTRIES) ==> r == 0
  {
    if InOneTable(start, end) && start < end {
      OneTableMissing(spaces, s, start, end);
      if r == -1 && done > 0 {
        OneTableMissing(spaces, s, start, start + done);
      }
    }
  }

  /** Only `s` may have taken tables, and it gave none up. */
  ghost predicate OwnsMore(a: Spaces, b: Spaces, s: nat) {
    && b.Keys == a.Keys && b - {s} == a - {s}
    && (s in a ==> b[s].directory == a[s].directory && |b[s].owned| == |a[s].owned|)
    && (s in a ==> forall i :: 0 <= i < |a[s].owned| && a[s].owned[i] ==> b[s].owned[i])
  }

  lemma OwnsItself(spaces: Spaces, s: nat)
    ensures OwnsMore(spaces, spaces, s)
  {
  }

  lemma OwnedStays(a: Spaces, b: Spaces, s: nat, i: nat)
    requires OwnsMore(a, b, s) && s in a
    ensures s in b && |b[s].owned| == |a[s].owned| && (OwnsTable(a, s, i) ==> OwnsTable(b, s, i))
  {
  }

  /** The space owns the tables of pages [first, end). */
  predicate OwnsPages(spaces: Spaces, s: nat, first: nat, end: nat) {
    && s in spaces && |spaces[s].owned| == PAGE_ENTRIES && end <= VPAGES
    && forall w :: first <= w < end ==> spaces[s].owned[w / PAGE_ENTRIES]
  }

  lemma OwnsThem(a: Spaces, b: Spaces, s: nat, first: nat, end: nat)
    requires OwnsUpTo(a, b, s, first, end) && s in b && |b[s].owned| == PAGE_ENTRIES && end <= VPAGES
    ensures OwnsPages(b, s, first, end)
  {
    forall w: nat | first <= w < end ensures b[s].owned[w / PAGE_ENTRIES] {
      assert SlotOf(first, end, w / PAGE_ENTRIES);
    }
  }

  /** One table more owned by the same space. */
  lemma OwningStep(a: Spaces, b: Spaces, s: nat, i: nat)
    requires OwnsMore(a, b, s)
    ensures OwnsMore(a, Owning(b, s, i), s)
  {
    var c := Owning(b, s, i);
    assert c - {s} == b - {s};
  }

  /** The space owns its table at slot `i`. */
  function Owning(spaces: Spaces, s: nat, i: nat): Spaces
  {
    if s in spaces && i < |spaces[s].owned| then spaces[s := spaces[s].(owned := spaces[s].owned[i := true])]
    else spaces
  }

  predicate OwnsTable(spaces: Spaces, s: nat, i: nat) {
    s in spaces && i < |spaces[s].owned| && spaces[s].owned[i]
  }

  predicate InOneTable(first: nat, end: nat) {
    first < end ==> first / PAGE_ENTRIES == (end - 1) / PAGE_ENTRIES
  }

  /** The map after pages [first, end) of `s` are mapped to a physical range. */
  ghost function MappedTo(m: PageMap, s: nat, first: nat, end: nat, phys: U32, flags: nat): PageMap
    requires flags == RW || flags == RW_USER
  {
    imap p | p in m :: if p.0 == s && first <= p.1 < end
      then MakeEntry(Add32(PageDown(phys), PAGE_SIZE * (p.1 - first)), flags) else m[p]
  }

  lemma MappedNone(m: PageMap, s: nat, first: nat, phys: U32, flags: nat)
    requires flags == RW || flags == RW_USER
    ensures MappedTo(m, s, first, first, phys, flags) == m
  {
  }

  lemma MappedStep(m: PageMap, s: nat, first: nat, u: nat, phys: U32, flags: nat)
    requires (s, u) in m && first <= u && (flags == RW || flags == RW_USER)
    ensures MappedTo(m, s, first, u, phys, flags)[(s, u)] == m[(s, u)]
    ensures MappedTo(m, s, first, u + 1, phys, flags)
      == MappedTo(m, s, first, u, phys, flags)
           [(s, u) := MakeEntry(Add32(PageDown(phys), PAGE_SIZE * (u - first)), flags)]
    ensures Add32(Add32(PageDown(phys), PAGE_SIZE * (u - first)), PAGE_SIZE) ==
      Add32(PageDown(phys), PAGE_SIZE * (u + 1 - first))
  {
    AddTwice(PageDown(phys), PAGE_SIZE * (u - first), PAGE_SIZE);
    hide MakeEntry, Add32, PageDown;
  }

  function ZeroBytes(): seq<Byte> {
    Zeros(PAGE_SIZE)
  }

  /** A leaf that maps a zeroed frame for the user. */
  ghost predicate ZeroPage(data: map<nat, seq<Byte>>, w: U32) {
    && w == PageDown(w) + RW_USER + 1
    && PageDown(w) in data && data[PageDown(w)] == ZeroBytes()
  }

  /** Pages [first, end) map zeroed, live frames. */
  ghost predicate Zeroed(flat: PageMap, data: map<nat, seq<Byte>>, live: map<nat, nat>, s: nat, first: nat, end: nat) {
    forall w: nat :: first <= w < end ==>
      (s, w) in flat && ZeroPage(data, flat[(s, w)]) && PageDown(flat[(s, w)]) in live
  }

  /** Live frames keep their contents and stay live. */
  ghost predicate Keeps(data: map<nat, seq<Byte>>, live: map<nat, nat>, data': map<nat, seq<Byte>>, live': map<nat,
      nat>) {
    KeepsBytes(data, live, data') && live.Keys <= live'.Keys
  }

  /** Frames that were live hold what they held. */
  ghost predicate KeepsBytes(data: map<nat, seq<Byte>>, live: map<nat, nat>, data': map<nat, seq<Byte>>) {
    forall f :: f in data && f in live ==> f in data' && data'[f] == data[f]
  }

  lemma KeepsItself(data: map<nat, seq<Byte>>, live: map<nat, nat>)
    ensures Keeps(data, live, data, live)
  {
  }

  lemma KeepsFresh(data: map<nat, seq<Byte>>, live: map<nat, nat>, page: nat, bytes: seq<Byte>, live': map<nat, nat>)
    requires page !in live && live.Keys <= live'.Keys
    ensures Keeps(data, live, data[page := bytes], live')
  {
  }

  /** Pages [first, u) map zeroed frames of their own, and nothing else has changed. */
  ghost predicate MappedTill(m: PageMap, data: map<nat, seq<Byte>>, live: map<nat, nat>, m': PageMap,
      data': map<nat, seq<Byte>>, live': map<nat, nat>, s: nat, first: nat, u: nat) {
    SameButRange(m, m', s, first, u) && Keeps(data, live, data', live') && Zeroed(m', data', live', s, first, u)
  }

  lemma MappedStarts(m: PageMap, data: map<nat, seq<Byte>>, live: map<nat, nat>, s: nat, first: nat)
    ensures MappedTill(m, data, live, m, data, live, s, first, first)
  {
  }

  lemma MappedParts(m: PageMap, data: map<nat, seq<Byte>>, live: map<nat, nat>, m': PageMap,
      data': map<nat, seq<Byte>>, live': map<nat, nat>, s: nat, first: nat, u: nat)
    requires MappedTill(m, data, live, m', data', live', s, first, u)
    ensures SameButRange(m, m', s, first, u) && Keeps(data, live, data', live') && Zeroed(m', data', live', s, first, u)
    ensures KeepsBytes(data, live, data')
  {
  }

  lemma MappedStays(m: PageMap, data: map<nat, seq<Byte>>, live: map<nat, nat>, m': PageMap,
      data': map<nat, seq<Byte>>, live': map<nat, nat>, data'': map<nat, seq<Byte>>, live'': map<nat, nat>, s: nat,
      first: nat, u: nat)
    requires MappedTill(m, data, live, m', data', live', s, first, u) && Keeps(data', live', data'', live'')
    ensures MappedTill(m, data, live, m', data'', live'', s, first, u)
  {
    hide PageDown;
  }

  /** One page more. */
  lemma MappedOn(m: PageMap, data: map<nat, seq<Byte>>, live: map<nat, nat>, m': PageMap, data': map<nat, seq<Byte>>,
      live': map<nat, nat>, data'': map<nat, seq<Byte>>, live'': map<nat, nat>, s: nat, first: nat, u: nat, w: U32)
    requires MappedTill(m, data, live, m', data', live', s, first, u) && first <= u && (s, u) in m
    requires Keeps(data', live', data'', live'') && ZeroPage(data'', w) && PageDown(w) in live''
    ensures MappedTill(m, data, live, m'[(s, u) := w], data'', live'', s, first, u + 1)
  {
    hide PageDown;
    MappedStays(m, data, live, m', data', live', data'', live'', s, first, u);
  }

  /** A page that space `s` frees when it is destroyed. */
  ghost predicate IsPrivate(flat: PageMap, s: nat, v: nat) {
    (s, v) in flat && PrivateWord(s, v, flat[(s, v)])
  }

  /** Window pages of `s` that are not its own yet. */
  ghost predicate Unclaimed(flat: PageMap, s: nat, first: nat, end: nat) {
    forall u: nat :: first <= u < end ==> InWindows(u) && !IsPrivate(flat, s, u)
  }

  lemma UnclaimedPage(flat: PageMap, s: nat, u: nat)
    requires Unclaimed(flat, s, u, u + 1)
    ensures InWindows(u) && !IsPrivate(flat, s, u) && u < VPAGES && u / PAGE_ENTRIES == 0
  {
  }

  lemma StillUnclaimed(m: PageMap, data: map<nat, seq<Byte>>, live: map<nat, nat>, m': PageMap,
      data': map<nat, seq<Byte>>, live': map<nat, nat>, s: nat, first: nat, u: nat, end: nat)
    requires Unclaimed(m, s, first, end) && MappedTill(m, data, live, m', data', live', s, first, u) && first <= u < end
    ensures Unclaimed(m', s, u, u + 1)
  {
  }

  /** The free pages it takes to back `n` window pages: all windows lie in the first table. */
  function PagesFor(n: nat, owned: bool): nat {
    if n == 0 || owned then n else n + 1
  }

  /** Mapping `count` pages with `free` pages left: as many are mapped as can be, and it
      succeeds exactly if that is all of them. */
  predicate IsMapped(r: int, done: nat, count: int, free: nat, owned: bool) {
    && (r == 0 || r == -1) && done <= count && (r == 0 <==> done == count)
    && PagesFor(done, owned) <= free && (r != 0 ==> free < PagesFor(done + 1, owned))
  }

  lemma OneFor(owned: bool)
    ensures PagesFor(1, owned) == if owned then 1 else 2
  {
  }

  lemma NoPages(owned: bool)
    ensures PagesFor(0, owned) == 0
  {
  }

  /** What is left after `n` of `count` pages decides how it goes on. */
  lemma FreeMeets(n: nat, count: nat, free: nat, free0: nat, owned: bool)
    requires n <= count && free + PagesFor(n, owned) == free0
    ensures PagesFor(n + 1, owned) == PagesFor(n, owned) + PagesFor(1, owned || n > 0)
    ensures n == count ==> IsMapped(0, n, count, free0, owned)
    ensures n < count && free < PagesFor(1, owned || n > 0) ==> IsMapped(-1, n, count, free0, owned)
  {
  }

  lemma OwningHas(a: Spaces, s: nat, i: nat)
    requires s in a && i < |a[s].owned|
    ensures OwnsTable(Owning(a, s, i), s, i)
  {
  }

  lemma OwningOnce(a: Spaces, b: Spaces, s: nat, i: nat)
    requires s in a && i < |a[s].owned| && (b == a || b == Owning(a, s, i))
    ensures OwnsMore(a, b, s) && s in b && Owning(b, s, i) == Owning(a, s, i)
    ensures OwnsTable(a, s, i) ==> Owning(a, s, i) == a
    ensures OwnsTable(b, s, i) <==> OwnsTable(a, s, i) || b == Owning(a, s, i)
  {
    assert b - {s} == a - {s};
    assert Owning(a, s, i)[s].owned[i := true] == Owning(a, s, i)[s].owned;
    if a[s].owned[i] {
      assert a[s].owned[i := true] == a[s].owned;
    }
  }

  /** The map with the leaves of pages [first, end) of `s` cleared. */
  ghost function Blanked(m: PageMap, s: nat, first: nat, end: nat): PageMap {
    imap p | p in m :: if p.0 == s && first <= p.1 < end then 0 else m[p]
  }

  lemma BlankedRange(m: PageMap, s: nat, first: nat, u: nat, end: nat)
    requires u <= end
    ensures SameButRange(m, Blanked(m, s, first, u), s, first, end)
  {
  }

  lemma BlankedNone(m: PageMap, s: nat, first: nat)
    ensures Blanked(m, s, first, first) == m
  {
  }

  /** A failure that clears pages leaves the map as it was exactly if none of them showed anything. */
  lemma BlankedSurvives(m: PageMap, s: nat, first: nat, end: nat)
    ensures Blanked(m, s, first, end) == m <==> forall u: nat :: first <= u < end && (s, u) in m ==> m[(s, u)] == 0
  {
    if u: nat :| first <= u < end && (s, u) in m && m[(s, u)] != 0 {
      assert Blanked(m, s, first, end)[(s, u)] == 0;
    }
  }

  lemma ZeroPageBits(data: map<nat, seq<Byte>>, w: U32)
    requires ZeroPage(data, w)
    ensures Present(w) && UserBit(w) && WriteBit(w)
  {
    EntryFields(w / PAGE_SIZE, 7);
  }

  lemma RevokedIsBlanked(m: PageMap, n: PageMap, data: map<nat, seq<Byte>>, live: map<nat, nat>, s: nat, first: nat,
      u: nat, end: nat)
    requires Unclaimed(m, s, first, end) && first <= u <= end && s != KERNEL
    requires SameButRange(m, n, s, first, u) && Zeroed(n, data, live, s, first, u)
    ensures Revoked(n, s, first, u) == Blanked(m, s, first, u)
    ensures forall w :: first <= w < u ==> InWindows(w)
  {
    hide PageDown, Present, UserBit, ZeroPage;
    forall w: nat | first <= w < u ensures (s, w) in n && InWindows(w) && PrivateWord(s, w, n[(s, w)]) {
      ZeroPageBits(data, n[(s, w)]);
    }
  }

  /** Only leaves of `s` in [first, end) differ. */
  ghost predicate SameButRange(m: PageMap, n: PageMap, s: nat, first: nat, end: nat) {
    && (forall p :: p in n <==> p in m)
    && (forall p :: p in m && !(p.0 == s && first <= p.1 < end) ==> n[p] == m[p])
  }

  /** The map after a space's own pages in [first, end) are cleared. */
  ghost function Revoked(m: PageMap, s: nat, first: nat, end: nat): PageMap {
    imap p | p in m :: if p.0 == s && first <= p.1 < end && PrivateWord(s, p.1, m[p]) then 0 else m[p]
  }

  lemma RevokedNothing(m: PageMap, s: nat, first: nat, end: nat)
    ensures end <= first ==> Revoked(m, s, first, end) == m
  {
  }

  lemma RevokedStep(m: PageMap, s: nat, first: nat, u: nat)
    requires (s, u) in m && first <= u
    ensures Revoked(m, s, first, u)[(s, u)] == m[(s, u)]
    ensures Revoked(m, s, first, u + 1) ==
      if PrivateWord(s, u, m[(s, u)]) then Revoked(m, s, first, u)[(s, u) := 0] else Revoked(m, s, first, u)
  {
  }
}
