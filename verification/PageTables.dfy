/** Two-level 32-bit page tables (kernel/page/paging.c) as values: which frames
    the spaces hold, and the flat page map they implement. */
module PageTables {
  import opened Words

  const PAGE_ENTRIES: nat := 1024
  const VPAGES: nat := 0x10_0000

  /** Flag bits of an entry; the low twelve bits hold nothing else here. */
  const RW: nat := 2
  const RW_USER: nat := 6

  /** The kernel's own space. User spaces are named by their kalloc address. */
  const KERNEL: nat := 1

  /** kalloc keeps an eight-byte header before the block it returns. */
  const BLOCK_HEADER: nat := 8

  const USER_EXEC_PAGE: nat := 0x100
  const USER_EXEC_PAGES: nat := 16
  const USER_STACK_PAGE: nat := 0x11E
  const USER_STACK_PAGES: nat := 2

  predicate Present(w: U32) { w % 2 == 1 }

  predicate WriteBit(w: U32) { w / 2 % 2 == 1 }

  predicate UserBit(w: U32) { w / 4 % 2 == 1 }

  /** (phys & PAGE_ADDR) | flags | PAGE_PRESENT */
  function MakeEntry(phys: U32, flags: nat): (w: U32)
    requires flags == RW || flags == RW_USER
    ensures Present(w) && WriteBit(w) && PageDown(w) == PageDown(phys) && (UserBit(w) <==> flags == RW_USER)
    ensures w == PageDown(w) + flags + 1
  {
    EntryFields(phys / PAGE_SIZE, flags + 1);
    PageDown(phys) + flags + 1
  }

  /** An entry by its bits: the page base, present, writable, and for user mode or not. */
  lemma EntryValue(phys: U32, user: bool)
    ensures MakeEntry(phys, if user then RW_USER else RW) == phys - phys % 4096 + if user then 7 else 3
  {
  }

  /** The windows by address: 64 KiB for the image, 8 KiB for the stack. */
  lemma WindowAddresses(a: nat)
    ensures InWindows(a / 4096) <==> 0x10_0000 <= a < 0x11_0000 || 0x11_E000 <= a < 0x12_0000
  {
  }

  lemma EntryFields(page: nat, low: nat)
    requires low < 8
    ensures (4096 * page + low) % 4096 == low
    ensures (4096 * page + low) % 2 == low % 2
    ensures (4096 * page + low) / 2 % 2 == low / 2 % 2
    ensures (4096 * page + low) / 4 % 2 == low / 4
  {
    OctalDigit(512 * page, low);
  }

  lemma OctalDigit(high: nat, low: nat)
    requires low < 8
    ensures (8 * high + low) % 2 == low % 2
    ensures (8 * high + low) / 2 % 2 == low / 2 % 2
    ensures (8 * high + low) / 4 % 2 == low / 4
  {
  }

  /** struct AddressSpace */
  datatype Space = Space(directory: nat, owned: seq<bool>)

  /** Directory and table frames by physical address. */
  type Tables = map<nat, seq<U32>>
  type Spaces = map<nat, Space>

  /** Pages that a space frees when it is destroyed: the image and stack windows. */
  predicate InWindows(v: nat) {
    USER_EXEC_PAGE <= v < USER_EXEC_PAGE + USER_EXEC_PAGES
    || USER_STACK_PAGE <= v < USER_STACK_PAGE + USER_STACK_PAGES
  }

  // ------------------------------------------------------------ the walk

  /** Every pointer the hardware may follow leads to a frame of 1024 words. */
  ghost predicate Shape(tables: Tables, spaces: Spaces) {
    && (forall f :: f in tables ==> |tables[f]| == PAGE_ENTRIES)
    && (forall s :: s in spaces ==> spaces[s].directory in tables && |spaces[s].owned| == PAGE_ENTRIES)
    && (forall s, i :: s in spaces && 0 <= i < PAGE_ENTRIES && Present(tables[spaces[s].directory][i])
          ==> PageDown(tables[spaces[s].directory][i]) in tables)
  }

  ghost function DirEntry(tables: Tables, spaces: Spaces, s: nat, i: nat): U32
    requires Shape(tables, spaces) && s in spaces && i < PAGE_ENTRIES
  {
    tables[spaces[s].directory][i]
  }

  /** The flat page map: the leaf entry of a virtual page, 0 when there is no table. */
  ghost function Leaf(tables: Tables, spaces: Spaces, s: nat, v: nat): U32
    requires Shape(tables, spaces) && s in spaces && v < VPAGES
  {
    var d := DirEntry(tables, spaces, s, v / PAGE_ENTRIES);
    if Present(d) then tables[PageDown(d)][v % PAGE_ENTRIES] else 0
  }

  /** The flat page map of all spaces: (space, virtual page) to leaf entry. */
  type PageMap = imap<(nat, nat), U32>

  ghost function FlatOf(tables: Tables, spaces: Spaces): PageMap
    requires Shape(tables, spaces)
  {
    imap p: (nat, nat) | p.0 in spaces && p.1 < VPAGES :: Leaf(tables, spaces, p.0, p.1)
  }

  /** Present in a window with the user bit: such a page is the space's own. */
  predicate PrivateWord(s: nat, v: nat, w: U32) {
    s != KERNEL && InWindows(v) && Present(w) && UserBit(w)
  }

  ghost predicate Private(tables: Tables, spaces: Spaces, s: nat, v: nat)
    requires Shape(tables, spaces) && s in spaces
  {
    v < VPAGES && PrivateWord(s, v, Leaf(tables, spaces, s, v))
  }

  // ------------------------------------------------------------- ownership

  /** Everything a space has taken from the page allocator. */
  datatype Claim = Block(s: nat) | Dir(s: nat) | Table(s: nat, i: nat) | Page(s: nat, v: nat)

  ghost predicate Claimed(tables: Tables, spaces: Spaces, c: Claim)
    requires Shape(tables, spaces)
  {
    c.s in spaces && match c
    case Block(s) => s != KERNEL
    case Dir(_) => true
    case Table(s, i) => i < PAGE_ENTRIES && spaces[s].owned[i]
    case Page(s, v) => Private(tables, spaces, s, v)
  }

  ghost function FrameOf(tables: Tables, spaces: Spaces, c: Claim): nat
    requires Shape(tables, spaces) && Claimed(tables, spaces, c)
  {
    match c
    case Block(s) => if s < BLOCK_HEADER then 0 else s - BLOCK_HEADER
    case Dir(s) => spaces[s].directory
    case Table(s, i) => PageDown(DirEntry(tables, spaces, s, i))
    case Page(s, v) => PageDown(Leaf(tables, spaces, s, v))
  }

  /** No frame is claimed twice. */
  ghost predicate Separate(tables: Tables, spaces: Spaces)
    requires Shape(tables, spaces)
  {
    forall c, d :: Claimed(tables, spaces, c) && Claimed(tables, spaces, d) && c != d ==>
      FrameOf(tables, spaces, c) != FrameOf(tables, spaces, d)
  }

  /** A table that a space does not own is the kernel's. */
  ghost predicate Sharing(tables: Tables, spaces: Spaces)
    requires Shape(tables, spaces)
  {
    && KERNEL in spaces && 0 !in spaces
    && (forall s, i :: s in spaces && 0 <= i < PAGE_ENTRIES && spaces[s].owned[i] ==>
         Present(DirEntry(tables, spaces, s, i)))
    && (forall s, i ::
          s in spaces && 0 <= i < PAGE_ENTRIES && !spaces[s].owned[i] && Present(DirEntry(tables, spaces, s, i))
          ==> spaces[KERNEL].owned[i] && DirEntry(tables, spaces, s, i) == DirEntry(tables, spaces, KERNEL, i))
  }

  /** The kernel maps nothing for user mode. */
  ghost predicate Supervisor(tables: Tables, spaces: Spaces)
    requires Shape(tables, spaces) && KERNEL in spaces
  {
    forall v :: 0 <= v < VPAGES ==> !UserBit(Leaf(tables, spaces, KERNEL, v))
  }

  /** The directory lets everything through that the leaf allows, but for the kernel's own
      tables, which are closed to user mode. */
  ghost predicate Opening(tables: Tables, spaces: Spaces)
    requires Shape(tables, spaces)
  {
    forall s, i :: s in spaces && 0 <= i < PAGE_ENTRIES && spaces[s].owned[i] ==>
      Lets(s, DirEntry(tables, spaces, s, i))
  }

  predicate Lets(s: nat, d: U32) {
    WriteBit(d) && (UserBit(d) <==> s != KERNEL)
  }

  ghost predicate Ok(tables: Tables, spaces: Spaces) {
    && Shape(tables, spaces) && Sharing(tables, spaces) && Supervisor(tables, spaces) && Opening(tables, spaces)
    && Separate(tables, spaces)
  }

  /** User mode can read the page: both levels of the walk are present and let it through. */
  ghost predicate UserReads(tables: Tables, spaces: Spaces, s: nat, v: nat) {
    && Shape(tables, spaces) && s in spaces && v < VPAGES
    && Present(DirEntry(tables, spaces, s, v / PAGE_ENTRIES)) && UserBit(DirEntry(tables, spaces, s, v / PAGE_ENTRIES))
    && Present(Leaf(tables, spaces, s, v)) && UserBit(Leaf(tables, spaces, s, v))
  }

  ghost predicate UserWrites(tables: Tables, spaces: Spaces, s: nat, v: nat) {
    && UserReads(tables, spaces, s, v)
    && WriteBit(DirEntry(tables, spaces, s, v / PAGE_ENTRIES)) && WriteBit(Leaf(tables, spaces, s, v))
  }

  /** A user space's leaf alone tells what user mode may do with the page. */
  lemma LeafDecides(tables: Tables, spaces: Spaces, s: nat, v: nat)
    requires Ok(tables, spaces) && s in spaces && v < VPAGES
    ensures var w := Leaf(tables, spaces, s, v);
            && (UserReads(tables, spaces, s, v) <==> Present(w) && UserBit(w))
            && (UserWrites(tables, spaces, s, v) <==> Present(w) && UserBit(w) && WriteBit(w))
  {
    hide Separate, Present, UserBit, WriteBit;
    var i := v / PAGE_ENTRIES;
    var d := DirEntry(tables, spaces, s, i);
    if Present(d) {
      if !spaces[s].owned[i] || s == KERNEL {
        assert Leaf(tables, spaces, s, v) == Leaf(tables, spaces, KERNEL, v);
      } else {
        assert Lets(s, d);
      }
    } else {
      NoBits();
    }
  }

  lemma ThreeBits(w: U32)
    ensures w / 2 % 4 == 3 <==> WriteBit(w) && UserBit(w)
    ensures w % 8 == 7 <==> Present(w) && WriteBit(w) && UserBit(w)
  {
  }

  lemma NoBits()
    ensures !Present(0)
  {
  }

  /** The space whose table a walk of `s` reads at slot `i`. */
  ghost function Owner(spaces: Spaces, s: nat, i: nat): nat
    requires s in spaces && i < |spaces[s].owned|
  {
    if spaces[s].owned[i] then s else KERNEL
  }

  lemma WalkOwner(tables: Tables, spaces: Spaces, s: nat, i: nat)
    requires Ok(tables, spaces) && s in spaces && i < PAGE_ENTRIES && Present(DirEntry(tables, spaces, s, i))
    ensures Claimed(tables, spaces, Table(Owner(spaces, s, i), i))
    ensures PageDown(DirEntry(tables, spaces, s, i)) == FrameOf(tables, spaces, Table(Owner(spaces, s, i), i))
  {
  }

  // ----------------------------------------------------- privatising a table

  ghost predicate Fresh(tables: Tables, spaces: Spaces, frame: nat)
    requires Shape(tables, spaces)
  {
    forall c :: Claimed(tables, spaces, c) ==> FrameOf(tables, spaces, c) != frame
  }

  /** The words EnsurePrivatePageTable puts in a new table. */
  ghost function TableCopy(tables: Tables, spaces: Spaces, s: nat, i: nat): (r: seq<U32>)
    requires Shape(tables, spaces) && s in spaces && i < PAGE_ENTRIES
    ensures |r| == PAGE_ENTRIES
  {
    var d := DirEntry(tables, spaces, s, i);
    if Present(d) then tables[PageDown(d)] else seq(PAGE_ENTRIES, _ => 0)
  }

  ghost function PrivatizedTables(tables: Tables, spaces: Spaces, s: nat, i: nat, w: U32): Tables
    requires Shape(tables, spaces) && s in spaces && i < PAGE_ENTRIES
  {
    var dir := spaces[s].directory;
    tables[PageDown(w) := TableCopy(tables, spaces, s, i)][dir := tables[dir][i := w]]
  }

  function PrivatizedSpaces(spaces: Spaces, s: nat, i: nat): Spaces
    requires s in spaces && i < |spaces[s].owned|
  {
    spaces[s := spaces[s].(owned := spaces[s].owned[i := true])]
  }

  /** A space takes a table of its own at slot `i`, reached through entry `w`;
      the kernel only does so where it has none. */
  ghost predicate PrivatizeCase(tables: Tables, spaces: Spaces, s: nat, i: nat, w: U32) {
    && Ok(tables, spaces) && s in spaces && i < PAGE_ENTRIES && !spaces[s].owned[i]
    && Present(w) && Lets(s, w) && Fresh(tables, spaces, PageDown(w))
  }

  lemma PrivatizeShape(tables: Tables, spaces: Spaces, s: nat, i: nat, w: U32)
    requires PrivatizeCase(tables, spaces, s, i, w)
    ensures Shape(PrivatizedTables(tables, spaces, s, i, w), PrivatizedSpaces(spaces, s, i))
    ensures forall t, j :: t in spaces && 0 <= j < PAGE_ENTRIES ==>
      DirEntry(PrivatizedTables(tables, spaces, s, i, w), PrivatizedSpaces(spaces, s, i), t, j)
      == if t == s && j == i then w else DirEntry(tables, spaces, t, j)
  {
    var tables', spaces' := PrivatizedTables(tables, spaces, s, i, w), PrivatizedSpaces(spaces, s, i);
    forall t | t in spaces
      ensures spaces[t].directory != PageDown(w) && (t != s ==> spaces[t].directory != spaces[s].directory)
    {
      assert Claimed(tables, spaces, Dir(t)) && Claimed(tables, spaces, Dir(s));
      assert FrameOf(tables, spaces, Dir(t)) == spaces[t].directory;
      assert t != s ==> Dir(t) != Dir(s);
    }
  }

  /** Taking a private copy of a table changes no translation of any space. */
  lemma PrivatizeLeaf(tables: Tables, spaces: Spaces, s: nat, i: nat, w: U32, t: nat, v: nat)
    requires PrivatizeCase(tables, spaces, s, i, w) && t in spaces && v < VPAGES
    ensures Shape(PrivatizedTables(tables, spaces, s, i, w), PrivatizedSpaces(spaces, s, i))
    ensures Leaf(PrivatizedTables(tables, spaces, s, i, w), PrivatizedSpaces(spaces, s, i), t, v)
      == Leaf(tables, spaces, t, v)
  {
    PrivatizeShape(tables, spaces, s, i, w);
    var j := v / PAGE_ENTRIES;
    assert Claimed(tables, spaces, Dir(s));
    assert FrameOf(tables, spaces, Dir(s)) == spaces[s].directory;
    if Present(DirEntry(tables, spaces, t, j)) {
      WalkOwner(tables, spaces, t, j);
    }
  }

  /** Privatising adds exactly the one claim on the new frame. */
  lemma PrivatizeClaims(tables: Tables, spaces: Spaces, s: nat, i: nat, w: U32, c: Claim)
    requires PrivatizeCase(tables, spaces, s, i, w)
    ensures var tables', spaces' := PrivatizedTables(tables, spaces, s, i, w), PrivatizedSpaces(spaces, s, i);
            && Shape(tables', spaces')
            && (Claimed(tables', spaces', c) <==> Claimed(tables, spaces, c) || c == Table(s, i))
            && (Claimed(tables, spaces, c) ==>
                 c != Table(s, i) && FrameOf(tables', spaces', c) == FrameOf(tables, spaces, c))
            && (c == Table(s, i) ==> FrameOf(tables', spaces', c) == PageDown(w))
  {
    PrivatizeShape(tables, spaces, s, i, w);
    if c.Page? && c.s in spaces && c.v < VPAGES {
      PrivatizeLeaf(tables, spaces, s, i, w, c.s, c.v);
    }
  }

  lemma PrivatizeOk(tables: Tables, spaces: Spaces, s: nat, i: nat, w: U32)
    requires PrivatizeCase(tables, spaces, s, i, w)
    ensures Ok(PrivatizedTables(tables, spaces, s, i, w), PrivatizedSpaces(spaces, s, i))
  {
    var tables', spaces' := PrivatizedTables(tables, spaces, s, i, w), PrivatizedSpaces(spaces, s, i);
    PrivatizeShape(tables, spaces, s, i, w);
    forall v | 0 <= v < VPAGES ensures !UserBit(Leaf(tables', spaces', KERNEL, v)) {
      PrivatizeLeaf(tables, spaces, s, i, w, KERNEL, v);
    }
    assert Opening(tables', spaces');
    forall c, d | Claimed(tables', spaces', c) && Claimed(tables', spaces', d) && c != d
      ensures FrameOf(tables', spaces', c) != FrameOf(tables', spaces', d)
    {
      PrivatizeClaims(tables, spaces, s, i, w, c);
      PrivatizeClaims(tables, spaces, s, i, w, d);
    }
  }

  // ------------------------------------------------------- writing one leaf

  ghost function WithLeaf(tables: Tables, spaces: Spaces, s: nat, v: nat, w: U32): Tables
    requires Shape(tables, spaces) && s in spaces && v < VPAGES
      && Present(DirEntry(tables, spaces, s, v / PAGE_ENTRIES))
  {
    var f := PageDown(DirEntry(tables, spaces, s, v / PAGE_ENTRIES));
    var words: seq<U32> := tables[f][v % PAGE_ENTRIES := w];
    tables[f := words]
  }

  /** A space writes into a table of its own; the kernel does so only while no
      other space shares its tables, and never with the user bit. */
  ghost predicate LeafCase(tables: Tables, spaces: Spaces, s: nat, v: nat, w: U32) {
    && Ok(tables, spaces) && s in spaces && v < VPAGES && spaces[s].owned[v / PAGE_ENTRIES]
    && (s == KERNEL ==> spaces.Keys == {KERNEL} && !UserBit(w))
  }

  lemma LeafCaseFacts(tables: Tables, spaces: Spaces, s: nat, v: nat, w: U32)
    requires LeafCase(tables, spaces, s, v, w)
    ensures Shape(tables, spaces) && s in spaces && v < VPAGES && Present(DirEntry(tables, spaces, s, v / PAGE_ENTRIES))
  {
  }

  lemma LeafShape(tables: Tables, spaces: Spaces, s: nat, v: nat, w: U32)
    requires LeafCase(tables, spaces, s, v, w)
    ensures Shape(WithLeaf(tables, spaces, s, v, w), spaces)
    ensures forall t, j :: t in spaces && 0 <= j < PAGE_ENTRIES ==>
      DirEntry(WithLeaf(tables, spaces, s, v, w), spaces, t, j) == DirEntry(tables, spaces, t, j)
  {
    WalkOwner(tables, spaces, s, v / PAGE_ENTRIES);
    forall t | t in spaces ensures spaces[t].directory != PageDown(DirEntry(tables, spaces, s, v / PAGE_ENTRIES)) {
      assert Claimed(tables, spaces, Dir(t));
      assert FrameOf(tables, spaces, Dir(t)) == spaces[t].directory;
    }
  }

  /** Writing a leaf in a table of its own changes that page of that space only. */
  lemma LeafWritten(tables: Tables, spaces: Spaces, s: nat, v: nat, w: U32, t: nat, u: nat)
    requires LeafCase(tables, spaces, s, v, w) && t in spaces && u < VPAGES
    ensures Shape(WithLeaf(tables, spaces, s, v, w), spaces)
    ensures Leaf(WithLeaf(tables, spaces, s, v, w), spaces, t, u)
      == if t == s && u == v then w else Leaf(tables, spaces, t, u)
  {
    LeafShape(tables, spaces, s, v, w);
    var i, j := v / PAGE_ENTRIES, u / PAGE_ENTRIES;
    WalkOwner(tables, spaces, s, i);
    if Present(DirEntry(tables, spaces, t, j)) {
      WalkOwner(tables, spaces, t, j);
      if PageDown(DirEntry(tables, spaces, t, j)) == PageDown(DirEntry(tables, spaces, s, i)) {
        assert Table(Owner(spaces, t, j), j) == Table(s, i);
      }
    }
  }

  lemma LeafClaims(tables: Tables, spaces: Spaces, s: nat, v: nat, w: U32, c: Claim)
    requires LeafCase(tables, spaces, s, v, w)
    ensures var tables' := WithLeaf(tables, spaces, s, v, w);
            && Shape(tables', spaces)
            && (c != Page(s, v) ==> (Claimed(tables', spaces, c) <==> Claimed(tables, spaces, c)))
            && (c != Page(s, v) && Claimed(tables, spaces, c) ==>
                 FrameOf(tables', spaces, c) == FrameOf(tables, spaces, c))
            && (c == Page(s, v) ==> (Claimed(tables', spaces, c) <==> PrivateWord(s, v, w)))
            && (c == Page(s, v) && Claimed(tables', spaces, c) ==> FrameOf(tables', spaces, c) == PageDown(w))
  {
    LeafShape(tables, spaces, s, v, w);
    if c.Page? && c.s in spaces && c.v < VPAGES {
      LeafWritten(tables, spaces, s, v, w, c.s, c.v);
    }
  }

  /** A frame no claim but page `v` of `s` may hold. */
  ghost predicate FreshBut(tables: Tables, spaces: Spaces, s: nat, v: nat, frame: nat)
    requires Shape(tables, spaces)
  {
    forall c :: Claimed(tables, spaces, c) && c != Page(s, v) ==> FrameOf(tables, spaces, c) != frame
  }

  lemma LeafOk(tables: Tables, spaces: Spaces, s: nat, v: nat, w: U32)
    requires LeafCase(tables, spaces, s, v, w)
    requires PrivateWord(s, v, w) ==> FreshBut(tables, spaces, s, v, PageDown(w))
    ensures Ok(WithLeaf(tables, spaces, s, v, w), spaces)
  {
    var tables' := WithLeaf(tables, spaces, s, v, w);
    LeafShape(tables, spaces, s, v, w);
    forall u | 0 <= u < VPAGES ensures !UserBit(Leaf(tables', spaces, KERNEL, u)) {
      LeafWritten(tables, spaces, s, v, w, KERNEL, u);
    }
    forall c, d | Claimed(tables', spaces, c) && Claimed(tables', spaces, d) && c != d
      ensures FrameOf(tables', spaces, c) != FrameOf(tables', spaces, d)
    {
      LeafClaims(tables, spaces, s, v, w, c);
      LeafClaims(tables, spaces, s, v, w, d);
    }
  }

  // --------------------------------------------------- adding and removing

  function WithSpace(spaces: Spaces, s: nat, directory: nat): Spaces {
    spaces[s := Space(directory, seq(PAGE_ENTRIES, _ => false))]
  }

  function WithDirectory(tables: Tables, spaces: Spaces, directory: nat): Tables
    requires KERNEL in spaces && spaces[KERNEL].directory in tables
  {
    tables[directory := tables[spaces[KERNEL].directory]]
  }

  ghost predicate AddCase(tables: Tables, spaces: Spaces, s: nat, directory: nat) {
    && Ok(tables, spaces) && s !in spaces && s >= BLOCK_HEADER
    && Fresh(tables, spaces, directory) && Fresh(tables, spaces, s - BLOCK_HEADER) && directory != s - BLOCK_HEADER
  }

  /** A new space starts as the kernel's map; the others keep theirs. */
  lemma AddLeaf(tables: Tables, spaces: Spaces, s: nat, directory: nat, t: nat, v: nat)
    requires AddCase(tables, spaces, s, directory) && (t in spaces || t == s) && v < VPAGES
    ensures Shape(WithDirectory(tables, spaces, directory), WithSpace(spaces, s, directory))
    ensures Leaf(WithDirectory(tables, spaces, directory), WithSpace(spaces, s, directory), t, v)
      == Leaf(tables, spaces, if t == s then KERNEL else t, v)
  {
    AddShape(tables, spaces, s, directory);
    var t' := if t == s then KERNEL else t;
    var j := v / PAGE_ENTRIES;
    if Present(DirEntry(tables, spaces, t', j)) {
      WalkOwner(tables, spaces, t', j);
    }
  }

  lemma AddShape(tables: Tables, spaces: Spaces, s: nat, directory: nat)
    requires AddCase(tables, spaces, s, directory)
    ensures Shape(WithDirectory(tables, spaces, directory), WithSpace(spaces, s, directory))
    ensures forall t, j :: (t in spaces || t == s) && 0 <= j < PAGE_ENTRIES ==>
      DirEntry(WithDirectory(tables, spaces, directory), WithSpace(spaces, s, directory), t, j)
      == DirEntry(tables, spaces, if t == s then KERNEL else t, j)
  {
    forall t | t in spaces ensures spaces[t].directory != directory {
      assert Claimed(tables, spaces, Dir(t));
      assert FrameOf(tables, spaces, Dir(t)) == spaces[t].directory;
    }
  }

  lemma AddClaims(tables: Tables, spaces: Spaces, s: nat, directory: nat, c: Claim)
    requires AddCase(tables, spaces, s, directory)
    ensures var tables', spaces' := WithDirectory(tables, spaces, directory), WithSpace(spaces, s, directory);
            && Shape(tables', spaces')
            && (Claimed(tables', spaces', c) <==> Claimed(tables, spaces, c) || c == Block(s) || c == Dir(s))
            && (Claimed(tables, spaces, c) ==> c.s != s && FrameOf(tables', spaces', c) == FrameOf(tables, spaces, c))
            && (c == Block(s) ==> FrameOf(tables', spaces', c) == s - BLOCK_HEADER)
            && (c == Dir(s) ==> FrameOf(tables', spaces', c) == directory)
  {
    AddShape(tables, spaces, s, directory);
    if c.Page? && (c.s in spaces || c.s == s) && c.v < VPAGES {
      AddLeaf(tables, spaces, s, directory, c.s, c.v);
    }
  }

  lemma AddOk(tables: Tables, spaces: Spaces, s: nat, directory: nat)
    requires AddCase(tables, spaces, s, directory)
    ensures Ok(WithDirectory(tables, spaces, directory), WithSpace(spaces, s, directory))
  {
    var tables', spaces' := WithDirectory(tables, spaces, directory), WithSpace(spaces, s, directory);
    AddShape(tables, spaces, s, directory);
    forall v | 0 <= v < VPAGES ensures !UserBit(Leaf(tables', spaces', KERNEL, v)) {
      AddLeaf(tables, spaces, s, directory, KERNEL, v);
    }
    forall c, d | Claimed(tables', spaces', c) && Claimed(tables', spaces', d) && c != d
      ensures FrameOf(tables', spaces', c) != FrameOf(tables', spaces', d)
    {
      AddClaims(tables, spaces, s, directory, c);
      AddClaims(tables, spaces, s, directory, d);
    }
  }

  /** Forgetting a user space leaves every other map and claim as it was. */
  lemma RemoveSpace(tables: Tables, spaces: Spaces, s: nat)
    requires Ok(tables, spaces) && s in spaces && s != KERNEL
    ensures Ok(tables, spaces - {s})
    ensures forall t, v :: t in spaces - {s} && 0 <= v < VPAGES ==>
      Leaf(tables, spaces - {s}, t, v) == Leaf(tables, spaces, t, v)
    ensures forall c :: Claimed(tables, spaces - {s}, c) <==> Claimed(tables, spaces, c) && c.s != s
    ensures forall c :: Claimed(tables, spaces - {s}, c) ==>
      FrameOf(tables, spaces - {s}, c) == FrameOf(tables, spaces, c)
  {
    var spaces' := spaces - {s};
    assert Shape(tables, spaces');
    forall t, v | t in spaces' && 0 <= v < VPAGES ensures Leaf(tables, spaces', t, v) == Leaf(tables, spaces, t, v) {
    }
    forall v | 0 <= v < VPAGES ensures !UserBit(Leaf(tables, spaces', KERNEL, v)) {
      assert Leaf(tables, spaces', KERNEL, v) == Leaf(tables, spaces, KERNEL, v);
    }
    forall c
      ensures Claimed(tables, spaces', c) <==> Claimed(tables, spaces, c) && c.s != s
      ensures Claimed(tables, spaces', c) ==> FrameOf(tables, spaces', c) == FrameOf(tables, spaces, c)
    {
    }
  }
}
