/** What the page maps of kernel/page/paging.c mean address by address: where a virtual address
    leads after each call. */
module Addresses {
  import opened Words
  import opened PageTables
  import opened Paging

  /** The address lies in pages `first` to `end` of the space. */
  predicate InPages(s: nat, t: nat, first: nat, end: nat, a: nat) {
    t == s && 4096 * first <= a < 4096 * end
  }

  lemma InPagesIs(s: nat, t: nat, first: nat, end: nat, a: nat)
    ensures InPages(s, t, first, end, a) <==> t == s && first <= a / 4096 < end
  {
  }

  lemma WrapsByPages(q: nat, off: nat)
    requires off < 4096
    ensures (4096 * q + off) % 0x1_0000_0000 == 4096 * (q % 0x10_0000) + off
  {
    var h, l := q / 0x10_0000, q % 0x10_0000;
    assert 4096 * q + off == 0x1_0000_0000 * h + (4096 * l + off);
    assert 0 <= 4096 * l + off < 0x1_0000_0000;
  }

  lemma EntryAt(phys: U32, k: nat, off: nat, flags: nat)
    requires off < 4096 && (flags == RW || flags == RW_USER)
    ensures PageDown(MakeEntry(Add32(PageDown(phys), 4096 * k), flags)) + off
      == (phys - phys % 4096 + 4096 * k + off) % 0x1_0000_0000
  {
    hide MakeEntry;
    var q := phys / 4096 + k;
    assert PageDown(phys) + 4096 * k == 4096 * q;
    WrapsByPages(q, 0);
    WrapsByPages(q, off);
  }

  /** A range mapped to physical memory leads there, offset by offset. */
  lemma MappedAddress(m: PageMap, s: nat, first: nat, end: nat, phys: U32, user: bool, t: nat, a: U32)
    requires (t, a / 4096) in m
    ensures PhysicalIn(MappedTo(m, s, first, end, phys, if user then RW_USER else RW), t, a) ==
      if InPages(s, t, first, end, a) then (phys - phys % 4096 + (a - 4096 * first)) % 0x1_0000_0000
      else PhysicalIn(m, t, a)
  {
    InPagesIs(s, t, first, end, a);
    if InPages(s, t, first, end, a) {
      EntryAt(phys, a / 4096 - first, a % 4096, if user then RW_USER else RW);
    }
  }

  /** An unmapped range leads nowhere, where the space has tables of its own. */
  lemma UnmappedAddress(m: PageMap, s: nat, first: nat, end: nat, owned: seq<bool>, t: nat, a: U32)
    requires (t, a / 4096) in m && |owned| == 1024
    ensures PhysicalIn(Unmapped(m, s, first, end, owned), t, a) ==
      if InPages(s, t, first, end, a) && owned[a / 0x40_0000] then 0 else PhysicalIn(m, t, a)
  {
    InPagesIs(s, t, first, end, a);
    assert a / 4096 / 1024 == a / 0x40_0000;
  }

  /** Nor does a range that a failed mapping has left, whatever was there before. */
  lemma BlankedAddress(m: PageMap, s: nat, first: nat, end: nat, t: nat, a: U32)
    requires (t, a / 4096) in m
    ensures PhysicalIn(Blanked(m, s, first, end), t, a) ==
      if InPages(s, t, first, end, a) then 0 else PhysicalIn(m, t, a)
  {
    InPagesIs(s, t, first, end, a);
  }

  /** Of a freed range only user pages in the image and the stack window go. */
  lemma RevokedAddress(m: PageMap, s: nat, first: nat, end: nat, t: nat, a: U32)
    requires (t, a / 4096) in m
    ensures PhysicalIn(Revoked(m, s, first, end), t, a) ==
      if InPages(s, t, first, end, a) && s != 1 && m[(t, a / 4096)] / 4 % 2 == 1
        && (0x10_0000 <= a < 0x11_0000 || 0x11_E000 <= a < 0x12_0000)
      then 0 else PhysicalIn(m, t, a)
  {
    InPagesIs(s, t, first, end, a);
    WindowAddresses(a);
  }

  /** The kernel's first map leads every covered address to itself, and no other anywhere. */
  lemma IdentityAddress(m: PageMap, n: nat, a: U32)
    requires MapsFirst(m, n) && n <= 0x10_0000
    ensures PhysicalIn(m, 1, a) == if a < 4096 * n then a else 0
    ensures (1, a / 4096) in m && (a < 4096 * n ==> m[(1, a / 4096)] == a - a % 4096 + 3)
  {
    var u := a / 4096;
    assert u < VPAGES && (KERNEL, u) in m;
    EntryValue(4096 * u, false);
  }

  /** A new space leads everywhere the kernel's leads. */
  lemma CreatedAddress(m: PageMap, n: PageMap, s: nat, t: nat, a: U32)
    requires IsCreated(m, n, s)
    ensures PhysicalIn(n, t, a) == PhysicalIn(m, if t == s then 1 else t, a)
  {
    var u := a / 4096;
    assert u < VPAGES && (KERNEL, u) in m && n[(s, u)] == m[(KERNEL, u)];
    if t != s {
      assert (t, u) in n <==> (t, u) in m;
    }
  }

  /** And a destroyed one nowhere. */
  lemma DestroyedAddress(m: PageMap, s: nat, t: nat, a: U32)
    ensures PhysicalIn(Without(m, s), t, a) == if t == s then 0 else PhysicalIn(m, t, a)
  {
  }

  lemma InFrame(w: U32, off: nat)
    requires off < 4096
    ensures var p := PageDown(w) + off; p % 4096 == off && p - p % 4096 == PageDown(w)
    ensures w == PageDown(w) + RW_USER + 1 ==> w % 4096 == 7 && Present(w)
  {
  }

  /** A zeroed range leads to live frames, and reads as zero. */
  lemma ZeroedAddress(flat: PageMap, data: map<nat, seq<Byte>>, live: map<nat, nat>, s: nat, first: nat, end: nat,
      a: U32)
    requires Zeroed(flat, data, live, s, first, end) && InPages(s, s, first, end, a)
    ensures var p := PhysicalIn(flat, s, a);
            p - p % 4096 in live && p % 4096 == a % 4096 && IsZero(data, p)
    ensures (s, a / 4096) in flat && flat[(s, a / 4096)] % 4096 == 7
  {
    hide PageDown, Present;
    InPagesIs(s, s, first, end, a);
    var w := flat[(s, a / 4096)];
    assert ZeroPage(data, w);
    InFrame(w, a % 4096);
  }

  ghost predicate IsZero(data: map<nat, seq<Byte>>, p: nat) {
    p - p % 4096 in data && |data[p - p % 4096]| == 4096 && data[p - p % 4096][p % 4096] == 0
  }

  /** Outside the range of such a call nothing moves. */
  lemma OutsideAddress(m: PageMap, n: PageMap, s: nat, first: nat, end: nat, t: nat, a: U32)
    requires SameButRange(m, n, s, first, end) && !InPages(s, t, first, end, a)
    ensures PhysicalIn(n, t, a) == PhysicalIn(m, t, a)
  {
    InPagesIs(s, t, first, end, a);
  }

  /** PagingMapUserPhysicalRange takes a user space, a range that is not empty, and physical
      memory at the same offset in its page; it refuses everything else. */
  lemma RangeArguments(s: nat, virt: U32, phys: U32, size: U32)
    requires virt + size <= 0xFFFF_F000
    ensures IsRange(s, virt, phys, size) <==> s != 0 && s != 1 && size > 0 && virt % 4096 == phys % 4096
  {
  }
}
