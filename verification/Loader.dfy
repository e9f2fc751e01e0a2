/** The loader of kernel/sched/exec.c over the page tables: copying and relocating an
    image through a user space's own mapping, and starting it as a task. */
module Loader {
  import opened Words
  import opened PageTables
  import opened Paging
  import opened ExecImage
  import opened RunQueue
  import opened TaskHeap
  import opened Estates
  import opened Sched
  import PageRuns

  /** Pages of the image window. */
  predicate ExecPage(u: nat) {
    USER_EXEC_PAGE <= u < USER_EXEC_PAGE + USER_EXEC_PAGES
  }

  /** A leaf that shows a frame of user data. */
  predicate Shows(data: map<nat, seq<Byte>>, w: U32) {
    Present(w) && PageDown(w) in data && |data[PageDown(w)]| == PAGE_SIZE
  }

  /** In the image window a space maps only pages of its own. */
  ghost predicate ReadyIn(flat: PageMap, data: map<nat, seq<Byte>>, s: nat) {
    forall u: nat :: ExecPage(u) ==>
      (s, u) in flat && (Present(flat[(s, u)]) ==> PrivateWord(s, u, flat[(s, u)]) && Shows(data, flat[(s, u)]))
  }

  ghost predicate WindowReady(m: Memory, s: nat)
    reads m`flat, m`data
  {
    ReadyIn(m.flat, m.data, s)
  }

  /** The byte of the image window at address `a`. */
  function ByteIn(data: map<nat, seq<Byte>>, w: U32, a: nat): Byte
    requires Shows(data, w)
  {
    data[PageDown(w)][a % PAGE_SIZE]
  }

  ghost predicate Mapped(flat: PageMap, data: map<nat, seq<Byte>>, s: nat, a: nat) {
    USER_EXEC_LOAD_ADDR <= a < USER_EXEC_END && (s, a / PAGE_SIZE) in flat && Shows(data, flat[(s, a / PAGE_SIZE)])
  }

  ghost function BytesOf(flat: PageMap, data: map<nat, seq<Byte>>, s: nat): Bytes {
    map a: nat | a < USER_EXEC_END && Mapped(flat, data, s, a) :: ByteIn(data, flat[(s, a / PAGE_SIZE)], a)
  }

  /** What a user space sees in its image window. */
  ghost function UserBytes(m: Memory, s: nat): Bytes
    reads m`flat, m`data
  {
    BytesOf(m.flat, m.data, s)
  }

  // ------------------------------------------------------ what the others see

  /** What can be seen of the memory: the spaces, their maps and the data frames. */
  datatype Shown = Shown(spaces: set<nat>, flat: PageMap, data: map<nat, seq<Byte>>)

  ghost function ShownBy(m: Memory): Shown
    reads m`spaces, m`flat, m`data
  {
    Shown(m.spaces.Keys, m.flat, m.data)
  }

  /** The stack window maps zeroed frames. */
  ghost predicate StackIn(flat: PageMap, data: map<nat, seq<Byte>>, s: nat) {
    forall u: nat :: USER_STACK_PAGE <= u < USER_STACK_PAGE + USER_STACK_PAGES ==>
      (s, u) in flat && ZeroPage(data, flat[(s, u)])
  }

  /** Space `t` is still there and sees the same in its image window. */
  ghost predicate SeesTheSame(a: Shown, b: Shown, t: nat) {
    t in b.spaces && ReadyIn(b.flat, b.data, t) && BytesOf(b.flat, b.data, t) == BytesOf(a.flat, a.data, t)
  }

  /** Every space but `s` sees in its image window what it saw before. */
  ghost predicate OthersSee(a: Shown, b: Shown, s: nat) {
    forall t :: t in a.spaces && t != s && ReadyIn(a.flat, a.data, t) ==> SeesTheSame(a, b, t)
  }

  /** The image window of `s` shows frame `f`. */
  ghost predicate WindowShows(flat: PageMap, s: nat, f: nat) {
    exists u: nat :: ExecPage(u) && (s, u) in flat && PageDown(flat[(s, u)]) == f
  }

  /** No frame but those of the image window of `s` has changed. */
  ghost predicate OnlyWindow(flat: PageMap, s: nat, data: map<nat, seq<Byte>>, data': map<nat, seq<Byte>>) {
    forall f :: f in data && !WindowShows(flat, s, f) ==> f in data' && data'[f] == data[f]
  }

  /** Every space but `s` sees the same, the stack of `s` is as zero as before, and no frame has
      changed but those of its image window. */
  ghost predicate Elsewhere(a: Shown, b: Shown, s: nat) {
    && OthersSee(a, b, s) && (s in a.spaces && StackIn(a.flat, a.data, s) ==> StackIn(b.flat, b.data, s))
    && b.flat == a.flat && OnlyWindow(a.flat, s, a.data, b.data)
  }

  lemma ElsewhereItself(a: Shown, s: nat)
    ensures Elsewhere(a, a, s)
  {
  }

  lemma OthersThrough(a: Shown, b: Shown, c: Shown, s: nat)
    requires OthersSee(a, b, s) && OthersSee(b, c, s)
    ensures OthersSee(a, c, s)
  {
    hide ReadyIn, BytesOf;
  }

  lemma ElsewhereThrough(a: Shown, b: Shown, c: Shown, s: nat)
    requires Elsewhere(a, b, s) && Elsewhere(b, c, s) && (s in a.spaces ==> s in b.spaces)
    ensures Elsewhere(a, c, s)
  {
    hide ReadyIn, BytesOf, StackIn, WindowShows;
    OthersThrough(a, b, c, s);
  }

  predicate FramesDiffer(flat: PageMap, p: (nat, nat), q: (nat, nat)) {
    p in flat && q in flat && Present(flat[p]) && Present(flat[q]) ==> PageDown(flat[p]) != PageDown(flat[q])
  }

  /** No two pages of the two windows show the same frame. */
  ghost predicate Apart(flat: PageMap, s: nat, t: nat) {
    forall u: nat, v: nat :: ExecPage(u) && ExecPage(v) && (s, u) != (t, v) ==> FramesDiffer(flat, (s, u), (t, v))
  }

  /** Memory with some bytes written over it. */
  function Overlay(mem: Bytes, at: nat, src: seq<Byte>): Bytes {
    mem + map a: nat | a < at + |src| && at <= a :: SourceByte(at, src, a)
  }

  function SourceByte(at: nat, src: seq<Byte>, a: nat): Byte
    requires at <= a < at + |src|
  {
    src[a - at]
  }

  /** A frame with some bytes written over it. */
  function Patched(frame: seq<Byte>, offset: nat, src: seq<Byte>): (r: seq<Byte>)
    requires offset + |src| <= |frame|
    ensures |r| == |frame|
    ensures forall k :: 0 <= k < |frame| ==> r[k] == if offset <= k < offset + |src| then src[k - offset] else frame[k]
  {
    frame[..offset] + src + frame[offset + |src|..]
  }

  lemma ExecPages(a: nat)
    ensures ExecPage(a / PAGE_SIZE) <==> USER_EXEC_LOAD_ADDR <= a < USER_EXEC_END
  {
  }

  /** Patching the frame behind one page writes over exactly the addresses of that page. */
  lemma ChunkWritten(flat: PageMap, data: map<nat, seq<Byte>>, s: nat, a: nat, src: seq<Byte>)
    requires ReadyIn(flat, data, s) && Apart(flat, s, s) && Mapped(flat, data, s, a)
    requires 0 < |src| && a % PAGE_SIZE + |src| <= PAGE_SIZE
    ensures var frame := PageDown(flat[(s, a / PAGE_SIZE)]);
            var data' := data[frame := Patched(data[frame], a % PAGE_SIZE, src)];
            ReadyIn(flat, data', s) && BytesOf(flat, data', s) == Overlay(BytesOf(flat, data, s), a, src)
  {
    hide PageDown, Present, PrivateWord, Patched;
    var p := a / PAGE_SIZE;
    var frame := PageDown(flat[(s, p)]);
    var data' := data[frame := Patched(data[frame], a % PAGE_SIZE, src)];
    ExecPages(a);
    forall b: nat | b < USER_EXEC_END
      ensures Mapped(flat, data', s, b) <==> Mapped(flat, data, s, b)
      ensures a <= b < a + |src| ==> Mapped(flat, data, s, b)
      ensures Mapped(flat, data, s, b) ==>
        ByteIn(data', flat[(s, b / PAGE_SIZE)], b) ==
          if a <= b < a + |src| then src[b - a] else ByteIn(data, flat[(s, b / PAGE_SIZE)], b)
    {
      ExecPages(b);
      SamePage(a, |src|, b);
    }
    ChunkInWindow(a, |src|);
  }

  /** A chunk that stays in its page meets exactly the offsets of that page. */
  lemma SamePage(a: nat, n: nat, b: nat)
    requires a % PAGE_SIZE + n <= PAGE_SIZE
    ensures a <= b < a + n <==> b / PAGE_SIZE == a / PAGE_SIZE && a % PAGE_SIZE <= b % PAGE_SIZE < a % PAGE_SIZE + n
    ensures a <= b < a + n ==> b % PAGE_SIZE - a % PAGE_SIZE == b - a
  {
  }

  lemma ChunkInWindow(a: nat, n: nat)
    requires USER_EXEC_LOAD_ADDR <= a < USER_EXEC_END && a % PAGE_SIZE + n <= PAGE_SIZE
    ensures a + n <= USER_EXEC_END
  {
  }

  /** A space that does not show the frame sees no change. */
  lemma ChunkElsewhere(flat: PageMap, data: map<nat, seq<Byte>>, data': map<nat, seq<Byte>>, s: nat, p: nat, t: nat)
    requires ExecPage(p) && (s, p) in flat && Present(flat[(s, p)]) && s != t && Apart(flat, s, t)
    requires PageDown(flat[(s, p)]) in data && PageDown(flat[(s, p)]) in data'
    requires data' - {PageDown(flat[(s, p)])} == data - {PageDown(flat[(s, p)])}
    requires ReadyIn(flat, data, t)
    ensures ReadyIn(flat, data', t) && BytesOf(flat, data', t) == BytesOf(flat, data, t)
  {
    hide PageDown, Present, PrivateWord;
    var frame := PageDown(flat[(s, p)]);
    forall u: nat | ExecPage(u) && Present(flat[(t, u)])
      ensures Shows(data', flat[(t, u)]) && data'[PageDown(flat[(t, u)])] == data[PageDown(flat[(t, u)])]
    {
      assert PageDown(flat[(t, u)]) in data - {frame} && PageDown(flat[(t, u)]) in data' - {frame};
      assert (data - {frame})[PageDown(flat[(t, u)])] == (data' - {frame})[PageDown(flat[(t, u)])];
    }
    forall b: nat | b < USER_EXEC_END ensures Mapped(flat, data', t, b) <==> Mapped(flat, data, t, b)
      ensures Mapped(flat, data, t, b) ==>
        ByteIn(data', flat[(t, b / PAGE_SIZE)], b) == ByteIn(data, flat[(t, b / PAGE_SIZE)], b)
    {
      ExecPages(b);
    }
  }

  /** Image windows never share a frame, within a space or between two. */
  lemma WindowsApart(m: Memory, data: map<nat, seq<Byte>>, s: nat, t: nat)
    requires m.Valid() && s in m.spaces && t in m.spaces && ReadyIn(m.flat, data, s) && ReadyIn(m.flat, data, t)
    ensures Apart(m.flat, s, t)
  {
    hide m.Valid, PageDown, Present, PrivateWord;
    forall u: nat, v: nat | ExecPage(u) && ExecPage(v) && (s, u) != (t, v)
      ensures FramesDiffer(m.flat, (s, u), (t, v))
    {
      if Present(m.flat[(s, u)]) && Present(m.flat[(t, v)]) {
        m.PrivateApart(s, u, t, v);
      }
    }
  }

  /** memcpy through one page of the image window: fails exactly where nothing is mapped,
      and no other space sees it. */
  method WriteChunk(m: Memory, s: nat, a: U32, src: seq<Byte>) returns (r: int)
    requires m.Valid() && s in m.spaces && WindowReady(m, s) && 0 < |src|
    requires USER_EXEC_LOAD_ADDR <= a < USER_EXEC_END && a % PAGE_SIZE + |src| <= PAGE_SIZE
    modifies m`data
    ensures WindowReady(m, s) && r == if a in old(UserBytes(m, s)) then 0 else -1
    ensures UserBytes(m, s) == if r == 0 then Overlay(old(UserBytes(m, s)), a, src) else old(UserBytes(m, s))
    ensures Elsewhere(old(ShownBy(m)), ShownBy(m), s)
  {
    hide m.Valid, PageDown, Present, PrivateWord, ReadyIn, BytesOf, Patched, Overlay, Apart, Elsewhere;
    var p := m.PagingVirtualToKernel(s, a);
    WindowAddress(m, s, a);
    if p == 0 {
      ElsewhereItself(ShownBy(m), s);
      return -1;
    }
    WindowsApart(m, m.data, s, s);
    ChunkWritten(m.flat, m.data, s, a, src);
    var frame := PageDown(p);
    m.data := m.data[frame := Patched(m.data[frame], a % PAGE_SIZE, src)];
    OneFramePatched(m, old(m.data), m.data, s, a / PAGE_SIZE);
    return 0;
  }

  /** Data written in one frame of an image window is seen nowhere else. */
  lemma OneFramePatched(m: Memory, data: map<nat, seq<Byte>>, data': map<nat, seq<Byte>>, s: nat, p: nat)
    requires m.Valid() && s in m.spaces && ExecPage(p) && ReadyIn(m.flat, data, s) && Present(m.flat[(s, p)])
    requires PageDown(m.flat[(s, p)]) in data && PageDown(m.flat[(s, p)]) in data'
    requires data' - {PageDown(m.flat[(s, p)])} == data - {PageDown(m.flat[(s, p)])}
    ensures Elsewhere(Shown(m.spaces.Keys, m.flat, data), Shown(m.spaces.Keys, m.flat, data'), s)
  {
    hide m.Valid, PageDown, Present, PrivateWord, BytesOf, Apart, OnlyWindow;
    forall t | t in m.spaces && t != s && ReadyIn(m.flat, data, t)
      ensures ReadyIn(m.flat, data', t) && BytesOf(m.flat, data', t) == BytesOf(m.flat, data, t)
    {
      WindowsApart(m, data, s, t);
      ChunkElsewhere(m.flat, data, data', s, p, t);
    }
    StackIsSpared(m, data, data', s, p);
    OneFrameOfWindow(m.flat, data, data', s, p);
  }

  lemma OneFrameOfWindow(flat: PageMap, data: map<nat, seq<Byte>>, data': map<nat, seq<Byte>>, s: nat, p: nat)
    requires ExecPage(p) && (s, p) in flat
    requires data' - {PageDown(flat[(s, p)])} == data - {PageDown(flat[(s, p)])}
    ensures OnlyWindow(flat, s, data, data')
  {
    hide PageDown;
    var frame := PageDown(flat[(s, p)]);
    forall f | f in data && !WindowShows(flat, s, f) ensures f in data' && data'[f] == data[f] {
      assert f != frame;
      assert f in data - {frame} && (data - {frame})[f] == (data' - {frame})[f];
    }
  }

  lemma StackIsSpared(m: Memory, data: map<nat, seq<Byte>>, data': map<nat, seq<Byte>>, s: nat, p: nat)
    requires m.Valid() && ExecPage(p) && IsPrivate(m.flat, s, p)
    requires data' - {PageDown(m.flat[(s, p)])} == data - {PageDown(m.flat[(s, p)])}
    ensures StackIn(m.flat, data, s) ==> StackIn(m.flat, data', s)
  {
    hide m.Valid, PageDown, Present, UserBit;
    var frame := PageDown(m.flat[(s, p)]);
    if StackIn(m.flat, data, s) {
      forall u: nat | USER_STACK_PAGE <= u < USER_STACK_PAGE + USER_STACK_PAGES
        ensures ZeroPage(data', m.flat[(s, u)])
      {
        ZeroPageBits(data, m.flat[(s, u)]);
        m.PrivateApart(s, p, s, u);
        assert PageDown(m.flat[(s, u)]) in data - {frame};
        assert (data - {frame})[PageDown(m.flat[(s, u)])] == (data' - {frame})[PageDown(m.flat[(s, u)])];
      }
    }
  }

  lemma WindowAddress(m: Memory, s: nat, a: U32)
    requires m.Valid() && s in m.spaces && WindowReady(m, s) && USER_EXEC_LOAD_ADDR <= a < USER_EXEC_END
    ensures ExecPage(a / PAGE_SIZE) && (s, a / PAGE_SIZE) in m.flat
    ensures m.Physical(s, a) == 0 <==> a !in UserBytes(m, s)
    ensures a in UserBytes(m, s) <==> Mapped(m.flat, m.data, s, a)
    ensures a in UserBytes(m, s) ==>
      Present(m.flat[(s, a / PAGE_SIZE)]) && PageDown(m.Physical(s, a)) == PageDown(m.flat[(s, a / PAGE_SIZE)])
    ensures a in UserBytes(m, s) ==> UserBytes(m, s)[a] == m.data[PageDown(m.Physical(s, a))][a % PAGE_SIZE]
  {
    hide m.Valid;
    ExecPages(a);
    var w := m.flat[(s, a / PAGE_SIZE)];
    if Present(w) {
      m.PrivateIsBacked(s, a / PAGE_SIZE);
      PageDownPlus(w, a % PAGE_SIZE);
    }
  }

  lemma PageDownPlus(w: nat, k: nat)
    requires k < PAGE_SIZE
    ensures PageDown(PageDown(w) + k) == PageDown(w)
  {
  }

  // ---------------------------------------------------------------- the loader

  ghost predicate AllMapped(mem: Bytes, at: nat, n: nat) {
    forall a :: at <= a < at + n ==> a in mem
  }

  /** The bytes of memory that has been written over. */
  lemma OverlayAt(mem: Bytes, at: nat, src: seq<Byte>, a: nat)
    ensures a in Overlay(mem, at, src) <==> a in mem || at <= a < at + |src|
    ensures a in Overlay(mem, at, src) ==>
      Overlay(mem, at, src)[a] == if at <= a < at + |src| then src[a - at] else mem[a]
  {
  }

  lemma OverlayMore(mem: Bytes, at: nat, src: seq<Byte>, k: nat, n: nat)
    requires k + n <= |src|
    ensures Overlay(Overlay(mem, at, src[..k]), at + k, src[k..k + n]) == Overlay(mem, at, src[..k + n])
    ensures AllMapped(mem, at, k) ==> Overlay(mem, at, src[..k]).Keys == mem.Keys
  {
    hide Overlay;
    var part, all := Overlay(mem, at, src[..k]), Overlay(mem, at, src[..k + n]);
    var both := Overlay(part, at + k, src[k..k + n]);
    forall a: nat
      ensures a in both <==> a in all
      ensures a in both ==> both[a] == all[a]
      ensures AllMapped(mem, at, k) ==> (a in part <==> a in mem)
    {
      OverlayAt(mem, at, src[..k], a);
      OverlayAt(part, at + k, src[k..k + n], a);
      OverlayAt(mem, at, src[..k + n], a);
    }
    assert both.Keys == all.Keys;
  }

  lemma OverlayNothing(mem: Bytes, at: nat)
    ensures Overlay(mem, at, []) == mem
  {
  }

  /** A page is mapped as a whole. */
  lemma PageMapped(m: Memory, s: nat, a: nat, n: nat)
    requires a in UserBytes(m, s) && a % PAGE_SIZE + n <= PAGE_SIZE
    ensures AllMapped(UserBytes(m, s), a, n)
  {
  }

  /** CopyToAddressSpace into the image window: all of it, or an error where a page is missing. */
  method CopyToAddressSpace(m: Memory, s: nat, dest: U32, src: seq<Byte>) returns (r: int)
    requires m.Valid() && s in m.spaces && WindowReady(m, s) && USER_EXEC_LOAD_ADDR <= dest
      && dest + |src| <= USER_EXEC_END
    modifies m`data
    ensures WindowReady(m, s) && (r == 0 || r == -1)
    ensures r == 0 <==> AllMapped(old(UserBytes(m, s)), dest, |src|)
    ensures r == 0 ==> UserBytes(m, s) == Overlay(old(UserBytes(m, s)), dest, src)
    ensures Elsewhere(old(ShownBy(m)), ShownBy(m), s)
  {
    hide m.Valid, WindowReady, UserBytes, Overlay, Elsewhere;
    var copied := 0;
    ghost var before := UserBytes(m, s);
    ElsewhereItself(ShownBy(m), s);
    OverlayNothing(before, dest);
    while copied < |src|
      invariant 0 <= copied <= |src| && WindowReady(m, s) && m.Valid()
      invariant UserBytes(m, s) == Overlay(before, dest, src[..copied]) && AllMapped(before, dest, copied)
      invariant Elsewhere(old(ShownBy(m)), ShownBy(m), s)
    {
      var virt := dest + copied;
      var chunk := PAGE_SIZE - virt % PAGE_SIZE;
      if chunk > |src| - copied {
        chunk := |src| - copied;
      }
      OverlayMore(before, dest, src, copied, chunk);
      if virt in UserBytes(m, s) {
        PageMapped(m, s, virt, chunk);
      }
      ghost var shown := ShownBy(m);
      r := WriteChunk(m, s, virt, src[copied..copied + chunk]);
      ElsewhereThrough(old(ShownBy(m)), shown, ShownBy(m), s);
      if r != 0 {
        return -1;
      }
      copied := copied + chunk;
    }
    assert src[..copied] == src;
    return 0;
  }

  /** ReadAddressSpaceU32: bytewise, so a word may straddle two pages. */
  method ReadAddressSpaceU32(m: Memory, s: nat, virt: U32) returns (r: int, value: U32)
    requires m.Valid() && s in m.spaces && WindowReady(m, s) && USER_EXEC_LOAD_ADDR <= virt && virt + 4 <= USER_EXEC_END
    ensures r == if HasWord(UserBytes(m, s), virt) then 0 else -1
    ensures r == 0 ==> value == WordAt(UserBytes(m, s), virt)
  {
    hide m.Valid, WindowReady, UserBytes, PageDown;
    var bytes: seq<Byte> := [];
    ghost var mem := UserBytes(m, s);
    var i := 0;
    while i < 4
      invariant 0 <= i <= 4 && |bytes| == i
      invariant forall a :: virt <= a < virt + i ==> a in mem && bytes[a - virt] == mem[a]
    {
      var p := m.PagingVirtualToKernel(s, virt + i);
      WindowAddress(m, s, virt + i);
      if p == 0 {
        return -1, 0;
      }
      WindowByte(m, s, virt + i);
      bytes := bytes + [m.data[PageDown(p)][(virt + i) % PAGE_SIZE]];
      i := i + 1;
    }
    assert virt in mem && virt + 1 in mem && virt + 2 in mem && virt + 3 in mem;
    return 0, Le32(bytes[0], bytes[1], bytes[2], bytes[3]);
  }

  lemma WindowByte(m: Memory, s: nat, a: U32)
    requires m.Valid() && s in m.spaces && WindowReady(m, s) && USER_EXEC_LOAD_ADDR <= a < USER_EXEC_END
      && a in UserBytes(m, s)
    ensures PageDown(m.Physical(s, a)) in m.data && |m.data[PageDown(m.Physical(s, a))]| == PAGE_SIZE
  {
    WindowAddress(m, s, a);
  }

  /** WriteAddressSpaceU32. */
  method WriteAddressSpaceU32(m: Memory, s: nat, virt: U32, value: U32) returns (r: int)
    requires m.Valid() && s in m.spaces && WindowReady(m, s) && USER_EXEC_LOAD_ADDR <= virt && virt + 4 <= USER_EXEC_END
    modifies m`data
    ensures WindowReady(m, s) && r == if HasWord(old(UserBytes(m, s)), virt) then 0 else -1
    ensures r == 0 ==> UserBytes(m, s) == PutWord(old(UserBytes(m, s)), virt, value)
    ensures Elsewhere(old(ShownBy(m)), ShownBy(m), s)
  {
    hide m.Valid, WindowReady, UserBytes, Overlay, ByteOf, Elsewhere;
    ghost var before := UserBytes(m, s);
    ElsewhereItself(ShownBy(m), s);
    ghost var bytes := [ByteOf(value, 0), ByteOf(value, 1), ByteOf(value, 2), ByteOf(value, 3)];
    OverlayNothing(before, virt);
    var i := 0;
    while i < 4
      invariant 0 <= i <= 4 && WindowReady(m, s) && m.Valid()
      invariant UserBytes(m, s) == Overlay(before, virt, bytes[..i]) && AllMapped(before, virt, i)
      invariant Elsewhere(old(ShownBy(m)), ShownBy(m), s)
    {
      OverlayMore(before, virt, bytes, i, 1);
      assert bytes[i..i + 1] == [ByteOf(value, i)];
      ghost var shown := ShownBy(m);
      r := WriteChunk(m, s, virt + i, [ByteOf(value, i)]);
      ElsewhereThrough(old(ShownBy(m)), shown, ShownBy(m), s);
      if r != 0 {
        return;
      }
      i := i + 1;
    }
    assert bytes[..4] == bytes;
    OverlayWord(before, virt, value);
    assert virt + 0 in before && virt + 1 in before && virt + 2 in before && virt + 3 in before;
    return 0;
  }

  lemma OverlayWord(mem: Bytes, a: nat, v: U32)
    ensures Overlay(mem, a, [ByteOf(v, 0), ByteOf(v, 1), ByteOf(v, 2), ByteOf(v, 3)]) == PutWord(mem, a, v)
  {
  }

  /** RelocateExecutableImage: in a fully mapped window it never fails and applies the
      relocations one after the other. */
  method RelocateExecutableImage(m: Memory, s: nat, buffer: File, info: Info) returns (r: int)
    requires m.Valid() && s in m.spaces && WindowReady(m, s) && info.loadSize <= USER_EXEC_MAX_SIZE
    requires info.relocates ==> RelocationsOk(buffer, info)
    modifies m`data
    ensures WindowReady(m, s) && (r == 0 || r == -1)
    ensures InWindow(old(UserBytes(m, s))) ==> r == 0
    ensures InWindow(old(UserBytes(m, s))) ==>
      UserBytes(m, s) ==
        if info.relocates then Relocated(old(UserBytes(m, s)), buffer, info, info.count) else old(UserBytes(m, s))
    ensures Elsewhere(old(ShownBy(m)), ShownBy(m), s)
  {
    hide m.Valid, WindowReady, UserBytes, Delta, ReadU32, WordAt, PutWord, Elsewhere, m.Domains;
    ElsewhereItself(ShownBy(m), s);
    if !info.relocates {
      return 0;
    }
    var delta := Delta(info);
    var i := 0;
    ghost var before := UserBytes(m, s);
    while i < info.count
      invariant 0 <= i <= info.count && WindowReady(m, s) && m.Valid()
      invariant InWindow(before) ==> UserBytes(m, s) == Relocated(before, buffer, info, i)
      invariant Elsewhere(old(ShownBy(m)), ShownBy(m), s)
    {
      var a := RelocAddress(buffer, info, i);
      var target;
      if InWindow(before) {
        WordsInWindow(UserBytes(m, s), buffer, info);
      }
      r, target := ReadAddressSpaceU32(m, s, a);
      if r != 0 {
        return -1;
      }
      ghost var shown := ShownBy(m);
      r := WriteAddressSpaceU32(m, s, a, Add32(target, delta));
      ElsewhereThrough(old(ShownBy(m)), shown, ShownBy(m), s);
      if r != 0 {
        return -1;
      }
      i := i + 1;
    }
    return 0;
  }

  // -------------------------------------------------------------- a new space

  /** What a space sees of an accepted image once it is loaded. */
  ghost function Image(buffer: seq<Byte>, info: Info): Bytes
    requires IsImage(buffer, info)
  {
    ImageFits(buffer, info);
    if info.relocates then Relocated(Loaded(buffer, info.loadSize), buffer, info, info.count)
    else Loaded(buffer, info.loadSize)
  }

  /** A window of zeroes. */
  ghost function Zeroes(): Bytes {
    Loaded([], 0)
  }

  lemma ZeroesFacts(buffer: seq<Byte>, n: nat)
    requires n <= |buffer| && n <= USER_EXEC_MAX_SIZE
    ensures InWindow(Zeroes()) && AllMapped(Zeroes(), USER_EXEC_LOAD_ADDR, n)
    ensures Overlay(Zeroes(), USER_EXEC_LOAD_ADDR, buffer[..n]) == Loaded(buffer, n) && InWindow(Loaded(buffer, n))
  {
  }

  /** Copying and relocating an accepted image into a fresh window never fails, and the
      space then sees exactly that image; no other space sees anything new. */
  method LoadImage(m: Memory, s: nat, buffer: File, info: Info) returns (r: int)
    requires m.Valid() && s in m.spaces && WindowReady(m, s) && IsImage(buffer, info) && UserBytes(m, s) == Zeroes()
    modifies m`data
    ensures WindowReady(m, s) && r == 0 && UserBytes(m, s) == Image(buffer, info)
    ensures Elsewhere(old(ShownBy(m)), ShownBy(m), s)
  {
    hide m.Valid, WindowReady, UserBytes, IsImage, Zeroes, Overlay, Loaded, Elsewhere;
    ImageFits(buffer, info);
    ZeroesFacts(buffer, info.loadSize);
    r := CopyToAddressSpace(m, s, USER_EXEC_LOAD_ADDR, buffer[..info.loadSize]);
    if r == 0 {
      ghost var shown := ShownBy(m);
      r := RelocateExecutableImage(m, s, buffer, info);
      ElsewhereThrough(old(ShownBy(m)), shown, ShownBy(m), s);
    }
  }

  /** A window mapped page by page to zeroed frames reads as zeroes. */
  lemma MappedIsZero(m: Memory, s: nat)
    requires s != KERNEL && forall u: nat :: ExecPage(u) ==> (s, u) in m.flat && ZeroPage(m.data, m.flat[(s, u)])
    ensures WindowReady(m, s) && UserBytes(m, s) == Zeroes()
  {
    hide PageDown, Present, UserBit;
    forall u: nat | ExecPage(u) ensures PrivateWord(s, u, m.flat[(s, u)]) && Shows(m.data, m.flat[(s, u)]) {
      ZeroPageBits(m.data, m.flat[(s, u)]);
    }
    forall a: nat | USER_EXEC_LOAD_ADDR <= a < USER_EXEC_END
      ensures Mapped(m.flat, m.data, s, a) && ByteIn(m.data, m.flat[(s, a / PAGE_SIZE)], a) == 0
    {
      ExecPages(a);
    }
  }

  /** A space made and mapped for a new program, or nothing at all; that happens exactly if
      KAlloc refused a page. */
  method PrepareSpace(m: Memory, ghost loaded: nat, ghost users: set<Task>) returns (s: nat)
    requires Housed(m, users) && loaded in m.spaces && m.loaded == m.spaces[loaded].directory
    modifies m`tables, m`spaces, m`data, m`flat, m`rest, m`held, m.pages, m.pages.entries
    ensures Housed(m, users) && m.rest == old(m.rest) && loaded in m.spaces && m.loaded == m.spaces[loaded].directory
    ensures s == 0 ==> m.held == old(m.held)
    ensures s != 0 ==> s in m.spaces && s != KERNEL && s !in old(m.held) && m.held - {s} == old(m.held)
    ensures s != 0 ==> s !in AllSpaces(EstatesOf(users)) && s !in old(m.spaces) && IsFreshProgram(m, s)
    ensures old(m.pages.refusals) <= m.pages.refusals && (s != 0 <==> m.pages.refusals == old(m.pages.refusals))
    ensures OthersSee(old(ShownBy(m)), ShownBy(m), 0) && KeepsBytes(old(m.data), old(m.pages.live), m.data)
    ensures s != 0 ==> NewFrames(m.flat, s, old(m.pages.live))
  {
    hide m.Valid, Housed, Settled, IsCreated, EstatesOf, AllSpaces, OwnsMore, SameButRange, TaskOk, Unclaimed,
      OthersSee, IsFreshProgram, NewFrames, KeepsBytes;
    HousedParts(m, users);
    OthersItself(ShownBy(m), 0);
    m.KernelIsSupervisor();
    ghost var es, a, live := EstatesOf(users), ShownBy(m), m.pages.live;
    LiveParts(m);
    KeepsItself(m.data, live);
    s := m.PagingCreateUserAddressSpace();
    if s == 0 {
      HousedWhole(m, users);
      return 0;
    }
    ghost var b, live' := ShownBy(m), m.pages.live;
    SettledCreate(es, s, old(m.spaces), old(m.flat), old(m.rest), m.spaces, m.flat);
    CreatedWindows(old(m.flat), m.flat, s);
    CreatedElsewhere(a, b, s);
    HousedWhole(m, users);
    ghost var made := s;
    s := MapWindows(m, s, loaded, users);
    NewSpaceIsNobodys(a, b, ShownBy(m), made);
    KeepsLess(b.data, live, live', m.data);
    if s != 0 {
      HousedParts(m, users);
      FramesAreNew(m, s, live, m.rest, old(m.held));
    }
  }

  /** What keeps the bytes of more live frames keeps those of fewer. */
  lemma KeepsLess(data: map<nat, seq<Byte>>, live: map<nat, nat>, live': map<nat, nat>, data': map<nat, seq<Byte>>)
    requires KeepsBytes(data, live', data') && live.Keys <= live'.Keys
    ensures KeepsBytes(data, live, data')
  {
  }

  /** The frames of the image window of `s` were nobody's when `live` was live. */
  ghost predicate NewFrames(flat: PageMap, s: nat, live: map<nat, nat>) {
    forall u: nat :: ExecPage(u) && (s, u) in flat ==> PageDown(flat[(s, u)]) !in live
  }

  /** Every live run is held or belongs to no space. */
  ghost predicate InParts(live: map<nat, nat>, rest: map<nat, nat>, held: map<nat, set<nat>>) {
    forall a :: a in live ==> a in rest || exists t :: t in held && a in held[t]
  }

  lemma LiveParts(m: Memory)
    requires m.Valid()
    ensures InParts(m.pages.live, m.rest, m.held)
  {
    hide m.Valid;
    forall a | a in m.pages.live ensures a in m.rest || exists t :: t in m.held && a in m.held[t] {
      m.LiveIsHeld(a);
    }
  }

  lemma FramesAreNew(m: Memory, s: nat, live: map<nat, nat>, rest: map<nat, nat>, held: map<nat, set<nat>>)
    requires m.Valid() && IsFreshProgram(m, s) && InParts(live, rest, held)
    requires m.rest == rest && s !in held && m.held - {s} == held
    ensures NewFrames(m.flat, s, live)
  {
    hide m.Valid, PageDown, UserBytes, StackIn;
    forall u: nat | ExecPage(u) && (s, u) in m.flat ensures PageDown(m.flat[(s, u)]) !in live {
      FreshIsPrivate(m, s, u);
      m.PrivateFrame(s, u);
      var f := PageDown(m.flat[(s, u)]);
      if f in live {
        var t :| t in held && f in held[t];
        assert t in m.held - {s} && m.held[t] == held[t];
        m.PrivateIsHeldAlone(s, u, t);
        assert false;
      }
    }
  }

  lemma FreshIsPrivate(m: Memory, s: nat, u: nat)
    requires IsFreshProgram(m, s) && ExecPage(u) && (s, u) in m.flat
    ensures IsPrivate(m.flat, s, u)
  {
    hide PageDown, Present, PrivateWord, StackIn;
    var a := PAGE_SIZE * u;
    ExecPages(a);
    assert a / PAGE_SIZE == u;
    assert a in Zeroes();
    assert a in UserBytes(m, s);
    assert Mapped(m.flat, m.data, s, a);
  }

  /** Both windows of a space are mapped, and zero, and user mode may write them. */
  ghost predicate IsFreshProgram(m: Memory, s: nat)
    reads m`tables, m`spaces, m`flat, m`data
  {
    && WindowReady(m, s) && UserBytes(m, s) == Zeroes() && StackIn(m.flat, m.data, s)
    && WindowsOpen(m, s)
  }

  ghost predicate WindowsOpen(m: Memory, s: nat)
    reads m`tables, m`spaces
  {
    && m.OpenRange(s, USER_EXEC_PAGE, USER_EXEC_PAGE + USER_EXEC_PAGES)
    && m.OpenRange(s, USER_STACK_PAGE, USER_STACK_PAGE + USER_STACK_PAGES)
  }

  lemma OthersItself(a: Shown, s: nat)
    ensures OthersSee(a, a, s)
  {
  }

  /** What spares all spaces but one that was not there spares all that were. */
  lemma NewSpaceIsNobodys(a: Shown, b: Shown, c: Shown, s: nat)
    requires OthersSee(a, b, s) && OthersSee(b, c, s) && s !in a.spaces
    ensures OthersSee(a, c, 0)
  {
    hide ReadyIn, BytesOf;
  }

  lemma CreatedElsewhere(a: Shown, b: Shown, s: nat)
    requires IsCreated(a.flat, b.flat, s) && b.data == a.data && b.spaces == a.spaces + {s}
    ensures OthersSee(a, b, s)
  {
    hide PageDown, Present, PrivateWord;
    forall t | t in a.spaces && t != s && ReadyIn(a.flat, a.data, t) ensures SeesTheSame(a, b, t) {
      SameWindow(a, b, t);
    }
  }

  /** A space whose image window maps the same frames with the same contents. */
  lemma SameWindow(a: Shown, b: Shown, t: nat)
    requires t in b.spaces && ReadyIn(a.flat, a.data, t)
    requires forall u: nat :: ExecPage(u) ==> (t, u) in b.flat && b.flat[(t, u)] == a.flat[(t, u)]
    requires forall u: nat :: ExecPage(u) && Present(a.flat[(t, u)]) ==>
      PageDown(a.flat[(t, u)]) in b.data && b.data[PageDown(a.flat[(t, u)])] == a.data[PageDown(a.flat[(t, u)])]
    ensures SeesTheSame(a, b, t)
  {
    hide PageDown, Present, PrivateWord;
    forall x: nat | x < USER_EXEC_END
      ensures Mapped(b.flat, b.data, t, x) <==> Mapped(a.flat, a.data, t, x)
      ensures Mapped(a.flat, a.data, t, x) ==>
        ByteIn(b.data, b.flat[(t, x / PAGE_SIZE)], x) == ByteIn(a.data, a.flat[(t, x / PAGE_SIZE)], x)
    {
      ExecPages(x);
    }
  }

  /** A new space shows the kernel's map, so none of its window pages is its own. */
  lemma CreatedWindows(flat: PageMap, flat': PageMap, s: nat)
    requires s != KERNEL && IsCreated(flat, flat', s)
    requires forall v :: (KERNEL, v) in flat ==> !UserBit(flat[(KERNEL, v)])
    ensures Unclaimed(flat', s, USER_EXEC_PAGE, USER_EXEC_PAGE + USER_EXEC_PAGES)
    ensures Unclaimed(flat', s, USER_STACK_PAGE, USER_STACK_PAGE + USER_STACK_PAGES)
  {
    hide Present;
  }

  /** Maps both windows of a new space, or destroys it again. */
  method MapWindows(m: Memory, s: nat, ghost loaded: nat, ghost users: set<Task>) returns (r: nat)
    requires Housed(m, users) && loaded in m.spaces && m.loaded == m.spaces[loaded].directory
    requires s in m.spaces && s != KERNEL && s != 0 && s != loaded && s !in AllSpaces(EstatesOf(users))
    requires Unclaimed(m.flat, s, USER_EXEC_PAGE, USER_EXEC_PAGE + USER_EXEC_PAGES)
    requires Unclaimed(m.flat, s, USER_STACK_PAGE, USER_STACK_PAGE + USER_STACK_PAGES)
    modifies m`tables, m`spaces, m`data, m`flat, m`rest, m`held, m.pages, m.pages.entries
    ensures Housed(m, users) && m.rest == old(m.rest) && loaded in m.spaces && m.loaded == m.spaces[loaded].directory
    ensures r == 0 ==> m.held == old(m.held) - {s}
    ensures r != 0 ==> r == s && s in m.spaces && m.held - {s} == old(m.held) - {s}
    ensures r != 0 ==> s !in AllSpaces(EstatesOf(users)) && IsFreshProgram(m, s)
    ensures old(m.pages.refusals) <= m.pages.refusals && (r != 0 <==> m.pages.refusals == old(m.pages.refusals))
    ensures OthersSee(old(ShownBy(m)), ShownBy(m), s) && KeepsBytes(old(m.data), old(m.pages.live), m.data)
  {
    hide Housed, EstatesOf, AllSpaces, WindowReady, UserBytes, Zeroed, StackIn, Unclaimed, SameButRange, KeepsBytes,
      OthersSee, IsFreshProgram;
    ghost var a := ShownBy(m);
    var ok := MapWindow(m, s, USER_EXEC_PAGE, USER_EXEC_PAGES, loaded, users);
    ghost var b, live := ShownBy(m), m.pages.live;
    if ok != 0 {
      DropSpace(m, s, loaded, users);
      OthersThrough(a, b, ShownBy(m), s);
      return 0;
    }
    StackIsUnclaimed(a.flat, b.flat, s);
    ok := MapWindow(m, s, USER_STACK_PAGE, USER_STACK_PAGES, loaded, users);
    OthersThrough(a, b, ShownBy(m), s);
    KeepsThrough(a.data, old(m.pages.live), b.data, live, m.data);
    if ok != 0 {
      ghost var c := ShownBy(m);
      DropSpace(m, s, loaded, users);
      OthersThrough(a, c, ShownBy(m), s);
      return 0;
    }
    HousedMemory(m, users);
    ProgramIsFresh(m, s, b, live);
    return s;
  }

  lemma KeepsThrough(data: map<nat, seq<Byte>>, live: map<nat, nat>, data': map<nat, seq<Byte>>, live': map<nat, nat>,
      data'': map<nat, seq<Byte>>)
    requires KeepsBytes(data, live, data') && live.Keys <= live'.Keys && KeepsBytes(data', live', data'')
    ensures KeepsBytes(data, live, data'')
  {
  }

  lemma StackIsUnclaimed(m: PageMap, n: PageMap, s: nat)
    requires Unclaimed(m, s, USER_STACK_PAGE, USER_STACK_PAGE + USER_STACK_PAGES)
    requires SameButRange(m, n, s, USER_EXEC_PAGE, USER_EXEC_PAGE + USER_EXEC_PAGES)
    ensures Unclaimed(n, s, USER_STACK_PAGE, USER_STACK_PAGE + USER_STACK_PAGES)
  {
    hide PrivateWord;
    forall u: nat | USER_STACK_PAGE <= u < USER_STACK_PAGE + USER_STACK_PAGES
      ensures InWindows(u) && !IsPrivate(n, s, u)
    {
      assert !IsPrivate(m, s, u);
    }
  }

  /** Mapping the stack window leaves the image window as it was mapped before. */
  lemma ProgramIsFresh(m: Memory, s: nat, b: Shown, live: map<nat, nat>)
    requires m.Valid() && s != KERNEL
    requires Zeroed(b.flat, b.data, live, s, USER_EXEC_PAGE, USER_EXEC_PAGE + USER_EXEC_PAGES)
    requires KeepsBytes(b.data, live, m.data)
    requires SameButRange(b.flat, m.flat, s, USER_STACK_PAGE, USER_STACK_PAGE + USER_STACK_PAGES)
    requires Zeroed(m.flat, m.data, m.pages.live, s, USER_STACK_PAGE, USER_STACK_PAGE + USER_STACK_PAGES)
    ensures IsFreshProgram(m, s)
  {
    hide m.Valid, WindowReady, UserBytes, PageDown, Zeroes, UserWrites, Present, UserBit, WriteBit;
    forall u: nat | ExecPage(u)
      ensures (s, u) in m.flat && ZeroPage(m.data, m.flat[(s, u)]) && UserWrites(m.tables, m.spaces, s, u)
    {
      assert ZeroPage(b.data, b.flat[(s, u)]) && PageDown(b.flat[(s, u)]) in live;
      ZeroPageBits(m.data, m.flat[(s, u)]);
      m.UserRights(s, u);
    }
    MappedIsZero(m, s);
    m.ZeroedIsOpen(s, USER_STACK_PAGE, USER_STACK_PAGE + USER_STACK_PAGES);
  }

  /** PagingMapUserRange on a window of a space that no task has yet. */
  method MapWindow(m: Memory, s: nat, first: nat, count: nat, ghost loaded: nat, ghost users: set<Task>)
    returns (ok: int)
    requires Housed(m, users) && loaded in m.spaces && m.loaded == m.spaces[loaded].directory
    requires s in m.spaces && s != KERNEL && s != 0 && s != loaded && s !in AllSpaces(EstatesOf(users))
    requires first + count < VPAGES && Unclaimed(m.flat, s, first, first + count)
    modifies m`tables, m`spaces, m`data, m`flat, m`rest, m`held, m.pages, m.pages.entries
    ensures Housed(m, users) && m.rest == old(m.rest) && loaded in m.spaces && m.loaded == m.spaces[loaded].directory
    ensures s in m.spaces && m.held - {s} == old(m.held) - {s} && s !in AllSpaces(EstatesOf(users))
    ensures SameButRange(old(m.flat), m.flat, s, first, first + count)
    ensures KeepsBytes(old(m.data), old(m.pages.live), m.data)
    ensures ok == 0 ==> Zeroed(m.flat, m.data, m.pages.live, s, first, first + count)
    ensures ok == 0 ==> old(m.pages.live).Keys <= m.pages.live.Keys
    ensures old(m.pages.refusals) <= m.pages.refusals && (ok == 0 <==> m.pages.refusals == old(m.pages.refusals))
    ensures OthersSee(old(ShownBy(m)), ShownBy(m), s)
  {
    hide m.Valid, Housed, Settled, EstatesOf, AllSpaces, OwnsMore, TaskOk, Zeroed, Unclaimed, KeepsBytes, SameButRange,
      OthersSee, PrivateLive;
    HousedParts(m, users);
    PrivateIsLive(m);
    ghost var es, a, live := EstatesOf(users), ShownBy(m), m.pages.live;
    ok := MapPages(m, s, first, count);
    SettledMap(es, s, first, first + count, old(m.spaces), a.flat, m.rest, m.spaces, m.flat);
    OtherSpace(old(m.spaces), m.spaces, s, loaded);
    KeptElsewhere(a, ShownBy(m), live, s, first, first + count);
    HousedWhole(m, users);
  }

  /** PagingMapUserRange by page numbers. */
  method MapPages(m: Memory, s: nat, first: nat, count: nat) returns (ok: int)
    requires m.Valid() && s in m.spaces && s != KERNEL && s != 0
    requires first + count < VPAGES && Unclaimed(m.flat, s, first, first + count)
    modifies m`tables, m`spaces, m`data, m`flat, m`rest, m`held, m.pages, m.pages.entries
    ensures m.Valid() && m.rest == old(m.rest) && OwnsMore(old(m.spaces), m.spaces, s)
    ensures m.held - {s} == old(m.held) - {s} && SameButRange(old(m.flat), m.flat, s, first, first + count)
    ensures KeepsBytes(old(m.data), old(m.pages.live), m.data)
    ensures ok == 0 ==> Zeroed(m.flat, m.data, m.pages.live, s, first, first + count)
    ensures ok == 0 ==> old(m.pages.live).Keys <= m.pages.live.Keys
    ensures old(m.pages.refusals) <= m.pages.refusals && (ok == 0 <==> m.pages.refusals == old(m.pages.refusals))
  {
    hide m.Valid, OwnsMore, Zeroed, Unclaimed, Blanked, KeepsBytes, SameButRange, IsMapped, OwnsTable,
      FirstPage, EndPage, m.Domains;
    PageRange(first, first + count);
    ghost var done;
    ok, done := m.PagingMapUserRange(s, PAGE_SIZE * first, PAGE_SIZE * count);
    if ok != 0 {
      FailedInside(ok, done, count, old(m.pages.free), OwnsTable(old(m.spaces), s, 0));
      BlankedRange(old(m.flat), s, first, first + done, first + count);
    }
  }

  lemma FailedInside(r: int, done: nat, count: nat, free: nat, owned: bool)
    requires IsMapped(r, done, count, free, owned)
    ensures done <= count
  {
  }

  /** Window pages of user mode have live frames. */
  ghost predicate PrivateLive(flat: PageMap, live: map<nat, nat>) {
    forall t, u {:trigger IsPrivate(flat, t, u)} :: IsPrivate(flat, t, u) ==> PageDown(flat[(t, u)]) in live
  }

  lemma PrivateIsLive(m: Memory)
    requires m.Valid()
    ensures PrivateLive(m.flat, m.pages.live)
  {
    hide m.Valid, PageDown, PrivateWord;
    forall t, u | IsPrivate(m.flat, t, u) ensures PageDown(m.flat[(t, u)]) in m.pages.live {
      m.PrivateIsBacked(t, u);
    }
  }

  /** Mapping fresh frames in one space changes nothing the others see. */
  lemma KeptElsewhere(a: Shown, b: Shown, live: map<nat, nat>, s: nat, first: nat, end: nat)
    requires PrivateLive(a.flat, live) && b.spaces == a.spaces
    requires SameButRange(a.flat, b.flat, s, first, end) && KeepsBytes(a.data, live, b.data)
    ensures OthersSee(a, b, s)
  {
    hide PageDown, Present, UserBit, BytesOf, SeesTheSame;
    forall t | t in a.spaces && t != s && ReadyIn(a.flat, a.data, t) ensures SeesTheSame(a, b, t) {
      forall u: nat | ExecPage(u) && Present(a.flat[(t, u)]) ensures PageDown(a.flat[(t, u)]) in live {
        assert IsPrivate(a.flat, t, u);
      }
      SameWindow(a, b, t);
    }
  }

  /** PagingDestroyAddressSpace on a space that no task has. */
  method DropSpace(m: Memory, s: nat, ghost loaded: nat, ghost users: set<Task>)
    requires Housed(m, users) && loaded in m.spaces && m.loaded == m.spaces[loaded].directory
    requires s in m.spaces && s != KERNEL && s != loaded && s !in AllSpaces(EstatesOf(users))
    modifies m`tables, m`spaces, m`flat, m`rest, m`held, m.pages`live, m.pages`free, m.pages`hint, m.pages.entries
    ensures Housed(m, users) && m.rest == old(m.rest) && loaded in m.spaces && m.loaded == m.spaces[loaded].directory
    ensures m.held == old(m.held) - {s} && OthersSee(old(ShownBy(m)), ShownBy(m), s)
  {
    hide m.Valid, Housed, Settled, EstatesOf, AllSpaces, TaskOk, Without, OthersSee, m.Domains;
    HousedParts(m, users);
    ghost var es, a := EstatesOf(users), ShownBy(m);
    m.DirectoriesDiffer(loaded, s);
    SettledDestroy(es, s, m.spaces, m.flat, m.rest);
    m.PagingDestroyAddressSpace(s);
    DestroyedElsewhere(a, ShownBy(m), s);
    HousedWhole(m, users);
  }

  lemma DestroyedElsewhere(a: Shown, b: Shown, s: nat)
    requires b.flat == Without(a.flat, s) && b.data == a.data && b.spaces == a.spaces - {s}
    ensures OthersSee(a, b, s)
  {
    hide PageDown, Present, PrivateWord;
    forall t | t in a.spaces && t != s && ReadyIn(a.flat, a.data, t) ensures SeesTheSame(a, b, t) {
      SameWindow(a, b, t);
    }
  }

  lemma OtherSpace(spaces: Spaces, spaces': Spaces, s: nat, t: nat)
    requires OwnsMore(spaces, spaces', s) && t in spaces && t != s
    ensures t in spaces' && spaces'[t] == spaces[t] && spaces'.Keys == spaces.Keys
  {
    assert spaces'[t] == (spaces' - {s})[t];
    assert spaces[t] == (spaces - {s})[t];
  }

  lemma SettledCreate(es: Estates, s: nat, spaces: Spaces, flat: PageMap, rest: map<nat, nat>, spaces': Spaces,
      flat': PageMap)
    requires Settled(es, spaces, flat, rest) && s !in spaces && spaces'.Keys == spaces.Keys + {s}
    requires forall t :: t in spaces ==> spaces'[t] == spaces[t]
    requires IsCreated(flat, flat', s)
    ensures Settled(es, spaces', flat', rest) && s !in AllSpaces(es)
  {
    hide EstateIn, RunsOfEstate;
    forall t | t in es ensures es[t].heap.space in spaces {
      SettledHas(es, spaces, flat, rest, t);
    }
    SettledSpared(es, spaces, flat, rest, spaces', flat', rest);
  }

  /** Mapping pages of a space that no task has. */
  lemma SettledMap(es: Estates, s: nat, first: nat, end: nat, spaces: Spaces, flat: PageMap, rest: map<nat, nat>,
      spaces': Spaces, flat': PageMap)
    requires Settled(es, spaces, flat, rest) && s !in AllSpaces(es) && s != KERNEL
    requires OwnsMore(spaces, spaces', s) && SameButRange(flat, flat', s, first, end)
    ensures Settled(es, spaces', flat', rest)
  {
    hide EstateIn, RunsOfEstate;
    forall t | t in es ensures es[t].heap.space in spaces && es[t].heap.space != s {
      SettledHas(es, spaces, flat, rest, t);
      SpaceIsAll(es, t);
    }
    forall t | t in es ensures spaces'[es[t].heap.space] == spaces[es[t].heap.space] {
      assert spaces'[es[t].heap.space] == (spaces' - {s})[es[t].heap.space];
      assert spaces[es[t].heap.space] == (spaces - {s})[es[t].heap.space];
    }
    SettledSpared(es, spaces, flat, rest, spaces', flat', rest);
  }

  /** Destroying a space that no task has. */
  lemma SettledDestroy(es: Estates, s: nat, spaces: Spaces, flat: PageMap, rest: map<nat, nat>)
    requires Settled(es, spaces, flat, rest) && s !in AllSpaces(es) && s != KERNEL
    ensures Settled(es, spaces - {s}, Without(flat, s), rest)
  {
  }

  // ------------------------------------------------------------------- execute

  /** There is a file and it is an accepted image. */
  ghost predicate Accepted(file: Option<File>) {
    file.Some? && |file.value| > 0 && exists info: Info :: IsImage(file.value, info)
  }

  /** execute(): the file is what ReadFile delivered, if it did. A program starts exactly if
      its image is accepted and KAlloc refuses nothing, and then sees exactly that image; one
      that does not start leaves nothing behind. No other space sees a difference, and no frame
      that anybody has is written. */
  method Execute(sched: Scheduler, pathLength: nat, file: Option<File>) returns (pid: int)
    requires sched.Valid() && BlockPages(pathLength + 1) <= PageRuns.MAX_RUN
    modifies sched`tasks, sched`tail, sched`at, sched`nextPid, sched.tail`next
    modifies sched.m`tables, sched.m`spaces, sched.m`data, sched.m`flat, sched.m`rest, sched.m`held, sched.m.pages,
      sched.m.pages.entries
    ensures sched.Valid() && pid >= -1
    ensures pid == -1 ==> sched.View() == old(sched.View())
    ensures pid >= 0 ==>
      && file.Some?
      && exists info: Info :: IsImage(file.value, info) && Runs(sched, old(sched.View()), pid, file.value, info)
    ensures old(sched.m.pages.refusals) <= sched.m.pages.refusals
    ensures pid >= 0 <==> Accepted(file) && sched.m.pages.refusals == old(sched.m.pages.refusals)
    ensures OthersSee(old(ShownBy(sched.m)), ShownBy(sched.m), 0)
    ensures forall f :: f in old(sched.m.data) && f in old(sched.m.pages.live) ==>
      f in sched.m.data && sched.m.data[f] == old(sched.m.data)[f]
    ensures Base(sched.m, Users(sched.tasks)) == old(Base(sched.m, Users(sched.tasks)))
    ensures BaseHeld(sched.m, Users(sched.tasks)) == old(BaseHeld(sched.m, Users(sched.tasks)))
    ensures forall t :: t in sched.tasks ==> t in old(sched.tasks) || fresh(t)
    ensures MadsOf(Users(sched.tasks)) <= old(MadsOf(Users(sched.tasks)))
  {
    hide sched.Valid, Housed, Base, BaseHeld, IsImage, Image, BlockPages, OthersSee, Runs;
    KeepsOnAllocation(sched);
    OthersItself(ShownBy(sched.m), 0);
    KeepsItself(sched.m.data, sched.m.pages.live);
    if file.None? || |file.value| == 0 {
      return -1;
    }
    var info := ValidateExecutableImage(file.value);
    if info.None? {
      return -1;
    }
    pid := StartImage(sched, pathLength, file.value, info.value);
  }

  lemma KeepsOnAllocation(sched: Scheduler)
    ensures forall x: object, i :: x in MadsOf(Users(sched.tasks)) && 0 <= i < |sched.tasks| ==> x != sched.tasks[i]
  {
  }

  /** The second half of execute, on an accepted image. */
  method StartImage(sched: Scheduler, pathLength: nat, buffer: File, info: Info) returns (pid: int)
    requires sched.Valid() && BlockPages(pathLength + 1) <= PageRuns.MAX_RUN && IsImage(buffer, info)
    modifies sched`tasks, sched`tail, sched`at, sched`nextPid, sched.tail`next
    modifies sched.m`tables, sched.m`spaces, sched.m`data, sched.m`flat, sched.m`rest, sched.m`held, sched.m.pages,
      sched.m.pages.entries
    ensures sched.Valid() && pid >= -1
    ensures pid == -1 ==> sched.View() == old(sched.View())
    ensures pid >= 0 ==> Runs(sched, old(sched.View()), pid, buffer, info)
    ensures old(sched.m.pages.refusals) <= sched.m.pages.refusals
    ensures pid >= 0 <==> sched.m.pages.refusals == old(sched.m.pages.refusals)
    ensures OthersSee(old(ShownBy(sched.m)), ShownBy(sched.m), 0)
    ensures KeepsBytes(old(sched.m.data), old(sched.m.pages.live), sched.m.data)
    ensures Base(sched.m, Users(sched.tasks)) == old(Base(sched.m, Users(sched.tasks)))
    ensures BaseHeld(sched.m, Users(sched.tasks)) == old(BaseHeld(sched.m, Users(sched.tasks)))
    ensures forall t :: t in sched.tasks ==> t in old(sched.tasks) || fresh(t)
    ensures MadsOf(Users(sched.tasks)) <= old(MadsOf(Users(sched.tasks)))
  {
    hide sched.Valid, sched.m.Valid, Housed, Base, BaseHeld, AllSpaces, EstatesOf, IsFreshProgram, IsImage, Image,
      BlockPages, OthersSee, Sees, Runs, KeepsBytes, NewFrames, OnlyWindow;
    ghost var a, live := ShownBy(sched.m), sched.m.pages.live;
    var s := SpaceFor(sched);
    if s == 0 {
      return -1;
    }
    ghost var b := ShownBy(sched.m);
    LoadFor(sched, s, buffer, info);
    ghost var c := ShownBy(sched.m);
    NewSpaceChanges(a, b, c, s);
    WindowIsNew(a.data, live, b.flat, b.data, c.data, s);
    pid := StartLoaded(sched, pathLength, buffer, info, s);
    NewSpaceChanges(a, c, ShownBy(sched.m), s);
  }

  /** The last part of execute: the loaded space gets a task, or goes back. */
  method StartLoaded(sched: Scheduler, pathLength: nat, ghost buffer: File, info: Info, s: nat) returns (pid: int)
    requires sched.Valid() && BlockPages(pathLength + 1) <= PageRuns.MAX_RUN && IsImage(buffer, info)
    requires s in sched.m.spaces && s != KERNEL && s !in AllSpaces(EstatesOf(Users(sched.tasks)))
    requires Sees(sched.m, s, buffer, info)
    modifies sched`tasks, sched`tail, sched`at, sched`nextPid, sched.tail`next
    modifies sched.m`tables, sched.m`spaces, sched.m`flat, sched.m`rest, sched.m`held, sched.m.pages,
      sched.m.pages.entries
    ensures sched.Valid() && pid >= -1
    ensures pid == -1 ==> sched.View() == old(sched.View())
    ensures pid >= 0 ==> Runs(sched, old(sched.View()), pid, buffer, info)
    ensures old(sched.m.pages.refusals) <= sched.m.pages.refusals
    ensures pid >= 0 <==> sched.m.pages.refusals == old(sched.m.pages.refusals)
    ensures OthersSee(old(ShownBy(sched.m)), ShownBy(sched.m), s)
    ensures Base(sched.m, Users(sched.tasks)) == old(Base(sched.m, Users(sched.tasks)))
    ensures BaseHeld(sched.m, Users(sched.tasks)) == old(BaseHeld(sched.m, Users(sched.tasks))) - {s}
    ensures forall t :: t in sched.tasks ==> t in old(sched.tasks) || fresh(t)
    ensures MadsOf(Users(sched.tasks)) <= old(MadsOf(Users(sched.tasks)))
  {
    hide sched.Valid, sched.m.Valid, Housed, Base, BaseHeld, AllSpaces, EstatesOf, IsImage, BlockPages, OthersSee, Sees;
    OthersItself(ShownBy(sched.m), s);
    pid := sched.AppendTaskWithAddressSpace(Some(pathLength), USER_EXEC_LOAD_ADDR + info.entry, s);
    if pid < 0 {
      DropFor(sched, s);
      return -1;
    }
  }

  /** What is written in frames that are new spares the old ones. */
  lemma WindowIsNew(data: map<nat, seq<Byte>>, live: map<nat, nat>, flat: PageMap, data': map<nat, seq<Byte>>,
      data'': map<nat, seq<Byte>>, s: nat)
    requires KeepsBytes(data, live, data') && NewFrames(flat, s, live) && OnlyWindow(flat, s, data', data'')
    ensures KeepsBytes(data, live, data'')
  {
    hide PageDown;
    forall f | f in data && f in live ensures !WindowShows(flat, s, f) {
    }
  }

  /** What happens to a space that was not there changes nothing for those that were. */
  lemma NewSpaceChanges(a: Shown, b: Shown, c: Shown, s: nat)
    requires OthersSee(a, b, 0) && OthersSee(b, c, s) && s !in a.spaces && 0 !in a.spaces
    ensures OthersSee(a, c, 0)
  {
    hide ReadyIn, BytesOf;
  }

  /** PrepareSpace among the scheduler's tasks. */
  method SpaceFor(sched: Scheduler) returns (s: nat)
    requires sched.Valid()
    modifies sched.m`tables, sched.m`spaces, sched.m`data, sched.m`flat, sched.m`rest, sched.m`held, sched.m.pages,
      sched.m.pages.entries
    ensures sched.Valid() && sched.View() == old(sched.View())
    ensures Base(sched.m, Users(sched.tasks)) == old(Base(sched.m, Users(sched.tasks)))
    ensures s == 0 ==> BaseHeld(sched.m, Users(sched.tasks)) == old(BaseHeld(sched.m, Users(sched.tasks)))
    ensures s != 0 ==> BaseHeld(sched.m, Users(sched.tasks)) - {s} == old(BaseHeld(sched.m, Users(sched.tasks)))
    ensures s != 0 ==> s in sched.m.spaces && s != KERNEL && s !in AllSpaces(EstatesOf(Users(sched.tasks)))
    ensures s != 0 ==> s !in old(sched.m.spaces) && IsFreshProgram(sched.m, s)
    ensures old(sched.m.pages.refusals) <= sched.m.pages.refusals
    ensures s != 0 <==> sched.m.pages.refusals == old(sched.m.pages.refusals)
    ensures OthersSee(old(ShownBy(sched.m)), ShownBy(sched.m), 0) && 0 !in old(sched.m.spaces)
    ensures KeepsBytes(old(sched.m.data), old(sched.m.pages.live), sched.m.data)
    ensures s != 0 ==> NewFrames(sched.m.flat, s, old(sched.m.pages.live))
  {
    hide sched.m.Valid, sched.Valid, sched.ListOk, Wf, Housed, Jobs, AllSpaces, EstatesOf, IsFreshProgram, OthersSee,
      KeepsBytes, NewFrames,
      ShownBy;
    sched.Parts();
    sched.m.NoSpaceIsNull();
    ghost var users := Users(sched.tasks);
    s := PrepareSpace(sched.m, sched.active.space, users);
    HeldSwap(sched.m.held, AllSpaces(EstatesOf(users)), s);
    sched.SameQueue();
    sched.Whole();
  }

  /** LoadImage among the scheduler's tasks. */
  method LoadFor(sched: Scheduler, s: nat, buffer: File, info: Info)
    requires sched.Valid() && s in sched.m.spaces && IsFreshProgram(sched.m, s) && IsImage(buffer, info)
    modifies sched.m`data
    ensures sched.Valid() && sched.View() == old(sched.View()) && Sees(sched.m, s, buffer, info)
    ensures OthersSee(old(ShownBy(sched.m)), ShownBy(sched.m), s)
    ensures OnlyWindow(sched.m.flat, s, old(sched.m.data), sched.m.data)
    ensures Base(sched.m, Users(sched.tasks)) == old(Base(sched.m, Users(sched.tasks)))
    ensures BaseHeld(sched.m, Users(sched.tasks)) == old(BaseHeld(sched.m, Users(sched.tasks)))
    ensures MadsOf(Users(sched.tasks)) == old(MadsOf(Users(sched.tasks)))
  {
    hide sched.m.Valid, sched.ListOk, Wf, Housed, Jobs, AllSpaces, EstatesOf, UserBytes, WindowReady, StackIn,
      IsImage, Image, Zeroes, OthersSee, OnlyWindow;
    KeepsOnAllocation(sched);
    HousedMemory(sched.m, Users(sched.tasks));
    var r := LoadImage(sched.m, s, buffer, info);
    assert r == 0;
  }

  /** The space sees exactly the image, and a zeroed stack, and user mode may write both. */
  ghost predicate Sees(m: Memory, s: nat, buffer: seq<Byte>, info: Info)
    requires IsImage(buffer, info)
    reads m`tables, m`spaces, m`flat, m`data
  {
    UserBytes(m, s) == Image(buffer, info) && StackIn(m.flat, m.data, s) && WindowsOpen(m, s)
  }

  /** A space that could not be given to a task goes back. */
  method DropFor(sched: Scheduler, s: nat)
    requires sched.Valid() && s in sched.m.spaces && s != KERNEL && s !in AllSpaces(EstatesOf(Users(sched.tasks)))
    modifies sched.m`tables, sched.m`spaces, sched.m`flat, sched.m`rest, sched.m`held
    modifies sched.m.pages`live, sched.m.pages`free, sched.m.pages`hint, sched.m.pages.entries
    ensures sched.Valid() && sched.View() == old(sched.View())
    ensures Base(sched.m, Users(sched.tasks)) == old(Base(sched.m, Users(sched.tasks)))
    ensures BaseHeld(sched.m, Users(sched.tasks)) == old(BaseHeld(sched.m, Users(sched.tasks))) - {s}
    ensures OthersSee(old(ShownBy(sched.m)), ShownBy(sched.m), s)
  {
    hide sched.m.Valid, sched.Valid, sched.ListOk, Wf, Housed, Jobs, AllSpaces, EstatesOf, OthersSee;
    sched.Parts();
    ghost var users := Users(sched.tasks);
    ActiveHasAnother(sched, s);
    DropSpace(sched.m, s, sched.active.space, users);
    HeldSwap(old(sched.m.held), AllSpaces(EstatesOf(users)), s);
    sched.SameQueue();
    sched.Whole();
  }

  lemma ActiveHasAnother(sched: Scheduler, s: nat)
    requires sched.Valid() && s != KERNEL && s !in AllSpaces(EstatesOf(Users(sched.tasks)))
    ensures sched.active.space != s
  {
    hide Wf, Housed, Jobs;
    sched.ListFacts(sched.at);
    if sched.at > 0 {
      assert sched.active in Users(sched.tasks);
      EstateHasSpace(sched.active);
      SpaceIsAll(EstatesOf(Users(sched.tasks)), sched.active);
    }
  }

  /** The new task is the last one, starts at the image's entry on top of its stack window, and
      sees the image and a zeroed stack. */
  ghost predicate Runs(sched: Scheduler, q: Queue, pid: int, buffer: seq<Byte>, info: Info)
    reads sched, sched.m, sched.tasks
    requires IsImage(buffer, info)
  {
    && pid == q.nextPid
    && sched.View() ==
       Appended(q, Job(pid, true, false, 0, UserEntry(USER_EXEC_LOAD_ADDR + info.entry, USER_STACK_TOP)))
    && |sched.tasks| > 0 && Sees(sched.m, sched.tasks[|sched.tasks| - 1].space, buffer, info)
  }

  // ------------------------------------------------- the program by its bytes

  /** A byte of the loaded program that no relocation names is the file's, or 0 behind the image. */
  lemma ProgramByte(buffer: seq<Byte>, info: Info, k: nat)
    requires IsImage(buffer, info) && k < 0x1_0000
    requires info.relocates ==> !(exists i :: 0 <= i < info.count && NamesByte(buffer, info, i, k))
    ensures var mem := Image(buffer, info);
            0x10_0000 + k in mem && mem[0x10_0000 + k] == if k < info.loadSize then buffer[k] else 0
  {
    hide IsImage, Relocated;
    ImageFits(buffer, info);
    if info.relocates {
      forall i | 0 <= i < info.count ensures !NamesByte(buffer, info, i, k) {
      }
      NotTouched(buffer, info, k);
      RelocatedByte(Loaded(buffer, info.loadSize), buffer, info, info.count, 0x10_0000 + k);
    }
  }

  /** A started program can read and write every page of its image and its stack window, and
      its stack, at 0x11E000 to 0x120000, is zero. */
  lemma ProgramWindows(m: Memory, s: nat, buffer: seq<Byte>, info: Info, a: nat)
    requires m.Valid() && IsImage(buffer, info) && Sees(m, s, buffer, info)
    requires 0x10_0000 <= a < 0x11_0000 || 0x11_E000 <= a < 0x12_0000
    ensures UserWrites(m.tables, m.spaces, s, a / 4096)
    ensures a >= 0x11_E000 ==>
      var p := m.Physical(s, a);
      && p % 4096 == a % 4096 && p - p % 4096 in m.data
      && |m.data[p - p % 4096]| == 4096 && m.data[p - p % 4096][p % 4096] == 0
  {
    hide m.Valid, IsImage, Image, UserBytes, UserWrites;
  }

  /** What a program of another space sees at an address is what it saw. */
  lemma OthersByte(a: Shown, b: Shown, s: nat, t: nat, x: nat)
    requires OthersSee(a, b, s) && t in a.spaces && t != s && ReadyIn(a.flat, a.data, t)
    ensures t in b.spaces && (x in BytesOf(b.flat, b.data, t) <==> x in BytesOf(a.flat, a.data, t))
    ensures x in BytesOf(a.flat, a.data, t) ==> BytesOf(b.flat, b.data, t)[x] == BytesOf(a.flat, a.data, t)[x]
  {
    hide BytesOf, ReadyIn;
  }

  lemma PrivateNotNull(m: Memory, s: nat, u: nat)
    requires m.Valid() && IsPrivate(m.flat, s, u)
    ensures PageDown(m.flat[(s, u)]) > 0
  {
    PrivateIsLive(m);
    hide m.Domains, Backed, Ok, PageDown;
    m.ZeroIsNotLive();
  }

  /** The byte a program sees at an address of its image window is the one in the frame to which
      the address leads, and it sees one wherever the address leads anywhere. */
  lemma SeenByte(m: Memory, s: nat, a: nat)
    requires m.Valid() && s in m.spaces && WindowReady(m, s) && 0x10_0000 <= a < 0x11_0000
    ensures a in UserBytes(m, s) <==> m.Physical(s, a) != 0
    ensures a in UserBytes(m, s) ==>
      var p := m.Physical(s, a);
      p - p % 4096 in m.data && |m.data[p - p % 4096]| == 4096 && UserBytes(m, s)[a] == m.data[p - p % 4096][a % 4096]
  {
    hide m.Valid;
    var u := a / 4096;
    if Present(m.flat[(s, u)]) {
      PrivateNotNull(m, s, u);
    }
  }


  /** Byte `k` of the image belongs to the word that entry `i` of the table names. */
  ghost predicate NamesByte(buffer: seq<Byte>, info: Info, i: nat, k: nat) {
    info.table + 4 * i + 4 <= |buffer| && Word(buffer, info.table + 4 * i) <= k < Word(buffer, info.table + 4 * i) + 4
  }

  lemma NotTouched(buffer: seq<Byte>, info: Info, k: nat)
    requires RelocationsOk(buffer, info) && forall i :: 0 <= i < info.count ==> !NamesByte(buffer, info, i, k)
    ensures !Touched(buffer, info, info.count, 0x10_0000 + k)
  {
    hide Word, ReadU32;
    forall i | 0 <= i < info.count
      ensures !(RelocAddress(buffer, info, i) <= 0x10_0000 + k < RelocAddress(buffer, info, i) + 4)
    {
      WordIs(buffer, info.table + 4 * i);
      assert !NamesByte(buffer, info, i, k);
    }
  }

  /** A word that the table names is the file's word moved from the base it is linked at to
      0x100000, modulo 2^32. */
  lemma ProgramWord(buffer: seq<Byte>, info: Info, i: nat)
    requires IsImage(buffer, info) && info.relocates && WordsApart(buffer, info) && i < info.count
    ensures info.table + 4 * i + 4 <= |buffer| && Word(buffer, info.table + 4 * i) + 4 <= info.loadSize <= |buffer|
    ensures var at, mem := Word(buffer, info.table + 4 * i), Image(buffer, info);
            && HasWord(mem, 0x10_0000 + at)
            && MemoryWord(mem, 0x10_0000 + at) ==
               (Word(buffer, at) + 0x10_0000 - info.preferredBase) % 0x1_0000_0000
  {
    hide Word, ReadU32, Number, Relocated, Loaded, HeaderOf;
    ImageFits(buffer, info);
    WordIs(buffer, info.table + 4 * i);
    var at, before := RelocOffset(buffer, info, i), Loaded(buffer, info.loadSize);
    WindowLoaded(buffer, info.loadSize);
    RelocatedWord(before, buffer, info, info.count, i);
    LoadedWord(buffer, info.loadSize, at);
    MovedWord(Word(buffer, at), info);
    MemoryWordIs(Image(buffer, info), 0x10_0000 + at);
  }

  function MemoryWord(mem: Bytes, a: nat): nat
    requires HasWord(mem, a)
  {
    Number([mem[a], mem[a + 1], mem[a + 2], mem[a + 3]])
  }

  lemma MemoryWordIs(mem: Bytes, a: nat)
    requires HasWord(mem, a)
    ensures MemoryWord(mem, a) == WordAt(mem, a)
  {
    var bytes := [mem[a], mem[a + 1], mem[a + 2], mem[a + 3]];
    NumberOfFour(bytes, 0);
    assert bytes[0..4] == bytes;
  }

  lemma WindowLoaded(buffer: seq<Byte>, n: nat)
    requires n <= |buffer|
    ensures InWindow(Loaded(buffer, n))
  {
  }

  lemma LoadedWord(buffer: seq<Byte>, n: nat, at: nat)
    requires at + 4 <= n <= |buffer| && n <= USER_EXEC_MAX_SIZE
    ensures HasWord(Loaded(buffer, n), 0x10_0000 + at) && WordAt(Loaded(buffer, n), 0x10_0000 + at) == Word(buffer, at)
  {
    WordIs(buffer, at);
  }

  lemma MovedWord(word: U32, info: Info)
    ensures Add32(word, Delta(info)) == (word + 0x10_0000 - info.preferredBase) % 0x1_0000_0000
  {
  }

  /** The program starts at the entry its header names, on top of the stack window. */
  lemma StartsAtHeader(sched: Scheduler, q: Queue, pid: int, buffer: seq<Byte>, info: Info)
    requires IsImage(buffer, info) && Runs(sched, q, pid, buffer, info)
    ensures var jobs := sched.View().jobs;
            && |jobs| == |q.jobs| + 1 && jobs[|q.jobs|].pid == q.nextPid && jobs[|q.jobs|].running
            && !jobs[|q.jobs|].waiting
            && jobs[|q.jobs|].frame ==
               UserEntry(if buffer[7] == 1 then 0x10_0000 else 0x10_0000 + Number(buffer[16..20]), 0x12_0000)
  {
    hide Number, Sees;
    ImageByBytes(buffer, info);
  }

  lemma HousedMemory(m: Memory, users: set<Task>)
    requires Housed(m, users)
    ensures m.Valid()
  {
  }

  lemma HeldSwap(held: map<nat, set<nat>>, spaces: set<nat>, s: nat)
    ensures held - {s} - spaces == held - spaces - {s}
  {
  }
}
