/**
  Memory as a client of the kernel sees it through the page tables: eight-byte words at virtual addresses. A page gets
  its frame when it is first touched; a touch for which there is no frame faults for ever.
 */
module VirtualMemory {
  import opened Basics
  import opened PhysicalMemory
  import opened AddressSpace
  import opened PageTable
  import F = FrameQueue
  import M = Mmu

  /** Words that have been stored, by virtual address. */
  type Words = map<nat, nat>

  /** The place in physical memory of the word at a virtual address. */
  function SlotFor(s: Space, x: nat): Slot
    requires IsMapped(s, x / 4096)
  {
    Slot(s.pages[x / 4096].frame, x % 4096 / 8)
  }

  /** The word at `x` is in memory where the page tables say. */
  ghost predicate Backed(mem: Memory, s: Space, x: nat, w: nat) {
    x % 8 == 0 && Managed(x / 4096) && IsMapped(s, x / 4096) && Pack(Read(mem, SlotFor(s, x))) == w
  }

  ghost predicate Backs(mem: Memory, s: Space, words: Words) {
    forall x :: x in words ==> Backed(mem, s, x, words[x])
  }

  lemma {:induction false} SparedBacked(mem: Memory, s: Space, mem': Memory, s': Space, x: nat, w: nat)
    requires Backed(mem, s, x, w) && M.Spared(mem, s, mem', s', x / 4096)
    ensures Backed(mem', s', x, w)
  {
    assert SlotFor(s, x).frame == s.pages[x / 4096].frame;
  }

  /** A frame that still backs its page: the page is still mapped to it. */
  lemma {:induction false} StillMapped(s: Space, s': Space, v: Page)
    requires WellFormed(s) && WellFormed(s') && StillBacked(s, s') && IsMapped(s, v)
    ensures v in s'.pages && s'.pages[v] == s.pages[v]
  {
    PageOwner(s, v);
    assert Held(s, s', s.pages[v].frame);
  }

  /** Steps of the kernel that unmap nothing change no word. */
  lemma {:induction false} BacksKept(mem: Memory, s: Space, mem': Memory, s': Space, words: Words)
    requires WellFormed(s) && WellFormed(s') && Kept(mem, s, mem', s') && StillBacked(s, s') && Backs(mem, s, words)
    ensures Backs(mem', s', words)
  {
    hide WellFormed, Kept, StillBacked, M.Spared;
    forall x | x in words
      ensures Backed(mem', s', x, words[x])
    {
      StillMapped(s, s', x / 4096);
      M.KeptSpares(mem, s, mem', s', x / 4096);
      SparedBacked(mem, s, mem', s', x, words[x]);
    }
  }

  /** The words outside a range of `n` pages from `a` on. */
  function Outside(words: Words, a: nat, n: nat): Words {
    map x | x in words && !(a <= x < a + 4096 * n) :: words[x]
  }

  /** Releasing a range of pages changes no word outside the range. */
  lemma {:induction false} BacksRelease(mem: Memory, s: Space, mem': Memory, a: nat, n: nat, words: Words)
    requires WellFormed(s) && a % 4096 == 0 && Backs(mem, s, words)
    requires Kept(mem, s, mem', ReleaseRange(s, a / 4096, n))
    ensures Backs(mem', ReleaseRange(s, a / 4096, n), Outside(words, a, n))
  {
    hide WellFormed, Kept, M.Spared, ReleaseRange;
    var s' := ReleaseRange(s, a / 4096, n);
    ReleaseRangeWellFormed(s, a / 4096, n);
    forall x | x in Outside(words, a, n)
      ensures Backed(mem', s', x, words[x])
    {
      PageOutside(a, n, x);
      ReleaseRangeUnmaps(s, a / 4096, n, x / 4096);
      M.KeptSpares(mem, s, mem', s', x / 4096);
      SparedBacked(mem, s, mem', s', x, words[x]);
    }
  }

  lemma {:induction false} PageOutside(a: nat, n: nat, x: nat)
    requires a % 4096 == 0 && !(a <= x < a + 4096 * n)
    ensures !(a / 4096 <= x / 4096 < a / 4096 + n)
  {
  }

  lemma {:induction false} IndexDiffers(x: nat, y: nat)
    requires x % 8 == 0 && y % 8 == 0 && x != y && x / 4096 == y / 4096
    ensures x % 4096 / 8 != y % 4096 / 8
  {
  }

  /** Storing one word changes that word alone: no two addresses share a place in memory. */
  lemma {:induction false} BacksStore(mem: Memory, s: Space, words: Words, x: nat, w: nat)
    requires WellFormed(s) && Backs(mem, s, words) && w < 0x1_0000_0000_0000_0000
    requires x % 8 == 0 && Managed(x / 4096) && IsMapped(s, x / 4096)
    ensures Backs(mem[SlotFor(s, x) := Unpack(w)], s, words[x := w])
  {
    hide WellFormed, Pack, Unpack, Managed, M.Spared;
    var mem' := mem[SlotFor(s, x) := Unpack(w)];
    PackUnpack(w);
    M.StoreSpares(mem, s, x / 4096, x % 4096 / 8, Unpack(w));
    var words' := words[x := w];
    forall y | y in words'
      ensures Backed(mem', s, y, words'[y])
    {
      if y != x {
        assert Backed(mem, s, y, words[y]);
        if y / 4096 == x / 4096 {
          IndexDiffers(x, y);
        } else {
          SparedBacked(mem, s, mem', s, y, words[y]);
        }
      }
    }
  }

  lemma {:induction false} FaultBacked(s: Space, v: Page)
    requires WellFormed(s)
    ensures StillBacked(s, Fault(s, v))
  {
    if s.free != [] {
      HeadIsFree(s);
    }
  }

  /** A touch of the page goes through: it is mapped, or reserved with a frame left for it. */
  predicate CanMap(s: Space, v: Page) {
    IsMapped(s, v) || (v in s.pages && s.free != [])
  }

  /** The address space after a touch of each of `n` pages from `v` on, in order. */
  function FaultRange(s: Space, v: Page, n: nat): Space
    decreases n
  {
    if n == 0 then s else Fault(FaultRange(s, v, n - 1), v + n - 1)
  }

  /** All these touches go through. */
  predicate TouchRange(s: Space, v: Page, n: nat)
    decreases n
  {
    n == 0 || (TouchRange(s, v, n - 1) && CanMap(FaultRange(s, v, n - 1), v + n - 1))
  }

  /** A touch that goes through leaves the page mapped, and a touch of a mapped page changes nothing. */
  lemma {:induction false} TouchMaps(s: Space, v: Page)
    ensures CanMap(s, v) <==> IsMapped(Fault(s, v), v)
    ensures IsMapped(s, v) ==> Fault(s, v) == s
    ensures !CanMap(s, v) ==> Fault(s, v) == s
  {
  }

  lemma {:induction false} TouchedRange(s: Space, v: Page, n: nat, w: Page)
    requires TouchRange(s, v, n) && v <= w < v + n
    ensures IsMapped(FaultRange(s, v, n), w)
    decreases n
  {
    if w < v + n - 1 {
      TouchedRange(s, v, n - 1, w);
    }
  }

  lemma {:induction false} RangeStops(s: Space, v: Page, m: nat, n: nat)
    requires !TouchRange(s, v, m) && m <= n
    ensures !TouchRange(s, v, n)
    decreases n
  {
    if m < n {
      RangeStops(s, v, m, n - 1);
    }
  }

  lemma {:induction false} FaultRangeState(s: Space, v: Page, n: nat)
    requires (forall w :: v <= w < v + n ==> w in s.pages && !IsMapped(s, w)) && n <= |s.free|
    ensures TouchRange(s, v, n) && FaultRange(s, v, n).free == s.free[n..]
    ensures forall w :: !(v <= w < v + n) ==> (w in FaultRange(s, v, n).pages <==> w in s.pages)
    ensures forall w :: !(v <= w < v + n) && w in s.pages ==> FaultRange(s, v, n).pages[w] == s.pages[w]
    decreases n
  {
    if n > 0 {
      FaultRangeState(s, v, n - 1);
    }
  }

  /**
    Touching fresh pages one after the other goes through exactly when each of them was reserved and there is a frame
    for each.
   */
  lemma {:induction false} TouchRangeExact(s: Space, v: Page, n: nat)
    requires forall w :: v <= w < v + n ==> !IsMapped(s, w)
    ensures TouchRange(s, v, n) <==> (forall w :: v <= w < v + n ==> w in s.pages) && n <= |s.free|
    decreases n
  {
    if n > 0 {
      TouchRangeExact(s, v, n - 1);
      if TouchRange(s, v, n - 1) {
        FaultRangeState(s, v, n - 1);
        var t, last := FaultRange(s, v, n - 1), v + n - 1;
        assert last in t.pages <==> last in s.pages;
        assert !IsMapped(s, last) && !IsMapped(t, last);
        assert CanMap(t, last) <==> last in s.pages && n <= |s.free|;
      }
    }
  }

  /** The processor accesses the page of `x`: an unmapped page faults, and the access is made if that mapped it. */
  method Touch(mmu: M.Mmu, x: nat, ghost words: Words) returns (ok: bool)
    requires mmu.HeapValid() && Managed(x / 4096) && Backs(mmu.mem, mmu.space, words)
    modifies mmu`mem, mmu`freeSegments, mmu`freePageHead, mmu`space
    ensures mmu.HeapValid() && Backs(mmu.mem, mmu.space, words) && mmu.space == Fault(old(mmu.space), x / 4096)
    ensures Within(old(mmu.mem), old(mmu.space), mmu.mem, mmu.space)
    ensures ok <==> IsMapped(mmu.space, x / 4096)
    ensures ok <==> CanMap(old(mmu.space), x / 4096)
  {
    hide WellFormed, Encodes, F.Queue, Managed, Backs, Kept, StillBacked, M.Translate, Within;
    ghost var mem, s := mmu.mem, mmu.space;
    WithinRefl(mem, s, s);
    M.TranslateAgrees(mmu.mem, mmu.freeSegments, mmu.freePageHead, mmu.freePageTail, mmu.pageTable, mmu.identity, s, x);
    var t := M.Translate(mmu.mem, mmu.pageTable, x, 0);
    if t.None? {
      FaultBacked(s, x / 4096);
      mmu.PageFault(x);
      M.KeptWithin(mem, s, mmu.mem, mmu.space);
      BacksKept(mem, s, mmu.mem, mmu.space, words);
      M.TranslateAgrees(mmu.mem, mmu.freeSegments, mmu.freePageHead, mmu.freePageTail, mmu.pageTable, mmu.identity,
                        mmu.space, x);
      t := M.Translate(mmu.mem, mmu.pageTable, x, 0);
    }
    ok := t.Some?;
  }

  /** A word that was stored is loaded: no fault, and the value stored. */
  method Load(mmu: M.Mmu, x: nat, ghost words: Words) returns (w: nat)
    requires mmu.HeapValid() && Backs(mmu.mem, mmu.space, words) && x in words
    ensures w == words[x]
  {
    hide WellFormed, Encodes, F.Queue, Managed, Pack, M.Translate;
    assert Backed(mmu.mem, mmu.space, x, words[x]);
    M.TranslateAgrees(mmu.mem, mmu.freeSegments, mmu.freePageHead, mmu.freePageTail, mmu.pageTable, mmu.identity,
                      mmu.space, x);
    var t := M.Translate(mmu.mem, mmu.pageTable, x, 0);
    w := Pack(Read(mmu.mem, Slot(t.value, x % 4096 / 8)));
  }

  /** A word is stored, after a fault if need be; without a frame for the page the processor faults for ever. */
  method Store(mmu: M.Mmu, x: nat, w: nat, ghost words: Words) returns (ok: bool)
    requires mmu.HeapValid() && Backs(mmu.mem, mmu.space, words)
    requires x % 8 == 0 && Managed(x / 4096) && w < 0x1_0000_0000_0000_0000
    modifies mmu`mem, mmu`freeSegments, mmu`freePageHead, mmu`space
    ensures mmu.HeapValid() && mmu.space == Fault(old(mmu.space), x / 4096)
    ensures Within(old(mmu.mem), old(mmu.space), mmu.mem, mmu.space)
    ensures ok <==> IsMapped(mmu.space, x / 4096)
    ensures Backs(mmu.mem, mmu.space, if ok then words[x := w] else words)
  {
    hide WellFormed, Encodes, F.Queue, Managed, Backs, Kept, Pack, Unpack, Within;
    ok := Touch(mmu, x, words);
    if ok {
      PackUnpack(w);
      BacksStore(mmu.mem, mmu.space, words, x, w);
      ghost var mem := mmu.mem;
      mmu.StoreWord(x, Unpack(w));
      WithinThen(old(mmu.mem), old(mmu.space), mem, mmu.space, mmu.mem, mmu.space);
    }
  }
}
