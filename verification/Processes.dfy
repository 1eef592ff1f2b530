/**
  `PROC_create_process` and `process_exit` of src/proc.c with the memory they take and give back: the process
  structure from `kmalloc`, the stack from the memory manager, and the scheduler's queues.
 */
module Processes {
  import opened Scheduler
  import opened VirtualMemory
  import S = AddressSpace
  import T = PageTable
  import M = Mmu
  import H = KmallocHeap
  import A = Kmalloc
  import K = Kernel

  /** `sizeof(struct Process)`. */
  const PROCESS_SIZE: H.Size := 240

  /** Stack addresses are left. */
  ghost predicate StacksLeft(mmu: M.Mmu)
    reads mmu
  {
    mmu.StacksValid() && S.P4_SPAN + 10 <= mmu.nextStackVaddr / 4096 && mmu.nextStackVaddr < M.HEAP_START
  }

  /**
    `PROC_create_process`: a structure, a stack of ten pages with the address of `process_exit` where the entry point
    will return to, and a place at the end of the ready queue; -1 exactly when the heap has no block. What clients
    have stored stays. Where memory gives out half way, nothing is queued. When it fails, `MMU_alloc_pages` has left
    the interrupt depth two too high.
   */
  method CreateProcess(kernel: K.Kernel, heap: A.KernelHeap, p: Pid, exit: nat) returns (r: int, proc: nat, stack: nat)
    requires kernel.AtRest() && Enabled(kernel.State(), Event.CreateProcess(p)) && p != kernel.currProc.pid
    requires heap.Valid() && |heap.heap.free| == 6 && StacksLeft(heap.mmu) && exit < 0x1_0000_0000_0000_0000
    modifies kernel`readyQueue, kernel`live, kernel`savedFlags, kernel`unmasked, kernel`interruptFlag, kernel`inTail
    modifies kernel`irqSemaphore, heap
    modifies heap.mmu`mem, heap.mmu`freeSegments, heap.mmu`freePageHead, heap.mmu`freePageTail, heap.mmu`space, heap.mmu`hung
    modifies heap.mmu`nextHeapVaddr, heap.mmu`irqDepth, heap.mmu`nextStackVaddr
    ensures heap.hung ==> heap.Stopped() && kernel.State() == old(kernel.State())
    ensures !heap.hung ==> heap.Valid() && (heap.heap, proc) == H.Malloc(old(heap.heap), PROCESS_SIZE)
    ensures !heap.hung ==> r == if proc == 0 then -1 else 0
    ensures !heap.hung ==> heap.mmu.irqDepth == old(heap.mmu.irqDepth) + if r == 0 then 0 else 2
    ensures !heap.hung ==> kernel.AtRest()
    ensures !heap.hung ==> kernel.State() == if r == 0 then Create(old(kernel.State()), p) else old(kernel.State())
    ensures !heap.hung && r == 0 ==> stack == old(heap.mmu.nextStackVaddr) && heap.mmu.nextStackVaddr == stack - 40960
    ensures !heap.hung && r == 0 ==> FirstWords(heap.words, stack, exit)
    ensures !heap.hung ==> A.SamePayload(old(heap.heap), old(heap.words), heap.words)
  {
    hide A.Represents, T.Represents, Backs, A.SamePayload, H.Malloc, A.MallocReaches, M.DemandDownReaches, M.DemandDown, T.Within;
    hide A.MallocBacked, A.MallocSpace, A.MallocLeak, H.Given, H.NoBlock;
    r, stack := -1, 0;
    ProcessLeak(heap.heap, heap.words, heap.freeHeads);
    proc := heap.Alloc(PROCESS_SIZE);
    if heap.hung || proc == 0 {
      return;
    }
    ghost var words := heap.words;
    ghost var h := heap.heap;
    stack := heap.AllocStack();
    if heap.hung {
      return;
    }
    StackWords(stack);
    InitStack(heap, stack, exit);
    if heap.hung {
      return;
    }
    KeptForOld(old(heap.heap), old(heap.words), old(heap.freeHeads), words, heap.words, PROCESS_SIZE, heap.freeHeads, h);
    r := kernel.CreateProcess(p, true);
  }

  /** A structure is not to be had exactly when `MMU_alloc_pages` fails. */
  lemma {:induction false} ProcessLeak(h: H.Heap, words: Words, heads: seq<nat>)
    requires A.Represents(words, heads, h) && |h.free| == 6
    ensures A.MallocLeak(h, PROCESS_SIZE) == if H.Malloc(h, PROCESS_SIZE).1 == 0 then 2 else 0
  {
    hide H.Carve, H.Disjoint, H.Sized, A.Headers, A.Stacks;
    assert H.Gross(PROCESS_SIZE) == 256 && H.PoolFor(PROCESS_SIZE) == 3;
    if h.free[3] == [] {
      H.RefillWellFormed(h, 3);
    }
  }

  /** The three words at the top of a new stack. */
  method InitStack(heap: A.KernelHeap, stack: nat, exit: nat)
    requires heap.Valid() && TopWords(stack) && exit < 0x1_0000_0000_0000_0000
    modifies heap`hung, heap`hungAt, heap`words
    modifies heap.mmu`mem, heap.mmu`freeSegments, heap.mmu`freePageHead, heap.mmu`space
    ensures heap.hung ==> heap.NoFrame()
    ensures !heap.hung ==> heap.Valid() && heap.words == old(heap.words)[stack := 0][stack - 8 := 0][stack - 16 := exit]
  {
    hide A.Represents, T.Represents, Backs, T.Within;
    heap.StackPut(stack, 0);
    if heap.hung {
      return;
    }
    heap.StackPut(stack - 8, 0);
    if heap.hung {
      return;
    }
    heap.StackPut(stack - 16, exit);
  }

  /** What a new process finds on its stack: two zero words, and below them the address it returns to. */
  ghost predicate FirstWords(words: Words, stack: nat, exit: nat) {
    && 16 <= stack && stack in words && words[stack] == 0
    && stack - 8 in words && words[stack - 8] == 0 && stack - 16 in words && words[stack - 16] == exit
  }

  /** The last three words of a page below the heap. */
  ghost predicate TopWords(stack: nat) {
    && 16 <= stack < M.HEAP_START && stack % 8 == 0 && (stack - 8) % 8 == 0 && (stack - 16) % 8 == 0
    && S.Managed(stack / 4096) && S.Managed((stack - 8) / 4096) && S.Managed((stack - 16) / 4096)
  }

  lemma {:induction false} StackWords(stack: nat)
    requires stack % 4096 == 4088 && S.P4_SPAN <= stack / 4096 && stack < M.HEAP_START
    ensures TopWords(stack)
  {
    var k := stack / 4096;
    assert stack == 4096 * k + 4088;
    assert (stack - 8) / 4096 == k && (stack - 16) / 4096 == k;
    A.MultipleOfEight(stack - 16, 512 * k + 509);
    A.MultipleOfEight(stack - 8, 512 * k + 510);
  }

  /** Writing below the heap after an allocation changes no payload of the blocks that were live before. */
  lemma {:induction false} KeptForOld(h0: H.Heap, words0: Words, heads0: seq<nat>, words1: Words, words2: Words,
                                      size: H.Size, heads: seq<nat>, h1: H.Heap)
    requires A.Represents(words0, heads0, h0) && |h0.free| == 6 && h1 == H.Malloc(h0, size).0 && A.Represents(words2, heads, h1)
    requires A.SamePayload(h0, words0, words1)
    requires forall x: nat :: M.HEAP_START <= x && x in words1 ==> x in words2 && words2[x] == words1[x]
    ensures A.SamePayload(h0, words0, words2)
  {
    hide H.Malloc, A.SamePayload, A.Headers, A.Stacks, H.Disjoint, H.Sized;
    A.BelowKeepsPayload(h1, words1, words2);
    forall a | a in h0.live && a in h0.blocks
      ensures a in h1.live && a in h1.blocks && h1.blocks[a] == h0.blocks[a]
    {
      H.MallocKeeps(h0, size, a);
    }
    A.SamePayloadThen(h0, h1, words0, words1, words2);
  }

  ghost predicate StackTop(stack: nat) {
    stack % 4096 == 4088 && S.P4_SPAN <= stack / 4096 && stack + 40960 <= M.HEAP_START
  }

  /** The block at `a` was freed. */
  ghost predicate Freed(h: H.Heap, a: nat, h': H.Heap) {
    H.Allowed(h, H.FreeOp(a)) && h' == H.Step(h, H.FreeOp(a))
  }

  /**
    `process_exit`: the stack and the structure are given back and another process runs. The pages are released
    upwards from the top of the stack (`FreeStackWalksUp`), the one the process runs on first (`FreeStackUnmapsTop`).
   */
  method ExitProcess(kernel: K.Kernel, heap: A.KernelHeap, proc: nat, stack: nat)
    requires 16 <= proc && StackTop(stack) && H.Allowed(heap.heap, H.FreeOp(proc - 16))
    requires kernel.AtRest() && Enabled(kernel.State(), Event.ExitProcess) && kernel.currProc.pid !in kernel.readyQueue
    requires heap.Valid()
    modifies kernel, heap
    modifies heap.mmu`mem, heap.mmu`freeSegments, heap.mmu`freePageHead, heap.mmu`freePageTail, heap.mmu`space, heap.mmu`hung
    modifies heap.mmu`nextHeapVaddr, heap.mmu`irqDepth
    ensures kernel.AtRest() && kernel.State() == if heap.hung then old(kernel.State()) else Exit(old(kernel.State()))
    ensures heap.hung <==> heap.mmu.hung
    ensures heap.hung <==>
              || !M.RangeReaches(old(heap.mmu.space), stack / 4096, 10)
              || !A.OpReaches(old(heap.heap), S.ReleaseRange(old(heap.mmu.space), stack / 4096, 10), H.FreeOp(proc - 16))
    ensures !heap.hung ==> heap.Valid() && Freed(old(heap.heap), proc - 16, heap.heap)
  {
    hide A.Represents, T.Represents, Backs, A.SamePayload, H.Step, H.Allowed, A.OpReaches, M.RangeReaches, T.Within, A.SpaceAfter;
    hide Outside, S.ReleaseRange;
    heap.FreeStack(stack);
    if heap.hung {
      return;
    }
    heap.Dealloc(proc);
    if heap.hung {
      return;
    }
    kernel.ExitProcess();
  }
}
