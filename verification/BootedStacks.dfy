/**
  The stacks and heap pages the memory manager of src/mmu.c hands out from boot on, over any run of its calls: where
  each of them lies, and that the calls make a run of module StackRuns.
 */
module BootedStacks {
  import opened StackRuns
  import S = AddressSpace
  import M = Mmu
  import T = PageTable
  import P = PhysicalMemory
  import B = BootMap
  import X = KernelSections
  import Processes

  /** `MMU_alloc_stack`, `MMU_alloc_pages`, a first touch, `MMU_free_stack` of the `j`-th stack, `MMU_free_pages`. */
  datatype Call = NewStack | NewPages(n: int) | TouchPage(v: S.Page) | DropStack(j: nat) | DropPages(v: S.Page, count: nat)

  /** With `j` stacks handed out: stack addresses are left, only such stacks are freed, and pages freed are not in them. */
  ghost predicate Allowed(j: nat, c: Call) {
    match c
    case NewStack => S.P4_SPAN + 10 <= Top(j)
    case NewPages(_) => true
    case TouchPage(v) => S.Managed(v)
    case DropStack(k) => k < j && S.P4_SPAN <= Top(k)
    case DropPages(v, n) => M.FIRST_STACK < v && v + n <= 512 * S.P4_SPAN
  }

  function Count(j: nat, c: Call): nat {
    if c.NewStack? then j + 1 else j
  }

  ghost predicate AllowedCalls(j: nat, calls: seq<Call>)
    decreases |calls|
  {
    calls == [] || (Allowed(j, calls[0]) && AllowedCalls(Count(j, calls[0]), calls[1..]))
  }

  /** The page counts asked for. */
  function Requests(calls: seq<Call>): seq<int>
    decreases |calls|
  {
    if calls == [] then []
    else (if calls[0].NewPages? then [calls[0].n] else []) + Requests(calls[1..])
  }

  function Stacks(calls: seq<Call>): nat
    decreases |calls|
  {
    if calls == [] then 0 else Count(0, calls[0]) + Stacks(calls[1..])
  }

  // ------------------------------------------------------------------
  // Calls are runs
  // ------------------------------------------------------------------

  function Demands(v: S.Page, n: nat): seq<Event>
    decreases n
  {
    if n == 0 then [] else Demands(v, n - 1) + [Heap(S.DemandOp(v + n - 1))]
  }

  function Releases(v: S.Page, n: nat): seq<Event>
    decreases n
  {
    if n == 0 then [] else Releases(v, n - 1) + [Heap(S.ReleaseOp(v + n - 1))]
  }

  function NextHeap(next: nat, c: Call): nat {
    if c.NewPages? then M.Grant(next, c.n).1 else next
  }

  function EventsOf(next: nat, c: Call): seq<Event> {
    match c
    case NewStack => [Created]
    case NewPages(n) => Demands(next / 4096, if next <= M.Grant(next, n).1 then (M.Grant(next, n).1 - next) / 4096 else 0)
    case TouchPage(v) => [Touched(v)]
    case DropStack(j) => [Exited(j)]
    case DropPages(v, n) => Releases(v, n)
  }

  function AllEvents(next: nat, calls: seq<Call>): seq<Event>
    decreases |calls|
  {
    if calls == [] then [] else EventsOf(next, calls[0]) + AllEvents(NextHeap(next, calls[0]), calls[1..])
  }

  lemma {:induction false} RunAppend(st: State, a: seq<Event>, b: seq<Event>)
    requires EnabledRun(st, a) && EnabledRun(Run(st, a), b)
    ensures EnabledRun(st, a + b) && Run(st, a + b) == Run(Run(st, a), b)
    decreases |a|
  {
    hide Enabled, Step;
    if a == [] {
      assert [] + b == b;
    } else {
      assert (a + b)[1..] == a[1..] + b && (a + b)[0] == a[0];
      RunAppend(Step(st, a[0]), a[1..], b);
    }
  }

  lemma {:induction false} RunOne(st: State, e: Event)
    requires Enabled(st, e)
    ensures EnabledRun(st, [e]) && Run(st, [e]) == Step(st, e)
  {
    hide Enabled, Step;
    assert [e][1..] == [];
  }

  lemma {:induction false} DemandsRun(st: State, v: S.Page, n: nat)
    requires M.FIRST_STACK < v
    ensures EnabledRun(st, Demands(v, n)) && Run(st, Demands(v, n)) == st.(space := M.DemandRange(st.space, v, n))
    decreases n
  {
    hide S.Demand, EnabledRun, Run;
    if n == 0 {
      RunNothing(st);
    } else {
      DemandsRun(st, v, n - 1);
      RunOne(Run(st, Demands(v, n - 1)), Heap(S.DemandOp(v + n - 1)));
      RunAppend(st, Demands(v, n - 1), [Heap(S.DemandOp(v + n - 1))]);
    }
  }

  lemma {:induction false} ReleasesRun(st: State, v: S.Page, n: nat)
    requires M.FIRST_STACK < v
    ensures EnabledRun(st, Releases(v, n)) && Run(st, Releases(v, n)) == st.(space := S.ReleaseRange(st.space, v, n))
    decreases n
  {
    hide S.Release, EnabledRun, Run;
    if n == 0 {
      RunNothing(st);
    } else {
      ReleasesRun(st, v, n - 1);
      RunOne(Run(st, Releases(v, n - 1)), Heap(S.ReleaseOp(v + n - 1)));
      RunAppend(st, Releases(v, n - 1), [Heap(S.ReleaseOp(v + n - 1))]);
    }
  }

  lemma {:induction false} RunNothing(st: State)
    ensures EnabledRun(st, []) && Run(st, []) == st
  {
  }

  /** The events of an allowed call can happen. */
  lemma {:induction false} CallRuns(st: State, next: nat, c: Call)
    requires M.HEAP_START <= next <= M.HEAP_END && Allowed(st.next, c)
    ensures EnabledRun(st, EventsOf(next, c)) && Run(st, EventsOf(next, c)).next == Count(st.next, c)
    ensures M.HEAP_START <= NextHeap(next, c) <= M.HEAP_END
    ensures c.NewPages? ==> Run(st, EventsOf(next, c)).space == M.DemandRange(st.space, next / 4096, (NextHeap(next, c) - next) / 4096)
    ensures c.DropPages? ==> Run(st, EventsOf(next, c)).space == S.ReleaseRange(st.space, c.v, c.count)
    ensures c.NewStack? ==> 9 <= Top(st.next) && Run(st, EventsOf(next, c)).space == M.DemandDown(st.space, Top(st.next), 10)
    ensures c.DropStack? ==> 0 <= Top(c.j) && Run(st, EventsOf(next, c)).space == S.ReleaseRange(st.space, Top(c.j), 10)
    ensures c.TouchPage? ==> Run(st, EventsOf(next, c)).space == S.Fault(st.space, c.v)
  {
    hide EnabledRun, Run, M.DemandDown, M.DemandRange, S.ReleaseRange, S.Fault;
    match c
    case NewStack => RunOne(st, Created);
    case NewPages(n) =>
      AboveStacks(next);
      DemandsRun(st, next / 4096, (NextHeap(next, c) - next) / 4096);
    case TouchPage(v) => RunOne(st, Touched(v));
    case DropStack(j) => RunOne(st, Exited(j));
    case DropPages(v, n) => ReleasesRun(st, v, n);
  }

  lemma {:induction false} AboveStacks(next: nat)
    requires M.HEAP_START <= next
    ensures M.FIRST_STACK < next / 4096
  {
  }

  /** The call touches no frame out of the kernel's reach. */
  ghost predicate CallReaches(st: State, next: nat, c: Call)
    requires Allowed(st.next, c)
  {
    match c
    case NewStack => M.DemandDownReaches(st.space, Top(st.next), 10)
    case NewPages(n) => M.GrantReaches(st.space, next, n)
    case TouchPage(_) => true
    case DropStack(j) => M.RangeReaches(st.space, Top(j), 10)
    case DropPages(v, n) => M.RangeReaches(st.space, v, n)
  }

  ghost predicate CallsReach(st: State, next: nat, calls: seq<Call>)
    requires M.HEAP_START <= next <= M.HEAP_END && AllowedCalls(st.next, calls)
    decreases |calls|
  {
    calls == [] ||
    (CallReaches(st, next, calls[0])
     && (CallRuns(st, next, calls[0]);
         CallsReach(Run(st, EventsOf(next, calls[0])), NextHeap(next, calls[0]), calls[1..])))
  }

  lemma {:induction false} CallsRun(st: State, next: nat, calls: seq<Call>)
    requires M.HEAP_START <= next <= M.HEAP_END && AllowedCalls(st.next, calls)
    ensures EnabledRun(st, AllEvents(next, calls)) && Run(st, AllEvents(next, calls)).next == st.next + Stacks(calls)
    decreases |calls|
  {
    hide EnabledRun, Run, Allowed, EventsOf, NextHeap;
    if calls == [] {
      RunNothing(st);
    } else {
      CallRuns(st, next, calls[0]);
      var st1, next1 := Run(st, EventsOf(next, calls[0])), NextHeap(next, calls[0]);
      CallsRun(st1, next1, calls[1..]);
      RunAppend(st, EventsOf(next, calls[0]), AllEvents(next1, calls[1..]));
    }
  }

  // ------------------------------------------------------------------
  // Where stacks and heap pages lie
  // ------------------------------------------------------------------

  /** The address `MMU_alloc_stack` returns for the `j`-th stack: the last word of its top page. */
  function StackAddress(j: nat): int {
    4096 * Top(j) + 4088
  }

  /** No page of a stack is a page of a granted range of the heap. */
  ghost predicate Apart(stacks: nat, ranges: seq<M.Range>) {
    forall j: nat, w: S.Page, i :: j < stacks && InStack(w, j) && 0 <= i < |ranges| ==>
      !(ranges[i].base <= 4096 * w < ranges[i].base + 4096 * ranges[i].pages)
  }

  lemma {:induction false} StacksApart(stacks: nat, requests: seq<int>)
    ensures Apart(stacks, M.Granted(M.HEAP_START, requests))
  {
    M.GrantedDisjoint(M.HEAP_START, requests);
  }

  /** The addresses set aside for stacks hold the first 26843545 of them; nothing stops the next one from being handed out. */
  lemma {:induction false} StackInRegion(j: nat)
    requires 9 <= Top(j)
    ensures (forall w: S.Page :: InStack(w, j) ==> 0x100_0000_0000 <= 4096 * w < M.STACKS_END) <==> j < 26843545
  {
    assert InStack(Top(j) - 9, j);
  }

  // ------------------------------------------------------------------
  // The code
  // ------------------------------------------------------------------

  /** What a state of the run looks like in the memory manager. */
  ghost predicate Booted(mmu: M.Mmu, j: nat)
    reads mmu
  {
    mmu.HeapValid() && mmu.StacksValid() && mmu.nextStackVaddr == StackAddress(j)
  }

  lemma {:induction false} NotStuck(mmu: M.Mmu, j: nat)
    requires Booted(mmu, j)
    ensures !mmu.hung
  {
    hide T.Represents;
  }

  lemma {:induction false} StackPages(j: nat)
    requires S.P4_SPAN <= Top(j)
    ensures StackAddress(j) / 4096 == Top(j) && StackAddress(j) % 4096 == 4088
    ensures S.Managed(Top(j)) && S.Managed(Top(j) + 9)
    ensures StackAddress(j) - 40960 == StackAddress(j + 1)
  {
  }

  /** One call, with `j` stacks handed out. */
  method Perform(mmu: M.Mmu, j: nat, c: Call) returns (r: nat)
    requires Booted(mmu, j) && Allowed(j, c)
    modifies mmu
    ensures mmu.hung <==> !CallReaches(State(old(mmu.space), j), old(mmu.nextHeapVaddr), c)
    ensures !mmu.hung ==> Booted(mmu, Count(j, c))
    ensures EnabledRun(State(old(mmu.space), j), EventsOf(old(mmu.nextHeapVaddr), c))
    ensures !mmu.hung ==>
              && State(mmu.space, Count(j, c)) == Run(State(old(mmu.space), j), EventsOf(old(mmu.nextHeapVaddr), c))
              && mmu.nextHeapVaddr == NextHeap(old(mmu.nextHeapVaddr), c)
    ensures !mmu.hung && c.NewStack? ==> r == StackAddress(j)
    ensures !mmu.hung && c.NewPages? ==> r == M.Grant(old(mmu.nextHeapVaddr), c.n).0
  {
    hide T.Represents, EnabledRun, Run, M.DemandDown, M.DemandRange, S.ReleaseRange, S.Fault, M.DemandDownReaches, M.GrantReaches;
    hide M.RangeReaches, T.StillBacked, T.Kept, T.Within;
    r := 0;
    CallRuns(State(mmu.space, j), mmu.nextHeapVaddr, c);
    match c
    case NewStack =>
      StackPages(j);
      r := mmu.AllocStack();
    case NewPages(n) =>
      r := mmu.AllocPages(n);
    case TouchPage(v) =>
      assert 4096 * v / 4096 == v;
      mmu.PageFault(4096 * v);
    case DropStack(k) =>
      StackPages(k);
      mmu.FreeStack(StackAddress(k));
    case DropPages(v, n) =>
      assert 4096 * v / 4096 == v && 4096 * v % 4096 == 0;
      mmu.FreePages(4096 * v, n);
  }

  /** The rest of the calls, seen from the current state, ends where all of them end. */
  ghost predicate Ends(st: State, next: nat, calls: seq<Call>, end: State, through: bool) {
    && M.HEAP_START <= next <= M.HEAP_END && AllowedCalls(st.next, calls)
    && EnabledRun(st, AllEvents(next, calls)) && Run(st, AllEvents(next, calls)) == end
    && (CallsReach(st, next, calls) <==> through)
  }

  lemma {:induction false} EndsStart(st: State, next: nat, calls: seq<Call>)
    requires M.HEAP_START <= next <= M.HEAP_END && AllowedCalls(st.next, calls)
    ensures EnabledRun(st, AllEvents(next, calls))
    ensures Ends(st, next, calls, Run(st, AllEvents(next, calls)), CallsReach(st, next, calls))
  {
    hide EnabledRun, Run, AllowedCalls;
    CallsRun(st, next, calls);
  }

  lemma {:induction false} EndsNext(st: State, next: nat, calls: seq<Call>, end: State, through: bool)
    requires Ends(st, next, calls, end, through) && calls != []
    ensures Allowed(st.next, calls[0]) && EnabledRun(st, EventsOf(next, calls[0]))
    ensures CallReaches(st, next, calls[0]) ==>
              Ends(Run(st, EventsOf(next, calls[0])), NextHeap(next, calls[0]), calls[1..], end, through)
    ensures !CallReaches(st, next, calls[0]) ==> !through
  {
    hide EnabledRun, Run, Allowed, EventsOf, NextHeap, CallReaches;
    CallRuns(st, next, calls[0]);
    var st1, next1 := Run(st, EventsOf(next, calls[0])), NextHeap(next, calls[0]);
    CallsRun(st1, next1, calls[1..]);
    RunAppend(st, EventsOf(next, calls[0]), AllEvents(next1, calls[1..]));
  }

  lemma {:induction false} EndsLast(st: State, next: nat, end: State, through: bool)
    requires Ends(st, next, [], end, through)
    ensures st == end && through
  {
  }

  /** What `MMU_alloc_pages` granted, if this call was one. */
  function RangeOf(c: Call, r: nat): seq<M.Range> {
    if c.NewPages? && r != 0 then [M.Range(r, c.n)] else []
  }

  lemma {:induction false} GrantedNext(next: nat, calls: seq<Call>)
    requires calls != []
    ensures M.Granted(next, Requests(calls))
         == RangeOf(calls[0], if calls[0].NewPages? then M.Grant(next, calls[0].n).0 else 0)
          + M.Granted(NextHeap(next, calls[0]), Requests(calls[1..]))
  {
    var c, rest := calls[0], Requests(calls[1..]);
    if c.NewPages? {
      assert ([c.n] + rest)[1..] == rest;
    } else {
      assert [] + rest == rest && [] + M.Granted(next, rest) == M.Granted(next, rest);
    }
  }

  lemma {:induction false} StacksNext(calls: seq<Call>)
    requires calls != []
    ensures Stacks(calls) == Count(0, calls[0]) + Stacks(calls[1..])
  {
  }

  lemma {:induction false} NoCalls(next: nat)
    ensures Stacks([]) == 0 && M.Granted(next, Requests([])) == []
  {
  }

  /**
    Any run of calls from boot: it is a run of module StackRuns, the `j`-th stack is handed out at `StackAddress(j)`,
    the ranges of the heap are those granted one after the other from its start, and no page of a stack lies in one of
    them. It gets stuck exactly at a call that touches a frame out of the kernel's reach.
   */
  method Execute(mmu: M.Mmu, calls: seq<Call>) returns (stacks: seq<nat>, ranges: seq<M.Range>)
    requires Booted(mmu, 0) && mmu.nextHeapVaddr == M.HEAP_START && AllowedCalls(0, calls)
    modifies mmu
    ensures mmu.hung <==> !CallsReach(State(old(mmu.space), 0), M.HEAP_START, calls)
    ensures !mmu.hung ==> |stacks| == Stacks(calls) && forall j :: 0 <= j < |stacks| ==> stacks[j] == StackAddress(j)
    ensures !mmu.hung ==> ranges == M.Granted(M.HEAP_START, Requests(calls)) && Apart(|stacks|, ranges)
    ensures EnabledRun(State(old(mmu.space), 0), AllEvents(M.HEAP_START, calls))
    ensures !mmu.hung ==>
              Booted(mmu, |stacks|)
              && State(mmu.space, |stacks|) == Run(State(old(mmu.space), 0), AllEvents(M.HEAP_START, calls))
  {
    hide Booted, Allowed, AllowedCalls, EventsOf, NextHeap, CallReaches, CallsReach, EnabledRun, Run, AllEvents, Ends, Apart;
    hide M.Granted, Requests, Stacks, StackAddress;
    stacks, ranges := [], [];
    ghost var st0 := State(mmu.space, 0);
    EndsStart(st0, M.HEAP_START, calls);
    ghost var end, through := Run(st0, AllEvents(M.HEAP_START, calls)), CallsReach(st0, M.HEAP_START, calls);
    assert calls[0..] == calls;
    assert [] + M.Granted(M.HEAP_START, Requests(calls)) == M.Granted(M.HEAP_START, Requests(calls));
    for i := 0 to |calls|
      invariant Booted(mmu, |stacks|) && Ends(State(mmu.space, |stacks|), mmu.nextHeapVaddr, calls[i..], end, through)
      invariant |stacks| + Stacks(calls[i..]) == Stacks(calls)
      invariant forall j :: 0 <= j < |stacks| ==> stacks[j] == StackAddress(j)
      invariant ranges + M.Granted(mmu.nextHeapVaddr, Requests(calls[i..])) == M.Granted(M.HEAP_START, Requests(calls))
    {
      var c := calls[i];
      assert calls[i..][0] == c && calls[i..][1..] == calls[i + 1..];
      EndsNext(State(mmu.space, |stacks|), mmu.nextHeapVaddr, calls[i..], end, through);
      GrantedNext(mmu.nextHeapVaddr, calls[i..]);
      StacksNext(calls[i..]);
      var r := Perform(mmu, |stacks|, c);
      if mmu.hung {
        return;
      }
      ranges := ranges + RangeOf(c, r);
      if c.NewStack? {
        stacks := stacks + [r];
      }
    }
    assert calls[|calls|..] == [];
    EndsLast(State(mmu.space, |stacks|), mmu.nextHeapVaddr, end, through);
    NotStuck(mmu, |stacks|);
    NoCalls(mmu.nextHeapVaddr);
    assert ranges + [] == ranges;
    StacksApart(|stacks|, Requests(calls));
  }

  /**
    From boot through any run of calls: all of the above, on the frames of the boot map. While addresses for one more
    stack are left, a process can be created.
   */
  method BootAndExecute(contents: P.Memory, ram: seq<X.Section>, sects: array<X.Section>, p3: nat, p2: nat, calls: seq<Call>)
    returns (mmu: M.Mmu, r: int, stacks: seq<nat>, ranges: seq<M.Range>, ghost booted: S.Space)
    requires sects.Length <= 128 ==> B.Bootable(ram, sects[..])
    requires B.IdentityTables(sects[..], p3, p2) && AllowedCalls(0, calls)
    modifies sects
    ensures r == 0 && !mmu.hung ==>
              && (forall f: nat :: f in booted.owner <==> B.FreePage(ram, sects[..], f))
              && |stacks| == Stacks(calls) && (forall j :: 0 <= j < |stacks| ==> stacks[j] == StackAddress(j))
              && ranges == M.Granted(M.HEAP_START, Requests(calls)) && Apart(|stacks|, ranges)
              && EnabledRun(State(booted, 0), AllEvents(M.HEAP_START, calls))
              && State(mmu.space, |stacks|) == Run(State(booted, 0), AllEvents(M.HEAP_START, calls))
              && (S.P4_SPAN + 10 <= Top(|stacks|) ==> Processes.StacksLeft(mmu))
  {
    hide B.Bootable, B.FreePage, B.IdentityTables, T.Represents, T.IdentityMap, T.Small, X.Permutation;
    hide AllowedCalls, EnabledRun, Run, AllEvents, CallsReach, Apart;
    mmu, r := B.Boot(contents, ram, sects, p3, p2);
    booted, stacks, ranges := mmu.space, [], [];
    if r == 0 && !mmu.hung {
      stacks, ranges := Execute(mmu, calls);
    }
  }
}
