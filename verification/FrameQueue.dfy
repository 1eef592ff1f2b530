/**
  The frame allocator of src/mmu.c: RAM segments that are eaten from the front,
  then a linked list of freed frames whose links are stored inside the frames.
  Both together are one FIFO queue of frames.
 */
module FrameQueue {
  import opened Basics
  import opened PhysicalMemory

  /** A free segment: `len` frames starting at frame `base`. */
  datatype Segment = Segment(base: Frame, len: nat)

  function Frames(base: Frame, len: nat): seq<Frame>
    decreases len
  {
    if len == 0 then [] else [base] + Frames(base + 1, len - 1)
  }

  /** The frames of a segment list in the order the allocator hands them out. */
  function Expand(segs: seq<Segment>): seq<Frame> {
    if segs == [] then [] else Frames(segs[0].base, segs[0].len) + Expand(segs[1..])
  }

  predicate NonEmpty(segs: seq<Segment>) {
    forall i :: 0 <= i < |segs| ==> 0 < segs[i].len
  }

  function Successor(chain: seq<Frame>, i: nat): Frame
    requires i < |chain|
  {
    if i + 1 < |chain| then chain[i + 1] else NULL
  }

  /** Following the links stored in memory from `head` visits exactly `chain` and ends in NULL. */
  ghost predicate Linked(mem: Memory, head: Frame, tail: Frame, chain: seq<Frame>) {
    if chain == [] then head == NULL
    else
      && head == chain[0] && tail == chain[|chain| - 1]
      && forall i :: 0 <= i < |chain| ==> Read(mem, Slot(chain[i], 0)) == Pointer(Successor(chain, i))
  }

  /** The allocator's fields and memory represent the FIFO queue `free`; frames with links in them are in the kernel's reach. */
  ghost predicate Queue(mem: Memory, segs: seq<Segment>, head: Frame, tail: Frame, free: seq<Frame>) {
    var n := |Expand(segs)|;
    && NonEmpty(segs)
    && n <= |free| && free[..n] == Expand(segs)
    && Linked(mem, head, tail, free[n..])
    && (forall i :: n <= i < |free| ==> free[i] < REACH)
    && NoDup(free) && NULL !in free
  }

  /** Writes to frames outside the queue leave the queue alone. */
  lemma {:induction false} QueueFrame(mem: Memory, mem': Memory, segs: seq<Segment>, head: Frame, tail: Frame, free: seq<Frame>)
    requires Queue(mem, segs, head, tail, free)
    requires forall s: Slot :: s.frame in free ==> Read(mem', s) == Read(mem, s)
    ensures Queue(mem', segs, head, tail, free)
  {
    var chain := free[|Expand(segs)|..];
    forall i | 0 <= i < |chain|
      ensures Read(mem', Slot(chain[i], 0)) == Pointer(Successor(chain, i))
    {
      assert Slot(chain[i], 0).frame in free;
    }
  }

  /** What remains of the segment list after the allocator takes the first frame. */
  function Bump(segs: seq<Segment>): seq<Segment>
    requires segs != [] && 0 < segs[0].len
  {
    if segs[0].len == 1 then segs[1..] else [Segment(segs[0].base + 1, segs[0].len - 1)] + segs[1..]
  }

  lemma {:induction false} BumpTakesFirst(segs: seq<Segment>)
    requires segs != [] && NonEmpty(segs)
    ensures NonEmpty(Bump(segs))
    ensures Expand(segs) == [segs[0].base] + Expand(Bump(segs))
  {
    var b, n, rest := segs[0].base, segs[0].len, Expand(segs[1..]);
    assert Frames(b, n) + rest == [b] + (Frames(b + 1, n - 1) + rest);
    if n == 1 {
      assert Frames(b + 1, 0) + rest == rest;
    } else {
      assert Bump(segs)[1..] == segs[1..];
    }
  }

  lemma {:induction false} BumpKeepsQueue(mem: Memory, segs: seq<Segment>, head: Frame, tail: Frame, free: seq<Frame>)
    requires Queue(mem, segs, head, tail, free) && segs != []
    ensures free != [] && free[0] == segs[0].base
    ensures Queue(mem, Bump(segs), head, tail, free[1..])
  {
    BumpTakesFirst(segs);
    var n := |Expand(segs)|;
    assert free[..n][0] == segs[0].base;
    assert free[1..][..n - 1] == free[..n][1..] == Expand(Bump(segs));
    assert free[1..][n - 1..] == free[n..];
  }

  /** Taking the head of the linked list is taking the head of the queue. */
  lemma {:induction false} UnlinkKeepsQueue(mem: Memory, head: Frame, tail: Frame, free: seq<Frame>)
    requires Queue(mem, [], head, tail, free)
    ensures (head == NULL) == (free == [])
    ensures free != [] ==> head == free[0]
    ensures free != [] ==> Queue(mem, [], Read(mem, Slot(head, 0)).address, tail, free[1..])
  {
    assert free[0..] == free;
    if free != [] {
      var chain := free[1..];
      assert chain[0..] == chain;
      assert Read(mem, Slot(free[0], 0)) == Pointer(Successor(free, 0));
      forall i | 0 <= i < |chain|
        ensures Read(mem, Slot(chain[i], 0)) == Pointer(Successor(chain, i))
      {
        assert Read(mem, Slot(free[i + 1], 0)) == Pointer(Successor(free, i + 1));
      }
    }
  }

  /** A list that is not empty has its last frame in the queue, in the kernel's reach. */
  lemma {:induction false} TailQueued(mem: Memory, segs: seq<Segment>, head: Frame, tail: Frame, free: seq<Frame>)
    requires Queue(mem, segs, head, tail, free) && head != NULL
    ensures tail in free && tail < REACH && head in free && head < REACH
  {
    var n := |Expand(segs)|;
    assert free[n..] != [] && tail == free[|free| - 1] && head == free[n];
  }

  /** The first write of `MMU_free_frame`: the old tail, if there is one, links to `f`. */
  function TailLinked(mem: Memory, head: Frame, tail: Frame, f: Frame): Memory {
    if head == NULL then mem else mem[Slot(tail, 0) := Pointer(f)]
  }

  /** The memory after `MMU_free_frame`: `f` links to NULL. */
  function Relink(mem: Memory, head: Frame, tail: Frame, f: Frame): Memory {
    TailLinked(mem, head, tail, f)[Slot(f, 0) := Pointer(NULL)]
  }

  lemma {:induction false} RelinkAppends(mem: Memory, segs: seq<Segment>, head: Frame, tail: Frame, free: seq<Frame>, f: Frame)
    requires Queue(mem, segs, head, tail, free)
    requires f !in free && f != NULL && f < REACH
    ensures Queue(Relink(mem, head, tail, f), segs, if head == NULL then f else head, f, free + [f])
    ensures forall s: Slot :: s.frame !in free && s.frame != f ==> Read(Relink(mem, head, tail, f), s) == Read(mem, s)
  {
    var n := |Expand(segs)|;
    var chain := free[n..];
    var chain' := (free + [f])[n..];
    var mem' := Relink(mem, head, tail, f);
    assert chain' == chain + [f];
    assert (free + [f])[..n] == free[..n];
    assert chain != [] ==> tail in free;
    forall i | 0 <= i < |chain'|
      ensures Read(mem', Slot(chain'[i], 0)) == Pointer(Successor(chain', i))
    {
      if i < |chain| {
        assert Read(mem, Slot(chain[i], 0)) == Pointer(Successor(chain, i));
      }
    }
  }
}
