/** The procedure store in memory: the slots hold handles of string buffers, and running
    procedures hold buffers of their own (src/store/proc_store_dynamic.c, and the root
    procedure of proc_runtime_run in src/runtime/proc_runtime_POSIX.c).
 */
module Stores {
  import opened ProcTypes
  import opened Codec
  import opened Memory
  import opened Holders
  import opened Requests
  import Threads

  function Texts(heap: Heap, hs: seq<HeapProc>): seq<Proc> {
    seq(|hs|, k requires 0 <= k < |hs| => TextProc(heap, hs[k]))
  }

  /** Heaps that agree on every buffer of every holder show the same texts. */
  lemma TextsStay(before: Heap, after: Heap, hs: seq<HeapProc>)
    requires HolderBag(hs) <= Handles(before) && Extends(before, after)
    ensures forall k :: 0 <= k < |hs| ==> TextProc(after, hs[k]) == TextProc(before, hs[k])
  {
    hide Bag, TextProc, Handles, Extends, HolderBag;
    forall k | 0 <= k < |hs|
      ensures TextProc(after, hs[k]) == TextProc(before, hs[k])
    {
      HolderHolds(hs, k);
      LiveAgree(before, after, BagOf(hs[k]));
      SameTexts(before, after, hs[k]);
    }
  }

  /** Releasing the buffers of one holder: the others keep theirs. */
  lemma TextsStayBut(before: Heap, after: Heap, hs: seq<HeapProc>, k: nat)
    requires k < |hs| && HolderBag(hs) <= Handles(before)
    requires Handles(before) == Handles(after) + BagOf(hs[k]) && Extends(after, before)
    ensures forall j :: 0 <= j < |hs| && j != k ==> TextProc(after, hs[j]) == TextProc(before, hs[j])
  {
    forall j | 0 <= j < |hs| && j != k
      ensures TextProc(after, hs[j]) == TextProc(before, hs[j])
    {
      TwoHold(hs, k, j);
      OthersAgree(before, after, BagOf(hs[k]), BagOf(hs[j]));
      SameTexts(before, after, hs[j]);
    }
  }

  const EMPTY: HeapProc := []

  /** An entry of the table of running threads: a detached root and its thread. */
  datatype Entry = Entry(root: HeapProc, thread: Thread)

  function RootsOf(entries: seq<Entry>): seq<HeapProc> {
    seq(|entries|, k requires 0 <= k < |entries| => entries[k].root)
  }

  function EntryThreads(entries: seq<Entry>): seq<Thread> {
    seq(|entries|, k requires 0 <= k < |entries| => entries[k].thread)
  }

  /** What the entries stand for. */
  function JobsOf(heap: Heap, entries: seq<Entry>): seq<Job> {
    seq(|entries|, k requires 0 <= k < |entries| => Job(entries[k].thread, TextProc(heap, entries[k].root)))
  }

  lemma JobThreads(heap: Heap, entries: seq<Entry>)
    ensures ThreadsOf(JobsOf(heap, entries)) == EntryThreads(entries)
  {
  }

  /** Jobs are the same as long as the texts of the roots are. */
  lemma SameJobs(before: Heap, after: Heap, entries: seq<Entry>)
    requires Texts(after, RootsOf(entries)) == Texts(before, RootsOf(entries))
    ensures JobsOf(after, entries) == JobsOf(before, entries)
  {
    hide TextProc;
    forall k | 0 <= k < |entries|
      ensures TextProc(after, entries[k].root) == TextProc(before, entries[k].root)
    {
      assert Texts(after, RootsOf(entries))[k] == Texts(before, RootsOf(entries))[k];
    }
  }

  lemma EmptyHoldsNothing()
    ensures BagOf(EMPTY) == multiset{}
  {
  }

  class ProcStore {
    const slots: array<HeapProc>
    const memory: Allocator

    /** The table of running threads. */
    var running: seq<Entry>

    function Holders(): seq<HeapProc>
      reads this, slots
    {
      slots[..] + RootsOf(running)
    }

    /** The live buffers are those of the slots and the running roots, each held once,
        and those of `loose`, a procedure on its way in or out. */
    ghost predicate Owned(loose: multiset<Ptr>)
      reads this, slots, memory
      ensures Owned(loose) ==> slots.Length == MAX_PROC_SLOT + 1
    {
      slots.Length == MAX_PROC_SLOT + 1 && Handles(memory.live) == HolderBag(Holders()) + loose
    }

    ghost function Contents(): Store
      requires slots.Length == MAX_PROC_SLOT + 1
      reads this, slots, memory
    {
      Texts(memory.live, slots[..])
    }

    ghost function Jobs(): seq<Job>
      reads this, memory
    {
      JobsOf(memory.live, running)
    }

    /** The store and the jobs that the memory stands for. */
    ghost function State(): Node
      requires slots.Length == MAX_PROC_SLOT + 1
      reads this, slots, memory
    {
      Node(Contents(), Jobs())
    }

    constructor ()
      ensures Owned(multiset{}) && fresh(slots) && fresh(memory) && running == []
      ensures Contents() == seq(MAX_PROC_SLOT + 1, _ => [])
    {
      slots := new HeapProc[MAX_PROC_SLOT + 1](_ => EMPTY);
      memory := new Allocator();
      running := [];
      new;
      NothingHeld(slots[..]);
      assert Holders() == slots[..];
    }

    /** Empties a slot and releases its buffers; `aside` is a procedure not stored yet. */
    method DeleteProc(slot: byte, ghost aside: HeapProc)
      requires Owned(BagOf(aside))
      modifies memory, slots
      ensures Owned(BagOf(aside))
      ensures Contents() == old(Contents())[slot := []]
      ensures slots[..] == old(slots[..])[slot := EMPTY]
      ensures Jobs() == old(Jobs())
      ensures TextProc(memory.live, aside) == old(TextProc(memory.live, aside))
    {
      ghost var before, was := memory.live, slots[..];
      HolderHolds(Holders(), slot);
      FreeProc(memory, slots[slot]);
      slots[slot] := EMPTY;
      SlotReleased(before, memory.live, was, RootsOf(running), slot, BagOf(aside));
      SameJobs(before, memory.live, running);
      AsideStays(before, memory.live, was + RootsOf(running), slot, aside);
      assert slots[..] == was[slot := EMPTY];
    }

    /** Stores a procedure by taking over its buffers, if the slot is free or may be
        overwritten. Otherwise nothing changes and the caller keeps the procedure. */
    method SetProc(proc: HeapProc, slot: byte, overwrite: bool) returns (ret: int)
      requires Owned(BagOf(proc))
      modifies memory, slots
      ensures ret == if old(Contents())[slot] == [] || overwrite then slot else -1
      ensures ret >= 0 ==> Owned(multiset{}) && Contents() == old(Contents())[slot := old(TextProc(memory.live, proc))]
      ensures ret < 0 ==> Owned(BagOf(proc)) && Contents() == old(Contents())
      ensures Jobs() == old(Jobs())
    {
      ret := -1;
      if slots[slot] == [] || overwrite {
        DeleteProc(slot, proc);
        ghost var emptied := slots[..];
        slots[slot] := proc;
        SlotTaken(memory.live, emptied, RootsOf(running), slot, proc);
        assert slots[..] == emptied[slot := proc];
        ret := slot;
      }
    }

    /** The occupied slots, closed by -1. */
    method GetProcSlots() returns (found: seq<int>)
      requires slots.Length == MAX_PROC_SLOT + 1
      ensures var occupied := OccupiedBelow(Contents(), MAX_PROC_SLOT + 1);
              |found| == |occupied| + 1 && found[..|occupied|] == occupied && found[|occupied|] == -1
    {
      found := [];
      var i := 0;
      while i < MAX_PROC_SLOT + 1
        invariant 0 <= i <= MAX_PROC_SLOT + 1
        invariant found == OccupiedBelow(Contents(), i)
      {
        if |slots[i]| > 0 {
          found := found + [i];
        }
        i := i + 1;
      }
      found := found + [-1];
    }

    /** A deep copy of the procedure in a slot, with buffers of its own. */
    method Detach(slot: byte) returns (root: HeapProc)
      requires Owned(multiset{}) && AllKnown(Contents()[slot])
      modifies memory
      ensures Owned(BagOf(root))
      ensures TextProc(memory.live, root) == old(Contents()[slot])
      ensures Contents() == old(Contents()) && Jobs() == old(Jobs())
    {
      hide Bag, HolderBag, TextProc, Handles, Extends, AllKnown;
      ghost var was := memory.live;
      HolderHolds(Holders(), slot);
      KnownTexts(was, slots[slot]);
      var code;
      code, root := DeepcopyProc(memory, slots[slot]);
      AllStay(was, memory.live, slots[..], RootsOf(running));
      SameJobs(was, memory.live, running);
    }

    /** Takes a procedure from a packet, with buffers of its own. */
    method Receive(data: array<byte>) returns (ret: int, proc: HeapProc)
      requires Owned(multiset{}) && !Decode(data[..]).Overrun?
      modifies memory
      ensures Owned(BagOf(proc))
      ensures ret == if Decode(data[..]).Got? then 0 else -1
      ensures ret == 0 ==> TextProc(memory.live, proc) == Decode(data[..]).value
      ensures ret != 0 ==> UnknownAt(data[..], |proc|)
      ensures Contents() == old(Contents()) && Jobs() == old(Jobs())
    {
      hide Bag, HolderBag, TextProc, Handles, Extends, Decode, UnknownAt, ReadUpTo;
      ghost var was := memory.live;
      ret, proc := UnpackProc(memory, data);
      AllStay(was, memory.live, slots[..], RootsOf(running));
      SameJobs(was, memory.live, running);
    }

    /** Releases a procedure that is not stored. */
    method Discard(aside: HeapProc)
      requires Owned(BagOf(aside))
      modifies memory
      ensures Owned(multiset{})
      ensures Contents() == old(Contents()) && Jobs() == old(Jobs())
    {
      ghost var was := memory.live;
      FreeProc(memory, aside);
      AsideReleased(was, memory.live, slots[..], RootsOf(running), aside);
      SameJobs(was, memory.live, running);
    }

    /** Starts the procedure in a slot: the root that runs is a detached copy. `created`
        tells the thread, if it could be created; if not, the copy is released again. */
    method ProcRuntimeRun(slot: byte, created: Option<Thread>) returns (ret: int)
      requires Owned(multiset{}) && AllKnown(Contents()[slot])
      modifies this, memory
      ensures Owned(multiset{})
      ensures var (n, response) := Apply(old(State()), Run(slot), created);
              State() == n && ret == if response == Accepted then 0 else -1
    {
      hide TextProc, Texts, JobsOf, BagOf, AllKnown, Owned, OccupiedBelow;
      LengthsAgree(memory.live, slots[..], slot, running);
      if |running| >= MAX_PROC_CONCURRENT {
        return -1;
      }
      if |slots[slot]| == 0 {
        return -1;
      }
      var root := Detach(slot);
      if created == None {
        Discard(root);
        return -1;
      }
      AddEntry(root, created.value);
      return 0;
    }

    method AddEntry(root: HeapProc, thread: Thread)
      requires Owned(BagOf(root))
      modifies this
      ensures Owned(multiset{}) && Contents() == old(Contents())
      ensures Jobs() == old(Jobs()) + [Job(thread, TextProc(memory.live, root))]
      ensures running == old(running) + [Entry(root, thread)]
    {
      hide TextProc, Bag, HolderBag, Handles;
      RootAdded(memory.live, slots[..], RootsOf(running), root);
      assert RootsOf(running + [Entry(root, thread)]) == RootsOf(running) + [root];
      running := running + [Entry(root, thread)];
    }

    /** A worker ends: it looks for its own entry in the table, puts the last one in its
        place, and releases its root. */
    method Finish(root: HeapProc, thread: Thread)
      requires Owned(multiset{}) && Entry(root, thread) in running && Threads.Distinct(EntryThreads(running))
      modifies this, memory
      ensures Owned(multiset{})
      ensures State() == Next(old(State()), End(thread)) && slots[..] == old(slots[..])
    {
      hide TextProc, Bag, HolderBag, Handles;
      ghost var before, was := memory.live, running;
      var k := FindThread(thread);
      assert k < |running| && running[k] == Entry(root, thread) by {
        OwnEntry(running, root, thread);
      }
      HolderHolds(Holders(), slots.Length + k);
      assert Holders()[slots.Length + k] == root;
      running := running[k := running[|running| - 1]];
      running := running[..|running| - 1];
      FreeProc(memory, root);
      EntryRemoved(before, memory.live, slots[..], was, k);
      JobThreads(before, was);
    }

    method FindThread(thread: Thread) returns (k: nat)
      ensures k == Threads.FirstIndex(EntryThreads(running), thread)
    {
      k := 0;
      while k < |running| && running[k].thread != thread
        invariant k <= |running|
        invariant Threads.FirstIndex(EntryThreads(running), thread, k) == Threads.FirstIndex(EntryThreads(running), thread)
      {
        k := k + 1;
      }
    }
  }

  /** The first entry of a thread is its own. */
  lemma OwnEntry(entries: seq<Entry>, root: HeapProc, thread: Thread)
    requires Entry(root, thread) in entries && Threads.Distinct(EntryThreads(entries))
    ensures var k := Threads.FirstIndex(EntryThreads(entries), thread);
            k < |entries| && entries[k] == Entry(root, thread)
  {
    var k := Threads.FirstIndex(EntryThreads(entries), thread);
    var j :| 0 <= j < |entries| && entries[j] == Entry(root, thread);
    assert EntryThreads(entries)[j] == thread;
    if k < |entries| {
      assert EntryThreads(entries)[k] == thread;
    }
  }

  lemma LengthsAgree(heap: Heap, slots: seq<HeapProc>, slot: nat, entries: seq<Entry>)
    requires slot < |slots|
    ensures |Texts(heap, slots)| == |slots| && |Texts(heap, slots)[slot]| == |slots[slot]|
    ensures |JobsOf(heap, entries)| == |entries|
  {
  }

  lemma RootAdded(heap: Heap, slots: seq<HeapProc>, running: seq<HeapProc>, root: HeapProc)
    requires Handles(heap) == HolderBag(slots + running) + BagOf(root)
    ensures Handles(heap) == HolderBag(slots + (running + [root]))
    ensures Texts(heap, running + [root]) == Texts(heap, running) + [TextProc(heap, root)]
  {
    hide Bag, TextProc, Handles, HolderBag;
    HolderAppend(slots + running, root);
    assert slots + (running + [root]) == (slots + running) + [root];
  }

  lemma KnownTexts(heap: Heap, p: HeapProc)
    ensures AllKnown(TextProc(heap, p)) <==> AllKnown(p)
  {
    var t := TextProc(heap, p);
    if AllKnown(t) {
      forall i | 0 <= i < |p|
        ensures Known(p[i].op)
      {
        assert Known(t[i].op);
      }
    }
  }

  lemma AsideReleased(before: Heap, after: Heap, slots: seq<HeapProc>, running: seq<HeapProc>, aside: HeapProc)
    requires Handles(before) == HolderBag(slots + running) + BagOf(aside)
    requires Handles(before) == Handles(after) + BagOf(aside) && Extends(after, before)
    ensures Handles(after) == HolderBag(slots + running) + multiset{}
    ensures Texts(after, slots) == Texts(before, slots) && Texts(after, running) == Texts(before, running)
  {
    hide Bag, TextProc, Handles, Extends, HolderBag;
    var hs := slots + running;
    Cancel(Handles(after), BagOf(aside), multiset{}, HolderBag(hs));
    forall k | 0 <= k < |hs|
      ensures TextProc(after, hs[k]) == TextProc(before, hs[k])
    {
      HolderHolds(hs, k);
      OthersAgree(before, after, BagOf(aside), BagOf(hs[k]));
      SameTexts(before, after, hs[k]);
    }
    SplitTexts(before, after, slots, running);
  }

  lemma AllStay(before: Heap, after: Heap, slots: seq<HeapProc>, running: seq<HeapProc>)
    requires Handles(before) == HolderBag(slots + running) + multiset{} && Extends(before, after)
    ensures Texts(after, slots) == Texts(before, slots) && Texts(after, running) == Texts(before, running)
  {
    hide Bag, TextProc, Handles, Extends, HolderBag;
    TextsStay(before, after, slots + running);
    SplitTexts(before, after, slots, running);
  }

  lemma SplitTexts(before: Heap, after: Heap, slots: seq<HeapProc>, running: seq<HeapProc>)
    requires forall k :: 0 <= k < |slots + running| ==>
               TextProc(after, (slots + running)[k]) == TextProc(before, (slots + running)[k])
    ensures Texts(after, slots) == Texts(before, slots) && Texts(after, running) == Texts(before, running)
  {
    hide TextProc;
    forall k | 0 <= k < |slots|
      ensures TextProc(after, slots[k]) == TextProc(before, slots[k])
    {
      assert (slots + running)[k] == slots[k];
    }
    forall k | 0 <= k < |running|
      ensures TextProc(after, running[k]) == TextProc(before, running[k])
    {
      assert (slots + running)[|slots| + k] == running[k];
    }
  }

  /** Swap-removal of one root: the texts that stay, and the buffers that are held. */
  lemma RootRemoved(before: Heap, after: Heap, slots: seq<HeapProc>, running: seq<HeapProc>, k: nat)
    requires k < |running| && Handles(before) == HolderBag(slots + running)
    requires Handles(before) == Handles(after) + BagOf(running[k]) && Extends(after, before)
    ensures Handles(after) == HolderBag(slots + Threads.SwapRemove(running, k)) + multiset{}
    ensures Texts(after, slots) == Texts(before, slots)
    ensures Texts(after, Threads.SwapRemove(running, k)) == Threads.SwapRemove(Texts(before, running), k)
  {
    hide Bag, TextProc, Handles, Extends, HolderBag, Threads.SwapRemove;
    var last := running[|running| - 1];
    TextsStayBut(before, after, slots + running, |slots| + k);
    SplitTextsBut(before, after, slots, running, k);
    SwapCount(slots, running, k);
    Uncount(Handles(before), Handles(after), BagOf(running[k]), HolderBag(slots + Threads.SwapRemove(running, k)), BagOf(last));
  }

  lemma SplitTextsBut(before: Heap, after: Heap, slots: seq<HeapProc>, running: seq<HeapProc>, k: nat)
    requires k < |running|
    requires forall j :: 0 <= j < |slots + running| && j != |slots| + k ==>
               TextProc(after, (slots + running)[j]) == TextProc(before, (slots + running)[j])
    ensures Texts(after, slots) == Texts(before, slots)
    ensures Texts(after, Threads.SwapRemove(running, k)) == Threads.SwapRemove(Texts(before, running), k)
  {
    hide TextProc;
    forall j | 0 <= j < |running| && j != k
      ensures TextProc(after, running[j]) == TextProc(before, running[j])
    {
      assert (slots + running)[|slots| + j] == running[j];
    }
    forall j | 0 <= j < |slots|
      ensures TextProc(after, slots[j]) == TextProc(before, slots[j])
    {
      assert (slots + running)[j] == slots[j];
    }
  }

  /** Removing an entry from the table and releasing its root. */
  lemma EntryRemoved(before: Heap, after: Heap, slots: seq<HeapProc>, entries: seq<Entry>, k: nat)
    requires k < |entries| && Handles(before) == HolderBag(slots + RootsOf(entries))
    requires Handles(before) == Handles(after) + BagOf(entries[k].root) && Extends(after, before)
    ensures Handles(after) == HolderBag(slots + RootsOf(Threads.SwapRemove(entries, k))) + multiset{}
    ensures Texts(after, slots) == Texts(before, slots)
    ensures JobsOf(after, Threads.SwapRemove(entries, k)) == Threads.SwapRemove(JobsOf(before, entries), k)
  {
    hide Bag, TextProc, Handles, Extends, HolderBag;
    var rest := Threads.SwapRemove(entries, k);
    RootRemoved(before, after, slots, RootsOf(entries), k);
    assert RootsOf(rest) == Threads.SwapRemove(RootsOf(entries), k);
    forall j | 0 <= j < |rest|
      ensures TextProc(after, rest[j].root) == TextProc(before, rest[j].root)
    {
      assert Texts(after, RootsOf(rest))[j] == Threads.SwapRemove(Texts(before, RootsOf(entries)), k)[j];
    }
  }

  lemma SwapCount(slots: seq<HeapProc>, running: seq<HeapProc>, k: nat)
    requires k < |running|
    ensures var last := running[|running| - 1];
            (HolderBag(slots + Threads.SwapRemove(running, k)) + BagOf(last)) + BagOf(running[k])
            == HolderBag(slots + running) + BagOf(last)
  {
    hide Bag, HolderBag;
    var hs, last, rest := slots + running, running[|running| - 1], Threads.SwapRemove(running, k);
    HolderUpdate(hs, |slots| + k, last);
    HolderAppend(slots + rest, last);
    assert hs[|slots| + k := last] == (slots + rest) + [last];
  }

  lemma Uncount<T>(before: multiset<T>, after: multiset<T>, freed: multiset<T>, rest: multiset<T>, moved: multiset<T>)
    requires before == after + freed && (rest + moved) + freed == before + moved
    ensures after == rest + multiset{}
  {
    forall x
      ensures after[x] == (rest + multiset{})[x]
    {
      assert ((rest + moved) + freed)[x] == (before + moved)[x] && before[x] == after[x] + freed[x];
    }
  }

  lemma AsideStays(before: Heap, after: Heap, hs: seq<HeapProc>, k: nat, aside: HeapProc)
    requires k < |hs| && Handles(before) == HolderBag(hs) + BagOf(aside)
    requires Handles(before) == Handles(after) + BagOf(hs[k]) && Extends(after, before)
    ensures TextProc(after, aside) == TextProc(before, aside)
  {
    HolderHolds(hs, k);
    OthersAgree(before, after, BagOf(hs[k]), BagOf(aside));
    SameTexts(before, after, aside);
  }

  lemma SlotTaken(heap: Heap, slots: seq<HeapProc>, running: seq<HeapProc>, slot: nat, proc: HeapProc)
    requires slot < |slots| && slots[slot] == EMPTY
    requires Handles(heap) == HolderBag(slots + running) + BagOf(proc)
    ensures Handles(heap) == HolderBag(slots[slot := proc] + running)
    ensures Texts(heap, slots[slot := proc]) == Texts(heap, slots)[slot := TextProc(heap, proc)]
  {
    hide Bag, TextProc, Handles, HolderBag;
    var hs := slots + running;
    assert hs[slot := proc] == slots[slot := proc] + running;
    HolderUpdate(hs, slot, proc);
    EmptyHoldsNothing();
    assert HolderBag(hs[slot := proc]) + multiset{} == HolderBag(hs[slot := proc]);
  }

  lemma SlotReleased(before: Heap, after: Heap, slots: seq<HeapProc>, running: seq<HeapProc>, slot: nat,
                     loose: multiset<Ptr>)
    requires slot < |slots| && Handles(before) == HolderBag(slots + running) + loose
    requires Handles(before) == Handles(after) + BagOf(slots[slot]) && Extends(after, before)
    ensures Handles(after) == HolderBag(slots[slot := EMPTY] + running) + loose
    ensures Texts(after, slots[slot := EMPTY]) == Texts(before, slots)[slot := []]
    ensures Texts(after, running) == Texts(before, running)
  {
    hide Bag, TextProc, Handles, HolderBag, Extends;
    var hs := slots + running;
    TextsStayBut(before, after, hs, slot);
    forall k | 0 <= k < |running|
      ensures TextProc(after, running[k]) == TextProc(before, running[k])
    {
      assert hs[|slots| + k] == running[k];
    }
    forall k | 0 <= k < |slots| && k != slot
      ensures TextProc(after, slots[k]) == TextProc(before, slots[k])
    {
      assert hs[k] == slots[k];
    }
    EmptyText(after);
    assert hs[slot := EMPTY] == slots[slot := EMPTY] + running;
    HolderUpdate(hs, slot, EMPTY);
    EmptyHoldsNothing();
    Balance(Handles(before), Handles(after), HolderBag(hs), HolderBag(hs[slot := EMPTY]), BagOf(slots[slot]), loose);
  }

  lemma EmptyText(heap: Heap)
    ensures TextProc(heap, EMPTY) == []
  {
  }

  lemma Balance<T>(before: multiset<T>, after: multiset<T>, held: multiset<T>, rest: multiset<T>, freed: multiset<T>,
                   loose: multiset<T>)
    requires before == held + loose && before == after + freed && rest + freed == held + multiset{}
    ensures after == rest + loose
  {
    forall x
      ensures after[x] == (rest + loose)[x]
    {
      assert before[x] == held[x] + loose[x] && before[x] == after[x] + freed[x];
      assert (rest + freed)[x] == (held + multiset{})[x];
    }
  }

  lemma {:induction false} NothingHeld(hs: seq<HeapProc>)
    requires forall k :: 0 <= k < |hs| ==> hs[k] == EMPTY
    ensures HolderBag(hs) == multiset{}
    decreases |hs|
  {
    if hs != [] {
      NothingHeld(hs[..|hs| - 1]);
      EmptyHoldsNothing();
    }
  }
}
