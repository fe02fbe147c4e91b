/** From the client's packet to the end of the worker: a procedure that is pushed, started
    by a run request, detached, analysed and interpreted (runtime_thread in
    src/runtime/proc_runtime_POSIX.c behind src/proc_server.c).
 */
module Workers {
  import opened ProcTypes
  import opened Analyze
  import opened Codec
  import opened Memory
  import opened Pack
  import opened Requests
  import opened Stores
  import opened Server
  import opened LocalParams
  import Runtime
  import Threads

  /** A worker from its creation to its end: it analyses its root against what the slots
      hold, interprets it, and gives up its entry and its root. After a failed analysis its
      entry stays, and so it does as long as the fuel leaves it running. */
  method Worker<E>(store: ProcStore, root: HeapProc, thread: Thread, f: Foreign<E>, world: World<E>, fuel: nat,
                   ghost capacity: nat)
    returns (started: bool, ended: bool, ret: int, worker: Runtime.Thread<E>)
    requires Valid(store, capacity) && Entry(root, thread) in store.running
    requires Analysable(store.Contents(), TextProc(store.memory.live, root))
    modifies store, store.memory
    ensures Valid(store, capacity) && fresh(worker) && fresh(worker.table)
    ensures var contents, p := old(store.Contents()), old(TextProc(store.memory.live, root));
            && started == !CallsFree(contents, p)
            && (started ==> Runtime.HasRun(f, contents, p, world, fuel, ended, ret, worker.Now(), worker.peak))
    ensures store.State() == if started && ended then Next(old(store.State()), End(thread)) else old(store.State())
  {
    hide TextProc, Runtime.HasRun, NoChainToFree, Next, Valid, JobsOf, Orderly;
    var p := TextProc(store.memory.live, root);
    var contents: Store := Texts(store.memory.live, store.slots[..]);
    started, ended, ret, worker := Runtime.RuntimeThread(f, contents, p, world, fuel);
    if started && ended {
      EntryEnds(store.memory.live, store.running, root, thread, contents);
      EndWorker(store, thread, capacity);
    }
  }

  lemma EntryEnds(heap: Heap, entries: seq<Entry>, root: HeapProc, thread: Thread, contents: Store)
    requires Entry(root, thread) in entries
    ensures Orderly(Node(contents, JobsOf(heap, entries)), End(thread))
  {
    JobThreads(heap, entries);
    var k :| 0 <= k < |entries| && entries[k] == Entry(root, thread);
    assert EntryThreads(entries)[k] == thread;
  }

  /** The job of a thread is the text of its entry. */
  lemma JobOfEntry(heap: Heap, entries: seq<Entry>, k: nat, job: Job)
    requires Threads.Distinct(EntryThreads(entries)) && k < |entries| && entries[k].thread == job.thread
    requires job in JobsOf(heap, entries)
    ensures TextProc(heap, entries[k].root) == job.proc
  {
    var j :| 0 <= j < |entries| && JobsOf(heap, entries)[j] == job;
    assert EntryThreads(entries)[j] == EntryThreads(entries)[k];
  }

  /** What a client asks for that pushes a procedure and has it run. */
  function PushRun(slot: byte, p: Proc, between: seq<Event>, thread: Thread): seq<Event> {
    [Serve(Push(slot, p), None)] + between + [Serve(Run(slot), Some(thread))]
  }

  /** The procedure that a client has pushed and started, other events in between, is the
      one that the worker runs, over what the slots hold by then. */
  method PushAndRun<E>(store: ProcStore, packet: Packet, slot: byte, p: Proc, between: seq<Event>, thread: Thread,
                       f: Foreign<E>, world: World<E>, fuel: nat)
    returns (started: bool, ended: bool, ret: int, worker: Runtime.Thread<E>)
    requires packet.data.Length >= HEADER && Valid(store, packet.data.Length)
    requires Servable(store.State(), PushRun(slot, p, between, thread), packet.data.Length)
    requires store.Contents()[slot] == [] && p != [] && forall e :: e in between ==> !Deletes(e, slot)
    requires |After(store.State(), [Serve(Push(slot, p), None)] + between).jobs| < MAX_PROC_CONCURRENT
    requires Analysable(After(store.State(), PushRun(slot, p, between, thread)).store, p)
    modifies packet, packet.data, store, store.memory, store.slots
    ensures Valid(store, packet.data.Length) && fresh(worker) && fresh(worker.table)
    ensures var n := old(After(store.State(), PushRun(slot, p, between, thread)));
            && started == !CallsFree(n.store, p)
            && (started ==> Runtime.HasRun(f, n.store, p, world, fuel, ended, ret, worker.Now(), worker.peak))
            && store.State() == if started && ended then Next(n, End(thread)) else n
  {
    hide Runtime.HasRun, CallsFree, NoChainToFree, Next, After, AllCarried, TextProc, Servable, Answers, PushRun;
    ghost var before := store.State();
    var _ := ServeAll(store, packet, PushRun(slot, p, between, thread));
    JobIsThere(before, slot, p, between, thread);
    JobThreads(store.memory.live, store.running);
    var k := store.FindThread(thread);
    ghost var j :| 0 <= j < |store.Jobs()| && store.Jobs()[j] == Job(thread, p);
    assert EntryThreads(store.running)[j] == thread;
    assert EntryThreads(store.running)[k] == thread;
    JobOfEntry(store.memory.live, store.running, k, Job(thread, p));
    started, ended, ret, worker := Worker(store, store.running[k].root, thread, f, world, fuel, packet.data.Length);
  }

  lemma JobIsThere(n: Node, slot: byte, p: Proc, between: seq<Event>, thread: Thread)
    requires n.store[slot] == [] && p != [] && forall e :: e in between ==> !Deletes(e, slot)
    requires |After(n, [Serve(Push(slot, p), None)] + between).jobs| < MAX_PROC_CONCURRENT
    ensures Job(thread, p) in After(n, PushRun(slot, p, between, thread)).jobs
  {
    var push, run := Serve(Push(slot, p), None), Serve(Run(slot), Some(thread));
    PushedIsJob(n, slot, p, between, thread, []);
    assert ([push] + between)[1..] == between;
    AfterOneMore(n, [push] + between, run);
  }
}
