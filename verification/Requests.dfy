/** The procedure server as a map from slots to procedures and a table of jobs, the running
    procedures: what a request does, how requests and responses look in a packet, and what
    holds over any run of requests (src/proc_server.c, src/proc_client.c,
    include/csp_proc/proc_server.h, src/runtime/proc_runtime_POSIX.c).
 */
module Requests {
  import opened ProcTypes
  import opened Codec
  import opened Format
  import Threads

  // The packet types, and the flags in the upper half of the first byte.
  const DEL_REQUEST: byte := 0
  const DEL_RESPONSE: byte := 1
  const PULL_REQUEST: byte := 2
  const PULL_RESPONSE: byte := 3
  const PUSH_REQUEST: byte := 4
  const PUSH_RESPONSE: byte := 5
  const SLOTS_REQUEST: byte := 6
  const SLOTS_RESPONSE: byte := 7
  const RUN_REQUEST: byte := 8
  const RUN_RESPONSE: byte := 9
  const TYPE_MASK: byte := 0x0f
  const FLAG_END: byte := 0x80
  const FLAG_ERROR: byte := 0x40

  type Thread = Threads.Thread

  datatype Request =
    | Delete(slot: byte)
    | Pull(slot: byte)
    | Push(slot: byte, proc: Proc)
    | Slots
    | Run(slot: byte)
    | Garbled  // a push whose last instruction is of unknown type

  datatype Response =
    | Accepted
    | Rejected
    | Stored(proc: Proc)
    | Occupied(slots: seq<byte>)

  /** The occupied slots below `n`, in order. */
  function OccupiedBelow(store: Store, n: nat): (slots: seq<byte>)
    requires n <= MAX_PROC_SLOT + 1
    ensures |slots| <= n
    ensures forall s: byte :: s in slots <==> s < n && store[s] != []
    ensures forall i, j :: 0 <= i < j < |slots| ==> slots[i] < slots[j]
  {
    if n == 0 then []
    else
      var front := OccupiedBelow(store, n - 1);
      assert forall i :: 0 <= i < |front| ==> front[i] in front;
      if store[n - 1] != [] then front + [n - 1] else front
  }

  /** A running procedure: a thread and the root it executes. */
  datatype Job = Job(thread: Thread, proc: Proc)

  datatype Node = Node(store: Store, jobs: seq<Job>)

  function ThreadsOf(jobs: seq<Job>): seq<Thread> {
    seq(|jobs|, k requires 0 <= k < |jobs| => jobs[k].thread)
  }

  /** A push fills only a free slot, and an empty procedure leaves it free. A run copies the
      procedure that is stored, if there is room and `created` says that a thread is. */
  function Apply(n: Node, r: Request, created: Option<Thread>): (Node, Response) {
    match r
    case Delete(slot) => (n.(store := n.store[slot := []]), Accepted)
    case Pull(slot) => (n, if n.store[slot] == [] then Rejected else Stored(n.store[slot]))
    case Push(slot, proc) =>
      if n.store[slot] == [] then (n.(store := n.store[slot := proc]), Accepted) else (n, Rejected)
    case Slots => (n, Occupied(OccupiedBelow(n.store, MAX_PROC_SLOT + 1)))
    case Run(slot) =>
      if |n.jobs| < MAX_PROC_CONCURRENT && n.store[slot] != [] && created.Some? then
        (n.(jobs := n.jobs + [Job(created.value, n.store[slot])]), Accepted)
      else (n, Rejected)
    case Garbled => (n, Rejected)
  }

  /** The jobs without the first one of a thread, if it has one. */
  function JobsWithout(jobs: seq<Job>, t: Thread): seq<Job> {
    var k := Threads.FirstIndex(ThreadsOf(jobs), t);
    if k < |jobs| then Threads.SwapRemove(jobs, k) else jobs
  }

  // ---------------------------------------------------------------- in a packet

  function RequestType(buf: seq<byte>): byte
    requires |buf| > 0
  {
    buf[0] % (TYPE_MASK + 1)
  }

  /** The request a buffer holds, if the server knows it and it can be read. */
  function RequestIn(buf: seq<byte>): Option<Request> {
    if |buf| < HEADER then None
    else if RequestType(buf) == DEL_REQUEST then Some(Delete(buf[1]))
    else if RequestType(buf) == PULL_REQUEST then Some(Pull(buf[1]))
    else if RequestType(buf) == SLOTS_REQUEST then Some(Slots)
    else if RequestType(buf) == RUN_REQUEST then Some(Run(buf[1]))
    else if RequestType(buf) == PUSH_REQUEST && Decode(buf).Got? then Some(Push(buf[1], Decode(buf).value))
    else if RequestType(buf) == PUSH_REQUEST && UnknownLast(buf) then Some(Garbled)
    else None
  }

  /** The packet type of a request. */
  function RequestKind(r: Request): byte {
    match r
    case Delete(_) => DEL_REQUEST
    case Pull(_) => PULL_REQUEST
    case Push(_, _) => PUSH_REQUEST
    case Slots => SLOTS_REQUEST
    case Run(_) => RUN_REQUEST
    case Garbled => PUSH_REQUEST
  }

  /** The type of the response to a request of some type. */
  function ResponseType(request: byte): byte {
    if request == DEL_REQUEST then DEL_RESPONSE
    else if request == PULL_REQUEST then PULL_RESPONSE
    else if request == PUSH_REQUEST then PUSH_RESPONSE
    else if request == SLOTS_REQUEST then SLOTS_RESPONSE
    else RUN_RESPONSE
  }

  /** A packet holds a response. */
  ghost predicate ResponseIn(request: byte, response: Response, buf: seq<byte>, length: nat)
  {
    && 1 <= length <= |buf|
    && match response
       case Accepted => length == 1 && buf[0] as int == ResponseType(request) + FLAG_END
       case Rejected => length == 1 && buf[0] as int == ResponseType(request) + FLAG_END + FLAG_ERROR
       case Stored(proc) =>
         && buf[0] as int == ResponseType(request) + FLAG_END
         && length == HEADER + |Encode(proc)| && At(buf, HEADER, Encode(proc))
       case Occupied(slots) =>
         buf[0] as int == ResponseType(request) + FLAG_END && buf[1..length] == slots
  }

  // ---------------------------------------------------------------- byte by byte

  /** The packets of the protocol: the lower half of the first byte tells the request, and
      the second byte is the slot. A push holds a procedure behind them, or is garbled. */
  ghost predicate Asks(buf: seq<byte>, r: Request) {
    && |buf| >= 2
    && match r
       case Delete(slot) => buf[0] % 16 == 0 && buf[1] == slot
       case Pull(slot) => buf[0] % 16 == 2 && buf[1] == slot
       case Push(slot, proc) => buf[0] % 16 == 4 && buf[1] == slot && IsPacked(buf, proc)
       case Slots => buf[0] % 16 == 6
       case Run(slot) => buf[0] % 16 == 8 && buf[1] == slot
       case Garbled => buf[0] % 16 == 4 && UnknownLast(buf)
  }

  /** A packet as the client fills it, with its length. */
  ghost predicate Sent(buf: seq<byte>, length: nat, r: Request) {
    && |buf| >= 2
    && match r
       case Delete(slot) => buf[0] == 0x80 && buf[1] == slot && length == 2
       case Pull(slot) => buf[0] == 0x82 && buf[1] == slot && length == 2
       case Push(slot, proc) =>
         buf[0] == 0x84 && buf[1] == slot && IsPacked(buf, proc) && length == 3 + SizeUpTo(proc, |proc|)
       case Slots => buf[0] == 0x86 && length == 1
       case Run(slot) => buf[0] == 0x88 && buf[1] == slot && length == 2
       case Garbled => false
  }

  /** A request takes a node from one state to the next, and leaves the answer in the packet.
      A push into an occupied slot, a pull or a run of a free one, a seventeenth job and a
      thread that cannot be created are refused: nothing changes, and the byte says so. */
  ghost predicate Serves(n: Node, r: Request, created: Option<Thread>, n': Node, buf: seq<byte>, length: nat) {
    && 1 <= length <= |buf|
    && match r
       case Delete(slot) =>
         n' == Node(n.store[slot := []], n.jobs) && buf[0] == 0x81 && length == 1
       case Pull(slot) =>
         && n' == n
         && if n.store[slot] == [] then buf[0] == 0xC3 && length == 1
            else
              && buf[0] == 0x83
              && (AllKnown(n.store[slot]) ==>
                    IsPacked(buf, n.store[slot]) && length == 3 + SizeUpTo(n.store[slot], |n.store[slot]|))
       case Push(slot, proc) =>
         && length == 1
         && if n.store[slot] == [] then n' == Node(n.store[slot := proc], n.jobs) && buf[0] == 0x85
            else n' == n && buf[0] == 0xC5
       case Slots =>
         && n' == n && buf[0] == 0x87
         && (forall s: byte :: s in buf[1..length] <==> n.store[s] != [])
         && forall i, j :: 1 <= i < j < length ==> buf[i] < buf[j]
       case Run(slot) =>
         && length == 1
         && if n.store[slot] != [] && |n.jobs| < 16 && created.Some?
            then n' == Node(n.store, n.jobs + [Job(created.value, n.store[slot])]) && buf[0] == 0x89
            else n' == n && buf[0] == 0xC9
       case Garbled => n' == n && buf[0] == 0xC5 && length == 1
  }

  lemma RequestByByte(buf: seq<byte>, r: Request)
    ensures RequestIn(buf) == Some(r) <==> Asks(buf, r)
  {
    hide Decode, IsPacked, UnknownLast;
    if r.Push? {
      PackedIsRead(buf, r.proc);
    }
    NotGarbledAndRead(buf);
  }

  lemma PackedIsRead(buf: seq<byte>, p: Proc)
    ensures IsPacked(buf, p) <==> Decode(buf).Got? && Decode(buf).value == p
  {
    hide Decode, IsPacked;
    FormatIsRead(buf, p, 3 + SizeUpTo(p, |p|));
    if Decode(buf).Got? {
      FormatIsRead(buf, Decode(buf).value, Decode(buf).next);
    }
  }

  lemma NotGarbledAndRead(buf: seq<byte>)
    ensures !(UnknownLast(buf) && Decode(buf).Got?)
  {
    hide Decode, UnknownAt;
    if UnknownLast(buf) {
      UnknownIsFailure(buf, buf[HEADER] - 1);
    }
  }

  lemma AnswerByByte(n: Node, r: Request, created: Option<Thread>, buf: seq<byte>, length: nat)
    requires ResponseIn(RequestKind(r), Apply(n, r, created).1, buf, length)
    ensures Serves(n, r, created, Apply(n, r, created).0, buf, length)
  {
    hide IsPacked, Encode, SizeUpTo, AllKnown, At;
    if r.Pull? && n.store[r.slot] != [] {
      FormatIsWritten(buf, n.store[r.slot]);
    } else if r.Slots? {
      ListByByte(n.store, buf, length);
    }
  }

  lemma ListByByte(store: Store, buf: seq<byte>, length: nat)
    requires 1 <= length <= |buf| && buf[1..length] == OccupiedBelow(store, MAX_PROC_SLOT + 1)
    ensures forall s: byte :: s in buf[1..length] <==> store[s] != []
    ensures forall i, j :: 1 <= i < j < length ==> buf[i] < buf[j]
  {
    var list := buf[1..length];
    assert forall i :: 1 <= i < length ==> buf[i] == list[i - 1];
  }

  /** The client unpacks from the response to a pull exactly the stored procedure. */
  lemma PulledIsStored(proc: Proc, buf: seq<byte>, length: nat)
    requires AllKnown(proc) && ResponseIn(PULL_REQUEST, Stored(proc), buf, length)
    ensures Decode(buf) == Got(proc, length)
  {
    DecodeExact(buf, proc);
  }

  /** The client's packets hold its requests: the procedure behind type, end flag and slot,
      whatever is left in the buffer behind it. */
  lemma PushedIsRequest(proc: Proc, slot: byte, trailing: seq<byte>)
    requires AllKnown(proc)
    ensures RequestIn([PUSH_REQUEST + FLAG_END, slot] + Encode(proc) + trailing) == Some(Push(slot, proc))
  {
    hide Encode, Decode;
    RoundTrip(proc, [PUSH_REQUEST + FLAG_END, slot], trailing);
  }

  // ---------------------------------------------------------------- runs of requests

  /** What happens on a node: a request is served, or a worker ends and cleans up. */
  datatype Event =
    | Serve(request: Request, created: Option<Thread>)
    | End(thread: Thread)

  function Next(n: Node, e: Event): Node {
    match e
    case Serve(r, created) => Apply(n, r, created).0
    case End(t) => n.(jobs := JobsWithout(n.jobs, t))
  }

  function After(n: Node, es: seq<Event>): Node
    decreases |es|
  {
    if es == [] then n else After(Next(n, es[0]), es[1..])
  }

  lemma {:induction false} AfterOneMore(n: Node, es: seq<Event>, e: Event)
    ensures After(n, es + [e]) == Next(After(n, es), e)
    decreases |es|
  {
    if es == [] {
      assert [e][1..] == [] && es + [e] == [e];
    } else {
      assert (es + [e])[1..] == es[1..] + [e];
      AfterOneMore(Next(n, es[0]), es[1..], e);
    }
  }

  /** A slot on its own: what the events of a run for this slot make of its content. */
  function SlotAfter(content: Proc, slot: byte, es: seq<Event>): Proc
    decreases |es|
  {
    if es == [] then content
    else
      var next := match es[0]
        case Serve(Delete(s), _) => if s == slot then [] else content
        case Serve(Push(s, proc), _) => if s == slot && content == [] then proc else content
        case _ => content;
      SlotAfter(next, slot, es[1..])
  }

  /** The store is a map of independent slots: over any run, the content of a slot depends
      on its first content and on the requests for this slot alone. */
  lemma {:induction false} SlotsAreIndependent(n: Node, es: seq<Event>, slot: byte)
    ensures After(n, es).store[slot] == SlotAfter(n.store[slot], slot, es)
    decreases |es|
  {
    if es != [] {
      SlotsAreIndependent(Next(n, es[0]), es[1..], slot);
    }
  }

  predicate Deletes(e: Event, slot: byte) {
    e.Serve? && e.request == Delete(slot)
  }

  /** Once a procedure has been accepted, every pull returns it and every run starts it,
      after any events that do not delete the slot, further pushes included. */
  lemma {:induction false} AcceptedStays(n: Node, es: seq<Event>, slot: byte)
    requires n.store[slot] != [] && forall e :: e in es ==> !Deletes(e, slot)
    ensures After(n, es).store[slot] == n.store[slot]
    ensures Apply(After(n, es), Pull(slot), None).1 == Stored(n.store[slot])
    decreases |es|
  {
    if es != [] {
      assert !Deletes(es[0], slot);
      assert forall e :: e in es[1..] ==> e in es;
      AcceptedStays(Next(n, es[0]), es[1..], slot);
    }
  }

  /** A job keeps its procedure until its worker ends, whatever becomes of the slots and of
      the other jobs. */
  lemma {:induction false} JobStays(n: Node, es: seq<Event>, job: Job)
    requires job in n.jobs && End(job.thread) !in es
    ensures job in After(n, es).jobs
    decreases |es|
  {
    if es != [] {
      if es[0].End? {
        JobKept(n.jobs, es[0].thread, job);
      }
      JobStays(Next(n, es[0]), es[1..], job);
    }
  }

  lemma JobKept(jobs: seq<Job>, t: Thread, job: Job)
    requires job in jobs && job.thread != t
    ensures job in JobsWithout(jobs, t)
  {
    var k := Threads.FirstIndex(ThreadsOf(jobs), t);
    if k < |jobs| {
      assert ThreadsOf(jobs)[k] == t;
      Threads.SwapRemoveKeepsOthers(jobs, k, job);
    }
  }

  /** From the push to the job: a procedure that a push puts into a free slot is what a
      later run of the slot starts, and what its worker keeps until it ends, whatever
      happens before and after the run but for a delete of the slot before it. */
  lemma PushedIsJob(n: Node, slot: byte, p: Proc, before: seq<Event>, t: Thread, after: seq<Event>)
    requires n.store[slot] == [] && p != []
    requires (forall e :: e in before ==> !Deletes(e, slot)) && End(t) !in after
    ensures var ready := After(Next(n, Serve(Push(slot, p), None)), before);
            var started := Apply(ready, Run(slot), Some(t));
            && (started.1 == Accepted <==> |ready.jobs| < 16)
            && (started.1 == Accepted ==> Job(t, p) in After(started.0, after).jobs)
  {
    var pushed := Next(n, Serve(Push(slot, p), None));
    AcceptedStays(pushed, before, slot);
    var ready := After(pushed, before);
    var (started, response) := Apply(ready, Run(slot), Some(t));
    if response == Accepted {
      assert started.jobs[|ready.jobs|] == Job(t, p);
      JobStays(started, after, Job(t, p));
    }
  }

  // ---------------------------------------------------------------- the jobs and the table

  /** A worker cleans up only while it has a job, and identifiers of threads come back only
      when their job is gone. */
  predicate Orderly(n: Node, e: Event) {
    match e
    case Serve(_, created) => created.Some? ==> created.value !in ThreadsOf(n.jobs)
    case End(t) => t in ThreadsOf(n.jobs)
  }

  /** The table of the jobs' threads changes as the table of running threads does under
      mutex: by appending one entry, and by what a scan amounts to. */
  lemma JobTable(n: Node, e: Event)
    requires Orderly(n, e) && Threads.Distinct(ThreadsOf(n.jobs)) && |n.jobs| <= 16
    ensures var table, table' := ThreadsOf(n.jobs), ThreadsOf(Next(n, e).jobs);
            && (e.End? ==> table' == Threads.Without(table, e.thread))
            && (e.Serve? ==> table' == table || (e.request.Run? && e.created.Some? && table' == table + [e.created.value]))
            && Threads.Distinct(table') && |table'| <= 16
  {
    var table := ThreadsOf(n.jobs);
    if e.End? {
      var k := Threads.FirstIndex(table, e.thread);
      Threads.SwapRemoveKeeps(table, k);
      assert ThreadsOf(Threads.SwapRemove(n.jobs, k)) == Threads.SwapRemove(table, k);
    } else if Next(n, e) != n && e.request.Run? {
      assert ThreadsOf(Next(n, e).jobs) == table + [e.created.value];
    }
  }
}
