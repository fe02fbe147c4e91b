/** The server's request handlers, which answer a packet in place, the client's ends of the
    exchange, and runs of requests and ending workers (src/proc_server.c,
    src/proc_client.c).
 */
module Server {
  import opened ProcTypes
  import opened Codec
  import opened Format
  import opened Memory
  import opened Holders
  import opened Pack
  import opened Requests
  import opened Stores
  import Threads

  /** What a slot may hold: nothing, or a procedure that a packet can carry. */
  predicate Carried(capacity: nat, p: Proc) {
    AllKnown(p) && (p != [] ==> HEADER + |Encode(p)| <= capacity)
  }

  /** Between events: no buffer is shared, dangling or lost, every stored procedure fits a
      packet, and every thread has one entry in a table of at most 16. */
  ghost predicate Valid(store: ProcStore, capacity: nat)
    reads store, store.slots, store.memory
    ensures Valid(store, capacity) ==> store.slots.Length == MAX_PROC_SLOT + 1
  {
    && store.Owned(multiset{}) && AllCarried(capacity, store.Contents())
    && TableValid(store.running)
  }

  ghost predicate TableValid(entries: seq<Entry>) {
    Threads.Distinct(EntryThreads(entries)) && |entries| <= 16
  }

  /** Orderly events keep the table valid. */
  lemma TableStaysValid(heap: Heap, entries: seq<Entry>, heap': Heap, entries': seq<Entry>, contents: Store, e: Event)
    requires TableValid(entries) && Orderly(Node(contents, JobsOf(heap, entries)), e)
    requires JobsOf(heap', entries') == Next(Node(contents, JobsOf(heap, entries)), e).jobs
    ensures TableValid(entries')
  {
    hide TextProc, Orderly, Next;
    JobThreads(heap, entries);
    JobThreads(heap', entries');
    assert |JobsOf(heap', entries')| == |entries'|;
    JobTable(Node(contents, JobsOf(heap, entries)), e);
  }

  ghost predicate AllCarried(capacity: nat, contents: Store) {
    forall s: byte :: Carried(capacity, contents[s])
  }

  lemma UpdateCarried(capacity: nat, contents: Store, slot: byte, p: Proc)
    requires AllCarried(capacity, contents) && Carried(capacity, p)
    ensures AllCarried(capacity, contents[slot := p])
  {
  }

  /** Writes a response without content. */
  method Respond(packet: Packet, request: byte, error: bool)
    requires packet.data.Length > 0
    modifies packet, packet.data
    ensures ResponseIn(request, if error then Rejected else Accepted, packet.data[..], packet.length)
  {
    packet.data[0] := ResponseType(request) + FLAG_END + (if error then FLAG_ERROR else 0);
    packet.length := 1;
  }

  method ServeDelRequest(store: ProcStore, packet: Packet)
    requires packet.data.Length >= HEADER && Valid(store, packet.data.Length)
    modifies packet, packet.data, store.memory, store.slots
    ensures Valid(store, packet.data.Length)
    ensures store.State() == Apply(old(store.State()), Delete(old(packet.data[1])), None).0
    ensures ResponseIn(DEL_REQUEST, Accepted, packet.data[..], packet.length)
    ensures packet.data[0] == 0x81 && packet.length == 1
  {
    hide TableValid;
    var slot := packet.data[1];
    EmptyHoldsNothing();
    store.DeleteProc(slot, EMPTY);
    UpdateCarried(packet.data.Length, old(store.Contents()), slot, []);
    Respond(packet, DEL_REQUEST, false);
  }

  /** A pull of an occupied slot always succeeds, as what is stored fits the packet. */
  method ServePullRequest(store: ProcStore, packet: Packet)
    requires packet.data.Length >= HEADER && Valid(store, packet.data.Length)
    modifies packet, packet.data
    ensures ResponseIn(PULL_REQUEST, Apply(store.State(), Pull(old(packet.data[1])), None).1, packet.data[..], packet.length)
  {
    hide TableValid, JobsOf, Encode, ResponseIn;
    var slot := packet.data[1];
    var proc := TextProc(store.memory.live, store.slots[slot]);
    assert proc == store.Contents()[slot];
    if |store.slots[slot]| == 0 {
      Respond(packet, PULL_REQUEST, true);
      return;
    }
    AnswerWith(proc, packet);
  }

  /** Packs a stored procedure into the packet of the request, where it always fits. */
  method AnswerWith(proc: Proc, packet: Packet)
    requires Carried(packet.data.Length, proc) && proc != []
    modifies packet, packet.data
    ensures ResponseIn(PULL_REQUEST, Stored(proc), packet.data[..], packet.length)
  {
    hide Encode, Splice, IsPacked, SizeUpTo;
    ghost var was := packet.data[..];
    var ret := PackProc(proc, packet);
    if ret < 0 {
      assert false;
      return;
    }
    ghost var packed := packet.data[..];
    packet.data[0] := ResponseType(PULL_REQUEST) + FLAG_END;
    SpliceAt(was, HEADER, Encode(proc));
    assert packet.data[HEADER..HEADER + |Encode(proc)|] == packed[HEADER..HEADER + |Encode(proc)|];
  }

  /** A push is accepted exactly when it can be read and its slot is free; a rejected
      procedure is released. */
  method ServePushRequest(store: ProcStore, packet: Packet, ghost r: Request)
    requires packet.data.Length >= HEADER && Valid(store, packet.data.Length)
    requires RequestIn(packet.data[..]) == Some(r) && (r.Push? || r.Garbled?)
    modifies packet, packet.data, store.memory, store.slots
    ensures Valid(store, packet.data.Length)
    ensures var (n, response) := Apply(old(store.State()), r, None);
            store.State() == n && ResponseIn(PUSH_REQUEST, response, packet.data[..], packet.length)
    ensures packet.length == 1
    ensures packet.data[0] == if r.Push? && old(store.Contents())[r.slot] == [] then 0x85 else 0xC5
    ensures r.Push? ==>
              store.Contents() == if old(store.Contents())[r.slot] == [] then old(store.Contents())[r.slot := r.proc]
                                  else old(store.Contents())
  {
    hide RequestIn, Apply, Texts, JobsOf, Serves, ResponseIn;
    ghost var before := store.State();
    var ret := StorePushed(store, packet, r);
    ghost var n := store.State();
    Respond(packet, PUSH_REQUEST, ret < 0);
    assert store.State() == n;
    AnswerByByte(before, r, None, packet.data[..], packet.length);
    PushByByte(before, r, n, packet.data[..], packet.length);
  }

  lemma PushByByte(n: Node, r: Request, n': Node, buf: seq<byte>, length: nat)
    requires Serves(n, r, None, n', buf, length) && (r.Push? || r.Garbled?)
    ensures length == 1 <= |buf| && buf[0] == if r.Push? && n.store[r.slot] == [] then 0x85 else 0xC5
    ensures r.Push? ==> n'.store == if n.store[r.slot] == [] then n.store[r.slot := r.proc] else n.store
  {
  }

  /** Unpacks and stores the procedure of a push, or releases it again. */
  method StorePushed(store: ProcStore, packet: Packet, ghost r: Request) returns (ret: int)
    requires packet.data.Length >= HEADER && Valid(store, packet.data.Length)
    requires RequestIn(packet.data[..]) == Some(r) && (r.Push? || r.Garbled?)
    modifies store.memory, store.slots
    ensures Valid(store, packet.data.Length)
    ensures var (n, response) := Apply(old(store.State()), r, None);
            store.State() == n && response == if ret < 0 then Rejected else Accepted
  {
    hide Decode, Encode, RequestIn, TableValid, UnknownAt, Texts, JobsOf, TextProc, AllCarried, Carried, OccupiedBelow, Apply;
    PushCanBeRead(packet.data[..], r);
    GarbledIsRejected(store.State());
    var slot := packet.data[1];
    var procedure;
    ret, procedure := store.Receive(packet.data);
    if ret < 0 {
      // What is released are the instructions in front of the last one; that one, of
      // unknown type, holds nothing.
      assert |procedure| + 1 == packet.data[HEADER] by {
        UnknownOnce(packet.data[..], |procedure|, packet.data[HEADER] - 1);
      }
      store.Discard(procedure);
      return;
    }
    ret := KeepPushed(store, procedure, slot, packet.data.Length);
  }

  /** Stores an unpacked procedure, or releases it again. */
  method KeepPushed(store: ProcStore, procedure: HeapProc, slot: byte, ghost capacity: nat) returns (ret: int)
    requires store.Owned(BagOf(procedure)) && AllCarried(capacity, store.Contents()) && TableValid(store.running)
    requires Carried(capacity, TextProc(store.memory.live, procedure))
    modifies store.memory, store.slots
    ensures Valid(store, capacity)
    ensures var (n, response) := Apply(old(store.State()), Push(slot, old(TextProc(store.memory.live, procedure))), None);
            store.State() == n && response == if ret < 0 then Rejected else Accepted
  {
    hide TableValid, Texts, JobsOf, TextProc, AllCarried, Carried, OccupiedBelow;
    ghost var before, p := store.Contents(), TextProc(store.memory.live, procedure);
    ret := store.SetProc(procedure, slot, false);
    if ret < 0 {
      store.Discard(procedure);
    } else {
      UpdateCarried(capacity, before, slot, p);
    }
  }

  lemma GarbledIsRejected(n: Node)
    ensures Apply(n, Garbled, None) == (n, Rejected)
  {
  }

  lemma PushCanBeRead(buf: seq<byte>, r: Request)
    requires RequestIn(buf) == Some(r) && (r.Push? || r.Garbled?)
    ensures |buf| >= HEADER && !Decode(buf).Overrun? && (Decode(buf).Got? <==> r.Push?)
    ensures r.Push? ==> Carried(|buf|, r.proc) && r == Push(buf[1], Decode(buf).value)
    ensures r.Garbled? ==> HEADER < |buf| && buf[HEADER] > 0 && UnknownAt(buf, buf[HEADER] - 1)
  {
    hide Decode, Encode, UnknownAt;
    if r.Push? {
      DecodedIsEncoded(buf);
    } else {
      UnknownIsFailure(buf, buf[HEADER] - 1);
    }
  }

  method ServeSlotsRequest(store: ProcStore, packet: Packet)
    requires packet.data.Length >= HEADER && Valid(store, packet.data.Length)
    requires ListFits(store.Contents(), packet.data.Length)
    modifies packet, packet.data
    ensures ResponseIn(SLOTS_REQUEST, Apply(store.State(), Slots, None).1, packet.data[..], packet.length)
  {
    ghost var contents := store.Contents();
    ghost var occupied := OccupiedBelow(contents, MAX_PROC_SLOT + 1);
    var slots := store.GetProcSlots();
    WriteSlots(packet, slots, occupied);
    SlotsAnswered(store.State(), packet.data[..], packet.length);
  }

  /** The list of slots fits a packet behind the type. */
  predicate ListFits(contents: Store, capacity: nat) {
    |OccupiedBelow(contents, MAX_PROC_SLOT + 1)| < capacity
  }

  lemma SlotsAnswered(n: Node, buf: seq<byte>, length: nat)
    requires 1 <= length <= |buf| && buf[0] as int == ResponseType(SLOTS_REQUEST) + FLAG_END
    requires buf[1..length] == OccupiedBelow(n.store, MAX_PROC_SLOT + 1)
    ensures ResponseIn(SLOTS_REQUEST, Apply(n, Slots, None).1, buf, length)
  {
  }

  /** Writes the slots up to the closing -1 behind the packet type. */
  method WriteSlots(packet: Packet, slots: seq<int>, ghost occupied: seq<byte>)
    requires |slots| == |occupied| + 1 && slots[..|occupied|] == occupied && slots[|occupied|] == -1
    requires |occupied| < packet.data.Length
    modifies packet, packet.data
    ensures 1 <= packet.length <= packet.data.Length
    ensures packet.data[0] as int == ResponseType(SLOTS_REQUEST) + FLAG_END
    ensures packet.data[1..packet.length] == occupied
  {
    assert forall k :: 0 <= k < |occupied| ==> slots[k] == slots[..|occupied|][k];
    packet.data[0] := ResponseType(SLOTS_REQUEST) + FLAG_END;
    packet.length := 1;
    var i := 0;
    while slots[i] != -1
      invariant 0 <= i <= |occupied| && packet.length == i + 1
      invariant packet.data[0] as int == ResponseType(SLOTS_REQUEST) + FLAG_END
      invariant forall k :: 0 <= k < i ==> packet.data[k + 1] == occupied[k]
      decreases |slots| - i
    {
      packet.data[i + 1] := slots[i];
      packet.length := packet.length + 1;
      i := i + 1;
    }
  }

  method ServeRunRequest(store: ProcStore, packet: Packet, created: Option<Thread>)
    requires packet.data.Length >= HEADER && Valid(store, packet.data.Length)
    requires Orderly(store.State(), Serve(Run(packet.data[1]), created))
    modifies packet, packet.data, store, store.memory
    ensures Valid(store, packet.data.Length)
    ensures var (n, response) := Apply(old(store.State()), Run(old(packet.data[1])), created);
            store.State() == n && ResponseIn(RUN_REQUEST, response, packet.data[..], packet.length)
  {
    hide TableValid, Texts, JobsOf, OccupiedBelow, Orderly;
    var slot := packet.data[1];
    ghost var heap, entries, contents := store.memory.live, store.running, store.Contents();
    assert store.State() == Node(contents, JobsOf(heap, entries));
    var ret := store.ProcRuntimeRun(slot, created);
    TableStaysValid(heap, entries, store.memory.live, store.running, contents, Serve(Run(slot), created));
    Respond(packet, RUN_REQUEST, ret != 0);
  }

  /** The dispatcher. Whatever request a packet holds, the memory becomes what stands for
      the state of the node after the request, and the packet holds its response; nothing
      else is answered, or changes anything. */
  method ProcServe(store: ProcStore, packet: Packet, created: Option<Thread>) returns (replied: bool)
    requires packet.data.Length >= HEADER && Valid(store, packet.data.Length)
    requires RequestType(packet.data[..]) == PUSH_REQUEST ==> RequestIn(packet.data[..]).Some?
    requires RequestType(packet.data[..]) == SLOTS_REQUEST ==> ListFits(store.Contents(), packet.data.Length)
    requires RequestType(packet.data[..]) == RUN_REQUEST ==> Orderly(store.State(), Serve(Run(packet.data[1]), created))
    modifies packet, packet.data, store, store.memory, store.slots
    ensures Valid(store, packet.data.Length)
    ensures match old(RequestIn(packet.data[..]))
            case Some(r) =>
              && replied
              && store.State() == Apply(old(store.State()), r, created).0
              && ResponseIn(old(RequestType(packet.data[..])), Apply(old(store.State()), r, created).1, packet.data[..], packet.length)
            case None => !replied && store.State() == old(store.State()) && packet.data[..] == old(packet.data[..])
    ensures forall r :: Asks(old(packet.data[..]), r) ==>
              replied && Serves(old(store.State()), r, created, store.State(), packet.data[..], packet.length)
  {
    ghost var before, buf := store.State(), packet.data[..];
    replied := Dispatch(store, packet, created);
    hide ResponseIn, Apply, Asks, Serves, RequestIn, RequestType, Texts, JobsOf;
    forall r | Asks(buf, r)
      ensures replied && Serves(before, r, created, store.State(), packet.data[..], packet.length)
    {
      RequestByByte(buf, r);
      RequestsKind(buf, r);
      AnswerByByte(before, r, created, packet.data[..], packet.length);
    }
  }

  /** The switch over request types. */
  method Dispatch(store: ProcStore, packet: Packet, created: Option<Thread>) returns (replied: bool)
    requires packet.data.Length >= HEADER && Valid(store, packet.data.Length)
    requires RequestType(packet.data[..]) == PUSH_REQUEST ==> RequestIn(packet.data[..]).Some?
    requires RequestType(packet.data[..]) == SLOTS_REQUEST ==> ListFits(store.Contents(), packet.data.Length)
    requires RequestType(packet.data[..]) == RUN_REQUEST ==> Orderly(store.State(), Serve(Run(packet.data[1]), created))
    modifies packet, packet.data, store, store.memory, store.slots
    ensures Valid(store, packet.data.Length)
    ensures match old(RequestIn(packet.data[..]))
            case Some(r) =>
              && replied
              && store.State() == Apply(old(store.State()), r, created).0
              && ResponseIn(old(RequestType(packet.data[..])), Apply(old(store.State()), r, created).1, packet.data[..], packet.length)
            case None => !replied && store.State() == old(store.State()) && packet.data[..] == old(packet.data[..])
  {
    hide ResponseIn, Decode, OccupiedBelow, Texts, JobsOf, UnknownLast, Orderly, Valid, ListFits;
    var kind := packet.data[0] % (TYPE_MASK + 1);
    if kind == DEL_REQUEST {
      ServeDelRequest(store, packet);
    } else if kind == PULL_REQUEST {
      ServePullRequest(store, packet);
    } else if kind == PUSH_REQUEST {
      ServePushRequest(store, packet, RequestIn(packet.data[..]).value);
    } else if kind == SLOTS_REQUEST {
      ServeSlotsRequest(store, packet);
    } else if kind == RUN_REQUEST {
      ServeRunRequest(store, packet, created);
    } else {
      return false;
    }
    return true;
  }

  // ---------------------------------------------------------------- the client

  /** The client's push. A procedure that fits arrives as it is; for one that does not, the
      failure of packing is ignored and the packet goes out with whatever the buffer held. */
  method ProcPushRequest(p: Proc, slot: byte, packet: Packet)
    requires packet.data.Length >= HEADER
    requires !AllKnown(p) ==> HEADER + 1 + |EncodeUpTo(p, Written(p))| <= packet.data.Length
    modifies packet, packet.data
    ensures AllKnown(p) && HEADER + |Encode(p)| <= packet.data.Length ==>
              RequestIn(packet.data[..]) == Some(Push(slot, p)) && Sent(packet.data[..], packet.length, Push(slot, p))
    ensures packet.data[0] == 0x84 && packet.data[1] == slot
    ensures AllKnown(p) && HEADER + |Encode(p)| > packet.data.Length ==>
              packet.data[HEADER..] == old(packet.data[HEADER..]) && packet.length == old(packet.length)
  {
    hide Encode, RequestIn, Sent, IsPacked, SizeUpTo, Splice;
    ghost var was := packet.data[..];
    var ret := PackProc(p, packet);
    ghost var packed := packet.data[..];
    var first: byte := PUSH_REQUEST + FLAG_END;
    packet.data[0] := first;
    packet.data[1] := slot;
    assert packet.data[..] == [first, slot] + packed[HEADER..];
    if ret == 0 {
      ghost var trailing := PushBytes(was, packed, p);
      assert packet.data[..] == [first, slot] + Encode(p) + trailing;
      PushedIsRequest(p, slot, trailing);
      SentPush(packet.data[..], packet.length, slot, p, trailing);
    }
  }

  lemma PushBytes(was: seq<byte>, packed: seq<byte>, p: Proc) returns (trailing: seq<byte>)
    requires HEADER + |Encode(p)| <= |was| && packed == Splice(was, HEADER, Encode(p))
    ensures packed[HEADER..] == Encode(p) + trailing
  {
    hide Encode;
    trailing := was[HEADER + |Encode(p)|..];
  }

  lemma SentPush(buf: seq<byte>, length: nat, slot: byte, p: Proc, trailing: seq<byte>)
    requires buf == [0x84, slot] + Encode(p) + trailing && AllKnown(p) && length == 2 + |Encode(p)|
    ensures Sent(buf, length, Push(slot, p))
  {
    hide Encode, IsPacked, SizeUpTo, AllKnown;
    assert buf[2..2 + |Encode(p)|] == Encode(p);
    FormatIsWritten(buf, p);
  }

  /** The client's other requests carry a slot, or nothing. */
  method SendShort(r: Request, packet: Packet)
    requires packet.data.Length >= HEADER && !r.Push? && !r.Garbled?
    modifies packet, packet.data
    ensures RequestIn(packet.data[..]) == Some(r) && Sent(packet.data[..], packet.length, r)
  {
    hide Decode, UnknownLast;
    packet.data[0] := RequestKind(r) + FLAG_END;
    packet.length := 1;
    if !r.Slots? {
      packet.data[1] := r.slot;
      packet.length := 2;
    }
  }

  method Send(r: Request, packet: Packet)
    requires packet.data.Length >= HEADER
    requires Sendable(r, packet.data.Length)
    modifies packet, packet.data
    ensures RequestIn(packet.data[..]) == Some(r) && Sent(packet.data[..], packet.length, r)
  {
    if r.Push? {
      ProcPushRequest(r.proc, r.slot, packet);
    } else {
      SendShort(r, packet);
    }
  }

  predicate Sendable(r: Request, capacity: nat) {
    !r.Garbled? && (r.Push? ==> AllKnown(r.proc) && HEADER + |Encode(r.proc)| <= capacity)
  }

  /** A request that the client can send and the server can answer on packets of a size. */
  predicate Fits(n: Node, r: Request, capacity: nat) {
    Sendable(r, capacity) && (r.Slots? ==> ListFits(n.store, capacity))
  }

  /** One request, packed by the client, served, and answered in the same buffer. */
  method Exchange(store: ProcStore, packet: Packet, r: Request, created: Option<Thread>)
    requires packet.data.Length >= HEADER && Valid(store, packet.data.Length)
    requires Fits(store.State(), r, packet.data.Length) && Orderly(store.State(), Serve(r, created))
    modifies packet, packet.data, store, store.memory, store.slots
    ensures Valid(store, packet.data.Length)
    ensures store.State() == Next(old(store.State()), Serve(r, created))
    ensures ResponseIn(RequestKind(r), Apply(old(store.State()), r, created).1, packet.data[..], packet.length)
    ensures Serves(old(store.State()), r, created, store.State(), packet.data[..], packet.length)
  {
    hide Serves, Asks, Sent, ResponseIn, Apply, ListFits, Decode, Encode, Texts, JobsOf, Valid, RequestIn;
    ghost var before := store.State();
    Send(r, packet);
    RequestsKind(packet.data[..], r);
    assert store.State() == before;
    RequestByByte(packet.data[..], r);
    var _ := ProcServe(store, packet, created);
  }

  lemma RequestsKind(buf: seq<byte>, r: Request)
    requires RequestIn(buf) == Some(r)
    ensures |buf| >= HEADER && RequestType(buf) == RequestKind(r) && (r.Run? ==> r == Run(buf[1]))
  {
  }

  /** The reply to the i-th event of a run, if it is a request, is the response the node
      gives there, byte by byte. */
  ghost predicate Answers(before: Node, es: seq<Event>, i: nat, reply: (seq<byte>, nat))
    requires i < |es|
  {
    es[i].Serve? ==>
      && Serves(After(before, es[..i]), es[i].request, es[i].created, After(before, es[..i + 1]), reply.0, reply.1)
      && ResponseIn(RequestKind(es[i].request), Apply(After(before, es[..i]), es[i].request, es[i].created).1, reply.0, reply.1)
  }

  /** A worker ends. */
  method EndWorker(store: ProcStore, t: Thread, ghost capacity: nat)
    requires Valid(store, capacity) && Orderly(store.State(), End(t))
    modifies store, store.memory
    ensures Valid(store, capacity) && store.State() == Next(old(store.State()), End(t))
  {
    hide TableValid, TextProc, OccupiedBelow;
    ghost var heap, entries, contents := store.memory.live, store.running, store.Contents();
    JobThreads(heap, entries);
    var k := store.FindThread(t);
    assert EntryThreads(store.running)[k] == t;
    assert Threads.Distinct(EntryThreads(entries)) by {
      TableIsDistinct(entries);
    }
    store.Finish(store.running[k].root, t);
    TableStaysValid(heap, entries, store.memory.live, store.running, contents, End(t));
  }

  lemma TableIsDistinct(entries: seq<Entry>)
    requires TableValid(entries)
    ensures Threads.Distinct(EntryThreads(entries))
  {
  }

  /** Every event of a run can happen, and every request can be sent and answered. */
  ghost predicate Servable(n: Node, es: seq<Event>, capacity: nat) {
    forall i :: 0 <= i < |es| ==>
      && Orderly(After(n, es[..i]), es[i])
      && (es[i].Serve? ==> Fits(After(n, es[..i]), es[i].request, capacity))
  }

  /** Any run of requests, runs of procedures included, and of workers that end in between:
      the memory goes through the states of the node, every response is the one the node
      gives, and no buffer is shared, released twice or lost on the way. */
  method ServeAll(store: ProcStore, packet: Packet, es: seq<Event>) returns (replies: seq<(seq<byte>, nat)>)
    requires packet.data.Length >= HEADER && Valid(store, packet.data.Length)
    requires Servable(store.State(), es, packet.data.Length)
    modifies packet, packet.data, store, store.memory, store.slots
    ensures Valid(store, packet.data.Length)
    ensures store.State() == After(old(store.State()), es)
    ensures |replies| == |es| && forall i :: 0 <= i < |es| ==> Answers(old(store.State()), es, i, replies[i])
  {
    hide Serves, ResponseIn, Apply, Next, Fits, Orderly, Texts, JobsOf, Valid;
    ghost var before := store.State();
    replies := [];
    while |replies| < |es|
      invariant |replies| <= |es| && Valid(store, packet.data.Length)
      invariant store.State() == After(before, es[..|replies|])
      invariant forall i :: 0 <= i < |replies| ==> Answers(before, es, i, replies[i])
      decreases |es| - |replies|
    {
      var e := es[|replies|];
      match e {
        case Serve(r, created) => Exchange(store, packet, r, created);
        case End(t) => EndWorker(store, t, packet.data.Length);
      }
      var reply := (packet.data[..], packet.length);
      AfterOneMore(before, es[..|replies|], e);
      assert es[..|replies| + 1] == es[..|replies|] + [e];
      assert Answers(before, es, |replies|, reply);
      hide After, Answers;
      replies := replies + [reply];
    }
    assert es[..|es|] == es;
  }

  /** The client's reading of a slot list; the count has eight bits. */
  method ProcessSlotsResponse(packet: Packet) returns (slots: seq<byte>)
    requires 1 <= packet.length <= packet.data.Length
    ensures slots == packet.data[1..1 + (packet.length - 1) % 0x100]
  {
    var count := (packet.length - 1) % 0x100;
    slots := [];
    var i := 0;
    while i < count
      invariant 0 <= i <= count <= packet.length - 1
      invariant slots == packet.data[1..1 + i]
    {
      slots := slots + [packet.data[1 + i]];
      i := i + 1;
    }
  }

  /** The client gets the whole list exactly when not all 256 slots are occupied. */
  lemma SlotListArrives(n: Node, buf: seq<byte>, length: nat)
    requires ResponseIn(SLOTS_REQUEST, Apply(n, Slots, None).1, buf, length)
    ensures buf[1..1 + (length - 1) % 0x100] == OccupiedBelow(n.store, MAX_PROC_SLOT + 1)
       <==> exists s: byte :: n.store[s] == []
  {
    hide Encode;
    var contents := n.store;
    var occupied := OccupiedBelow(contents, MAX_PROC_SLOT + 1);
    assert |occupied| == length - 1;
    if |occupied| == MAX_PROC_SLOT + 1 {
      forall s: byte
        ensures contents[s] != []
      {
        IncreasingIsIdentity(occupied, s);
        assert occupied[s] in occupied;
      }
    } else {
      MissingSlot(contents, MAX_PROC_SLOT + 1);
    }
  }

  lemma {:induction false} IncreasingIsIdentity(slots: seq<byte>, k: nat)
    requires |slots| == MAX_PROC_SLOT + 1 && k < |slots|
    requires forall i, j :: 0 <= i < j < |slots| ==> slots[i] < slots[j]
    ensures slots[k] == k
  {
    AtLeastIndex(slots, k);
    AtMostIndex(slots, k);
  }

  lemma {:induction false} AtLeastIndex(slots: seq<byte>, k: nat)
    requires k < |slots| && forall i, j :: 0 <= i < j < |slots| ==> slots[i] < slots[j]
    ensures slots[k] >= k
  {
    if k > 0 {
      AtLeastIndex(slots, k - 1);
    }
  }

  lemma {:induction false} AtMostIndex(slots: seq<byte>, k: nat)
    requires k < |slots| == MAX_PROC_SLOT + 1 && forall i, j :: 0 <= i < j < |slots| ==> slots[i] < slots[j]
    ensures slots[k] <= k
    decreases |slots| - k
  {
    if k < MAX_PROC_SLOT {
      AtMostIndex(slots, k + 1);
    }
  }

  lemma {:induction false} MissingSlot(contents: Store, n: nat)
    requires n <= MAX_PROC_SLOT + 1 && |OccupiedBelow(contents, n)| < n
    ensures exists s: byte :: contents[s] == []
  {
    if contents[n - 1] != [] {
      MissingSlot(contents, n - 1);
    }
  }
}
