/** String buffers on the heap, and the procedures that own them: duplication, release,
    unpacking and deep copies (src/proc_pack.c, src/platform/proc_memory_POSIX.c).

    A buffer can be released only while it is live, so that verified code releases none
    twice. Who owns what is one equation: the handles of all holders, counted with
    multiplicity, are the live buffers, each once. It rules out shared, dangling and lost
    buffers at the same time.
 */
module Memory {
  import opened ProcTypes
  import opened Codec
  import opened Format

  /** The address of a string buffer. */
  type Ptr = nat

  type Heap = map<Ptr, CString>

  lemma Bound(s: set<Ptr>) returns (b: Ptr)
    ensures forall p :: p in s ==> p < b
  {
    if s == {} {
      b := 0;
    } else {
      var p :| p in s;
      var c := Bound(s - {p});
      b := if p < c then c else p + 1;
      forall q | q in s
        ensures q < b
      {
        assert q == p || q in s - {p};
      }
    }
  }

  /** The live buffers, each once. */
  function Handles(heap: Heap): multiset<Ptr> {
    multiset(heap.Keys)
  }

  lemma Cancel<T>(a: multiset<T>, b: multiset<T>, c: multiset<T>, d: multiset<T>)
    requires a + b == (c + b) + d
    ensures a == c + d
  {
    forall x
      ensures a[x] == (c + d)[x]
    {
      assert (a + b)[x] == ((c + b) + d)[x];
    }
  }

  lemma Remains<T>(all: multiset<T>, left: multiset<T>, a: multiset<T>, b: multiset<T>)
    requires all == left + a && a + b <= all
    ensures b <= left
  {
    forall x
      ensures b[x] <= left[x]
    {
      assert all[x] == left[x] + a[x] && (a + b)[x] <= all[x];
    }
  }

  class Allocator {
    var live: Heap

    constructor ()
      ensures live == map[]
    {
      live := map[];
    }

    /** A new buffer with a copy of the text; addresses of released buffers may come back. */
    method Strdup(s: CString) returns (p: Ptr)
      modifies this
      ensures p !in old(live) && live == old(live)[p := s]
      ensures Handles(live) == Handles(old(live)) + multiset{p}
    {
      ghost var b := Bound(live.Keys);
      assert b !in live;
      p :| p !in live;
      assert Handles(live[p := s]) == Handles(live) + multiset{p} by {
        assert live[p := s].Keys == live.Keys + {p};
      }
      live := live[p := s];
    }

    method Free(p: Ptr)
      requires p in live
      modifies this
      ensures live == old(live) - {p}
      ensures Handles(old(live)) == Handles(live) + multiset{p}
    {
      assert Handles(live) == Handles(live - {p}) + multiset{p} by {
        assert live.Keys == (live - {p}).Keys + {p};
      }
      live := live - {p};
    }
  }

  // ---------------------------------------------------------------- procedures of handles

  type HeapProc = p: seq<Instruction<Ptr>> | |p| <= MAX_INSTRUCTIONS witness []

  /** The buffers an instruction holds, with multiplicity. */
  function Buffers(op: Op<Ptr>): multiset<Ptr> {
    match op
    case Block(a, _, b) => multiset{a, b}
    case IfElse(a, _, b) => multiset{a, b}
    case Set(param, text) => multiset{param, text}
    case Unop(param, _, result) => multiset{param, result}
    case Binop(a, _, b, result) => multiset{a, b, result}
    case Call(_) => multiset{}
    case Noop => multiset{}
    case Unknown(_) => multiset{}
  }

  /** How often the first `n` instructions hold each buffer. */
  function Bag(p: seq<Instruction<Ptr>>, n: nat): multiset<Ptr>
    requires n <= |p|
  {
    if n == 0 then multiset{} else Bag(p, n - 1) + Buffers(p[n - 1].op)
  }

  function Text(heap: Heap, p: Ptr): CString {
    if p in heap then heap[p] else []
  }

  function TextOp(heap: Heap, op: Op<Ptr>): Op<CString> {
    match op
    case Block(a, cmp, b) => Block(Text(heap, a), cmp, Text(heap, b))
    case IfElse(a, cmp, b) => IfElse(Text(heap, a), cmp, Text(heap, b))
    case Set(param, text) => Set(Text(heap, param), Text(heap, text))
    case Unop(param, unary, result) => Unop(Text(heap, param), unary, Text(heap, result))
    case Binop(a, binary, b, result) => Binop(Text(heap, a), binary, Text(heap, b), Text(heap, result))
    case Call(slot) => Call(slot)
    case Noop => Noop
    case Unknown(tag) => Unknown(tag)
  }

  function TextInstruction(heap: Heap, i: Instruction<Ptr>): Instruction<CString> {
    Instruction(i.node, TextOp(heap, i.op))
  }

  /** The procedure that the handles stand for. */
  function TextProc(heap: Heap, p: HeapProc): Proc {
    seq(|p|, i requires 0 <= i < |p| => TextInstruction(heap, p[i]))
  }

  /** Heaps agree on the buffers in `bag`. */
  ghost predicate AgreeOn(before: Heap, after: Heap, bag: multiset<Ptr>) {
    forall p :: p in bag ==> p in before && p in after && after[p] == before[p]
  }

  lemma {:induction false} BagHolds(p: seq<Instruction<Ptr>>, i: nat, n: nat)
    requires i < n <= |p|
    ensures Buffers(p[i].op) <= Bag(p, n)
    decreases n
  {
    hide Buffers;
    if i < n - 1 {
      BagHolds(p, i, n - 1);
    }
  }

  lemma SameText(before: Heap, after: Heap, i: Instruction<Ptr>)
    requires AgreeOn(before, after, Buffers(i.op))
    ensures TextInstruction(after, i) == TextInstruction(before, i)
  {
  }

  /** What happens to other buffers does not change what a procedure stands for. */
  lemma SameTexts(before: Heap, after: Heap, p: HeapProc)
    requires AgreeOn(before, after, Bag(p, |p|))
    ensures TextProc(after, p) == TextProc(before, p)
  {
    forall i | 0 <= i < |p|
      ensures TextInstruction(after, p[i]) == TextInstruction(before, p[i])
    {
      BagHolds(p, i, |p|);
      SameText(before, after, p[i]);
    }
  }

  // ---------------------------------------------------------------- duplicating

  ghost predicate Extends(before: Heap, after: Heap) {
    forall p :: p in before ==> p in after && after[p] == before[p]
  }

  /** A handle stands for the text in its buffer, in the place of the instruction that holds
      it. */
  lemma TextsInPlace(heap: Heap, a: Ptr, b: Ptr, c: Ptr, op: uint32, slot: byte)
    requires a in heap && b in heap && c in heap
    ensures TextOp(heap, Block(a, op, b)) == Block(heap[a], op, heap[b])
    ensures TextOp(heap, IfElse(a, op, b)) == IfElse(heap[a], op, heap[b])
    ensures TextOp(heap, Set(a, b)) == Set(heap[a], heap[b])
    ensures TextOp(heap, Unop(a, op, b)) == Unop(heap[a], op, heap[b])
    ensures TextOp(heap, Binop(a, op, b, c)) == Binop(heap[a], op, heap[b], heap[c])
    ensures TextOp(heap, Call(slot)) == Call(slot) && TextOp(heap, Noop) == Noop
  {
  }

  method DuplicateTwo(memory: Allocator, a: CString, b: CString) returns (p: Ptr, q: Ptr)
    modifies memory
    ensures Extends(old(memory.live), memory.live)
    ensures Handles(memory.live) == Handles(old(memory.live)) + multiset{p, q}
    ensures p in memory.live && q in memory.live
    ensures Text(memory.live, p) == a && Text(memory.live, q) == b
  {
    p := memory.Strdup(a);
    q := memory.Strdup(b);
  }

  method DuplicateThree(memory: Allocator, a: CString, b: CString, c: CString) returns (p: Ptr, q: Ptr, r: Ptr)
    modifies memory
    ensures Extends(old(memory.live), memory.live)
    ensures Handles(memory.live) == Handles(old(memory.live)) + multiset{p, q, r}
    ensures Text(memory.live, p) == a && Text(memory.live, q) == b && Text(memory.live, r) == c
  {
    p, q := DuplicateTwo(memory, a, b);
    r := memory.Strdup(c);
  }

  /** Duplicates the strings of an instruction, in the order of the source. */
  method DuplicateOp(memory: Allocator, op: Op<CString>) returns (copy: Op<Ptr>)
    modifies memory
    ensures Extends(old(memory.live), memory.live)
    ensures Handles(memory.live) == Handles(old(memory.live)) + Buffers(copy)
    ensures TextOp(memory.live, copy) == op
  {
    hide Text, Extends, Handles;
    var p, q, r := 0, 0, 0;
    if op.Block? || op.IfElse? {
      p, q := DuplicateTwo(memory, op.paramA, op.paramB);
      copy := if op.Block? then Block(p, op.cmp, q) else IfElse(p, op.cmp, q);
    } else if op.Set? {
      p, q := DuplicateTwo(memory, op.param, op.text);
      copy := Set(p, q);
    } else if op.Unop? {
      p, q := DuplicateTwo(memory, op.param, op.result);
      copy := Unop(p, op.unary, q);
    } else if op.Binop? {
      p, q, r := DuplicateThree(memory, op.paramA, op.paramB, op.result);
      copy := Binop(p, op.binary, q, r);
    } else {
      ExtendsSelf(memory.live);
      copy := if op.Call? then Call(op.slot) else if op.Noop? then Noop else Unknown(op.tag);
    }
  }

  lemma ExtendsSelf(heap: Heap)
    ensures Extends(heap, heap)
  {
  }

  lemma BagAppend(p: HeapProc, i: Instruction<Ptr>)
    requires |p| < MAX_INSTRUCTIONS
    ensures Bag(p + [i], |p| + 1) == Bag(p, |p|) + Buffers(i.op)
  {
    BagPrefix(p, p + [i], |p|);
  }

  lemma {:induction false} BagPrefix(p: seq<Instruction<Ptr>>, q: seq<Instruction<Ptr>>, n: nat)
    requires n <= |p| <= |q| && forall i :: 0 <= i < n ==> p[i] == q[i]
    ensures Bag(p, n) == Bag(q, n)
  {
    hide Buffers;
    if n > 0 {
      BagPrefix(p, q, n - 1);
    }
  }

  /** The buffers of a procedure are live, each held once. */
  ghost predicate Owns(heap: Heap, p: HeapProc) {
    Bag(p, |p|) <= Handles(heap)
  }

  lemma OwnsAgree(before: Heap, after: Heap, p: HeapProc)
    requires Owns(before, p) && Extends(before, after)
    ensures AgreeOn(before, after, Bag(p, |p|))
  {
    forall q | q in Bag(p, |p|)
      ensures q in before
    {
      assert q in Handles(before);
    }
  }

  /** One round of copying or unpacking: the copy grows by one instruction. */
  method AppendCopy(memory: Allocator, copy: HeapProc, i: Instruction<CString>) returns (longer: HeapProc)
    requires Owns(memory.live, copy) && |copy| < MAX_INSTRUCTIONS
    modifies memory
    ensures Extends(old(memory.live), memory.live) && |longer| == |copy| + 1
    ensures TextProc(memory.live, longer) == TextProc(old(memory.live), copy) + [i]
    ensures Handles(memory.live) + Bag(copy, |copy|) == Handles(old(memory.live)) + Bag(longer, |longer|)
  {
    hide TextOp, Bag, Extends, Owns, AgreeOn, Buffers;
    var op := DuplicateOp(memory, i.op);
    var last := Instruction(i.node, op);
    longer := copy + [last];
    BagAppend(copy, last);
    OwnsAgree(old(memory.live), memory.live, copy);
    SameTexts(old(memory.live), memory.live, copy);
    assert TextProc(memory.live, longer) == TextProc(memory.live, copy) + [TextInstruction(memory.live, last)];
  }

  /** The texts of what a packet holds are duplicated one instruction after the other
      (unpack_proc_from_csp_packet). The result stands for exactly what the packet holds,
      in buffers of its own. On an instruction of unknown type unpacking fails, and leaves
      behind those before it. */
  method UnpackProc(memory: Allocator, data: array<byte>) returns (ret: int, p: HeapProc)
    requires !Decode(data[..]).Overrun?
    modifies memory
    ensures ret == if Decode(data[..]).Got? then 0 else -1
    ensures Extends(old(memory.live), memory.live)
    ensures Handles(memory.live) == Handles(old(memory.live)) + Bag(p, |p|)
    ensures ret == 0 ==> TextProc(memory.live, p) == Decode(data[..]).value && IsPacked(data[..], TextProc(memory.live, p))
    ensures ret != 0 ==> UnknownAt(data[..], |p|) && TextProc(memory.live, p) == ReadUpTo(data[..], HEADER + 1, |p|).value
  {
    hide TextInstruction, Bag, ReadInstruction, Handles, IsPacked, SizeUpTo;
    p := [];
    ghost var buf := data[..];
    ghost var before := Handles(memory.live);
    var count := data[HEADER];
    var offset: nat := HEADER + 1;
    BagOfNothing([]);
    var i := 0;
    while i < count
      invariant 0 <= i <= count && |p| == i && data[..] == buf
      invariant ReadUpTo(buf, HEADER + 1, i) == Got(TextProc(memory.live, p), offset)
      invariant Extends(old(memory.live), memory.live)
      invariant Handles(memory.live) == before + Bag(p, |p|)
    {
      var instruction := ReadInstruction(data[..], offset);
      if !instruction.Got? {
        FailurePersists(buf, HEADER + 1, i + 1, count);
        return -1, p;
      }
      ghost var held := Bag(p, |p|);
      p := AppendCopy(memory, p, instruction.value);
      Cancel(Handles(memory.live), held, before, Bag(p, |p|));
      offset := instruction.next;
      i := i + 1;
    }
    FormatIsRead(buf, TextProc(memory.live, p), Decode(buf).next);
    return 0, p;
  }

  lemma BagOfNothing(p: seq<Instruction<Ptr>>)
    ensures Bag(p, 0) == multiset{}
  {
  }

  /** A deep copy stands for the same procedure and shares no buffer with the original. On
      an instruction of unknown type copying fails, and the copies made so far stay live. */
  method DeepcopyProc(memory: Allocator, original: HeapProc) returns (ret: int, copy: HeapProc)
    requires Owns(memory.live, original)
    modifies memory
    ensures ret == if AllKnown(original) then 0 else -1
    ensures Extends(old(memory.live), memory.live)
    ensures Handles(memory.live) == Handles(old(memory.live)) + Bag(copy, |copy|)
    ensures ret == 0 ==> TextProc(memory.live, copy) == TextProc(old(memory.live), original)
    ensures ret != 0 ==>
              && |copy| < |original| && !Known(original[|copy|].op) && AllKnown(original[..|copy|])
              && TextProc(memory.live, copy) == TextProc(old(memory.live), original)[..|copy|]
  {
    hide TextInstruction, Bag, Handles, Extends;
    copy := [];
    ghost var before := Handles(memory.live);
    BagOfNothing([]);
    ExtendsSelf(memory.live);
    var i := 0;
    while i < |original|
      invariant 0 <= i <= |original| && |copy| == i
      invariant forall j :: 0 <= j < i ==> Known(original[j].op)
      invariant TextProc(memory.live, copy) == TextProc(old(memory.live), original)[..i]
      invariant Extends(old(memory.live), memory.live)
      invariant Handles(memory.live) == before + Bag(copy, |copy|)
    {
      if original[i].op.Unknown? {
        return -1, copy;
      }
      OwnsAgree(old(memory.live), memory.live, original);
      SameTexts(old(memory.live), memory.live, original);
      ghost var held, was := Bag(copy, |copy|), memory.live;
      copy := AppendCopy(memory, copy, TextInstruction(memory.live, original[i]));
      Cancel(Handles(memory.live), held, before, Bag(copy, |copy|));
      ExtendsThrough(old(memory.live), was, memory.live);
      i := i + 1;
    }
    return 0, copy;
  }

  lemma ExtendsThrough(a: Heap, b: Heap, c: Heap)
    requires Extends(a, b) && Extends(b, c)
    ensures Extends(a, c)
  {
  }

  // ---------------------------------------------------------------- releasing

  /** Releases the buffers of an instruction; all of them have to be live and different. */
  method FreeInstruction(memory: Allocator, op: Op<Ptr>)
    requires Buffers(op) <= Handles(memory.live)
    modifies memory
    ensures Handles(old(memory.live)) == Handles(memory.live) + Buffers(op)
    ensures Extends(memory.live, old(memory.live))
  {
    hide Handles, Extends;
    ExtendsSelf(memory.live);
    match op
    case Block(a, _, b) => FreeTwo(memory, a, b);
    case IfElse(a, _, b) => FreeTwo(memory, a, b);
    case Set(param, text) => FreeTwo(memory, param, text);
    case Unop(param, _, result) => FreeTwo(memory, param, result);
    case Binop(a, _, b, result) =>
      FreeThree(memory, a, b, result);
    case Call(_) =>
    case Noop =>
    case Unknown(_) =>
  }

  method FreeTwo(memory: Allocator, p: Ptr, q: Ptr)
    requires multiset{p, q} <= Handles(memory.live)
    modifies memory
    ensures Handles(old(memory.live)) == Handles(memory.live) + multiset{p, q}
    ensures Extends(memory.live, old(memory.live))
  {
    assert p in Handles(memory.live);
    memory.Free(p);
    assert q in Handles(memory.live);
    memory.Free(q);
  }

  method FreeThree(memory: Allocator, p: Ptr, q: Ptr, r: Ptr)
    requires multiset{p, q, r} <= Handles(memory.live)
    modifies memory
    ensures Handles(old(memory.live)) == Handles(memory.live) + multiset{p, q, r}
    ensures Extends(memory.live, old(memory.live))
  {
    ghost var before := Handles(memory.live);
    FreeTwo(memory, p, q);
    Remains(before, Handles(memory.live), multiset{p, q}, multiset{r});
    assert r in multiset{r};
    memory.Free(r);
  }

  /** Releases all buffers of a procedure, and no other. */
  method FreeProc(memory: Allocator, p: HeapProc)
    requires Owns(memory.live, p)
    modifies memory
    ensures Handles(old(memory.live)) == Handles(memory.live) + Bag(p, |p|)
    ensures Extends(memory.live, old(memory.live))
  {
    hide Handles, Buffers, Extends, Bag;
    ghost var before := Handles(memory.live);
    BagOfNothing(p);
    ExtendsSelf(memory.live);
    var i := 0;
    while i < |p|
      invariant 0 <= i <= |p|
      invariant before == Handles(memory.live) + Bag(p, i)
      invariant Extends(memory.live, old(memory.live))
    {
      BagNext(p, i);
      Remains(before, Handles(memory.live), Bag(p, i), Buffers(p[i].op));
      ghost var was := memory.live;
      FreeInstruction(memory, p[i].op);
      ExtendsThrough(memory.live, was, old(memory.live));
      Reassociate(before, Handles(memory.live), Buffers(p[i].op), Bag(p, i));
      i := i + 1;
    }
  }

  lemma BagNext(p: seq<Instruction<Ptr>>, i: nat)
    requires i < |p|
    ensures Bag(p, i + 1) == Bag(p, i) + Buffers(p[i].op)
    ensures Bag(p, i) + Buffers(p[i].op) <= Bag(p, |p|)
  {
    hide Buffers;
    BagGrows(p, i + 1, |p|);
  }

  lemma Reassociate<T>(all: multiset<T>, left: multiset<T>, a: multiset<T>, b: multiset<T>)
    requires all == (left + a) + b
    ensures all == left + (b + a)
  {
  }

  lemma {:induction false} BagGrows(p: seq<Instruction<Ptr>>, n: nat, m: nat)
    requires n <= m <= |p|
    ensures Bag(p, n) <= Bag(p, m)
  {
    hide Buffers;
    if n < m {
      BagGrows(p, n, m - 1);
    }
  }
}
