/** The wire format of a procedure, as functions on byte sequences: what packing writes
    and what unpacking reads (src/proc_pack.c). Enumerations take four bytes and integers
    are little-endian.
 */
module Codec {
  import opened ProcTypes

  // ---------------------------------------------------------------- writing

  /** A procedure starts behind the packet type and the slot. */
  const HEADER: nat := 2

  function Bytes16(x: uint16): seq<byte> {
    [x % 0x100, x / 0x100]
  }

  function Bytes32(x: uint32): (s: seq<byte>)
    ensures |s| == 4
  {
    var y := x / 0x100;
    var z := y / 0x100;
    [x % 0x100, y % 0x100, z % 0x100, z / 0x100]
  }

  function Terminated(s: CString): (t: seq<byte>)
    ensures |t| == |s| + 1
  {
    s + [0]
  }

  predicate Known<S>(op: Op<S>) {
    !op.Unknown?
  }

  predicate AllKnown<S>(p: seq<Instruction<S>>) {
    forall i :: 0 <= i < |p| ==> Known(p[i].op)
  }

  function WriteTriple(a: CString, x: uint32, b: CString): seq<byte> {
    Terminated(a) + (Bytes32(x) + Terminated(b))
  }

  function Payload(op: Op<CString>): seq<byte> {
    match op
    case Block(a, cmp, b) => WriteTriple(a, cmp, b)
    case IfElse(a, cmp, b) => WriteTriple(a, cmp, b)
    case Set(param, text) => Terminated(param) + Terminated(text)
    case Unop(param, unary, result) => WriteTriple(param, unary, result)
    case Binop(a, binary, b, result) => WriteTriple(a, binary, b) + Terminated(result)
    case Call(slot) => [slot]
    case Noop => []
    case Unknown(_) => []
  }

  function EncodeInstruction(instruction: Instruction<CString>): seq<byte> {
    Bytes16(instruction.node) + ([Tag(instruction.op)] + Payload(instruction.op))
  }

  function EncodeUpTo(p: seq<Instruction<CString>>, n: nat): seq<byte>
    requires n <= |p|
  {
    if n == 0 then [] else EncodeUpTo(p, n - 1) + EncodeInstruction(p[n - 1])
  }

  function Encode(p: Proc): seq<byte> {
    [|p|] + EncodeUpTo(p, |p|)
  }

  // ---------------------------------------------------------------- reading

  /** Reading either gets a value and the offset behind it, meets an unknown instruction
      type, or would leave the buffer. */
  datatype Read<+T> = Got(value: T, next: nat) | BadType | Overrun {
    predicate IsFailure() {
      !Got?
    }

    function PropagateFailure<U>(): Read<U>
      requires IsFailure()
    {
      if BadType? then Read<U>.BadType else Read<U>.Overrun
    }

    function Extract(): (T, nat)
      requires Got?
    {
      (value, next)
    }
  }

  /** Where the string that starts at `start` ends. */
  function NulFrom(buf: seq<byte>, start: nat): (k: nat)
    requires start <= |buf|
    ensures start <= k <= |buf|
    ensures forall j :: start <= j < k ==> buf[j] != 0
    ensures k < |buf| ==> buf[k] == 0
    decreases |buf| - start
  {
    if start < |buf| && buf[start] != 0 then NulFrom(buf, start + 1) else start
  }

  function ReadString(buf: seq<byte>, offset: nat): (r: Read<CString>)
    ensures r.Got? ==> r.next == offset + |r.value| + 1 <= |buf|
  {
    if offset > |buf| || NulFrom(buf, offset) == |buf| then Overrun
    else Got(buf[offset..NulFrom(buf, offset)], NulFrom(buf, offset) + 1)
  }

  function ReadByte(buf: seq<byte>, offset: nat): Read<byte> {
    if offset + 1 > |buf| then Overrun else Got(buf[offset], offset + 1)
  }

  function Read16(buf: seq<byte>, offset: nat): Read<uint16> {
    if offset + 2 > |buf| then Overrun
    else
      var x: uint16 := (buf[offset] as int) + 0x100 * (buf[offset + 1] as int);
      Got(x, offset + 2)
  }

  function Join32(b0: byte, b1: byte, b2: byte, b3: byte): uint32 {
    (b0 as int) + 0x100 * (b1 as int) + 0x1_0000 * (b2 as int) + 0x100_0000 * (b3 as int)
  }

  function Read32(buf: seq<byte>, offset: nat): (r: Read<uint32>)
    ensures r.Got? ==> r.next == offset + 4 <= |buf|
  {
    if offset + 4 > |buf| then Overrun
    else Got(Join32(buf[offset], buf[offset + 1], buf[offset + 2], buf[offset + 3]), offset + 4)
  }

  /** A string, an operator and a string: the layout most instructions begin with. */
  function ReadTriple(buf: seq<byte>, offset: nat): (r: Read<(CString, uint32, CString)>)
    ensures r.Got? ==> r.next == offset + |WriteTriple(r.value.0, r.value.1, r.value.2)| <= |buf|
  {
    var (a, o1) :- ReadString(buf, offset);
    var (x, o2) :- Read32(buf, o1);
    var (b, o3) :- ReadString(buf, o2);
    Got((a, x, b), o3)
  }

  function ReadOp(buf: seq<byte>, offset: nat, tag: byte): (r: Read<Op<CString>>)
    ensures r.Got? ==> Tag(r.value) == tag && Known(r.value) && r.next == offset + |Payload(r.value)|
  {
    if tag == 0 then
      var (t, o1) :- ReadTriple(buf, offset);
      Got(Block(t.0, t.1, t.2), o1)
    else if tag == 1 then
      var (t, o1) :- ReadTriple(buf, offset);
      Got(IfElse(t.0, t.1, t.2), o1)
    else if tag == 2 then
      var (param, o1) :- ReadString(buf, offset);
      var (text, o2) :- ReadString(buf, o1);
      Got(Set(param, text), o2)
    else if tag == 3 then
      var (t, o1) :- ReadTriple(buf, offset);
      Got(Unop(t.0, t.1, t.2), o1)
    else if tag == 4 then
      var (t, o1) :- ReadTriple(buf, offset);
      var (result, o2) :- ReadString(buf, o1);
      Got(Binop(t.0, t.1, t.2, result), o2)
    else if tag == 5 then
      var (slot, o1) :- ReadByte(buf, offset);
      Got(Call(slot), o1)
    else if tag == 6 then Got(Noop, offset)
    else BadType
  }

  function ReadInstruction(buf: seq<byte>, offset: nat): (r: Read<Instruction<CString>>)
    ensures r.Got? ==> Known(r.value.op) && r.next == offset + |EncodeInstruction(r.value)|
  {
    var (node, o1) :- Read16(buf, offset);
    var (tag, o2) :- ReadByte(buf, o1);
    var (op, o3) :- ReadOp(buf, o2, tag);
    Got(Instruction(node, op), o3)
  }

  /** The first `n` instructions from an offset on. */
  function ReadUpTo(buf: seq<byte>, offset: nat, n: nat): (r: Read<seq<Instruction<CString>>>)
    ensures r.Got? ==> |r.value| == n
  {
    if n == 0 then Got([], offset)
    else
      var (front, o1) :- ReadUpTo(buf, offset, n - 1);
      ReadLast(buf, front, o1)
  }

  function ReadLast(buf: seq<byte>, front: seq<Instruction<CString>>, offset: nat): (r: Read<seq<Instruction<CString>>>)
    ensures r.Got? ==> |r.value| == |front| + 1
  {
    var (last, o1) :- ReadInstruction(buf, offset);
    Got(front + [last], o1)
  }

  function Decode(buf: seq<byte>): Read<Proc> {
    var (count, o1) :- ReadByte(buf, HEADER);
    ReadUpTo(buf, o1, count)
  }

  /** Reading meets an instruction of unknown type behind `k` others. */
  predicate UnknownAt(buf: seq<byte>, k: nat) {
    && HEADER < |buf| && k < buf[HEADER]
    && var r := ReadUpTo(buf, HEADER + 1, k);
       r.Got? && ReadInstruction(buf, r.next).BadType?
  }

  /** The last instruction, and no other, is of unknown type. */
  predicate UnknownLast(buf: seq<byte>) {
    HEADER < |buf| && buf[HEADER] > 0 && UnknownAt(buf, buf[HEADER] - 1)
  }

  /** A failure stays a failure, of the same kind. */
  lemma {:induction false} FailurePersists(buf: seq<byte>, offset: nat, n: nat, m: nat)
    requires n <= m && !ReadUpTo(buf, offset, n).Got?
    ensures !ReadUpTo(buf, offset, m).Got? && ReadUpTo(buf, offset, m).BadType? == ReadUpTo(buf, offset, n).BadType?
    decreases m
  {
    hide ReadLast;
    if n < m {
      FailurePersists(buf, offset, n, m - 1);
    }
  }

  /** Where the first instruction of unknown type stands, reading ends. */
  lemma UnknownIsFailure(buf: seq<byte>, k: nat)
    requires UnknownAt(buf, k)
    ensures Decode(buf).BadType?
  {
    hide ReadInstruction;
    FailurePersists(buf, HEADER + 1, k + 1, buf[HEADER]);
  }

  /** There is one such place at most. */
  lemma UnknownOnce(buf: seq<byte>, j: nat, k: nat)
    requires UnknownAt(buf, j) && UnknownAt(buf, k)
    ensures j == k
  {
    hide ReadInstruction;
    if j < k {
      FailurePersists(buf, HEADER + 1, j + 1, k);
    } else if k < j {
      FailurePersists(buf, HEADER + 1, k + 1, j);
    }
  }

  // ---------------------------------------------------------------- reading undoes writing

  /** `s` stands in the buffer at an offset, whatever follows it. */
  predicate At(buf: seq<byte>, offset: nat, s: seq<byte>) {
    offset + |s| <= |buf| && buf[offset..offset + |s|] == s
  }

  lemma AtBoth(buf: seq<byte>, offset: nat, s: seq<byte>, t: seq<byte>)
    ensures At(buf, offset, s + t) <==> At(buf, offset, s) && At(buf, offset + |s|, t)
  {
    if offset + |s| + |t| <= |buf| {
      var both := buf[offset..offset + |s| + |t|];
      assert both[..|s|] == buf[offset..offset + |s|];
      assert both[|s|..] == buf[offset + |s|..offset + |s| + |t|];
      assert both == both[..|s|] + both[|s|..];
      assert (s + t)[..|s|] == s && (s + t)[|s|..] == t;
    }
  }

  lemma StringRead(buf: seq<byte>, offset: nat, s: CString)
    ensures ReadString(buf, offset) == Got(s, offset + |Terminated(s)|) <==> At(buf, offset, Terminated(s))
  {
    AtBoth(buf, offset, s, [0]);
    if At(buf, offset, Terminated(s)) {
      assert buf[offset + |s|] == 0;
      assert forall j :: offset <= j < offset + |s| ==> buf[j] == s[j - offset];
    }
  }

  lemma Join32Bytes(x: uint32, b0: byte, b1: byte, b2: byte, b3: byte)
    ensures Join32(b0, b1, b2, b3) == x <==> Bytes32(x) == [b0, b1, b2, b3]
  {
    var z: int := (b2 as int) + 0x100 * (b3 as int);
    var y: int := (b1 as int) + 0x100 * z;
    LowByte(b2, b3);
    LowByte(b1, z);
    LowByte(b0, y);
    assert Join32(b0, b1, b2, b3) == (b0 as int) + 0x100 * y;
  }

  lemma LowByte(low: byte, high: int)
    ensures ((low as int) + 0x100 * high) % 0x100 == low && ((low as int) + 0x100 * high) / 0x100 == high
  {
  }

  lemma WordRead(buf: seq<byte>, offset: nat, x: uint32)
    ensures Read32(buf, offset) == Got(x, offset + |Bytes32(x)|) <==> At(buf, offset, Bytes32(x))
  {
    if offset + 4 <= |buf| {
      Join32Bytes(x, buf[offset], buf[offset + 1], buf[offset + 2], buf[offset + 3]);
      assert buf[offset..offset + 4] == [buf[offset], buf[offset + 1], buf[offset + 2], buf[offset + 3]];
    }
  }

  lemma HalfRead(buf: seq<byte>, offset: nat, x: uint16)
    ensures Read16(buf, offset) == Got(x, offset + |Bytes16(x)|) <==> At(buf, offset, Bytes16(x))
  {
    if offset + 2 <= |buf| {
      assert buf[offset..offset + 2] == [buf[offset], buf[offset + 1]];
    }
  }

  lemma TripleRead(buf: seq<byte>, offset: nat, a: CString, x: uint32, b: CString)
    ensures ReadTriple(buf, offset) == Got((a, x, b), offset + |WriteTriple(a, x, b)|)
       <==> At(buf, offset, WriteTriple(a, x, b))
  {
    hide At, ReadString, Read32, Bytes32, Terminated;
    AtBoth(buf, offset, Terminated(a), Bytes32(x) + Terminated(b));
    AtBoth(buf, offset + |a| + 1, Bytes32(x), Terminated(b));
    StringRead(buf, offset, a);
    WordRead(buf, offset + |a| + 1, x);
    StringRead(buf, offset + |a| + 5, b);
  }

  lemma ByteRead(buf: seq<byte>, offset: nat, b: byte)
    ensures ReadByte(buf, offset) == Got(b, offset + 1) <==> At(buf, offset, [b])
  {
  }

  lemma NothingRead(buf: seq<byte>, offset: nat)
    requires offset <= |buf|
    ensures At(buf, offset, [])
  {
  }

  /** The strings and the operator of an instruction are read exactly where they stand. */
  lemma OpRead(buf: seq<byte>, offset: nat, op: Op<CString>)
    requires offset <= |buf|
    ensures ReadOp(buf, offset, Tag(op)) == Got(op, offset + |Payload(op)|) <==> Known(op) && At(buf, offset, Payload(op))
  {
    hide At, ReadTriple, ReadString, ReadByte, WriteTriple, Terminated;
    match op
    case Block(a, cmp, b) => TripleRead(buf, offset, a, cmp, b);
    case IfElse(a, cmp, b) => TripleRead(buf, offset, a, cmp, b);
    case Set(param, text) =>
      AtBoth(buf, offset, Terminated(param), Terminated(text));
      StringRead(buf, offset, param);
      StringRead(buf, offset + |Terminated(param)|, text);
    case Unop(param, unary, result) => TripleRead(buf, offset, param, unary, result);
    case Binop(a, binary, b, result) =>
      var front := WriteTriple(a, binary, b);
      TripleRead(buf, offset, a, binary, b);
      AtBoth(buf, offset, front, Terminated(result));
      StringRead(buf, offset + |front|, result);
    case Call(slot) => ByteRead(buf, offset, slot);
    case Noop => NothingRead(buf, offset);
    case Unknown(_) =>
  }

  lemma InstructionRead(buf: seq<byte>, offset: nat, instruction: Instruction<CString>)
    ensures ReadInstruction(buf, offset) == Got(instruction, offset + |EncodeInstruction(instruction)|)
       <==> Known(instruction.op) && At(buf, offset, EncodeInstruction(instruction))
  {
    var tag := Tag(instruction.op);
    AtBoth(buf, offset, Bytes16(instruction.node), [tag] + Payload(instruction.op));
    AtBoth(buf, offset + 2, [tag], Payload(instruction.op));
    HalfRead(buf, offset, instruction.node);
    ByteRead(buf, offset + 2, tag);
    if offset + 3 <= |buf| {
      OpRead(buf, offset + 3, instruction.op);
    }
    hide At, Payload, ReadOp, Bytes16;
  }

  predicate Reads(buf: seq<byte>, offset: nat, p: seq<Instruction<CString>>, n: nat)
    requires n <= |p|
  {
    ReadUpTo(buf, offset, n) == Got(p[..n], offset + |EncodeUpTo(p, n)|)
  }

  predicate Stands(buf: seq<byte>, offset: nat, p: seq<Instruction<CString>>, n: nat)
    requires n <= |p|
  {
    AllKnown(p[..n]) && At(buf, offset, EncodeUpTo(p, n))
  }

  lemma ReadsStep(buf: seq<byte>, offset: nat, p: seq<Instruction<CString>>, n: nat)
    requires 0 < n <= |p|
    ensures var o := offset + |EncodeUpTo(p, n - 1)|;
            Reads(buf, offset, p, n) <==>
            && Reads(buf, offset, p, n - 1)
            && ReadInstruction(buf, o) == Got(p[n - 1], o + |EncodeInstruction(p[n - 1])|)
  {
    hide EncodeInstruction, ReadInstruction;
    var r := ReadUpTo(buf, offset, n - 1);
    assert p[..n] == p[..n - 1] + [p[n - 1]];
    if r.Got? && ReadInstruction(buf, r.next).Got? {
      AppendsEqual(r.value, p[..n - 1], ReadInstruction(buf, r.next).value, p[n - 1]);
    }
  }

  lemma StandsStep(buf: seq<byte>, offset: nat, p: seq<Instruction<CString>>, n: nat)
    requires 0 < n <= |p|
    ensures var o := offset + |EncodeUpTo(p, n - 1)|;
            Stands(buf, offset, p, n) <==>
            && Stands(buf, offset, p, n - 1)
            && Known(p[n - 1].op) && At(buf, o, EncodeInstruction(p[n - 1]))
  {
    AtBoth(buf, offset, EncodeUpTo(p, n - 1), EncodeInstruction(p[n - 1]));
    assert p[..n] == p[..n - 1] + [p[n - 1]];
    AllKnownAppend(p[..n - 1], p[n - 1]);
  }

  lemma {:induction false} UpToRead(buf: seq<byte>, offset: nat, p: seq<Instruction<CString>>, n: nat)
    requires n <= |p| && offset <= |buf|
    ensures Reads(buf, offset, p, n) <==> Stands(buf, offset, p, n)
  {
    hide Reads, Stands;
    if n == 0 {
      NoneRead(buf, offset, p);
    } else {
      UpToRead(buf, offset, p, n - 1);
      NextRead(buf, offset, p, n);
    }
  }

  lemma NoneRead(buf: seq<byte>, offset: nat, p: seq<Instruction<CString>>)
    requires offset <= |buf|
    ensures Reads(buf, offset, p, 0) && Stands(buf, offset, p, 0)
  {
    NothingRead(buf, offset);
  }

  lemma NextRead(buf: seq<byte>, offset: nat, p: seq<Instruction<CString>>, n: nat)
    requires 0 < n <= |p|
    requires Reads(buf, offset, p, n - 1) <==> Stands(buf, offset, p, n - 1)
    ensures Reads(buf, offset, p, n) <==> Stands(buf, offset, p, n)
  {
    hide Reads, Stands;
    ReadsStep(buf, offset, p, n);
    StandsStep(buf, offset, p, n);
    InstructionRead(buf, offset + |EncodeUpTo(p, n - 1)|, p[n - 1]);
  }

  lemma AppendsEqual<T>(s: seq<T>, t: seq<T>, x: T, y: T)
    ensures s + [x] == t + [y] <==> s == t && x == y
  {
    if s + [x] == t + [y] {
      assert (s + [x])[..|s|] == s && (t + [y])[..|t|] == t;
      assert (s + [x])[|s|] == x && (t + [y])[|t|] == y;
    }
  }

  lemma AllKnownAppend(p: seq<Instruction<CString>>, last: Instruction<CString>)
    ensures AllKnown(p + [last]) <==> AllKnown(p) && Known(last.op)
  {
    if AllKnown(p + [last]) {
      assert forall i :: 0 <= i < |p| ==> (p + [last])[i] == p[i];
      assert (p + [last])[|p|] == last;
    }
  }

  /** Unpacking is exactly the inverse of packing: it gets `p`, ending right behind the
      bytes of `p`, if and only if the instruction types of `p` are known and the buffer
      holds the bytes of `p` there, whatever comes before and after them. */
  lemma DecodeExact(buf: seq<byte>, p: Proc)
    ensures Decode(buf) == Got(p, HEADER + |Encode(p)|) <==> AllKnown(p) && At(buf, HEADER, Encode(p))
  {
    AtBoth(buf, HEADER, [|p|], EncodeUpTo(p, |p|));
    ByteRead(buf, HEADER, |p|);
    assert p[..|p|] == p;
    if HEADER + 1 <= |buf| {
      UpToRead(buf, HEADER + 1, p, |p|);
    }
  }

  /** What reading has got so far ends where its packed form ends. */
  predicate EndsAsPacked(r: Read<seq<Instruction<CString>>>, offset: nat) {
    r.Got? ==> r.next == offset + |EncodeUpTo(r.value, |r.value|)| && AllKnown(r.value)
  }

  lemma NextExtent(buf: seq<byte>, offset: nat, n: nat)
    requires n > 0 && EndsAsPacked(ReadUpTo(buf, offset, n - 1), offset)
    ensures EndsAsPacked(ReadUpTo(buf, offset, n), offset)
  {
    hide ReadInstruction, EncodeInstruction;
    var front := ReadUpTo(buf, offset, n - 1);
    if front.Got? && ReadInstruction(buf, front.next).Got? {
      EncodePrefix(front.value, front.value + [ReadInstruction(buf, front.next).value], |front.value|);
    }
  }

  lemma NoExtent(buf: seq<byte>, offset: nat)
    ensures EndsAsPacked(ReadUpTo(buf, offset, 0), offset)
  {
  }

  lemma {:induction false} ReadUpToExtent(buf: seq<byte>, offset: nat, n: nat)
    ensures EndsAsPacked(ReadUpTo(buf, offset, n), offset)
  {
    hide ReadUpTo, EndsAsPacked;
    if n == 0 {
      NoExtent(buf, offset);
    } else {
      ReadUpToExtent(buf, offset, n - 1);
      NextExtent(buf, offset, n);
    }
  }

  lemma {:induction false} EncodePrefix(p: seq<Instruction<CString>>, q: seq<Instruction<CString>>, n: nat)
    requires n <= |p| && n <= |q| && p[..n] == q[..n]
    ensures EncodeUpTo(p, n) == EncodeUpTo(q, n)
  {
    if n > 0 {
      assert p[..n][n - 1] == q[..n][n - 1];
      assert p[..n - 1] == p[..n][..n - 1] && q[..n - 1] == q[..n][..n - 1];
      EncodePrefix(p, q, n - 1);
    }
  }

  /** Whatever unpacking accepts is the packed form of its result: the bytes it consumed
      are those that packing writes, no more and no less. */
  lemma DecodedIsEncoded(buf: seq<byte>)
    requires Decode(buf).Got?
    ensures var r := Decode(buf);
            AllKnown(r.value) && r.next == HEADER + |Encode(r.value)| && At(buf, HEADER, Encode(r.value))
  {
    var r := Decode(buf);
    ReadUpToExtent(buf, HEADER + 1, buf[HEADER]);
    DecodeExact(buf, r.value);
  }

  /** Round trip, with any header and any trailing bytes. */
  lemma RoundTrip(p: Proc, header: seq<byte>, trailing: seq<byte>)
    requires AllKnown(p) && |header| == HEADER
    ensures Decode(header + Encode(p) + trailing) == Got(p, HEADER + |Encode(p)|)
  {
    var buf := header + Encode(p) + trailing;
    assert buf[HEADER..HEADER + |Encode(p)|] == Encode(p);
    DecodeExact(buf, p);
  }

  /** Different procedures have different packed forms, and none is the beginning of
      another's. */
  lemma EncodeInjective(p: Proc, q: Proc)
    requires AllKnown(p) && AllKnown(q) && Encode(p) <= Encode(q)
    ensures p == q
  {
    hide Encode, Decode;
    RoundTrip(p, [0, 0], Encode(q)[|Encode(p)|..]);
    RoundTrip(q, [0, 0], []);
    assert [0, 0] + Encode(p) + Encode(q)[|Encode(p)|..] == [0, 0] + Encode(q) + [];
  }
}
