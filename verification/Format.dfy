/** The packet format of a procedure, as a relation between bytes and procedures that
    neither writes nor reads (src/proc_pack.c, include/csp_proc/proc_types.h): two bytes of
    packet header, one byte for the number of instructions, and the instructions. An
    instruction is its node in two bytes, its type in one, and its strings and operator in
    the order of the structures; strings end with a zero byte, an operator takes four bytes,
    and numbers have their low byte first.
 */
module Format {
  import opened ProcTypes
  import opened Codec

  /** The size of an instruction in a packet. */
  function Size(op: Op<CString>): nat {
    match op
    case Block(a, _, b) => 3 + |a| + 1 + 4 + |b| + 1
    case IfElse(a, _, b) => 3 + |a| + 1 + 4 + |b| + 1
    case Set(param, text) => 3 + |param| + 1 + |text| + 1
    case Unop(param, _, result) => 3 + |param| + 1 + 4 + |result| + 1
    case Binop(a, _, b, result) => 3 + |a| + 1 + 4 + |b| + 1 + |result| + 1
    case Call(_) => 4
    case Noop => 3
    case Unknown(_) => 3
  }

  /** The size of the first `n` instructions. */
  function SizeUpTo(p: seq<Instruction<CString>>, n: nat): nat
    requires n <= |p|
  {
    if n == 0 then 0 else SizeUpTo(p, n - 1) + Size(p[n - 1].op)
  }

  predicate TextAt(buf: seq<byte>, o: nat, s: CString) {
    o + |s| < |buf| && buf[o..o + |s|] == s && buf[o + |s|] == 0
  }

  predicate NumberAt(buf: seq<byte>, o: nat, x: uint32) {
    o + 4 <= |buf| && (buf[o] as int) + 256 * (buf[o + 1] as int) + 65536 * (buf[o + 2] as int) + 16777216 * (buf[o + 3] as int) == x
  }

  /** An instruction stands in a buffer. */
  predicate StandsAt(buf: seq<byte>, o: nat, i: Instruction<CString>) {
    && o + 3 <= |buf| && (buf[o] as int) + 256 * (buf[o + 1] as int) == i.node
    && var type_, s := buf[o + 2], o + 3;
       match i.op
       case Block(a, cmp, b) =>
         type_ == 0 && TextAt(buf, s, a) && NumberAt(buf, s + |a| + 1, cmp) && TextAt(buf, s + |a| + 5, b)
       case IfElse(a, cmp, b) =>
         type_ == 1 && TextAt(buf, s, a) && NumberAt(buf, s + |a| + 1, cmp) && TextAt(buf, s + |a| + 5, b)
       case Set(param, text) =>
         type_ == 2 && TextAt(buf, s, param) && TextAt(buf, s + |param| + 1, text)
       case Unop(param, unary, result) =>
         type_ == 3 && TextAt(buf, s, param) && NumberAt(buf, s + |param| + 1, unary) && TextAt(buf, s + |param| + 5, result)
       case Binop(a, binary, b, result) =>
         type_ == 4 && TextAt(buf, s, a) && NumberAt(buf, s + |a| + 1, binary) && TextAt(buf, s + |a| + 5, b)
         && TextAt(buf, s + |a| + 5 + |b| + 1, result)
       case Call(slot) => type_ == 5 && s < |buf| && buf[s] == slot
       case Noop => type_ == 6
       case Unknown(_) => false
  }

  /** A procedure stands behind the header of a packet. */
  predicate IsPacked(buf: seq<byte>, p: Proc) {
    && 2 < |buf| && buf[2] == |p|
    && forall k :: 0 <= k < |p| ==> StandsAt(buf, 3 + SizeUpTo(p, k), p[k])
  }

  // ---------------------------------------------------------------- what is written

  lemma TextWritten(buf: seq<byte>, o: nat, s: CString)
    ensures TextAt(buf, o, s) <==> At(buf, o, Terminated(s))
  {
    AtBoth(buf, o, s, [0]);
  }

  lemma NumberWritten(buf: seq<byte>, o: nat, x: uint32)
    ensures NumberAt(buf, o, x) <==> At(buf, o, Bytes32(x))
  {
    WordRead(buf, o, x);
  }

  lemma TripleWritten(buf: seq<byte>, o: nat, a: CString, x: uint32, b: CString)
    ensures At(buf, o, WriteTriple(a, x, b)) <==>
              TextAt(buf, o, a) && NumberAt(buf, o + |a| + 1, x) && TextAt(buf, o + |a| + 5, b)
  {
    hide TextAt, NumberAt, At, Terminated, Bytes32;
    AtBoth(buf, o, Terminated(a), Bytes32(x) + Terminated(b));
    AtBoth(buf, o + |a| + 1, Bytes32(x), Terminated(b));
    TextWritten(buf, o, a);
    NumberWritten(buf, o + |a| + 1, x);
    TextWritten(buf, o + |a| + 5, b);
  }

  lemma PayloadWritten(buf: seq<byte>, o: nat, i: Instruction<CString>)
    requires Known(i.op)
    ensures StandsAt(buf, o, i) <==>
              o + 3 <= |buf| && (buf[o] as int) + 256 * (buf[o + 1] as int) == i.node && buf[o + 2] == Tag(i.op) && At(buf, o + 3, Payload(i.op))
    ensures 3 + |Payload(i.op)| == Size(i.op)
  {
    hide TextAt, NumberAt, WriteTriple, Terminated, At;
    var s := o + 3;
    match i.op
    case Block(a, x, b) =>
      TripleWritten(buf, s, a, x, b);
      TripleSize(a, x, b);
    case IfElse(a, x, b) =>
      TripleWritten(buf, s, a, x, b);
      TripleSize(a, x, b);
    case Unop(a, x, b) =>
      TripleWritten(buf, s, a, x, b);
      TripleSize(a, x, b);
    case Binop(a, x, b, c) =>
      TripleWritten(buf, s, a, x, b);
      TripleSize(a, x, b);
      AtBoth(buf, s, WriteTriple(a, x, b), Terminated(c));
      TextWritten(buf, s + |a| + 5 + |b| + 1, c);
    case Set(a, b) =>
      AtBoth(buf, s, Terminated(a), Terminated(b));
      TextWritten(buf, s, a);
      TextWritten(buf, s + |a| + 1, b);
    case Call(slot) =>
      ByteRead(buf, s, slot);
    case Noop =>
      if s <= |buf| {
        NothingRead(buf, s);
      }
  }

  lemma TripleSize(a: CString, x: uint32, b: CString)
    ensures |WriteTriple(a, x, b)| == |a| + 1 + 4 + |b| + 1
  {
  }

  /** Writing an instruction puts it where it should stand, in the size it should have. */
  lemma InstructionWritten(buf: seq<byte>, o: nat, i: Instruction<CString>)
    ensures StandsAt(buf, o, i) <==> Known(i.op) && At(buf, o, EncodeInstruction(i))
    ensures |EncodeInstruction(i)| == Size(i.op)
  {
    hide At, Payload, Bytes16, StandsAt, Size;
    if !Known(i.op) {
      UnknownNowhere(buf, o, i);
      return;
    }
    AtBoth(buf, o, Bytes16(i.node), [Tag(i.op)] + Payload(i.op));
    AtBoth(buf, o + 2, [Tag(i.op)], Payload(i.op));
    HeadWritten(buf, o, i.node, Tag(i.op));
    PayloadWritten(buf, o, i);
  }

  lemma UnknownNowhere(buf: seq<byte>, o: nat, i: Instruction<CString>)
    requires !Known(i.op)
    ensures !StandsAt(buf, o, i) && |EncodeInstruction(i)| == Size(i.op)
  {
  }

  lemma HeadWritten(buf: seq<byte>, o: nat, node: uint16, tag: byte)
    ensures |Bytes16(node)| == 2
    ensures At(buf, o, Bytes16(node)) && At(buf, o + 2, [tag]) <==>
              o + 3 <= |buf| && (buf[o] as int) + 256 * (buf[o + 1] as int) == node && buf[o + 2] == tag
  {
    HalfRead(buf, o, node);
    ByteRead(buf, o + 2, tag);
  }

  /** The first `n` instructions stand behind the header and their number. */
  predicate AllStand(buf: seq<byte>, p: seq<Instruction<CString>>, n: nat)
    requires n <= |p|
  {
    forall k :: 0 <= k < n ==> StandsAt(buf, 3 + SizeUpTo(p, k), p[k])
  }

  predicate AllWritten(buf: seq<byte>, p: seq<Instruction<CString>>, n: nat)
    requires n <= |p|
  {
    AllKnown(p[..n]) && At(buf, 3, EncodeUpTo(p, n))
  }

  lemma {:induction false} UpToWritten(buf: seq<byte>, p: seq<Instruction<CString>>, n: nat)
    requires n <= |p| && 3 <= |buf|
    ensures |EncodeUpTo(p, n)| == SizeUpTo(p, n)
    ensures AllStand(buf, p, n) <==> AllWritten(buf, p, n)
  {
    hide StandsAt, EncodeInstruction, Size, AllStand, AllWritten, At;
    if n > 0 {
      UpToWritten(buf, p, n - 1);
      InstructionWritten(buf, 3 + SizeUpTo(p, n - 1), p[n - 1]);
      NextStands(buf, p, n);
      NextWritten(buf, p, n);
    } else {
      NothingWritten(buf, p);
    }
  }

  lemma NothingWritten(buf: seq<byte>, p: seq<Instruction<CString>>)
    requires 3 <= |buf|
    ensures AllStand(buf, p, 0) && AllWritten(buf, p, 0)
  {
    NothingRead(buf, 3);
  }

  lemma NextStands(buf: seq<byte>, p: seq<Instruction<CString>>, n: nat)
    requires 0 < n <= |p|
    ensures AllStand(buf, p, n) <==> AllStand(buf, p, n - 1) && StandsAt(buf, 3 + SizeUpTo(p, n - 1), p[n - 1])
  {
    hide StandsAt, SizeUpTo;
  }

  lemma NextWritten(buf: seq<byte>, p: seq<Instruction<CString>>, n: nat)
    requires 0 < n <= |p|
    ensures AllWritten(buf, p, n) <==>
              && AllWritten(buf, p, n - 1) && Known(p[n - 1].op)
              && At(buf, 3 + |EncodeUpTo(p, n - 1)|, EncodeInstruction(p[n - 1]))
  {
    hide At, EncodeInstruction, Known, AllKnown;
    AtBoth(buf, 3, EncodeUpTo(p, n - 1), EncodeInstruction(p[n - 1]));
    assert p[..n] == p[..n - 1] + [p[n - 1]];
    AllKnownAppend(p[..n - 1], p[n - 1]);
  }

  /** What packing writes is a procedure in the format, and nothing else is. */
  lemma FormatIsWritten(buf: seq<byte>, p: Proc)
    ensures IsPacked(buf, p) <==> AllKnown(p) && At(buf, HEADER, Encode(p))
    ensures |Encode(p)| == 1 + SizeUpTo(p, |p|)
  {
    hide StandsAt, EncodeUpTo, SizeUpTo, AllKnown, At;
    AtBoth(buf, HEADER, [|p|], EncodeUpTo(p, |p|));
    CountWritten(buf, |p|);
    assert p[..|p|] == p;
    UpToWritten(if 3 <= |buf| then buf else [0, 0, 0], p, |p|);
    if 3 <= |buf| {
      assert IsPacked(buf, p) <==> buf[2] == |p| && AllStand(buf, p, |p|);
    }
  }

  lemma CountWritten(buf: seq<byte>, count: byte)
    ensures At(buf, 2, [count]) <==> 2 < |buf| && buf[2] == count
  {
    ByteRead(buf, 2, count);
  }

  /** Unpacking reads a procedure exactly where one stands in the format, and ends behind
      its last instruction. */
  lemma FormatIsRead(buf: seq<byte>, p: Proc, next: nat)
    ensures Decode(buf) == Got(p, next) <==> IsPacked(buf, p) && next == 3 + SizeUpTo(p, |p|)
  {
    hide IsPacked, Decode, Encode;
    FormatIsWritten(buf, p);
    DecodeExact(buf, p);
    if Decode(buf) == Got(p, next) {
      DecodedIsEncoded(buf);
    }
  }

  /** A push of `set a 1` on node 1 and a test `a > b` on node 0, byte by byte. */
  lemma PacketByByte(buf: seq<byte>)
    requires buf == [0x84, 9, 2, 1, 0, 2, 97, 0, 49, 0, 0, 0, 1, 97, 0, 3, 0, 0, 0, 98, 0]
    ensures Decode(buf) == Got([Instruction(1, Set([97], [49])), Instruction(0, IfElse([97], 3, [98]))], 21)
  {
    hide StandsAt, Decode, IsPacked, SizeUpTo;
    var first: Instruction<CString> := Instruction(1, Set([97], [49]));
    var second: Instruction<CString> := Instruction(0, IfElse([97], 3, [98]));
    SetByByte(buf, first);
    TestByByte(buf, second);
    TwoStand(buf, first, second);
    FormatIsRead(buf, [first, second], 21);
  }

  lemma SetByByte(buf: seq<byte>, i: Instruction<CString>)
    requires |buf| == 21 && buf[3..10] == [1, 0, 2, 97, 0, 49, 0] && i == Instruction(1, Set([97], [49]))
    ensures StandsAt(buf, 3, i) && Size(i.op) == 7
  {
    assert forall k :: 3 <= k < 10 ==> buf[k] == buf[3..10][k - 3];
    assert buf[6..7] == [97] && buf[8..9] == [49];
  }

  lemma TestByByte(buf: seq<byte>, i: Instruction<CString>)
    requires |buf| == 21 && buf[10..21] == [0, 0, 1, 97, 0, 3, 0, 0, 0, 98, 0] && i == Instruction(0, IfElse([97], 3, [98]))
    ensures StandsAt(buf, 10, i) && Size(i.op) == 11
  {
    assert forall k :: 10 <= k < 21 ==> buf[k] == buf[10..21][k - 10];
    assert buf[13..14] == [97] && buf[19..20] == [98];
  }

  lemma TwoStand(buf: seq<byte>, first: Instruction<CString>, second: Instruction<CString>)
    requires 2 < |buf| && buf[2] == 2 && StandsAt(buf, 3, first) && StandsAt(buf, 3 + Size(first.op), second)
    ensures IsPacked(buf, [first, second]) && SizeUpTo([first, second], 2) == Size(first.op) + Size(second.op)
  {
    hide StandsAt, Size;
    var p := [first, second];
    assert SizeUpTo(p, 0) == 0 && SizeUpTo(p, 1) == Size(first.op);
  }
}
