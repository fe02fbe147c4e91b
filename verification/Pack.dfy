/** Packing a procedure into a packet buffer in place, and computing its size
    (calc_proc_size and pack_proc_into_csp_packet in src/proc_pack.c).
 */
module Pack {
  import opened ProcTypes
  import opened Codec
  import opened Format

  /** A packet: a buffer of the size the network stack is built with, and how much of it
      is in use. */
  class Packet {
    const data: array<byte>
    var length: nat

    constructor (capacity: nat)
      ensures fresh(data) && data.Length == capacity && length == 0
    {
      data := new byte[capacity](_ => 0);
      length := 0;
    }
  }

  lemma {:induction false} EncodeGrows(p: seq<Instruction<CString>>, n: nat, m: nat)
    requires n <= m <= |p|
    ensures EncodeUpTo(p, n) <= EncodeUpTo(p, m)
  {
    hide EncodeInstruction;
    if n < m {
      EncodeGrows(p, n, m - 1);
    }
  }

  /** What an instruction takes behind its node and type. */
  method PayloadSize(op: Op<CString>) returns (size: int)
    ensures size == if Known(op) then |Payload(op)| else -1
  {
    match op
    case Block(a, _, b) => size := 4 + (|a| + 1) + (|b| + 1);
    case IfElse(a, _, b) => size := 4 + (|a| + 1) + (|b| + 1);
    case Set(param, text) => size := (|param| + 1) + (|text| + 1);
    case Unop(param, _, result) => size := 4 + (|param| + 1) + (|result| + 1);
    case Binop(a, _, b, result) => size := 4 + (|a| + 1) + (|b| + 1) + (|result| + 1);
    case Call(_) => size := 1;
    case Noop => size := 0;
    case Unknown(_) => size := -1;
  }

  /** The size in the packet, or -1 if an instruction type is unknown. */
  method CalcProcSize(p: Proc) returns (total: int)
    ensures total == if AllKnown(p) then |Encode(p)| else -1
    ensures total == if exists i :: 0 <= i < |p| && p[i].op.Unknown? then -1 else 1 + SizeUpTo(p, |p|)
  {
    hide Payload, Size;
    FormatIsWritten([], p);
    total := 1;
    var i := 0;
    while i < |p|
      invariant 0 <= i <= |p| && total == 1 + |EncodeUpTo(p, i)|
      invariant forall j :: 0 <= j < i ==> Known(p[j].op)
    {
      total := total + 2 + 1;
      var size := PayloadSize(p[i].op);
      if size < 0 {
        return -1;
      }
      total := total + size;
      i := i + 1;
    }
  }

  /** `s` with `src` written over it at an offset. */
  function Splice(s: seq<byte>, offset: nat, src: seq<byte>): (t: seq<byte>)
    requires offset + |src| <= |s|
    ensures |t| == |s|
  {
    s[..offset] + src + s[offset + |src|..]
  }

  lemma SpliceBoth(s: seq<byte>, offset: nat, a: seq<byte>, b: seq<byte>)
    requires offset + |a| + |b| <= |s|
    ensures Splice(Splice(s, offset, a), offset + |a|, b) == Splice(s, offset, a + b)
  {
  }

  lemma SpliceAt(s: seq<byte>, offset: nat, src: seq<byte>)
    requires offset + |src| <= |s|
    ensures At(Splice(s, offset, src), offset, src)
  {
  }

  /** Copies bytes into the buffer and moves on behind them. */
  method Memcpy(data: array<byte>, offset: nat, src: seq<byte>) returns (next: nat)
    requires offset + |src| <= data.Length
    modifies data
    ensures next == offset + |src| && data[..] == Splice(old(data[..]), offset, src)
  {
    forall k | 0 <= k < |src| {
      data[offset + k] := src[k];
    }
    next := offset + |src|;
  }

  method PackTriple(a: CString, x: uint32, b: CString, data: array<byte>, offset: nat) returns (next: nat)
    requires offset + |WriteTriple(a, x, b)| <= data.Length
    modifies data
    ensures next == offset + |WriteTriple(a, x, b)| && data[..] == Splice(old(data[..]), offset, WriteTriple(a, x, b))
  {
    hide Splice;
    ghost var was := data[..];
    next := Memcpy(data, offset, Terminated(a));
    next := Memcpy(data, next, Bytes32(x));
    next := Memcpy(data, next, Terminated(b));
    SpliceBoth(was, offset, Terminated(a), Bytes32(x));
    SpliceBoth(was, offset, Terminated(a) + Bytes32(x), Terminated(b));
    assert Terminated(a) + Bytes32(x) + Terminated(b) == WriteTriple(a, x, b);
  }

  /** The switch over instruction types; an unknown type is an error. */
  method PackPayload(op: Op<CString>, data: array<byte>, offset: nat) returns (ok: bool, next: nat)
    requires offset + |Payload(op)| <= data.Length
    modifies data
    ensures ok == Known(op) && next == offset + |Payload(op)|
    ensures data[..] == Splice(old(data[..]), offset, Payload(op))
  {
    hide Splice, WriteTriple, Terminated;
    ghost var was := data[..];
    ok, next := true, offset;
    match op
    case Block(a, cmp, b) =>
      next := PackTriple(a, cmp, b, data, next);
    case IfElse(a, cmp, b) =>
      next := PackTriple(a, cmp, b, data, next);
    case Set(param, text) =>
      next := Memcpy(data, next, Terminated(param));
      next := Memcpy(data, next, Terminated(text));
      SpliceBoth(was, offset, Terminated(param), Terminated(text));
    case Unop(param, unary, result) =>
      next := PackTriple(param, unary, result, data, next);
    case Binop(a, binary, b, result) =>
      next := PackTriple(a, binary, b, data, next);
      next := Memcpy(data, next, Terminated(result));
      SpliceBoth(was, offset, WriteTriple(a, binary, b), Terminated(result));
    case Call(slot) =>
      next := Memcpy(data, next, [slot]);
    case Noop =>
      SpliceNothing(was, offset);
    case Unknown(_) =>
      SpliceNothing(was, offset);
      ok := false;
  }

  lemma SpliceNothing(s: seq<byte>, offset: nat)
    requires offset <= |s|
    ensures Splice(s, offset, []) == s
  {
  }

  /** Writes one instruction: node, type, payload. */
  method PackInstruction(instruction: Instruction<CString>, data: array<byte>, offset: nat)
    returns (ok: bool, next: nat)
    requires offset + |EncodeInstruction(instruction)| <= data.Length
    modifies data
    ensures ok == Known(instruction.op) && next == offset + |EncodeInstruction(instruction)|
    ensures data[..] == Splice(old(data[..]), offset, EncodeInstruction(instruction))
  {
    hide Splice, Payload;
    ghost var was := data[..];
    var node, tag := Bytes16(instruction.node), [Tag(instruction.op)];
    next := Memcpy(data, offset, node);
    next := Memcpy(data, next, tag);
    ok, next := PackPayload(instruction.op, data, next);
    SpliceBoth(was, offset, node, tag);
    SpliceBoth(was, offset, node + tag, Payload(instruction.op));
    assert node + tag + Payload(instruction.op) == EncodeInstruction(instruction);
  }

  /** How many instructions packing writes: all, or up to and with the first of unknown type. */
  function Written(p: Proc, i: nat := 0): (n: nat)
    requires i <= |p|
    ensures i <= n <= |p|
    ensures forall j :: i <= j < n - 1 ==> Known(p[j].op)
    ensures n < |p| ==> n > i && !Known(p[n - 1].op)
    decreases |p| - i
  {
    if i == |p| then i else if Known(p[i].op) then Written(p, i + 1) else i + 1
  }

  /** Packing succeeds exactly when every type is known and the size and the header fit the
      buffer. Then the procedure stands in the buffer as the format has it, nothing but its
      bytes has changed, and the length is that of header and procedure. A procedure that
      is too large leaves the packet alone. With an unknown type there is no size to check,
      so what stands before that type has to fit. */
  method PackProc(p: Proc, packet: Packet) returns (ret: int)
    requires !AllKnown(p) ==> HEADER + 1 + |EncodeUpTo(p, Written(p))| <= packet.data.Length
    modifies packet, packet.data
    ensures ret == if AllKnown(p) && HEADER + |Encode(p)| <= packet.data.Length then 0 else -1
    ensures ret == 0 <==> (forall i :: 0 <= i < |p| ==> !p[i].op.Unknown?) && 3 + SizeUpTo(p, |p|) <= packet.data.Length
    ensures ret == 0 ==> IsPacked(packet.data[..], p) && packet.length == 3 + SizeUpTo(p, |p|)
    ensures ret == 0 ==>
              && packet.length == HEADER + |Encode(p)|
              && packet.data[..] == Splice(old(packet.data[..]), HEADER, Encode(p))
    ensures ret != 0 ==> packet.length == old(packet.length)
    ensures ret != 0 && AllKnown(p) ==> packet.data[..] == old(packet.data[..])
    ensures ret != 0 && !AllKnown(p) ==>
              packet.data[..] == Splice(old(packet.data[..]), HEADER, [|p|] + EncodeUpTo(p, Written(p)))
  {
    hide Splice, EncodeInstruction, SizeUpTo, IsPacked;
    FormatIsWritten([], p);
    var total := CalcProcSize(p);
    if total + HEADER > packet.data.Length {
      return -1;
    }
    ghost var was := packet.data[..];
    var data := packet.data;
    var offset := Memcpy(data, HEADER, [|p|]);
    var i := 0;
    SpliceNothing(data[..], HEADER + 1);
    assert [|p|] + [] == [|p|];
    while i < |p|
      invariant 0 <= i <= |p| && offset == HEADER + 1 + |EncodeUpTo(p, i)| <= data.Length
      invariant packet.length == old(packet.length) && forall j :: 0 <= j < i ==> Known(p[j].op)
      invariant data[..] == Splice(was, HEADER, [|p|] + EncodeUpTo(p, i))
    {
      assert i < Written(p);
      EncodeGrows(p, i + 1, if AllKnown(p) then |p| else Written(p));
      var ok;
      ok, offset := PackInstruction(p[i], data, offset);
      SpliceBoth(was, HEADER, [|p|] + EncodeUpTo(p, i), EncodeInstruction(p[i]));
      assert [|p|] + EncodeUpTo(p, i) + EncodeInstruction(p[i]) == [|p|] + EncodeUpTo(p, i + 1);
      if !ok {
        assert Written(p) == i + 1;
        return -1;
      }
      i := i + 1;
    }
    packet.length := total + HEADER;
    SpliceAt(was, HEADER, Encode(p));
    FormatIsWritten(data[..], p);
    return 0;
  }
}
