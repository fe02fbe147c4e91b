/** Procedures as the runtime sees them: flat lists of at most 255 instructions.

    An instruction is generic in the type `S` of its strings: `CString` where only
    the text matters, and a heap handle where ownership of the buffer matters.
    Operator codes stay raw 32-bit numbers, as an unpacked packet may carry any.
 */
module ProcTypes {
  const MAX_INSTRUCTIONS: nat := 255
  const MAX_PROC_SLOT: nat := 255
  const MAX_PROC_CONCURRENT: nat := 16

  type byte = x: int | 0 <= x < 0x100
  type uint16 = x: int | 0 <= x < 0x1_0000
  type uint32 = x: int | 0 <= x < 0x1_0000_0000

  /** The characters of a NUL-terminated string, without the terminator. */
  type CString = s: seq<byte> | 0 !in s witness []

  datatype Option<+T> = None | Some(value: T)

  datatype Op<+S> =
    | Block(paramA: S, cmp: uint32, paramB: S)
    | IfElse(paramA: S, cmp: uint32, paramB: S)
    | Set(param: S, text: S)
    | Unop(param: S, unary: uint32, result: S)
    | Binop(paramA: S, binary: uint32, paramB: S, result: S)
    | Call(slot: byte)
    | Noop
    | Unknown(tag: UnknownTag)

  /** The type codes beyond the last enumerator. */
  type UnknownTag = x: int | 7 <= x < 0x100 witness 7

  datatype Instruction<+S> = Instruction(node: uint16, op: Op<S>)

  /** The numeric instruction type. */
  function Tag<S>(op: Op<S>): byte {
    match op
    case Block(_, _, _) => 0
    case IfElse(_, _, _) => 1
    case Set(_, _) => 2
    case Unop(_, _, _) => 3
    case Binop(_, _, _, _) => 4
    case Call(_) => 5
    case Noop => 6
    case Unknown(tag) => tag
  }

  type Proc = p: seq<Instruction<CString>> | |p| <= MAX_INSTRUCTIONS witness []

  const NO_PROC: Proc := []

  /** The procedure store; an empty procedure is a free slot. */
  type Store = s: seq<Proc> | |s| == MAX_PROC_SLOT + 1 witness seq<Proc>(MAX_PROC_SLOT + 1, _ => NO_PROC)

  /** The result of an if-else test, and the state the interpreter keeps about one. */
  datatype IfElseFlag = FlagTrue | FlagFalse | FlagNone | FlagErr | FlagErrType {
    function Code(): int {
      match this
      case FlagTrue => 1
      case FlagFalse => 0
      case FlagNone => -1
      case FlagErr => -2
      case FlagErrType => -3
    }
  }

  /** What evaluating a condition can answer. */
  type Verdict = f: IfElseFlag | f != FlagNone witness FlagErr

  /** The documented language: no IFELSE in either of the two instructions after one. */
  predicate WellFormed(p: Proc) {
    forall i, j :: 0 <= i < j < |p| && j <= i + 2 && p[i].op.IfElse? ==> !p[j].op.IfElse?
  }
}
