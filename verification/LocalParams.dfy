/** The primitive instructions on local integer parameters, as an interpretation for the
    machine and in place (proc_set_param, proc_runtime_ifelse, proc_runtime_set,
    proc_runtime_unop, proc_runtime_binop in
    src/runtime/proc_runtime_instructions_common.c).
 */
module LocalParams {
  import opened ProcTypes
  import opened Operands
  import opened ParamNames
  import opened Machine
  import Analyze

  /** A parameter is an array of values of its type. */
  datatype Param = Param(ty: ParamType, readOnly: bool, values: seq<int>)

  type Params = map<seq<byte>, Param>

  /** The integer parameters of this node, and the rest of the world. */
  datatype World<+E> = World(params: Params, env: E)

  /** What lies outside: instructions that wait, that concern another node, or that
      concern parameters of other types; parsing a value, and the bit operators. */
  datatype Foreign<!E> = Foreign(
    concerns: Instruction<CString> -> bool,
    leaf: (Instruction<CString>, World<E>) -> (int, World<E>),
    cond: (Instruction<CString>, World<E>) -> (Verdict, World<E>),
    parse: (ParamType, CString) -> Option<int>,
    bitwise: (uint32, Operand, Operand) -> Option<Operand>,
    complement: Operand -> Option<Operand>)

  predicate IsLocal<E>(f: Foreign<E>, instruction: Instruction<CString>) {
    instruction.node == 0 && !instruction.op.Block? && !f.concerns(instruction)
  }

  /** The parameter that a name stands for. Names are looked up as they are; the source
      matches them as patterns, which for names without pattern characters is the same. */
  function Fetch(ps: Params, name: CString): Option<Operand> {
    var base, offset := BaseName(name), ScanOffset(name);
    if base !in ps then None
    else
      var k := if offset < 0 then 0 else offset;
      var values := ps[base].values;
      Some(Operand(ps[base].ty, if k < |values| then values[k] else 0))
  }

  predicate Writable(ps: Params, name: CString) {
    BaseName(name) in ps && !ps[BaseName(name)].readOnly
  }

  /** Without an index every element is set. */
  function Assigned(values: seq<int>, offset: int, x: int): seq<int> {
    if offset < 0 then seq(|values|, _ => x)
    else if offset < |values| then values[offset := x]
    else values
  }

  /** `value` tells what a parameter of some type is set to, if it can be. */
  function SetValue(ps: Params, name: CString, value: ParamType -> Option<int>): (int, Params) {
    if !Writable(ps, name) then (-1, ps)
    else
      var base := BaseName(name);
      match value(ps[base].ty)
      case None => (-1, ps)
      case Some(x) => (0, ps[base := ps[base].(values := Assigned(ps[base].values, ScanOffset(name), x))])
  }

  function SetOperand(ps: Params, name: CString, a: Option<Operand>): (int, Params) {
    match a
    case None => (-1, ps)
    case Some(operand) => SetValue(ps, name, ty => Some(Stored(ty, operand)))
  }

  function UnopResult<E>(f: Foreign<E>, unary: uint32, a: Operand): Option<Operand> {
    if unary == OP_NOT then f.complement(a) else UnopOperand(unary, a)
  }

  function BinopResult<E>(f: Foreign<E>, binary: uint32, a: Operand, b: Operand): Option<Operand> {
    if binary <= OP_MOD then BinopOperand(binary, a, b) else f.bitwise(binary, a, b)
  }

  function LocalLeaf<E>(f: Foreign<E>, op: Op<CString>, ps: Params): (int, Params)
    requires op.Set? || op.Unop? || op.Binop?
  {
    match op
    case Set(param, text) => SetValue(ps, param, ty => f.parse(ty, text))
    case Unop(param, unary, result) =>
      (match Fetch(ps, param)
       case None => (-1, ps)
       case Some(a) => SetOperand(ps, result, UnopResult(f, unary, a)))
    case Binop(paramA, binary, paramB, result) =>
      (match (Fetch(ps, paramA), Fetch(ps, paramB))
       case (Some(a), Some(b)) => SetOperand(ps, result, BinopResult(f, binary, a, b))
       case _ => (-1, ps))
  }

  function LocalTest(ps: Params, a: CString, cmp: uint32, b: CString): Verdict {
    match (Fetch(ps, a), Fetch(ps, b))
    case (Some(x), Some(y)) =>
      if !SameKind(x, y) then FlagErrType
      else
        (match Compare(cmp, x.value, y.value)
         case None => FlagErr
         case Some(holds) => if holds then FlagTrue else FlagFalse)
    case _ => FlagErr
  }

  function Leaf<E>(f: Foreign<E>, instruction: Instruction<CString>, w: World<E>): (int, World<E>) {
    var op := instruction.op;
    if IsLocal(f, instruction) && (op.Set? || op.Unop? || op.Binop?) then
      var (code, params) := LocalLeaf(f, op, w.params);
      (code, w.(params := params))
    else f.leaf(instruction, w)
  }

  function Condition<E>(f: Foreign<E>, instruction: Instruction<CString>, w: World<E>): (Verdict, World<E>) {
    if IsLocal(f, instruction) && instruction.op.IfElse? then
      (LocalTest(w.params, instruction.op.paramA, instruction.op.cmp, instruction.op.paramB), w)
    else f.cond(instruction, w)
  }

  function LocalInterp<E>(f: Foreign<E>): Interp<World<E>> {
    Interp((instruction, w) => Leaf(f, instruction, w), (instruction, w) => Condition(f, instruction, w))
  }

  // ---------------------------------------------------------------- what is stored

  ghost predicate WellTyped(ps: Params) {
    forall name, i :: name in ps && 0 <= i < |ps[name].values| ==> InRange(ps[name].ty, ps[name].values[i])
  }

  /** A name stands for one element of a parameter, or for all of them. */
  predicate Selects(name: CString, base: seq<byte>, i: nat) {
    base == BaseName(name) && (ScanOffset(name) < 0 || ScanOffset(name) == i)
  }

  /** The elements that a name selects take the value of an operand; no other element and
      no other parameter changes. */
  ghost predicate Becomes(ps: Params, ps': Params, name: CString, a: Operand) {
    && ps'.Keys == ps.Keys
    && forall x :: x in ps ==>
         && ps'[x].ty == ps[x].ty && ps'[x].readOnly == ps[x].readOnly && |ps'[x].values| == |ps[x].values|
         && forall i :: 0 <= i < |ps[x].values| ==>
              ps'[x].values[i] == if Selects(name, x, i) then Stored(ps[x].ty, a) else ps[x].values[i]
  }

  /** A local operation stores a value of the type of its result parameter, in every
      element the name selects, and changes no other element and no other parameter. */
  lemma SetOperandStays(ps: Params, name: CString, a: Operand)
    requires WellTyped(ps)
    ensures var (ret, ps') := SetOperand(ps, name, Some(a));
            && WellTyped(ps')
            && ret == (if Writable(ps, name) then 0 else -1)
            && if ret == 0 then Becomes(ps, ps', name, a) else ps' == ps
  {
    SetBecomes(ps, name, a);
    hide BaseName, ScanOffset, Stored;
    var (ret, ps') := SetOperand(ps, name, Some(a));
    forall x, i | x in ps' && 0 <= i < |ps'[x].values|
      ensures InRange(ps'[x].ty, ps'[x].values[i])
    {
      StoredInRange(ps[x].ty, a);
    }
  }

  lemma StoredInRange(ty: ParamType, a: Operand)
    ensures InRange(ty, Stored(ty, a))
  {
  }

  /** What has been stored is what a later instruction fetches by the same name. */
  lemma StoreThenFetch(ps: Params, name: CString, a: Operand)
    requires SetOperand(ps, name, Some(a)).0 == 0
    requires var values := ps[BaseName(name)].values;
             if ScanOffset(name) < 0 then values != [] else ScanOffset(name) < |values|
    ensures var ty := ps[BaseName(name)].ty;
            Fetch(SetOperand(ps, name, Some(a)).1, name) == Some(Operand(ty, Stored(ty, a)))
  {
    hide BaseName, ScanOffset, Stored;
  }

  /** The outcome of an operation with an exact result, if it has one, in the type of its
      first operand. With a result parameter of that type, the elements hold the native
      result: the value of the type that is congruent to the exact one. */
  ghost predicate StoresNative(ps: Params, ret: int, ps': Params, result: CString, ty: ParamType, exact: Option<int>) {
    && ret == (if exact.Some? && Writable(ps, result) then 0 else -1)
    && if ret != 0 then ps' == ps
       else
         && Becomes(ps, ps', result, Operand(ty, Native(ty, exact.value)))
         && (ps[BaseName(result)].ty == ty ==>
               forall i :: 0 <= i < |ps[BaseName(result)].values| && Selects(result, BaseName(result), i) ==>
                 IsNative(ty, ps'[BaseName(result)].values[i], exact.value))
  }

  lemma SetBecomes(ps: Params, name: CString, a: Operand)
    ensures var (ret, ps') := SetOperand(ps, name, Some(a));
            ret == (if Writable(ps, name) then 0 else -1) && if ret == 0 then Becomes(ps, ps', name, a) else ps' == ps
  {
    hide BaseName, ScanOffset, Stored;
  }

  lemma OperandIsStored(ps: Params, result: CString, a: Operand, exact: int)
    requires a.value % Modulus(a.source.width) == exact % Modulus(a.source.width)
    ensures var (ret, ps') := SetOperand(ps, result, Some(a));
            StoresNative(ps, ret, ps', result, a.source, Some(exact))
  {
    var native := Operand(a.source, Native(a.source, exact));
    NativeIsNative(a.source, exact);
    NativeIsStored(a.source, exact);
    assert Pattern(a) == Pattern(native);
    assert forall ty :: Stored(ty, a) == Stored(ty, native);
    SetBecomes(ps, result, a);
    hide BaseName, ScanOffset, Stored, IsNative, Native, SetOperand;
  }

  /** A binary operator takes its operands from two parameters and stores the exact result
      modulo 2 to the width of the first. It fails, and changes nothing, if a parameter is
      missing or the result cannot be written, if only one operand is signed, and on a
      division by zero. */
  lemma BinopMeans<E>(f: Foreign<E>, a: CString, binary: uint32, b: CString, result: CString, ps: Params)
    requires binary <= OP_MOD
    ensures var (ret, ps') := LocalLeaf(f, Binop(a, binary, b, result), ps);
            match (Fetch(ps, a), Fetch(ps, b))
            case (Some(x), Some(y)) =>
              StoresNative(ps, ret, ps', result, x.source, if SameKind(x, y) then Exact(binary, x.value, y.value) else None)
            case _ => ret == -1 && ps' == ps
  {
    hide Fetch, SetOperand, StoresNative;
    match (Fetch(ps, a), Fetch(ps, b))
    case (Some(x), Some(y)) =>
      var exact := if SameKind(x, y) then Exact(binary, x.value, y.value) else None;
      if exact.Some? {
        WideIsCongruent(x.source, exact.value);
        OperandIsStored(ps, result, x.(value := Wide(x.source, exact.value)), exact.value);
      } else {
        NothingIsStored(ps, result, x.source);
      }
    case _ =>
  }

  lemma NothingIsStored(ps: Params, result: CString, ty: ParamType)
    ensures var (ret, ps') := SetOperand(ps, result, None);
            StoresNative(ps, ret, ps', result, ty, None)
  {
  }

  /** The same for a unary operator. */
  lemma UnopMeans<E>(f: Foreign<E>, param: CString, unary: uint32, result: CString, ps: Params)
    requires unary != OP_NOT
    ensures var (ret, ps') := LocalLeaf(f, Unop(param, unary, result), ps);
            match Fetch(ps, param)
            case Some(x) => StoresNative(ps, ret, ps', result, x.source, ExactUnary(unary, x.source, x.value))
            case None => ret == -1 && ps' == ps
  {
    hide Fetch, SetOperand, StoresNative;
    match Fetch(ps, param)
    case Some(x) =>
      var exact := ExactUnary(unary, x.source, x.value);
      if exact.Some? {
        WideIsCongruent(x.source, exact.value);
        OperandIsStored(ps, result, UnopOperand(unary, x).value, exact.value);
      } else {
        NothingIsStored(ps, result, x.source);
      }
    case None =>
  }

  /** What a local test decides, by the code of its comparison, and when it is an error of
      which kind. */
  lemma TestByCode(ps: Params, a: CString, cmp: uint32, b: CString)
    ensures var verdict := LocalTest(ps, a, cmp, b);
            match (Fetch(ps, a), Fetch(ps, b))
            case (Some(x), Some(y)) =>
              if x.source.Unsigned? != y.source.Unsigned? then verdict == FlagErrType
              else
                && (cmp == 0 ==> verdict == if x.value == y.value then FlagTrue else FlagFalse)
                && (cmp == 1 ==> verdict == if x.value != y.value then FlagTrue else FlagFalse)
                && (cmp == 2 ==> verdict == if x.value < y.value then FlagTrue else FlagFalse)
                && (cmp == 3 ==> verdict == if x.value > y.value then FlagTrue else FlagFalse)
                && (cmp == 4 ==> verdict == if x.value <= y.value then FlagTrue else FlagFalse)
                && (cmp == 5 ==> verdict == if x.value >= y.value then FlagTrue else FlagFalse)
                && (cmp > 5 ==> verdict == FlagErr)
            case _ => verdict == FlagErr
  {
    hide Fetch, Compare;
    if x, y :| Fetch(ps, a) == Some(x) && Fetch(ps, b) == Some(y) {
      ComparisonsByCode(x.value, y.value);
    }
  }

  // ---------------------------------------------------------------- by code and by name

  /** A name stands for a parameter that can be written, of some type, and for element `i`
      of it. */
  ghost predicate Targets(ps: Params, name: CString, ty: ParamType, i: nat) {
    var base, offset := BaseName(name), ScanOffset(name);
    && base in ps && !ps[base].readOnly && ps[base].ty == ty
    && i < |ps[base].values| && (offset < 0 || offset == i)
  }

  /** What a binary instruction leaves in a result of the type of its first operand, by the
      code of the operator: sum, difference, product, and quotient towards zero and
      remainder of a division; a division by zero fails. Other codes are left to the
      parameter of the model. */
  lemma BinopByCode<E>(f: Foreign<E>, a: CString, binary: uint32, b: CString, result: CString, ps: Params,
                       x: Operand, y: Operand, i: nat)
    returns (q: int, r: int)
    requires Fetch(ps, a) == Some(x) && Fetch(ps, b) == Some(y) && x.source.Unsigned? == y.source.Unsigned?
    requires Targets(ps, result, x.source, i)
    ensures y.value != 0 ==>
              && x.value == y.value * q + r && (r < 0 ==> x.value < 0) && (r > 0 ==> x.value > 0)
              && if y.value > 0 then -y.value < r < y.value else y.value < r < -y.value
    ensures var (ret, ps') := LocalLeaf(f, Binop(a, binary, b, result), ps);
            if binary > 4 then (ret, ps') == SetOperand(ps, result, f.bitwise(binary, x, y))
            else if binary >= 3 && y.value == 0 then ret == -1 && ps' == ps
            else
              && ret == 0 && BaseName(result) in ps' && i < |ps'[BaseName(result)].values|
              && var v := ps'[BaseName(result)].values[i];
                 && (binary == 0 ==> IsNative(x.source, v, x.value + y.value))
                 && (binary == 1 ==> IsNative(x.source, v, x.value - y.value))
                 && (binary == 2 ==> IsNative(x.source, v, x.value * y.value))
                 && (binary == 3 ==> IsNative(x.source, v, q))
                 && (binary == 4 ==> IsNative(x.source, v, r))
  {
    hide Fetch, SetOperand, Quotient, IsNative, BaseName, ScanOffset;
    DivisionByCode(x.value, y.value);
    q, r := 0, 0;
    if y.value != 0 {
      q, r := Exact(3, x.value, y.value).value, Exact(4, x.value, y.value).value;
    }
    if binary <= 4 {
      BinopMeans(f, a, binary, b, result, ps);
    }
  }

  /** The same for a unary instruction: one more, one less, the negative of a signed
      operand, or the operand itself. */
  lemma UnopByCode<E>(f: Foreign<E>, param: CString, unary: uint32, result: CString, ps: Params, x: Operand, i: nat)
    requires Fetch(ps, param) == Some(x) && Targets(ps, result, x.source, i)
    ensures var (ret, ps') := LocalLeaf(f, Unop(param, unary, result), ps);
            if unary == 2 then (ret, ps') == SetOperand(ps, result, f.complement(x))
            else if unary > 5 || (unary == 3 && x.source.Unsigned?) then ret == -1 && ps' == ps
            else
              && ret == 0 && BaseName(result) in ps' && i < |ps'[BaseName(result)].values|
              && var v := ps'[BaseName(result)].values[i];
                 && (unary == 0 ==> IsNative(x.source, v, x.value + 1))
                 && (unary == 1 ==> IsNative(x.source, v, x.value - 1))
                 && (unary == 3 ==> IsNative(x.source, v, 0 - x.value))
                 && (unary == 4 || unary == 5 ==> IsNative(x.source, v, x.value))
  {
    hide Fetch, SetOperand, IsNative, BaseName, ScanOffset;
    if unary != 2 {
      UnopMeans(f, param, unary, result, ps);
    }
  }

  /** A binary or unary instruction fails without any change if an operand is missing or if
      only one of two is signed. */
  lemma OperandErrors<E>(f: Foreign<E>, a: CString, op: uint32, b: CString, result: CString, ps: Params)
    ensures Fetch(ps, a).None? ==> LocalLeaf(f, Unop(a, op, result), ps) == (-1, ps)
    ensures Fetch(ps, a).None? || Fetch(ps, b).None? ==> LocalLeaf(f, Binop(a, op, b, result), ps) == (-1, ps)
    ensures op <= 4 && Fetch(ps, a).Some? && Fetch(ps, b).Some?
              && Fetch(ps, a).value.source.Unsigned? != Fetch(ps, b).value.source.Unsigned? ==>
              LocalLeaf(f, Binop(a, op, b, result), ps) == (-1, ps)
  {
    hide Fetch;
  }

  /** A plain name is read as element 0 of its parameter, and a write to it sets every
      element. */
  lemma PlainParameter(ps: Params, name: CString, value: ParamType -> Option<int>, x: int)
    requires 91 !in name && name in ps && ps[name].values != []
    ensures Fetch(ps, name) == Some(Operand(ps[name].ty, ps[name].values[0]))
    ensures !ps[name].readOnly && value(ps[name].ty) == Some(x) ==>
              SetValue(ps, name, value) == (0, ps[name := ps[name].(values := seq(|ps[name].values|, _ => x))])
  {
    PlainName(name);
  }

  /** `base[n]` is read as element `n`, and a write to it sets that element alone. */
  lemma IndexedParameter(ps: Params, base: CString, n: nat, name: CString, value: ParamType -> Option<int>, x: int)
    requires base != [] && 91 !in base && name == base + [91] + (Decimal(n) + [93])
    requires base in ps && n < |ps[base].values| && n < 0x8000_0000
    ensures Fetch(ps, name) == Some(Operand(ps[base].ty, ps[base].values[n]))
    ensures !ps[base].readOnly && value(ps[base].ty) == Some(x) ==>
              SetValue(ps, name, value) == (0, ps[base := ps[base].(values := ps[base].values[n := x])])
  {
    IndexRoundTrip(base, n);
    hide BaseName, ScanOffset, Decimal;
  }

  /** A set instruction writes what its text is parsed to, by the type of the parameter. */
  lemma SetByText<E>(f: Foreign<E>, param: CString, text: CString, ps: Params)
    requires BaseName(param) in ps && !ps[BaseName(param)].readOnly
    ensures var (ret, ps') := LocalLeaf(f, Set(param, text), ps);
            match f.parse(ps[BaseName(param)].ty, text)
            case None => ret == -1 && ps' == ps
            case Some(x) =>
              && ret == 0 && BaseName(param) in ps'
              && |ps'[BaseName(param)].values| == |ps[BaseName(param)].values|
              && forall i :: 0 <= i < |ps[BaseName(param)].values| ==>
                   ps'[BaseName(param)].values[i] ==
                   if ScanOffset(param) < 0 || ScanOffset(param) == i then x else ps[BaseName(param)].values[i]
  {
    hide BaseName, ScanOffset;
  }

  // ---------------------------------------------------------------- what never changes

  /** Where an instruction puts its result. */
  function ResultName(op: Op<CString>): CString
    requires op.Set? || op.Unop? || op.Binop?
  {
    match op
    case Set(param, _) => param
    case Unop(_, _, result) => result
    case Binop(_, _, _, result) => result
  }

  /** Parameters keep name, type and length, and read-only ones their values. */
  ghost predicate Keeps(ps: Params, ps': Params) {
    && ps'.Keys == ps.Keys
    && forall x :: x in ps ==>
         && ps'[x].ty == ps[x].ty && ps'[x].readOnly == ps[x].readOnly && |ps'[x].values| == |ps[x].values|
         && (ps[x].readOnly ==> ps'[x] == ps[x])
  }

  /** A local instruction fails if the parameter of its result is missing or read-only; if
      it fails it changes nothing; and read-only parameters never change. */
  lemma ReadOnlyStays<E>(f: Foreign<E>, op: Op<CString>, ps: Params)
    requires op.Set? || op.Unop? || op.Binop?
    ensures var (ret, ps') := LocalLeaf(f, op, ps);
            && (ret == 0 || ret == -1)
            && (BaseName(ResultName(op)) !in ps || ps[BaseName(ResultName(op))].readOnly ==> ret == -1)
            && (ret == -1 ==> ps' == ps)
            && Keeps(ps, ps')
            && forall x :: x in ps && ps[x].readOnly ==> x in ps' && ps'[x] == ps[x]
  {
    hide Fetch, BaseName, ScanOffset, UnopResult, BinopResult, Stored;
  }

  /** Nothing but instructions of the model. */
  predicate OnlyLocal<E>(f: Foreign<E>, p: Proc) {
    forall i :: 0 <= i < |p| ==> p[i].op.Call? || p[i].op.Noop? || p[i].op.Unknown? || IsLocal(f, p[i])
  }

  lemma StepKeeps<E>(f: Foreign<E>, instruction: Instruction<CString>, flag: IfElseFlag, w: World<E>)
    requires instruction.op.Call? || instruction.op.Noop? || instruction.op.Unknown? || IsLocal(f, instruction)
    ensures match Step(LocalInterp(f), instruction, flag, w)
            case Goto(_, w') => Keeps(w.params, w'.params) && w'.env == w.env
            case Stop(_, w') => Keeps(w.params, w'.params) && w'.env == w.env
            case Invoke(_, _) => true
  {
    hide LocalLeaf, LocalTest;
    var op := instruction.op;
    if op.Set? || op.Unop? || op.Binop? {
      ReadOnlyStays(f, op, w.params);
    }
  }

  /** Over any run of a program of such instructions, by either machine, parameters keep
      name, type and length, read-only ones their values, and nothing outside changes. */
  lemma {:induction false} RunKeeps<E>(m: Machine<World<E>>, f: Foreign<E>, kind: Proc -> bool, p: Proc, i: nat,
          flag: IfElseFlag,
                                       w: World<E>, depth: nat, fuel: nat)
    requires m.interp == LocalInterp(f) && Throughout(m.store, p, kind) && forall q: Proc :: kind(q) ==> OnlyLocal(f, q)
    ensures var r := Run(m, p, i, flag, w, depth, fuel);
            r.Finished? ==> Keeps(w.params, r.world.params) && r.world.env == w.env
    decreases fuel
  {
    hide Run, Step, LocalInterp, Keeps, Throughout;
    RunUnfolds(m, p, i, flag, w, depth, fuel);
    KeepsItself(w.params);
    if i >= |p| || fuel == 0 {
      return;
    }
    ItselfIs(m.store, p, kind);
    StepKeeps(f, p[i], flag, w);
    match Step(m.interp, p[i], flag, w)
    case Stop(_, _) =>
    case Goto(flag', w') =>
      RunKeeps(m, f, kind, p, i + 1, flag', w', depth, fuel - 1);
      KeepsThrough(w.params, w'.params, Run(m, p, i + 1, flag', w', depth, fuel - 1));
    case Invoke(slot, flag') =>
      var q := m.store[slot];
      ThroughCall(m.store, p, i, kind);
      RunKeeps(m, f, kind, q, 0, FlagNone, w, if m.tailCalls && Analyze.TailMark(p, i) then depth else depth + 1, fuel - 1);
      var r := Enter(m, q, w, depth, fuel - 1);
      if !(m.tailCalls && Analyze.TailMark(p, i)) && r.Finished? && r.code == 0 {
        RunKeeps(m, f, kind, p, i + 1, flag', r.world, depth, fuel - 1);
        KeepsThrough(w.params, r.world.params, Run(m, p, i + 1, flag', r.world, depth, fuel - 1));
      }
  }

  lemma KeepsItself(ps: Params)
    ensures Keeps(ps, ps)
  {
  }

  lemma KeepsThrough<E>(ps: Params, ps': Params, r: Outcome<World<E>>)
    requires Keeps(ps, ps')
    ensures r.Finished? && Keeps(ps', r.world.params) ==> Keeps(ps, r.world.params)
  {
  }

  // ---------------------------------------------------------------- in place

  /** The integer parameters of a node, updated in place. */
  class ParamTable {
    var params: Params

    constructor (params: Params)
      ensures this.params == params
    {
      this.params := params;
    }

    method FetchOperand(name: CString) returns (operand: Option<Operand>)
      ensures operand == Fetch(params, name)
    {
      hide BaseName, ScanOffset;
      var offset := ProcParamScanOffset(name);
      var base := StripIndex(name);
      if base !in params {
        return None;
      }
      var param := params[base];
      if offset < 0 {
        offset := 0;
      }
      operand := Some(Operand(param.ty, if offset < |param.values| then param.values[offset] else 0));
    }

    method ProcSetParam(name: CString, value: ParamType -> Option<int>) returns (ret: int)
      modifies this
      ensures BaseName(name) !in old(params) || old(params)[BaseName(name)].readOnly ==> ret == -1 && params == old(params)
      ensures (ret, params) == SetValue(old(params), name, value)
    {
      hide BaseName, ScanOffset;
      var base := StripIndex(name);
      if base !in params {
        return -1;
      }
      var param := params[base];
      if param.readOnly {
        return -1;
      }
      var buffered := value(param.ty);
      if buffered == None {
        return -1;
      }
      var offset := ProcParamScanOffset(name);
      if offset < 0 {
        var values := param.values;
        var i := 0;
        while i < |param.values|
          invariant 0 <= i <= |param.values| == |values|
          invariant forall j :: 0 <= j < i ==> values[j] == buffered.value
        {
          values := values[i := buffered.value];
          i := i + 1;
        }
        assert values == Assigned(param.values, offset, buffered.value);
        params := params[base := param.(values := values)];
      } else if offset < |param.values| {
        params := params[base := param.(values := param.values[offset := buffered.value])];
      } else {
        assert old(params)[base := param] == old(params);
      }
      return 0;
    }

    method ProcRuntimeSet<E>(f: Foreign<E>, param: CString, text: CString) returns (ret: int)
      modifies this
      ensures (ret, params) == LocalLeaf(f, Set(param, text), old(params))
    {
      ret := ProcSetParam(param, ty => f.parse(ty, text));
    }

    method ProcRuntimeIfelse(a: CString, cmp: uint32, b: CString) returns (verdict: Verdict)
      ensures verdict == LocalTest(params, a, cmp, b)
    {
      hide Fetch;
      var x := FetchOperand(a);
      var y := FetchOperand(b);
      if x == None || y == None {
        return FlagErr;
      }
      if x.value.source.Unsigned? != y.value.source.Unsigned? {
        return FlagErrType;
      }
      var holds;
      if cmp == OP_EQ {
        holds := x.value.value == y.value.value;
      } else if cmp == OP_NEQ {
        holds := x.value.value != y.value.value;
      } else if cmp == OP_LT {
        holds := x.value.value < y.value.value;
      } else if cmp == OP_GT {
        holds := x.value.value > y.value.value;
      } else if cmp == OP_LE {
        holds := x.value.value <= y.value.value;
      } else if cmp == OP_GE {
        holds := x.value.value >= y.value.value;
      } else {
        return FlagErr;
      }
      verdict := if holds then FlagTrue else FlagFalse;
    }

    /** The switch over unary operators: it stores the exact result in the type of the
        operand, and is the instruction as the machine means it. */
    method ProcRuntimeUnop<E>(f: Foreign<E>, param: CString, unary: uint32, result: CString) returns (ret: int)
      modifies this
      ensures unary != OP_NOT ==>
                match Fetch(old(params), param)
                case Some(x) => StoresNative(old(params), ret, params, result, x.source, ExactUnary(unary, x.source, x.value))
                case None => ret == -1 && params == old(params)
      ensures (ret, params) == LocalLeaf(f, Unop(param, unary, result), old(params))
    {
      hide Fetch, SetValue, StoresNative, ExactUnary, BaseName, ScanOffset, Stored, Wide;
      if unary != OP_NOT {
        UnopMeans(f, param, unary, result, params);
      }
      var fetched := FetchOperand(param);
      if fetched == None {
        return -1;
      }
      var a := fetched.value;
      if unary == OP_INC {
        a := a.(value := Wide(a.source, a.value + 1));
      } else if unary == OP_DEC {
        a := a.(value := Wide(a.source, a.value - 1));
      } else if unary == OP_NOT {
        var complement := f.complement(a);
        if complement == None {
          return -1;
        }
        a := complement.value;
      } else if unary == OP_NEG {
        if !a.source.Signed? {
          return -1;
        }
        a := a.(value := Wide(a.source, -a.value));
      } else if unary != OP_IDT && unary != OP_RMT {
        return -1;
      }
      ret := ProcSetParam(result, ty => Some(Stored(ty, a)));
    }

    /** The switch over binary operators: it stores the exact result in the type of the first
        operand, if there is one, and is the instruction as the machine means it. */
    method ProcRuntimeBinop<E>(f: Foreign<E>, paramA: CString, binary: uint32, paramB: CString, result: CString)
      returns (ret: int)
      modifies this
      ensures binary <= OP_MOD ==>
                match (Fetch(old(params), paramA), Fetch(old(params), paramB))
                case (Some(x), Some(y)) =>
                  StoresNative(old(params), ret, params, result, x.source,
                               if SameKind(x, y) then Exact(binary, x.value, y.value) else None)
                case _ => ret == -1 && params == old(params)
      ensures (ret, params) == LocalLeaf(f, Binop(paramA, binary, paramB, result), old(params))
    {
      hide Fetch, SetValue, BinopOperand, StoresNative, Exact, BaseName, ScanOffset, Stored;
      if binary <= OP_MOD {
        BinopMeans(f, paramA, binary, paramB, result, params);
      }
      var fetchedA := FetchOperand(paramA);
      var fetchedB := FetchOperand(paramB);
      if fetchedA == None || fetchedB == None {
        return -1;
      }
      var a, b := fetchedA.value, fetchedB.value;
      var computed;
      if binary <= OP_MOD {
        computed := Arithmetic(binary, a, b);
      } else {
        computed := f.bitwise(binary, a, b);
      }
      if computed == None {
        return -1;
      }
      a := computed.value;
      ret := ProcSetParam(result, ty => Some(Stored(ty, a)));
    }
  }
}
