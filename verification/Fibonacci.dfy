/** The Fibonacci program of the documentation (README.md, "Fibonacci Sequence"), run by
    the real machine on unsigned parameters of any one width.
 */
module Fibonacci {
  import opened ProcTypes
  import opened Operands
  import opened ParamNames
  import opened Machine
  import opened LocalParams
  import Analyze
  import Codec
  import Pack
  import Requests
  import Runtime
  import Server
  import Stores
  import Workers

  function Fib(n: nat): nat {
    if n < 2 then n else Fib(n - 2) + Fib(n - 1)
  }

  /** The five parameters, by position. */
  type Register = r: int | 0 <= r < 5
  const N: Register := 0
  const NIL: Register := 1
  const RX0: Register := 2
  const RX1: Register := 3
  const RX2: Register := 4

  /** Five different names of scalars. */
  type Names = v: seq<CString> | |v| == 5 && (forall r: Register, s: Register :: r < s ==> v[r] != v[s]) && (forall r: Register :: OPEN !in v[r])
    witness (var s: seq<CString> := [[1], [2], [3], [4], [5]]; s)

  const TEXT_0: CString := [48]
  const TEXT_1: CString := [49]

  function Local(op: Op<CString>): Instruction<CString> {
    Instruction(0, op)
  }

  function Initialization(v: Names): Proc {
    [Local(Set(v[NIL], TEXT_0)),
     Local(Set(v[RX0], TEXT_0)),
     Local(Set(v[RX1], TEXT_1)),
     Local(IfElse(v[N], OP_GT, v[NIL])),
     Local(Call(1))]
  }

  function Calculation(v: Names): Proc {
    [Local(Binop(v[RX0], OP_ADD, v[RX1], v[RX2])),
     Local(Unop(v[RX1], OP_IDT, v[RX0])),
     Local(Unop(v[RX2], OP_IDT, v[RX1])),
     Local(Unop(v[N], OP_DEC, v[N])),
     Local(IfElse(v[N], OP_EQ, v[NIL])),
     Local(Noop),
     Local(Call(1))]
  }

  /** The instructions of the program are those of the model. */
  predicate IsPlain<E>(f: Foreign<E>, v: Names) {
    && (forall k :: 0 <= k < |Initialization(v)| ==> !f.concerns(Initialization(v)[k]))
    && (forall k :: 0 <= k < |Calculation(v)| ==> !f.concerns(Calculation(v)[k]))
  }

  type Values = s: seq<int> | |s| == 5 witness [0, 0, 0, 0, 0]

  /** The five parameters exist, are writable and unsigned of one width, and hold `regs`. */
  ghost predicate Holds(ps: Params, v: Names, width: Width, regs: Values) {
    forall r: Register ::
      && v[r] in ps && ps[v[r]].ty == Unsigned(width) && !ps[v[r]].readOnly && ps[v[r]].values != []
      && ps[v[r]].values[0] == regs[r] && 0 <= regs[r] < Modulus(width)
  }

  lemma SmallModulo(width: Width, y: int)
    requires 0 <= y < Modulus(width)
    ensures y % Modulus(width) == y
  {
    DivisionIsUnique(y, Modulus(width), 0, y);
  }

  lemma PutOperand(ps: Params, v: Names, width: Width, regs: Values, r: Register, y: int)
    requires Holds(ps, v, width, regs)
    ensures var (ret, ps') := SetOperand(ps, v[r], Some(Operand(Unsigned(width), y)));
            ret == 0 && Holds(ps', v, width, regs[r := y % Modulus(width)])
  {
    PlainName(v[r]);
    SmallModulo(width, y % Modulus(width));
  }

  lemma FetchPlain(ps: Params, v: Names, width: Width, regs: Values, r: Register)
    requires Holds(ps, v, width, regs)
    ensures Fetch(ps, v[r]) == Some(Operand(Unsigned(width), regs[r]))
  {
    PlainName(v[r]);
  }

  // ---------------------------------------------------------------- single instructions

  lemma RunLeaf<E>(m: Machine<World<E>>, f: Foreign<E>, p: Proc, i: nat, w: World<E>, w': World<E>, depth: nat,
          fuel: nat)
    requires m.interp == LocalInterp(f) && i < |p| && fuel > 0 && IsLocal(f, p[i])
    requires p[i].op.Set? || p[i].op.Unop? || p[i].op.Binop?
    requires Leaf(f, p[i], w) == (0, w')
    ensures Run(m, p, i, FlagNone, w, depth, fuel) == Run(m, p, i + 1, FlagNone, w', depth, fuel - 1)
  {
  }

  lemma RunUnop<E>(m: Machine<World<E>>, f: Foreign<E>, p: Proc, i: nat, v: Names, width: Width, w: World<E>,
          regs: Values,
                r: Register, unary: uint32, result: Register, depth: nat, fuel: nat)
    returns (w': World<E>)
    requires m.interp == LocalInterp(f) && i < |p| && fuel > 0 && IsLocal(f, p[i]) && p[i] == Local(Unop(v[r], unary, v[result]))
    requires Holds(w.params, v, width, regs)
    requires unary == OP_IDT || (unary == OP_DEC && regs[r] > 0)
    ensures Holds(w'.params, v, width, regs[result := if unary == OP_IDT then regs[r] else regs[r] - 1])
    ensures Run(m, p, i, FlagNone, w, depth, fuel) == Run(m, p, i + 1, FlagNone, w', depth, fuel - 1)
  {
    var y := if unary == OP_IDT then regs[r] else regs[r] - 1;
    FetchPlain(w.params, v, width, regs, r);
    SmallModulo(width, y);
    assert UnopResult(f, unary, Operand(Unsigned(width), regs[r])) == Some(Operand(Unsigned(width), y));
    PutOperand(w.params, v, width, regs, result, y);
    w' := Leaf(f, p[i], w).1;
    RunLeaf(m, f, p, i, w, w', depth, fuel);
  }

  lemma SumResult<E>(f: Foreign<E>, width: Width, x: int, y: int)
    ensures BinopResult(f, OP_ADD, Operand(Unsigned(width), x), Operand(Unsigned(width), y))
         == Some(Operand(Unsigned(width), Wide(Unsigned(width), x + y)))
  {
  }

  lemma RunSum<E>(m: Machine<World<E>>, f: Foreign<E>, p: Proc, i: nat, v: Names, width: Width, w: World<E>,
          regs: Values,
               a: Register, b: Register, result: Register, depth: nat, fuel: nat)
    returns (w': World<E>)
    requires m.interp == LocalInterp(f) && i < |p| && fuel > 0 && IsLocal(f, p[i]) && p[i] == Local(Binop(v[a], OP_ADD, v[b], v[result]))
    requires Holds(w.params, v, width, regs)
    ensures Holds(w'.params, v, width, regs[result := (regs[a] + regs[b]) % Modulus(width)])
    ensures Run(m, p, i, FlagNone, w, depth, fuel) == Run(m, p, i + 1, FlagNone, w', depth, fuel - 1)
  {
    hide BinopResult, Fetch, SetOperand, Wide, Holds, Run, LocalInterp;
    var y := Wide(Unsigned(width), regs[a] + regs[b]);
    SumResult(f, width, regs[a], regs[b]);
    FetchPlain(w.params, v, width, regs, a);
    FetchPlain(w.params, v, width, regs, b);
    PutOperand(w.params, v, width, regs, result, y);
    WideIsCongruent(Unsigned(width), regs[a] + regs[b]);
    w' := Leaf(f, p[i], w).1;
    RunLeaf(m, f, p, i, w, w', depth, fuel);
  }

  lemma RunText<E>(m: Machine<World<E>>, f: Foreign<E>, p: Proc, i: nat, v: Names, width: Width, w: World<E>,
          regs: Values,
                r: Register, text: CString, y: int, depth: nat, fuel: nat)
    returns (w': World<E>)
    requires m.interp == LocalInterp(f) && i < |p| && fuel > 0 && IsLocal(f, p[i]) && p[i] == Local(Set(v[r], text))
    requires Holds(w.params, v, width, regs)
    requires f.parse(Unsigned(width), text) == Some(y) && 0 <= y < Modulus(width)
    ensures Holds(w'.params, v, width, regs[r := y])
    ensures Run(m, p, i, FlagNone, w, depth, fuel) == Run(m, p, i + 1, FlagNone, w', depth, fuel - 1)
  {
    PlainName(v[r]);
    w' := Leaf(f, p[i], w).1;
    RunLeaf(m, f, p, i, w, w', depth, fuel);
  }

  lemma RunTest<E>(m: Machine<World<E>>, f: Foreign<E>, p: Proc, i: nat, v: Names, width: Width, w: World<E>,
          regs: Values,
                cmp: uint32, depth: nat, fuel: nat)
    requires m.interp == LocalInterp(f) && i < |p| && fuel > 0 && IsLocal(f, p[i]) && p[i] == Local(IfElse(v[N], cmp, v[NIL]))
    requires Holds(w.params, v, width, regs) && (cmp == OP_GT || cmp == OP_EQ)
    ensures var holds := if cmp == OP_GT then regs[N] > regs[NIL] else regs[N] == regs[NIL];
            Run(m, p, i, FlagNone, w, depth, fuel) ==
            Run(m, p, i + 1, if holds then FlagTrue else FlagFalse, w, depth, fuel - 1)
  {
    FetchPlain(w.params, v, width, regs, N);
    FetchPlain(w.params, v, width, regs, NIL);
  }

  // ---------------------------------------------------------------- the calculation

  /** One pass over the registers: a Fibonacci step. */
  function NextTerm(width: Width, regs: Values): Values {
    var sum := (regs[RX0] + regs[RX1]) % Modulus(width);
    [regs[N] - 1, regs[NIL], regs[RX1], sum, sum]
  }

  lemma OneTerm<E>(m: Machine<World<E>>, f: Foreign<E>, v: Names, width: Width, w: World<E>, regs: Values, depth: nat,
          fuel: nat)
    returns (w': World<E>)
    requires m.interp == LocalInterp(f) && IsPlain(f, v) && Holds(w.params, v, width, regs) && regs[N] > 0 && fuel >= 4
    ensures Holds(w'.params, v, width, NextTerm(width, regs))
    ensures Run(m, Calculation(v), 0, FlagNone, w, depth, fuel) == Run(m, Calculation(v), 4, FlagNone, w', depth, fuel - 4)
  {
    hide Run, Holds, LocalInterp, Initialization;
    var p := Calculation(v);
    var sum := (regs[RX0] + regs[RX1]) % Modulus(width);
    var w1 := RunSum(m, f, p, 0, v, width, w, regs, RX0, RX1, RX2, depth, fuel);
    var regs1 := regs[RX2 := sum];
    var w2 := RunUnop(m, f, p, 1, v, width, w1, regs1, RX1, OP_IDT, RX0, depth, fuel - 1);
    var regs2 := regs1[RX0 := regs[RX1]];
    var w3 := RunUnop(m, f, p, 2, v, width, w2, regs2, RX2, OP_IDT, RX1, depth, fuel - 2);
    var regs3 := regs2[RX1 := sum];
    w' := RunUnop(m, f, p, 3, v, width, w3, regs3, N, OP_DEC, N, depth, fuel - 3);
    assert regs3[N := regs[N] - 1] == NextTerm(width, regs);
  }

  /** The test against zero at the end of a pass, and the tail call in its else-branch. */
  lemma EndOfPass<E>(m: Machine<World<E>>, f: Foreign<E>, v: Names, width: Width, w: World<E>, regs: Values,
          depth: nat, fuel: nat)
    requires m.interp == LocalInterp(f) && IsPlain(f, v) && m.tailCalls && m.store[1] == Calculation(v)
    requires Holds(w.params, v, width, regs) && regs[NIL] == 0 && fuel >= 3
    ensures Run(m, Calculation(v), 4, FlagNone, w, depth, fuel) ==
            if regs[N] == 0 then Finished(0, false, w, depth)
            else Run(m, Calculation(v), 0, FlagNone, w, depth, fuel - 3)
  {
    var p := Calculation(v);
    RunTest(m, f, p, 4, v, width, w, regs, OP_EQ, depth, fuel);
    assert Analyze.TailMark(p, 6);
    if regs[N] == 0 {
      assert Run(m, p, 7, FlagNone, w, depth, fuel - 3) == Finished(0, false, w, depth);
      assert Run(m, p, 6, FlagFalse, w, depth, fuel - 2) == Finished(0, false, w, depth);
    } else {
      assert Run(m, p, 5, FlagFalse, w, depth, fuel - 1) == Run(m, p, 6, FlagNone, w, depth, fuel - 2);
    }
  }

  /** From the k-th term, n passes lead to the term k + n, all in the same frame. */
  lemma {:induction false} Passes<E>(m: Machine<World<E>>, f: Foreign<E>, v: Names, width: Width, w: World<E>,
          regs: Values,
                                  k: nat, depth: nat, fuel: nat)
    returns (w': World<E>, regs': Values)
    requires m.interp == LocalInterp(f) && IsPlain(f, v) && m.tailCalls && m.store[1] == Calculation(v)
    requires Holds(w.params, v, width, regs) && regs[NIL] == 0 && regs[N] > 0
    requires regs[RX0] == Fib(k) % Modulus(width) && regs[RX1] == Fib(k + 1) % Modulus(width)
    requires fuel >= 7 * regs[N]
    ensures Run(m, Calculation(v), 0, FlagNone, w, depth, fuel) == Finished(0, false, w', depth)
    ensures Holds(w'.params, v, width, regs') && regs'[RX0] == Fib(k + regs[N]) % Modulus(width)
    decreases regs[N]
  {
    hide Run;
    w' := OneTerm(m, f, v, width, w, regs, depth, fuel);
    regs' := NextTerm(width, regs);
    SumModulo(width, Fib(k), Fib(k + 1));
    EndOfPass(m, f, v, width, w', regs', depth, fuel - 4);
    if regs'[N] != 0 {
      w', regs' := Passes(m, f, v, width, w', regs', k + 1, depth, fuel - 7);
    }
  }

  lemma SumModulo(width: Width, x: int, y: int)
    ensures (x % Modulus(width) + y % Modulus(width)) % Modulus(width) == (x + y) % Modulus(width)
  {
    var m := Modulus(width);
    ModuloMultiple(x % m + y % m, m, x / m + y / m);
    assert x == (x / m) * m + x % m && y == (y / m) * m + y % m;
  }

  // ---------------------------------------------------------------- the program

  /** For every width and every n of that width, running the initialization in slot 0
      computes the n-th Fibonacci number modulo 2 to the width, in a single frame, however
      far n exceeds the recursion limit. */
  lemma ComputesFibonacci<E>(f: Foreign<E>, store: Store, v: Names, width: Width, w: World<E>, regs: Values, fuel: nat)
    returns (w': World<E>, regs': Values)
    requires store[0] == Initialization(v) && store[1] == Calculation(v)
    requires Holds(w.params, v, width, regs)
    requires IsPlain(f, v)
    requires f.parse(Unsigned(width), TEXT_0) == Some(0) && f.parse(Unsigned(width), TEXT_1) == Some(1)
    requires fuel >= 7 * regs[N] + 5
    ensures Enter(Real(LocalInterp(f), store), store[0], w, 0, fuel) == Finished(0, false, w', 1)
    ensures Holds(w'.params, v, width, regs') && regs'[RX0] == Fib(regs[N]) % Modulus(width)
  {
    hide Run, LocalInterp, Initialization, Calculation;
    var m := Real(LocalInterp(f), store);
    var start := regs[NIL := 0][RX0 := 0][RX1 := 1];
    w' := InitializationSets(m, f, v, width, w, regs, 1, fuel);
    InitializationEnds(m, f, v, width, w', start, 1, fuel - 3);
    SmallModulo(width, 0);
    SmallModulo(width, 1);
    regs' := start;
    if regs[N] != 0 {
      w', regs' := Passes(m, f, v, width, w', start, 0, 1, fuel - 5);
    }
  }

  /** The three instructions in front of the test. */
  lemma InitializationSets<E>(m: Machine<World<E>>, f: Foreign<E>, v: Names, width: Width, w: World<E>, regs: Values,
          depth: nat, fuel: nat)
    returns (w': World<E>)
    requires m.interp == LocalInterp(f) && IsPlain(f, v) && Holds(w.params, v, width, regs) && fuel >= 3
    requires f.parse(Unsigned(width), TEXT_0) == Some(0) && f.parse(Unsigned(width), TEXT_1) == Some(1)
    ensures Holds(w'.params, v, width, regs[NIL := 0][RX0 := 0][RX1 := 1])
    ensures Run(m, Initialization(v), 0, FlagNone, w, depth, fuel) == Run(m, Initialization(v), 3, FlagNone, w', depth, fuel - 3)
  {
    hide Run, Holds, LocalInterp, Calculation;
    var p := Initialization(v);
    var w1 := RunText(m, f, p, 0, v, width, w, regs, NIL, TEXT_0, 0, depth, fuel);
    var w2 := RunText(m, f, p, 1, v, width, w1, regs[NIL := 0], RX0, TEXT_0, 0, depth, fuel - 1);
    w' := RunText(m, f, p, 2, v, width, w2, regs[NIL := 0][RX0 := 0], RX1, TEXT_1, 1, depth, fuel - 2);
  }

  lemma InitializationEnds<E>(m: Machine<World<E>>, f: Foreign<E>, v: Names, width: Width, w: World<E>, regs: Values,
          depth: nat, fuel: nat)
    requires m.interp == LocalInterp(f) && IsPlain(f, v) && m.tailCalls && m.store[1] == Calculation(v)
    requires Holds(w.params, v, width, regs) && regs[NIL] == 0 && fuel >= 2
    ensures Run(m, Initialization(v), 3, FlagNone, w, depth, fuel) ==
            if regs[N] == 0 then Finished(0, false, w, depth)
            else Run(m, Calculation(v), 0, FlagNone, w, depth, fuel - 2)
  {
    var p := Initialization(v);
    RunTest(m, f, p, 3, v, width, w, regs, OP_GT, depth, fuel);
    assert Analyze.TailMark(p, 4);
    if regs[N] == 0 {
      assert Run(m, p, 5, FlagNone, w, depth, fuel - 2) == Finished(0, false, w, depth);
    }
  }

  lemma {:induction false} ChainsLeadToOne(store: Store, v: Names, p: Proc, path: seq<byte>)
    requires store[1] == Calculation(v) && (p == Initialization(v) || p == Calculation(v))
    requires Analyze.CallChain(store, p, path)
    ensures path[|path| - 1] == 1
    decreases |path|
  {
    if |path| > 1 {
      ChainsLeadToOne(store, v, store[1], path[1..]);
    }
  }

  lemma ProgramIsAnalysable(store: Store, v: Names)
    requires store[0] == Initialization(v) && store[1] == Calculation(v)
    ensures Analyze.Analysable(store, store[0]) && !Analyze.CallsFree(store, store[0])
  {
    forall path | Analyze.CallChain(store, store[0], path)
      ensures store[path[|path| - 1]] != []
    {
      ChainsLeadToOne(store, v, store[0], path);
    }
  }

  /** The whole way: a worker that analyses and interprets slot 0 ends with code 0 and the
      n-th Fibonacci number in rx0, having held one interpreter frame at a time. */
  method RunFibonacci<E>(f: Foreign<E>, store: Store, v: Names, ghost width: Width, w: World<E>, ghost regs: Values,
          fuel: nat)
    returns (ended: bool, ret: int, thread: Runtime.Thread<E>)
    requires store[0] == Initialization(v) && store[1] == Calculation(v)
    requires Holds(w.params, v, width, regs)
    requires IsPlain(f, v)
    requires f.parse(Unsigned(width), TEXT_0) == Some(0) && f.parse(Unsigned(width), TEXT_1) == Some(1)
    requires fuel >= 7 * regs[N] + 5
    ensures ended && ret == 0 && thread.peak == 1
    ensures v[RX0] in thread.table.params && thread.table.params[v[RX0]].values != []
    ensures thread.table.params[v[RX0]].values[0] == Fib(regs[N]) % Modulus(width)
  {
    ProgramIsAnalysable(store, v);
    ghost var w', regs' := ComputesFibonacci(f, store, v, width, w, regs, fuel);
    hide Enter, Run;
    var started;
    started, ended, ret, thread := Runtime.RuntimeThread(f, store, store[0], w, fuel);
  }

  // ---------------------------------------------------------------- over the network

  function PushCalculation(v: Names): Requests.Event {
    Requests.Serve(Requests.Push(1, Calculation(v)), None)
  }

  /** The client pushes both procedures and starts slot 0. */
  function PushProgram(v: Names, thread: Requests.Thread): seq<Requests.Event> {
    Workers.PushRun(0, Initialization(v), [PushCalculation(v)], thread)
  }

  /** A packet can carry each of the two procedures. */
  predicate ProgramFits(v: Names, capacity: nat) {
    && Codec.HEADER + |Codec.Encode(Initialization(v))| <= capacity
    && Codec.HEADER + |Codec.Encode(Calculation(v))| <= capacity
  }

  /** Two free slots, room for a job, and a thread that is not in use. */
  predicate IsReady(n: Requests.Node, thread: Requests.Thread) {
    && n.store[0] == [] && n.store[1] == []
    && |n.jobs| < MAX_PROC_CONCURRENT && thread !in Requests.ThreadsOf(n.jobs)
  }

  lemma ProgramArrives(n: Requests.Node, v: Names, thread: Requests.Thread, capacity: nat)
    requires IsReady(n, thread) && ProgramFits(v, capacity)
    ensures Server.Servable(n, PushProgram(v, thread), capacity)
    ensures Requests.After(n, [Requests.Serve(Requests.Push(0, Initialization(v)), None)] + [PushCalculation(v)]).jobs == n.jobs
    ensures var store := Requests.After(n, PushProgram(v, thread)).store;
            store[0] == Initialization(v) && store[1] == Calculation(v)
  {
    var first, second := Requests.Serve(Requests.Push(0, Initialization(v)), None), PushCalculation(v);
    var third := Requests.Serve(Requests.Run(0), Some(thread));
    var es := PushProgram(v, thread);
    assert es == [first, second, third];
    assert es[..0] == [] && es[..1] == [] + [first] && es[..2] == [first] + [second] && es == [first, second] + [third];
    Requests.AfterOneMore(n, [], first);
    Requests.AfterOneMore(n, [first], second);
    Requests.AfterOneMore(n, [first, second], third);
    hide Requests.After, Initialization, Calculation, Codec.Encode;
    ProgramIsKnown(v);
  }

  lemma ProgramIsKnown(v: Names)
    ensures Codec.AllKnown(Initialization(v)) && Codec.AllKnown(Calculation(v))
    ensures Initialization(v) != [] && Calculation(v) != []
  {
  }

  /** From packets to parameters: the program is pushed into two free slots of a server and
      started, and the worker ends with the n-th Fibonacci number in rx0. */
  method FibonacciOverNetwork<E>(store: Stores.ProcStore, packet: Pack.Packet, thread: Requests.Thread, f: Foreign<E>,
                                 v: Names, ghost width: Width, w: World<E>, ghost regs: Values, fuel: nat)
    returns (ended: bool, ret: int, worker: Runtime.Thread<E>)
    requires packet.data.Length >= Codec.HEADER && Server.Valid(store, packet.data.Length)
    requires IsReady(store.State(), thread) && ProgramFits(v, packet.data.Length)
    requires Holds(w.params, v, width, regs) && IsPlain(f, v)
    requires f.parse(Unsigned(width), TEXT_0) == Some(0) && f.parse(Unsigned(width), TEXT_1) == Some(1)
    requires fuel >= 7 * regs[N] + 5
    modifies packet, packet.data, store, store.memory, store.slots
    ensures Server.Valid(store, packet.data.Length)
    ensures ended && ret == 0 && worker.peak == 1
    ensures v[RX0] in worker.table.params && worker.table.params[v[RX0]].values != []
    ensures worker.table.params[v[RX0]].values[0] == Fib(regs[N]) % Modulus(width)
    ensures store.State() == Requests.Next(Requests.After(old(store.State()), PushProgram(v, thread)), Requests.End(thread))
  {
    hide Enter, Run, Requests.After, Requests.Next, Server.Servable, Initialization, Calculation, Codec.Encode,
         Analyze.Analysable, Analyze.CallsFree, Stores.Texts, Stores.JobsOf, Server.Valid;
    ghost var contents := Requests.After(store.State(), PushProgram(v, thread)).store;
    ProgramArrives(store.State(), v, thread, packet.data.Length);
    ProgramIsKnown(v);
    ProgramIsAnalysable(contents, v);
    ghost var w', regs' := ComputesFibonacci(f, contents, v, width, w, regs, fuel);
    var started;
    started, ended, ret, worker :=
      Workers.PushAndRun(store, packet, 0, Initialization(v), [PushCalculation(v)], thread, f, w, fuel);
  }
}
