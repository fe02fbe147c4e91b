/** The flag machine that interprets a procedure (src/runtime/proc_runtime_instructions_POSIX.c,
    proc_runtime_call in src/runtime/proc_runtime_instructions_common.c), as a function.

    Runs may diverge, so a run is indexed by fuel. The meaning of the primitive
    instructions is a parameter over an arbitrary world `W`: parameters, clocks, remote
    nodes, logs.
 */
module Machine {
  import opened ProcTypes
  import opened Analyze

  /** The primitive instructions: a leaf returns its code, a condition its verdict. */
  datatype Interp<!W> = Interp(
    leaf: (Instruction<CString>, W) -> (int, W),
    cond: (Instruction<CString>, W) -> (Verdict, W))

  /** `tailCalls` is off for the machine that nests every call; `limit` bounds the
      recursion depth if there is a bound. */
  datatype Machine<!W> = Machine(interp: Interp<W>, store: Store, tailCalls: bool, limit: Option<nat>)

  const MAX_PROC_RECURSION_DEPTH: nat := 1000

  /** The machine the runtime is. */
  function Real<W>(interp: Interp<W>, store: Store): Machine<W> {
    Machine(interp, store, true, Some(MAX_PROC_RECURSION_DEPTH))
  }

  /** `peak` is the largest number of interpreter frames alive at once; `tooDeep` tells
      the depth error from other failures with the same code. */
  datatype Outcome<+W> =
    | OutOfFuel(peak: nat)
    | Finished(code: int, tooDeep: bool, world: W, peak: nat)
  {
    predicate Proper() {
      Finished? && !tooDeep
    }

    ghost predicate Is(c: int, w: W) {
      Finished? && !tooDeep && code == c && world == w
    }

    function Raise(n: nat): Outcome<W> {
      this.(peak := if n > peak then n else peak)
    }
  }

  /** What one round of the loop decides: go on to the next instruction, run a slot
      first, or return. */
  datatype Action<+W> =
    | Goto(flag: IfElseFlag, world: W)
    | Invoke(slot: byte, flag: IfElseFlag)
    | Stop(code: int, world: W)

  /** The flag behind an instruction that runs under `flag`: after a then-branch the
      else-branch is to be skipped. */
  function Behind(flag: IfElseFlag): IfElseFlag {
    if flag.FlagTrue? then FlagFalse else flag
  }

  function Step<W>(interp: Interp<W>, instruction: Instruction<CString>, flag: IfElseFlag, w: W): (r: Action<W>)
    ensures flag.FlagFalse? ==> r == Goto(FlagNone, w)
    ensures !flag.FlagFalse? ==> (instruction.op.Call? <==> r.Invoke?)
    ensures r.Invoke? ==> r == Invoke(instruction.op.slot, Behind(flag))
  {
    if flag.FlagFalse? then Goto(FlagNone, w)
    else
      var next := Behind(flag);
      match instruction.op
      case IfElse(_, _, _) =>
        var (verdict, w') := interp.cond(instruction, w);
        if verdict.Code() <= FlagErr.Code() then Stop(verdict.Code(), w') else Goto(verdict, w')
      case Call(slot) => Invoke(slot, next)
      case Noop => Goto(next, w)
      case Unknown(_) => Stop(-1, w)
      case _ =>
        var (code, w') := interp.leaf(instruction, w);
        if code != 0 then Stop(code, w') else Goto(next, w')
  }

  /** The loop, from instruction `i`, with `depth` frames alive. */
  function Run<W>(m: Machine<W>, p: Proc, i: nat, flag: IfElseFlag, w: W, depth: nat, fuel: nat): (r: Outcome<W>)
    ensures r.Finished? && r.tooDeep ==> r.code == -1
    decreases fuel, 0
  {
    if i >= |p| then Finished(0, false, w, depth)
    else if fuel == 0 then OutOfFuel(depth)
    else
      match Step(m.interp, p[i], flag, w)
      case Stop(code, w') => Finished(code, false, w', depth)
      case Goto(flag', w') => Run(m, p, i + 1, flag', w', depth, fuel - 1)
      case Invoke(slot, flag') =>
        if m.tailCalls && TailMark(p, i) then Run(m, m.store[slot], 0, FlagNone, w, depth, fuel - 1)
        else
          var r := Enter(m, m.store[slot], w, depth, fuel - 1);
          if r.Finished? && r.code == 0 then Run(m, p, i + 1, flag', r.world, depth, fuel - 1).Raise(r.peak)
          else r
  }

  /** A call of the interpreter with `depth` frames alive: the depth check, then the loop. */
  function Enter<W>(m: Machine<W>, p: Proc, w: W, depth: nat, fuel: nat): (r: Outcome<W>)
    ensures r.Finished? && r.tooDeep ==> r.code == -1
    decreases fuel, 1
  {
    if m.limit.Some? && depth > m.limit.value then Finished(-1, true, w, depth)
    else Run(m, p, 0, FlagNone, w, depth + 1, fuel)
  }

  /** One round of the loop. */
  lemma RunUnfolds<W>(m: Machine<W>, p: Proc, i: nat, flag: IfElseFlag, w: W, depth: nat, fuel: nat)
    ensures var run := Run(m, p, i, flag, w, depth, fuel);
            if i >= |p| then run == Finished(0, false, w, depth)
            else if fuel == 0 then run == OutOfFuel(depth)
            else
              match Step(m.interp, p[i], flag, w)
              case Stop(code, w') => run == Finished(code, false, w', depth)
              case Goto(flag', w') => run == Run(m, p, i + 1, flag', w', depth, fuel - 1)
              case Invoke(slot, flag') =>
                if m.tailCalls && TailMark(p, i) then run == Run(m, m.store[slot], 0, FlagNone, w, depth, fuel - 1)
                else
                  var r := Enter(m, m.store[slot], w, depth, fuel - 1);
                  run == if r.Finished? && r.code == 0
                         then Run(m, p, i + 1, flag', r.world, depth, fuel - 1).Raise(r.peak) else r
  {
    hide TailMark, Step;
  }

  /** A round spelled out: what each type of instruction does to flag, world and code. A
      skipped instruction does nothing; a test leaves its verdict in the flag or ends the
      procedure with -2 or -3; any other code than 0 ends it, and a type that is none of
      the language with -1. */
  lemma RoundSpelledOut<W>(m: Machine<W>, p: Proc, i: nat, flag: IfElseFlag, w: W, depth: nat, fuel: nat)
    requires i < |p| && fuel > 0
    ensures var run := Run(m, p, i, flag, w, depth, fuel);
            var next := if flag == FlagTrue then FlagFalse else flag;
            if flag == FlagFalse then run == Run(m, p, i + 1, FlagNone, w, depth, fuel - 1)
            else
              match p[i].op
              case Noop => run == Run(m, p, i + 1, next, w, depth, fuel - 1)
              case Unknown(_) => run == Finished(-1, false, w, depth)
              case IfElse(_, _, _) =>
                (match m.interp.cond(p[i], w)
                 case (FlagTrue, w') => run == Run(m, p, i + 1, FlagTrue, w', depth, fuel - 1)
                 case (FlagFalse, w') => run == Run(m, p, i + 1, FlagFalse, w', depth, fuel - 1)
                 case (FlagErr, w') => run == Finished(-2, false, w', depth)
                 case (FlagErrType, w') => run == Finished(-3, false, w', depth)
                 case (FlagNone, _) => false)
              case Call(slot) =>
                if m.tailCalls && TailMark(p, i) then run == Run(m, m.store[slot], 0, FlagNone, w, depth, fuel - 1)
                else
                  var r := Enter(m, m.store[slot], w, depth, fuel - 1);
                  run == if r.Finished? && r.code == 0
                         then Run(m, p, i + 1, next, r.world, depth, fuel - 1).Raise(r.peak) else r
              case _ =>
                var (code, w') := m.interp.leaf(p[i], w);
                run == if code == 0 then Run(m, p, i + 1, next, w', depth, fuel - 1) else Finished(code, false, w', depth)
  {
    RunUnfolds(m, p, i, flag, w, depth, fuel);
    hide Run, TailMark;
  }

  lemma {:induction false} MoreFuel<W>(m: Machine<W>, p: Proc, i: nat, flag: IfElseFlag, w: W, depth: nat, fuel: nat,
          more: nat)
    requires Run(m, p, i, flag, w, depth, fuel).Finished? && fuel <= more
    ensures Run(m, p, i, flag, w, depth, more) == Run(m, p, i, flag, w, depth, fuel)
    decreases fuel
  {
    hide Step;
    if i < |p| {
      match Step(m.interp, p[i], flag, w)
      case Stop(_, _) =>
      case Goto(flag', w') => MoreFuel(m, p, i + 1, flag', w', depth, fuel - 1, more - 1);
      case Invoke(slot, flag') =>
        var q := m.store[slot];
        if m.tailCalls && TailMark(p, i) {
          MoreFuel(m, q, 0, FlagNone, w, depth, fuel - 1, more - 1);
        } else {
          if !(m.limit.Some? && depth > m.limit.value) {
            MoreFuel(m, q, 0, FlagNone, w, depth + 1, fuel - 1, more - 1);
          }
          var r := Enter(m, q, w, depth, fuel - 1);
          if r.code == 0 {
            MoreFuel(m, p, i + 1, flag', r.world, depth, fuel - 1, more - 1);
          }
        }
    }
  }

  // ---------------------------------------------------------------- the slots of a program

  /** All that `p` may come to call is of some kind. */
  ghost predicate Callable(store: Store, p: Proc, kind: Proc -> bool) {
    forall path :: CallChain(store, p, path) ==> kind(store[path[|path| - 1]])
  }

  /** `p` and all that it may come to call are of some kind. Other slots may hold anything. */
  ghost predicate Throughout(store: Store, p: Proc, kind: Proc -> bool) {
    kind(p) && Callable(store, p, kind)
  }

  lemma ItselfIs(store: Store, p: Proc, kind: Proc -> bool)
    requires Throughout(store, p, kind)
    ensures kind(p)
  {
  }

  lemma ThroughCall(store: Store, p: Proc, i: nat, kind: Proc -> bool)
    requires i < |p| && p[i].op.Call? && Throughout(store, p, kind)
    ensures Throughout(store, store[p[i].op.slot], kind)
  {
    var slot := p[i].op.slot;
    assert CallChain(store, p, [slot]);
    forall path | CallChain(store, store[slot], path)
      ensures kind(store[path[|path| - 1]])
    {
      assert ([slot] + path)[1..] == path;
      assert CallChain(store, p, [slot] + path);
    }
  }

  lemma ThroughoutImplies(store: Store, p: Proc, kind: Proc -> bool, other: Proc -> bool)
    requires Throughout(store, p, kind) && forall q :: kind(q) ==> other(q)
    ensures Throughout(store, p, other)
  {
  }

  // ---------------------------------------------------------------- the flag

  /** What the flag tells before instruction `i`, in any procedure: an IFELSE right behind
      which it is unset was skipped, so another IFELSE stands one or two places before. */
  predicate FlagPossible(p: Proc, i: nat, flag: IfElseFlag) {
    && (flag.FlagNone? && IfElseAt(p, i - 1) ==> IfElseAt(p, i - 2) || IfElseAt(p, i - 3))
    && (flag.FlagTrue? ==> IfElseAt(p, i - 1))
    && (flag.FlagFalse? ==> IfElseAt(p, i - 1) || IfElseAt(p, i - 2))
    && !flag.FlagErr? && !flag.FlagErrType?
  }

  lemma FlagStaysPossible<W>(interp: Interp<W>, p: Proc, i: nat, flag: IfElseFlag, w: W)
    requires i < |p| && FlagPossible(p, i, flag)
    ensures match Step(interp, p[i], flag, w)
            case Goto(flag', _) => FlagPossible(p, i + 1, flag')
            case Invoke(_, flag') => FlagPossible(p, i + 1, flag')
            case Stop(_, _) => true
  {
    if !flag.FlagFalse? && p[i].op.IfElse? {
      assert interp.cond(p[i], w).0 != FlagNone;
    }
  }

  /** From `i` on, the loop executes nothing but NOOPs. */
  predicate Idles(p: Proc, i: nat, flag: IfElseFlag)
    decreases |p| - i
  {
    i < |p| ==>
      if flag.FlagFalse? then Idles(p, i + 1, FlagNone)
      else p[i].op.Noop? && Idles(p, i + 1, Behind(flag))
  }

  lemma {:induction false} IdlesIffNoops(p: Proc, i: nat)
    ensures Idles(p, i, FlagNone) <==> OnlyNoopsFrom(p, i)
    decreases |p| - i
  {
    if i < |p| {
      IdlesIffNoops(p, i + 1);
      assert OnlyNoopsFrom(p, i) <==> p[i].op.Noop? && OnlyNoopsFrom(p, i + 1);
    }
  }

  /** A call behind an IFELSE that another IFELSE may skip, where the instruction behind
      the call, which the analysis takes for its else-branch, is the last that matters. */
  predicate Mismarked(p: Proc, i: nat)
    requires i < |p|
  {
    && p[i].op.Call?
    && IfElseAt(p, i - 1) && (IfElseAt(p, i - 2) || IfElseAt(p, i - 3))
    && i + 1 < |p| && !p[i + 1].op.Noop? && OnlyNoopsFrom(p, i + 2)
  }

  predicate MarksSound(p: Proc) {
    forall i :: 0 <= i < |p| ==> !Mismarked(p, i)
  }

  /** The mark of a call is exact, that is, set if and only if nothing but NOOPs is
      executed in its frame after it: in any procedure, unless the call is mismarked and
      is indeed reached with the IFELSE before it skipped. */
  lemma TailMarkExact(p: Proc, i: nat, flag: IfElseFlag)
    requires i < |p| && p[i].op.Call?
    requires FlagPossible(p, i, flag) && !flag.FlagFalse?
    ensures (TailMark(p, i) <==> Idles(p, i + 1, Behind(flag))) <==> !(flag.FlagNone? && Mismarked(p, i))
  {
    IdlesIffNoops(p, i + 1);
    IdlesIffNoops(p, i + 2);
    if i + 1 < |p| {
      assert OnlyNoopsFrom(p, i + 1) <==> p[i + 1].op.Noop? && OnlyNoopsFrom(p, i + 2);
    }
  }

  /** In the documented language every mark is exact. */
  lemma WellFormedMarks(p: Proc)
    requires WellFormed(p)
    ensures MarksSound(p)
  {
    forall i | 0 <= i < |p|
      ensures !Mismarked(p, i)
    {
      assert IfElseAt(p, i - 1) ==> !IfElseAt(p, i - 2) && !IfElseAt(p, i - 3);
    }
  }

  lemma MarkedCallIsLast(store: Store, p: Proc, i: nat, flag: IfElseFlag)
    requires i < |p| && p[i].op.Call? && TailMark(p, i) && Throughout(store, p, MarksSound)
    requires FlagPossible(p, i, flag) && !flag.FlagFalse?
    ensures Idles(p, i + 1, Behind(flag))
  {
    TailMarkExact(p, i, flag);
  }

  lemma NoFlagAtStart(p: Proc)
    ensures FlagPossible(p, 0, FlagNone)
  {
  }

  lemma {:induction false} IdleRun<W>(m: Machine<W>, p: Proc, i: nat, flag: IfElseFlag, w: W, depth: nat, fuel: nat)
    requires Idles(p, i, flag)
    ensures fuel >= |p| - i ==> Run(m, p, i, flag, w, depth, fuel) == Finished(0, false, w, depth)
    ensures Run(m, p, i, flag, w, depth, fuel).Finished? ==>
              Run(m, p, i, flag, w, depth, fuel) == Finished(0, false, w, depth)
    decreases fuel
  {
    if i < |p| && fuel > 0 {
      IdleRun(m, p, i + 1, if flag.FlagFalse? then FlagNone else Behind(flag), w, depth, fuel - 1);
    }
  }

  // ---------------------------------------------------------------- tail-call elimination

  /** A run of the nesting machine that ends without a depth error is matched by the
      machine with tail calls: same fuel, same code, same world, no more frames. */
  lemma {:induction false} TailCallsKeepResult<W>(m: Machine<W>, p: Proc, i: nat, flag: IfElseFlag, w: W,
                                                  depth: nat, less: nat, fuel: nat)
    requires Throughout(m.store, p, MarksSound) && FlagPossible(p, i, flag)
    requires less <= depth
    requires Run(m.(tailCalls := false), p, i, flag, w, depth, fuel).Proper()
    ensures var nested := Run(m.(tailCalls := false), p, i, flag, w, depth, fuel);
            var tailed := Run(m.(tailCalls := true), p, i, flag, w, less, fuel);
            tailed.Is(nested.code, nested.world) && tailed.peak <= nested.peak
    decreases fuel
  {
    hide Step, Throughout, TailMark, FlagPossible, Idles, MarksSound;
    var nesting := m.(tailCalls := false);
    if i < |p| {
      FlagStaysPossible(m.interp, p, i, flag, w);
      match Step(m.interp, p[i], flag, w)
      case Stop(_, _) =>
      case Goto(flag', w') => TailCallsKeepResult(m, p, i + 1, flag', w', depth, less, fuel - 1);
      case Invoke(slot, flag') =>
        var q := m.store[slot];
        var r := Enter(nesting, q, w, depth, fuel - 1);
        assert r.Proper();
        ThroughCall(m.store, p, i, MarksSound);
        NoFlagAtStart(q);
        TailCallsKeepResult(m, q, 0, FlagNone, w, depth + 1, if TailMark(p, i) then less else less + 1, fuel - 1);
        if TailMark(p, i) {
          if r.code == 0 {
            MarkedCallIsLast(m.store, p, i, flag);
            IdleRun(nesting, p, i + 1, flag', r.world, depth, fuel - 1);
          }
        } else if r.code == 0 {
          TailCallsKeepResult(m, p, i + 1, flag', r.world, depth, less, fuel - 1);
        }
    }
  }

  /** Conversely, a run with tail calls that ends without a depth error is matched by the
      nesting machine without a depth limit, on 255 more units of fuel. */
  lemma {:induction false} NestingMatchesTailCalls<W>(m: Machine<W>, p: Proc, i: nat, flag: IfElseFlag, w: W,
                                                      less: nat, depth: nat, fuel: nat)
    requires Throughout(m.store, p, MarksSound) && FlagPossible(p, i, flag)
    requires Run(m.(tailCalls := true), p, i, flag, w, less, fuel).Proper()
    ensures var tailed := Run(m.(tailCalls := true), p, i, flag, w, less, fuel);
            Run(m.(tailCalls := false, limit := None), p, i, flag, w, depth, fuel + MAX_INSTRUCTIONS).Is(tailed.code, tailed.world)
    decreases fuel
  {
    hide Step, Throughout, TailMark, FlagPossible, Idles, MarksSound;
    var nesting, tail := m.(tailCalls := false, limit := None), m.(tailCalls := true);
    if i < |p| {
      var more := fuel - 1 + MAX_INSTRUCTIONS;
      FlagStaysPossible(m.interp, p, i, flag, w);
      match Step(m.interp, p[i], flag, w)
      case Stop(_, _) =>
      case Goto(flag', w') => NestingMatchesTailCalls(m, p, i + 1, flag', w', less, depth, fuel - 1);
      case Invoke(slot, flag') =>
        var q := m.store[slot];
        ThroughCall(m.store, p, i, MarksSound);
        NoFlagAtStart(q);
        if TailMark(p, i) {
          NestingMatchesTailCalls(m, q, 0, FlagNone, w, less, depth + 1, fuel - 1);
          var r := Enter(nesting, q, w, depth, more);
          if r.code == 0 {
            MarkedCallIsLast(m.store, p, i, flag);
            IdleRun(nesting, p, i + 1, flag', r.world, depth, more);
          }
        } else {
          var r := Enter(tail, q, w, less, fuel - 1);
          assert r.Proper();
          NestingMatchesTailCalls(m, q, 0, FlagNone, w, less + 1, depth + 1, fuel - 1);
          assert Enter(nesting, q, w, depth, more).Is(r.code, r.world);
          if r.code == 0 {
            NestingMatchesTailCalls(m, p, i + 1, flag', r.world, less, depth, fuel - 1);
          }
        }
    }
  }

  /** With nested IFELSEs tail calls can lose an instruction: slot 0 holds a NOOP, the
      first condition fails, and the call drops the instruction that follows it. */
  lemma NestedIfElseLosesInstruction(store: Store)
    requires store[0] == [Instruction(0, Noop)]
    ensures var cond: Instruction<CString> := Instruction(0, IfElse([], 0, []));
            var p: Proc := [cond, cond, Instruction(0, Call(0)), Instruction(0, Set([], []))];
            var m := Machine(Interp((_, w: int) => (0, w + 1), (_, w: int) => (FlagFalse, w)), store, true, None);
            && !MarksSound(p)
            && Enter(m.(tailCalls := false), p, 0, 0, 5).Is(0, 1)
            && Enter(m, p, 0, 0, 5).Is(0, 0)
  {
    var cond: Instruction<CString> := Instruction(0, IfElse([], 0, []));
    var p: Proc := [cond, cond, Instruction(0, Call(0)), Instruction(0, Set([], []))];
    var m := Machine(Interp((_, w: int) => (0, w + 1), (_, w: int) => (FlagFalse, w)), store, true, None);
    assert Mismarked(p, 2) && TailMark(p, 2);
    assert Run(m, p, 2, FlagNone, 0, 1, 3).Is(0, 0);
    var nesting := m.(tailCalls := false);
    assert Run(nesting, p, 3, FlagNone, 0, 1, 2).Is(0, 1);
    assert Run(nesting, store[0], 0, FlagNone, 0, 2, 2).Is(0, 0);
    assert Run(nesting, p, 2, FlagNone, 0, 1, 3).Is(0, 1);
  }

  // ---------------------------------------------------------------- depth

  /** No run has more frames alive than the limit admits, whatever it ends with. */
  lemma {:induction false} PeakWithinLimit<W>(m: Machine<W>, p: Proc, i: nat, flag: IfElseFlag, w: W, depth: nat,
          fuel: nat)
    requires m.limit.Some? && depth <= m.limit.value + 1
    ensures depth <= Run(m, p, i, flag, w, depth, fuel).peak <= m.limit.value + 1
    decreases fuel
  {
    hide Step;
    if i < |p| && fuel > 0 {
      match Step(m.interp, p[i], flag, w)
      case Stop(_, _) =>
      case Goto(flag', w') => PeakWithinLimit(m, p, i + 1, flag', w', depth, fuel - 1);
      case Invoke(slot, flag') =>
        var q := m.store[slot];
        if m.tailCalls && TailMark(p, i) {
          PeakWithinLimit(m, q, 0, FlagNone, w, depth, fuel - 1);
        } else {
          if depth <= m.limit.value {
            PeakWithinLimit(m, q, 0, FlagNone, w, depth + 1, fuel - 1);
          }
          var r := Enter(m, q, w, depth, fuel - 1);
          if r.Finished? && r.code == 0 {
            PeakWithinLimit(m, p, i + 1, flag', r.world, depth, fuel - 1);
          }
        }
    }
  }

  lemma {:induction false} PeakAtLeastDepth<W>(m: Machine<W>, p: Proc, i: nat, flag: IfElseFlag, w: W, depth: nat,
          fuel: nat)
    ensures Run(m, p, i, flag, w, depth, fuel).peak >= depth
    decreases fuel
  {
    hide Step;
    if i < |p| && fuel > 0 {
      match Step(m.interp, p[i], flag, w)
      case Stop(_, _) =>
      case Goto(flag', w') => PeakAtLeastDepth(m, p, i + 1, flag', w', depth, fuel - 1);
      case Invoke(slot, flag') =>
        PeakAtLeastDepth(m, m.store[slot], 0, FlagNone, w, if m.tailCalls && TailMark(p, i) then depth else depth + 1, fuel - 1);
        var r := Enter(m, m.store[slot], w, depth, fuel - 1);
        if r.Finished? && r.code == 0 {
          PeakAtLeastDepth(m, p, i + 1, flag', r.world, depth, fuel - 1);
        }
    }
  }

  /** The limit is exact: a run ends with the depth error if and only if, without the
      limit, it would hold more frames than the limit admits; otherwise the limit changes
      nothing. */
  lemma {:induction false} LimitIsExact<W>(m: Machine<W>, p: Proc, i: nat, flag: IfElseFlag, w: W, depth: nat,
          fuel: nat)
    requires m.limit.Some? && depth <= m.limit.value + 1
    ensures var r := Run(m, p, i, flag, w, depth, fuel);
            var free := Run(m.(limit := None), p, i, flag, w, depth, fuel);
            if free.peak > m.limit.value + 1 then r.Finished? && r.tooDeep else r == free && !(r.Finished? && r.tooDeep)
    decreases fuel
  {
    hide Run, Step, TailMark;
    RunUnfolds(m, p, i, flag, w, depth, fuel);
    RunUnfolds(m.(limit := None), p, i, flag, w, depth, fuel);
    if i < |p| && fuel > 0 {
      match Step(m.interp, p[i], flag, w)
      case Stop(_, _) =>
      case Goto(flag', w') => LimitIsExact(m, p, i + 1, flag', w', depth, fuel - 1);
      case Invoke(slot, flag') =>
        var q := m.store[slot];
        if m.tailCalls && TailMark(p, i) {
          LimitIsExact(m, q, 0, FlagNone, w, depth, fuel - 1);
        } else if depth > m.limit.value {
          PeakAtLeastDepth(m.(limit := None), q, 0, FlagNone, w, depth + 1, fuel - 1);
        } else {
          LimitIsExact(m, q, 0, FlagNone, w, depth + 1, fuel - 1);
          var r := Enter(m, q, w, depth, fuel - 1);
          if r.Finished? && r.code == 0 {
            LimitIsExact(m, p, i + 1, flag', r.world, depth, fuel - 1);
          }
        }
    }
  }

  predicate OnlyTailCalls(p: Proc) {
    forall i :: 0 <= i < |p| && p[i].op.Call? ==> TailMark(p, i)
  }

  /** When every call that can be reached is a tail call, the run stays in one frame and
      cannot meet the depth error, however long it goes on. */
  lemma {:induction false} TailCallsStayInFrame<W>(m: Machine<W>, p: Proc, i: nat, flag: IfElseFlag, w: W, depth: nat,
          fuel: nat)
    requires m.tailCalls && Throughout(m.store, p, OnlyTailCalls)
    ensures var r := Run(m, p, i, flag, w, depth, fuel);
            r.peak == depth && !(r.Finished? && r.tooDeep)
    decreases fuel
  {
    hide Step;
    if i < |p| && fuel > 0 {
      match Step(m.interp, p[i], flag, w)
      case Stop(_, _) =>
      case Goto(flag', w') => TailCallsStayInFrame(m, p, i + 1, flag', w', depth, fuel - 1);
      case Invoke(slot, _) =>
        ThroughCall(m.store, p, i, OnlyTailCalls);
        TailCallsStayInFrame(m, m.store[slot], 0, FlagNone, w, depth, fuel - 1);
    }
  }
}
