/** The interpreter as the runtime implements it: a loop over instructions that walks the
    analysis graph, with a depth counter kept by the thread, on parameters updated in place
    (src/runtime/proc_runtime_instructions_FreeRTOS.c, proc_runtime_call).
 */
module Runtime {
  import opened ProcTypes
  import opened Analyze
  import opened Machine
  import opened LocalParams
  import Structured

  function Max(a: nat, b: nat): nat {
    if a > b then a else b
  }

  lemma {:induction false} CallSlotsHold(p: Proc, i: nat, n: nat)
    requires i < n <= |p| && p[i].op.Call?
    ensures p[i].op.slot in CallSlots(p, n)
    decreases n
  {
    if i < n - 1 {
      CallSlotsHold(p, i, n - 1);
    }
  }

  /** A thread that runs a procedure: its depth counter, the parameters of its node and the
      rest of the world it acts on. `peak` records the most interpreter frames it has held. */
  class Thread<E> {
    const table: ParamTable
    var depth: nat
    var env: E
    ghost var peak: nat

    constructor (world: World<E>)
      ensures depth == 0 && Now() == world && peak == 0 && fresh(table)
    {
      table := new ParamTable(world.params);
      depth, env, peak := 0, world.env, 0;
    }

    function Now(): World<E>
      reads this, table
    {
      World(table.params, env)
    }

    /** What the parameters of the model stand for does as it likes. */
    method Become(world: World<E>)
      modifies this`env, table
      ensures Now() == world
    {
      table.params, env := world.params, world.env;
    }

    /** The switch over instruction types, for all but calls. */
    method ExecutePrimitive(f: Foreign<E>, instruction: Instruction<CString>, flag: IfElseFlag)
      returns (ret: int, flag': IfElseFlag)
      requires !flag.FlagTrue?
      modifies this`env, table
      ensures !instruction.op.Call? ==> forall before: IfElseFlag | !before.FlagFalse? && Behind(before) == flag ::
                Step(LocalInterp(f), instruction, before, old(Now())) ==
                if ret == 0 then Goto(flag', Now()) else Stop(ret, Now())
    {
      hide LocalLeaf, LocalTest;
      ret, flag' := 0, flag;
      match instruction.op
      case IfElse(a, cmp, b) =>
        if IsLocal(f, instruction) {
          flag' := table.ProcRuntimeIfelse(a, cmp, b);
        } else {
          var (verdict, world) := f.cond(instruction, Now());
          Become(world);
          flag' := verdict;
        }
        ret := if flag'.Code() <= FlagErr.Code() then flag'.Code() else 0;
      case Call(_) =>  // left to the loop
      case Noop =>
      case Unknown(_) =>
        ret := -1;
      case Block(_, _, _) =>
        ret := ExecuteForeign(f, instruction);
      case _ =>
        if IsLocal(f, instruction) {
          ret := ExecuteLocal(f, instruction.op);
        } else {
          ret := ExecuteForeign(f, instruction);
        }
    }

    method ExecuteForeign(f: Foreign<E>, instruction: Instruction<CString>) returns (ret: int)
      modifies this`env, table
      ensures (ret, Now()) == f.leaf(instruction, old(Now()))
    {
      var (code, world) := f.leaf(instruction, Now());
      Become(world);
      ret := code;
    }

    method ExecuteLocal(f: Foreign<E>, op: Op<CString>) returns (ret: int)
      requires op.Set? || op.Unop? || op.Binop?
      modifies table
      ensures (ret, table.params) == LocalLeaf(f, op, old(table.params))
    {
      hide LocalLeaf;
      match op
      case Set(param, text) => ret := table.ProcRuntimeSet(f, param, text);
      case Unop(param, unary, result) => ret := table.ProcRuntimeUnop(f, param, unary, result);
      case Binop(a, binary, b, result) => ret := table.ProcRuntimeBinop(f, a, binary, b, result);
    }

    /** Runs `proc`, giving up after `fuel` rounds. It does what the machine does, and
        leaves the depth counter as it was however it ends. */
    method ProcInstructionsExec(f: Foreign<E>, ghost store: Store, proc: Proc, analysis: Analysis,
                                ghost nodes: set<Analysis>, fuel: nat)
      returns (ended: bool, ret: int)
      requires Graph(store, nodes) && analysis in nodes && analysis.proc == proc
      requires depth <= peak
      modifies this, table
      decreases fuel, 0
      ensures depth == old(depth)
      ensures var r := Enter(Real(LocalInterp(f), store), proc, old(Now()), old(depth), fuel);
              && ended == r.Finished?
              && (ended ==> ret == r.code && Now() == r.world)
              && peak == Max(old(peak), r.peak)
    {
      hide Run, Step, LocalInterp, Complete;
      var recursionDepth := depth;
      if recursionDepth > MAX_PROC_RECURSION_DEPTH {
        return true, -1;
      }
      depth := recursionDepth + 1;
      peak := Max(peak, depth);

      ghost var m := Real(LocalInterp(f), store);
      ghost var whole := Run(m, proc, 0, FlagNone, Now(), depth, fuel).Raise(peak);
      PeakWithinLimit(m, proc, 0, FlagNone, Now(), depth, fuel);

      var proc, analysis := proc, analysis;
      var flag := FlagNone;
      var left := fuel;
      var i := 0;
      while i < |proc|
        invariant 0 <= i && analysis in nodes && analysis.proc == proc
        invariant depth == recursionDepth + 1 <= peak
        invariant whole == Run(m, proc, i, flag, Now(), depth, left).Raise(peak)
        decreases left
      {
        RunUnfolds(m, proc, i, flag, Now(), depth, left);
        if left == 0 {
          depth := recursionDepth;
          return false, 0;
        }
        left := left - 1;
        ended, ret, analysis, proc, i, flag := ExecuteRound(f, store, analysis, proc, i, flag, nodes, left);
        if !ended || ret != 0 {
          depth := recursionDepth;
          return;
        }
      }
      RunUnfolds(m, proc, i, flag, Now(), depth, left);
      depth := recursionDepth;
      return true, 0;
    }

    /** One round of the loop. */
    method ExecuteRound(f: Foreign<E>, ghost store: Store, analysis: Analysis, proc: Proc, i: nat,
                        flag: IfElseFlag, ghost nodes: set<Analysis>, fuel: nat)
      returns (ended: bool, ret: int, analysis': Analysis, proc': Proc, i': int, flag': IfElseFlag)
      requires Graph(store, nodes) && analysis in nodes && analysis.proc == proc
      requires i < |proc| && depth <= peak
      modifies this, table
      decreases fuel, 2
      ensures depth == old(depth) <= peak
      ensures 0 <= i' && analysis' in nodes && analysis'.proc == proc'
      ensures var m := Real(LocalInterp(f), store);
              var r := Run(m, proc, i, flag, old(Now()), depth, fuel + 1).Raise(old(peak));
              if ended && ret == 0 then r == Run(m, proc', i', flag', Now(), depth, fuel).Raise(peak)
              else ended == r.Finished? && peak == r.peak && (ended ==> ret == r.code && Now() == r.world)
    {
      hide Run, Step, LocalInterp, Complete, TailMark;
      RunUnfolds(Real(LocalInterp(f), store), proc, i, flag, Now(), depth, fuel + 1);
      ended, ret, analysis', proc', i', flag' := true, 0, analysis, proc, i, flag;
      var instruction := proc[i];
      if flag == FlagFalse {
        return true, 0, analysis, proc, i + 1, FlagNone;
      } else if flag == FlagTrue {
        flag' := FlagFalse;
      }
      if instruction.op.Call? {
        ended, ret, analysis', proc', i', flag' :=
          ProcRuntimeCall(f, store, analysis, proc, i, flag', nodes, fuel);
      } else {
        ret, flag' := ExecutePrimitive(f, instruction, flag');
      }
      i' := i' + 1;
    }

    /** A call from instruction `i`: a tail call replaces the caller's loop state, any
        other call runs the interpreter again. The search of the slot list always finds
        the node of the stored procedure. */
    method ProcRuntimeCall(f: Foreign<E>, ghost store: Store, analysis: Analysis, proc: Proc, i: nat,
                           flag: IfElseFlag, ghost nodes: set<Analysis>, fuel: nat)
      returns (ended: bool, ret: int, analysis': Analysis, proc': Proc, i': int, flag': IfElseFlag)
      requires Graph(store, nodes) && analysis in nodes && analysis.proc == proc
      requires i < |proc| && proc[i].op.Call?
      requires depth <= peak
      modifies this, table
      decreases fuel, 1
      ensures depth == old(depth)
      ensures analysis' in nodes && analysis'.proc == proc'
      ensures TailMark(proc, i) ==>
                && ended && ret == 0
                && proc' == store[proc[i].op.slot] && i' == -1 && flag' == FlagNone
                && Now() == old(Now()) && peak == old(peak)
      ensures !TailMark(proc, i) ==>
                && analysis' == analysis && i' == i && flag' == flag
                && var r := Enter(Real(LocalInterp(f), store), store[proc[i].op.slot], old(Now()), depth, fuel);
                   && ended == r.Finished?
                   && (ended ==> ret == r.code && Now() == r.world)
                   && peak == Max(old(peak), r.peak)
    {
      var slot := proc[i].op.slot;
      CallSlotsHold(proc, i, |proc|);
      var analysisIndex := -1;
      var j := 0;
      while j < |analysis.procedureSlots|
        invariant 0 <= j <= |analysis.procedureSlots|
        invariant analysisIndex == -1 && slot !in analysis.procedureSlots[..j]
      {
        if analysis.procedureSlots[j] == slot {
          analysisIndex := j;
          break;
        }
        j := j + 1;
      }
      if analysisIndex == -1 {
        assert false;
        return true, -1, analysis, proc, i, flag;
      }
      var callee := analysis.subAnalyses[analysisIndex];
      if analysis.instructionAnalyses[i].isTailCall {
        return true, 0, callee, callee.proc, -1, FlagNone;
      } else {
        ended, ret := ProcInstructionsExec(f, store, callee.proc, callee, nodes, fuel);
        return ended, ret, analysis, proc, i, flag;
      }
    }
  }

  /** What a thread has come to after a run of `root` with some fuel is what the machine
      comes to. Without the depth error this is the structured meaning of a well-formed
      program; and whatever has a meaning is run to its end, given the fuel, if calls in
      other than last position nest no deeper than the limit. */
  ghost predicate HasRun<E>(f: Foreign<E>, store: Store, root: Proc, world: World<E>, fuel: nat,
                            ended: bool, ret: int, now: World<E>, peak: nat) {
    var interp := LocalInterp(f);
    var r := Enter(Real(interp, store), root, world, 0, fuel);
    && ended == r.Finished?
    && peak <= 1001
    && (ended ==> ret == r.code && now == r.world && peak == r.peak)
    && (Throughout(store, root, WellFormed) ==>
          && (r.Proper() ==>
                Structured.Eval(interp, store, Structured.Parse(root), world, fuel + MAX_INSTRUCTIONS)
                == Structured.Done(ret, now))
          && forall calls: nat | 256 * (calls + 1) <= fuel
               && Structured.Eval(interp, store, Structured.Parse(root), world, calls).Done?
               && Structured.Nesting(interp, store, Structured.Parse(root), true, world, calls) <= 1000 ::
               ended && Structured.Eval(interp, store, Structured.Parse(root), world, calls) == Structured.Done(ret, now))
  }

  lemma MachineHasRun<E>(f: Foreign<E>, store: Store, root: Proc, world: World<E>, fuel: nat, ret: int, now: World<E>,
          peak: nat)
    requires var r := Enter(Real(LocalInterp(f), store), root, world, 0, fuel);
             peak == r.peak && (r.Finished? ==> ret == r.code && now == r.world)
    ensures HasRun(f, store, root, world, fuel, Enter(Real(LocalInterp(f), store), root, world, 0, fuel).Finished?, ret, now, peak)
  {
    hide Run;
    var interp := LocalInterp(f);
    var m := Real(interp, store);
    PeakWithinLimit(m, root, 0, FlagNone, world, 1, fuel);
    if Throughout(store, root, WellFormed) {
      if Enter(m, root, world, 0, fuel).Proper() {
        Structured.RealRunMeans(interp, store, root, world, fuel);
      }
      forall calls: nat | 256 * (calls + 1) <= fuel
        && Structured.Eval(interp, store, Structured.Parse(root), world, calls).Done?
        && Structured.Nesting(interp, store, Structured.Parse(root), true, world, calls) <= 1000
        ensures Enter(m, root, world, 0, fuel).Finished?
        ensures Structured.Eval(interp, store, Structured.Parse(root), world, calls) == Structured.Done(ret, now)
      {
        Structured.MeaningIsRun(interp, store, root, world, calls);
        MoreFuel(m, root, 0, FlagNone, world, 1, 256 * (calls + 1), fuel);
      }
    }
  }

  /** A worker from start to finish: analyse the detached root, then interpret it. It gives
      up at once if a call of the root targets a free slot; the calls it reaches otherwise
      have to target occupied ones. */
  method RuntimeThread<E>(f: Foreign<E>, store: Store, root: Proc, world: World<E>, fuel: nat)
    returns (started: bool, ended: bool, ret: int, thread: Thread<E>)
    requires Analysable(store, root)
    ensures fresh(thread) && fresh(thread.table) && thread.depth == 0
    ensures started <==> !exists i :: 0 <= i < |root| && root[i].op.Call? && store[root[i].op.slot] == []
    ensures !started ==> !ended && ret == -1 && thread.Now() == world && thread.peak == 0
    ensures started ==> HasRun(f, store, root, world, fuel, ended, ret, thread.Now(), thread.peak)
  {
    hide Run, HasRun, Complete;
    var analysis, config, analyzed := AnalyzeProgram(store, root);
    thread := new Thread(world);
    if analyzed != 0 {
      return false, false, analyzed, thread;
    }
    started := true;
    ended, ret := thread.ProcInstructionsExec(f, store, root, analysis, config.analyses.Values + {analysis}, fuel);
    PeakWithinLimit(Real(LocalInterp(f), store), root, 0, FlagNone, world, 1, fuel);
    MachineHasRun(f, store, root, world, fuel, ret, thread.Now(), thread.peak);
  }
}
