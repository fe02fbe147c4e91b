/** The documented language as structured code, and its agreement with the runtime:
    the flag machine, the tail calls and the depth limit together compute what the
    if/then/else reading of a procedure says.
 */
module Structured {
  import opened ProcTypes
  import opened Analyze
  import opened Machine

  datatype Stmt =
    | Skip
    | Do(instruction: Instruction<CString>)
    | If(test: Instruction<CString>, thn: Stmt, els: Stmt)
    | Seq(first: Stmt, rest: Stmt)

  function DoAt(p: Proc, i: nat): Stmt {
    if i < |p| then Do(p[i]) else Skip
  }

  /** An IFELSE governs the two instructions that follow; a branch that the end of the
      list cuts off is empty. */
  function Parse(p: Proc, i: nat := 0): Stmt
    decreases |p| - i
  {
    if i >= |p| then Skip
    else if p[i].op.IfElse? then Seq(If(p[i], DoAt(p, i + 1), DoAt(p, i + 2)), Parse(p, i + 3))
    else Seq(Do(p[i]), Parse(p, i + 1))
  }

  datatype Result<+W> = OutOfCalls | Done(code: int, world: W)

  predicate IsTest(s: Stmt) {
    s.Do? && s.instruction.op.IfElse?
  }

  /** No branch of a test is a test. */
  predicate FlatTests(s: Stmt) {
    match s
    case If(_, thn, els) => !IsTest(thn) && !IsTest(els)
    case Seq(first, rest) => FlatTests(first) && FlatTests(rest)
    case _ => true
  }

  /** The documented language is the text that reads as code without nested tests. */
  lemma WellFormedIsFlat(p: Proc)
    ensures WellFormed(p) <==> FlatTests(Parse(p))
  {
    FlatFrom(p, 0);
    assert WellFormed(p) <==> forall i :: 0 <= i < |p| && p[i].op.IfElse? ==> !IfElseAt(p, i + 1) && !IfElseAt(p, i + 2);
  }

  lemma {:induction false} FlatFrom(p: Proc, i: nat)
    ensures FlatTests(Parse(p, i)) <==>
              forall j :: i <= j < |p| && p[j].op.IfElse? ==> !IfElseAt(p, j + 1) && !IfElseAt(p, j + 2)
    decreases |p| - i
  {
    if i < |p| {
      FlatFrom(p, if p[i].op.IfElse? then i + 3 else i + 1);
      if p[i].op.IfElse? {
        assert IsTest(DoAt(p, i + 1)) <==> IfElseAt(p, i + 1);
        assert IsTest(DoAt(p, i + 2)) <==> IfElseAt(p, i + 2);
      }
    }
  }

  /** The meaning of structured code; `calls` bounds how deep calls nest. */
  function Eval<W>(interp: Interp<W>, store: Store, s: Stmt, w: W, calls: nat): Result<W>
    decreases calls, s
  {
    match s
    case Skip => Done(0, w)
    case Do(instruction) =>
      (match instruction.op
       case Call(slot) =>
         if calls == 0 then OutOfCalls else Eval(interp, store, Parse(store[slot]), w, calls - 1)
       case Noop => Done(0, w)
       case Unknown(_) => Done(-1, w)
       case IfElse(_, _, _) => Done(-1, w)
       case _ => var (code, w') := interp.leaf(instruction, w); Done(code, w'))
    case If(test, thn, els) =>
      var (verdict, w') := interp.cond(test, w);
      if verdict.Code() <= FlagErr.Code() then Done(verdict.Code(), w')
      else Eval(interp, store, if verdict.FlagTrue? then thn else els, w', calls)
    case Seq(first, rest) =>
      var r := Eval(interp, store, first, w, calls);
      if r.Done? && r.code == 0 then Eval(interp, store, rest, r.world, calls) else r
  }

  lemma {:induction false} MoreCalls<W>(interp: Interp<W>, store: Store, s: Stmt, w: W, calls: nat, more: nat)
    requires Eval(interp, store, s, w, calls).Done? && calls <= more
    ensures Eval(interp, store, s, w, more) == Eval(interp, store, s, w, calls)
    decreases calls, s
  {
    match s
    case Skip =>
    case Do(instruction) =>
      if instruction.op.Call? {
        MoreCalls(interp, store, Parse(store[instruction.op.slot]), w, calls - 1, more - 1);
      }
    case If(test, thn, els) =>
      var (verdict, w') := interp.cond(test, w);
      if verdict.Code() > FlagErr.Code() {
        MoreCalls(interp, store, if verdict.FlagTrue? then thn else els, w', calls, more);
      }
    case Seq(first, rest) =>
      MoreCalls(interp, store, first, w, calls, more);
      var r := Eval(interp, store, first, w, calls);
      if r.code == 0 {
        MoreCalls(interp, store, rest, r.world, calls, more);
      }
  }

  /** What remains to be done before instruction `i` under a flag. */
  function Rest(p: Proc, i: nat, flag: IfElseFlag): Stmt {
    match flag
    case FlagTrue => Seq(DoAt(p, i), Parse(p, i + 2))
    case FlagFalse => if IfElseAt(p, i - 1) then Seq(DoAt(p, i + 1), Parse(p, i + 2)) else Parse(p, i + 1)
    case _ => Parse(p, i)
  }

  /** Where the flag can stand before instruction `i` of a well-formed procedure. */
  predicate FlagFits(p: Proc, i: nat, flag: IfElseFlag) {
    FlagPossible(p, i, flag) && (flag.FlagNone? ==> !IfElseAt(p, i - 1))
  }

  lemma FlagStaysFit<W>(interp: Interp<W>, p: Proc, i: nat, flag: IfElseFlag, w: W)
    requires WellFormed(p) && i < |p| && FlagFits(p, i, flag)
    ensures match Step(interp, p[i], flag, w)
            case Goto(flag', _) => FlagFits(p, i + 1, flag')
            case Invoke(_, flag') => FlagFits(p, i + 1, flag')
            case Stop(_, _) => true
    ensures !flag.FlagNone? ==> !IfElseAt(p, i)
    ensures flag.FlagFalse? && IfElseAt(p, i - 1) ==> !IfElseAt(p, i + 1)
  {
    FlagStaysPossible(interp, p, i, flag, w);
    if !flag.FlagFalse? && p[i].op.IfElse? {
      assert interp.cond(p[i], w).0 != FlagNone;
    }
  }

  // ---------------------------------------------------------------- flags are structure

  /** One round of the loop takes one step of what remains to be done. */
  lemma RestUnfolds<W>(interp: Interp<W>, store: Store, p: Proc, i: nat, flag: IfElseFlag, w: W, calls: nat)
    requires WellFormed(p) && i < |p| && FlagFits(p, i, flag)
    ensures var meaning := Eval(interp, store, Rest(p, i, flag), w, calls);
            match Step(interp, p[i], flag, w)
            case Stop(code, w') => meaning == Done(code, w')
            case Goto(flag', w') =>
              FlagFits(p, i + 1, flag') && meaning == Eval(interp, store, Rest(p, i + 1, flag'), w', calls)
            case Invoke(slot, flag') =>
              && FlagFits(p, i + 1, flag')
              && if calls == 0 then meaning == OutOfCalls
                 else
                   var r := Eval(interp, store, Parse(store[slot]), w, calls - 1);
                   meaning == if r.Done? && r.code == 0 then Eval(interp, store, Rest(p, i + 1, flag'), r.world, calls) else r
  {
    FlagStaysFit(interp, p, i, flag, w);
  }

  /** A terminating run of the nesting machine is the meaning of what remains to be done. */
  lemma {:induction false} RunIsStructured<W>(m: Machine<W>, p: Proc, i: nat, flag: IfElseFlag, w: W, depth: nat,
          fuel: nat)
    requires Throughout(m.store, p, WellFormed) && FlagFits(p, i, flag) && !m.tailCalls
    requires Run(m, p, i, flag, w, depth, fuel).Proper()
    ensures var r := Run(m, p, i, flag, w, depth, fuel);
            Eval(m.interp, m.store, Rest(p, i, flag), w, fuel) == Done(r.code, r.world)
    decreases fuel
  {
    hide Run, Step, Eval, Rest, FlagFits, Throughout, Parse, WellFormed, TailMark;
    RunUnfolds(m, p, i, flag, w, depth, fuel);
    if i >= |p| {
      AtEnd(m.interp, m.store, p, i, flag, w, fuel);
      return;
    }
    var store := m.store;
    ItselfIs(store, p, WellFormed);
    RestUnfolds(m.interp, store, p, i, flag, w, fuel);
    match Step(m.interp, p[i], flag, w)
    case Stop(_, _) =>
    case Goto(flag', w') =>
      RunIsStructured(m, p, i + 1, flag', w', depth, fuel - 1);
      MoreCalls(m.interp, store, Rest(p, i + 1, flag'), w', fuel - 1, fuel);
    case Invoke(slot, flag') =>
      var q := store[slot];
      var r := Enter(m, q, w, depth, fuel - 1);
      ThroughCall(store, p, i, WellFormed);
      AtStart(q);
      RunIsStructured(m, q, 0, FlagNone, w, depth + 1, fuel - 1);
      if r.code == 0 {
        RunIsStructured(m, p, i + 1, flag', r.world, depth, fuel - 1);
        MoreCalls(m.interp, store, Rest(p, i + 1, flag'), r.world, fuel - 1, fuel);
      }
  }

  lemma AtStart(p: Proc)
    ensures FlagFits(p, 0, FlagNone) && Rest(p, 0, FlagNone) == Parse(p)
  {
  }

  lemma AtEnd<W>(interp: Interp<W>, store: Store, p: Proc, i: nat, flag: IfElseFlag, w: W, calls: nat)
    requires i >= |p|
    ensures Eval(interp, store, Rest(p, i, flag), w, calls) == Done(0, w)
    ensures Nesting(interp, store, Rest(p, i, flag), true, w, calls) == 0
  {
  }

  /** Conversely, a meaning that nests calls no deeper than the limit admits is run, on
      256 units of fuel a level. */
  lemma {:induction false} StructuredIsRun<W>(m: Machine<W>, p: Proc, i: nat, flag: IfElseFlag, w: W,
                                              depth: nat, calls: nat, fuel: nat)
    requires Throughout(m.store, p, WellFormed) && FlagFits(p, i, flag) && !m.tailCalls
    requires m.limit.Some? ==> depth + calls <= m.limit.value + 1
    requires Eval(m.interp, m.store, Rest(p, i, flag), w, calls).Done?
    requires fuel >= |p| - i + 256 * calls
    ensures var r := Eval(m.interp, m.store, Rest(p, i, flag), w, calls);
            Run(m, p, i, flag, w, depth, fuel).Is(r.code, r.world)
    decreases fuel
  {
    hide Run, Step, Eval, Rest, FlagFits, Throughout, Parse, WellFormed, TailMark;
    RunUnfolds(m, p, i, flag, w, depth, fuel);
    if i >= |p| {
      AtEnd(m.interp, m.store, p, i, flag, w, calls);
      return;
    }
    var store := m.store;
    ItselfIs(store, p, WellFormed);
    RestUnfolds(m.interp, store, p, i, flag, w, calls);
    match Step(m.interp, p[i], flag, w)
    case Stop(_, _) =>
    case Goto(flag', w') =>
      StructuredIsRun(m, p, i + 1, flag', w', depth, calls, fuel - 1);
    case Invoke(slot, flag') =>
      var q := store[slot];
      ThroughCall(store, p, i, WellFormed);
      AtStart(q);
      StructuredIsRun(m, q, 0, FlagNone, w, depth + 1, calls - 1, fuel - 1);
      var r := Enter(m, q, w, depth, fuel - 1);
      if r.code == 0 {
        StructuredIsRun(m, p, i + 1, flag', r.world, depth, calls, fuel - 1);
      }
  }

  // ---------------------------------------------------------------- the runtime

  lemma WellFormedIsSound(store: Store, p: Proc)
    requires Throughout(store, p, WellFormed)
    ensures Throughout(store, p, MarksSound)
  {
    forall q | WellFormed(q)
      ensures MarksSound(q)
    {
      WellFormedMarks(q);
    }
    ThroughoutImplies(store, p, WellFormed, MarksSound);
  }

  /** What the runtime computes, with tail calls, flags and the depth limit, when it ends
      without the depth error, is the structured meaning. */
  lemma RealRunMeans<W>(interp: Interp<W>, store: Store, p: Proc, w: W, fuel: nat)
    requires Throughout(store, p, WellFormed)
    requires Enter(Real(interp, store), p, w, 0, fuel).Proper()
    ensures var r := Enter(Real(interp, store), p, w, 0, fuel);
            Eval(interp, store, Parse(p), w, fuel + MAX_INSTRUCTIONS) == Done(r.code, r.world)
  {
    var m := Real(interp, store);
    WellFormedIsSound(store, p);
    NestingMatchesTailCalls(m, p, 0, FlagNone, w, 1, 1, fuel);
    RunIsStructured(m.(tailCalls := false, limit := None), p, 0, FlagNone, w, 1, fuel + MAX_INSTRUCTIONS);
  }

  // ---------------------------------------------------------------- frames

  /** Nothing but NOOPs is left to do. */
  predicate Idle(s: Stmt) {
    match s
    case Skip => true
    case Do(instruction) => instruction.op.Noop?
    case If(_, _, _) => false
    case Seq(first, rest) => Idle(first) && Idle(rest)
  }

  /** How deep calls nest that are not in last position, `last` telling whether nothing is
      left to do after `s` in its procedure. */
  function Nesting<W>(interp: Interp<W>, store: Store, s: Stmt, last: bool, w: W, calls: nat): nat
    decreases calls, s
  {
    match s
    case Skip => 0
    case Do(instruction) =>
      if instruction.op.Call? && calls > 0 then
        (if last then 0 else 1) + Nesting(interp, store, Parse(store[instruction.op.slot]), true, w, calls - 1)
      else 0
    case If(test, thn, els) =>
      var (verdict, w') := interp.cond(test, w);
      if verdict.Code() <= FlagErr.Code() then 0
      else Nesting(interp, store, if verdict.FlagTrue? then thn else els, last, w', calls)
    case Seq(first, rest) =>
      var r := Eval(interp, store, first, w, calls);
      var n := Nesting(interp, store, first, last && Idle(rest), w, calls);
      if r.Done? && r.code == 0 then
        var n' := Nesting(interp, store, rest, last, r.world, calls);
        if n' > n then n' else n
      else n
  }

  lemma {:induction false} MarkMeansIdle(p: Proc, i: nat, flag: IfElseFlag)
    requires WellFormed(p) && FlagFits(p, i, flag)
    ensures Idles(p, i, flag) <==> Idle(Rest(p, i, flag))
    decreases |p| - i
  {
    if i < |p| {
      var next := if flag.FlagFalse? then FlagNone else Behind(flag);
      if flag.FlagFalse? || p[i].op.Noop? {
        MarkMeansIdle(p, i + 1, next);
      }
    }
  }
  /** How a round of the loop changes the nesting that remains. */
  lemma NestingUnfolds<W>(interp: Interp<W>, store: Store, p: Proc, i: nat, flag: IfElseFlag, w: W, calls: nat)
    requires WellFormed(p) && i < |p| && FlagFits(p, i, flag)
    ensures var nesting := Nesting(interp, store, Rest(p, i, flag), true, w, calls);
            match Step(interp, p[i], flag, w)
            case Stop(_, _) => nesting == 0
            case Goto(flag', w') => nesting == Nesting(interp, store, Rest(p, i + 1, flag'), true, w', calls)
            case Invoke(slot, flag') =>
              calls > 0 ==>
                var r := Eval(interp, store, Parse(store[slot]), w, calls - 1);
                var inner := (if Idle(Rest(p, i + 1, flag')) then 0 else 1)
                             + Nesting(interp, store, Parse(store[slot]), true, w, calls - 1);
                nesting == if r.Done? && r.code == 0
                           then Higher(inner, Nesting(interp, store, Rest(p, i + 1, flag'), true, r.world, calls))
                           else inner
  {
    FlagStaysFit(interp, p, i, flag, w);
  }

  function Higher(a: nat, b: nat): nat {
    if b > a then b else a
  }

  /** The machine runs what remains to be done on as many frames as its nesting asks for. */
  ghost predicate RunsAsAsked<W>(m: Machine<W>, p: Proc, i: nat, flag: IfElseFlag, w: W, depth: nat, calls: nat,
          fuel: nat) {
    var meaning := Eval(m.interp, m.store, Rest(p, i, flag), w, calls);
    && meaning.Done?
    && Run(m, p, i, flag, w, depth, fuel)
       == Finished(meaning.code, false, meaning.world,
                   depth + Nesting(m.interp, m.store, Rest(p, i, flag), true, w, calls))
  }

  lemma EndAsAsked<W>(m: Machine<W>, p: Proc, i: nat, flag: IfElseFlag, w: W, depth: nat, calls: nat, fuel: nat)
    requires i >= |p|
    ensures RunsAsAsked(m, p, i, flag, w, depth, calls, fuel)
  {
    AtEnd(m.interp, m.store, p, i, flag, w, calls);
  }

  lemma RoundAsAsked<W>(m: Machine<W>, p: Proc, i: nat, flag: IfElseFlag, w: W, depth: nat, calls: nat, fuel: nat)
    requires WellFormed(p) && i < |p| && FlagFits(p, i, flag) && fuel > 0
    requires match Step(m.interp, p[i], flag, w)
             case Goto(flag', w') => RunsAsAsked(m, p, i + 1, flag', w', depth, calls, fuel - 1)
             case Stop(_, _) => true
             case Invoke(_, _) => false
    ensures RunsAsAsked(m, p, i, flag, w, depth, calls, fuel)
  {
    RunUnfolds(m, p, i, flag, w, depth, fuel);
    RestUnfolds(m.interp, m.store, p, i, flag, w, calls);
    NestingUnfolds(m.interp, m.store, p, i, flag, w, calls);
    hide Run, Step, Eval, Nesting, Rest, FlagFits, WellFormed;
  }

  lemma CallAsAsked<W>(m: Machine<W>, p: Proc, i: nat, flag: IfElseFlag, w: W, depth: nat, calls: nat, fuel: nat)
    requires WellFormed(p) && i < |p| && FlagFits(p, i, flag) && m.tailCalls && m.limit.None?
    requires p[i].op.Call? && !flag.FlagFalse? && calls > 0 && fuel > 0
    requires var q := m.store[p[i].op.slot];
             && RunsAsAsked(m, q, 0, FlagNone, w, if TailMark(p, i) then depth else depth + 1, calls - 1, fuel - 1)
             && var r := Eval(m.interp, m.store, Parse(q), w, calls - 1);
                (r.code == 0 && !TailMark(p, i) ==> RunsAsAsked(m, p, i + 1, Behind(flag), r.world, depth, calls, fuel - 1))
    ensures RunsAsAsked(m, p, i, flag, w, depth, calls, fuel)
  {
    var q := m.store[p[i].op.slot];
    var r := Eval(m.interp, m.store, Parse(q), w, calls - 1);
    RestUnfolds(m.interp, m.store, p, i, flag, w, calls);
    NestingUnfolds(m.interp, m.store, p, i, flag, w, calls);
    MarkIsLastPosition(p, i, flag);
    RunUnfolds(m, p, i, flag, w, depth, fuel);
    AtStart(q);
    if r.code == 0 && TailMark(p, i) {
      IdleIsDone(m.interp, m.store, Rest(p, i + 1, Behind(flag)), r.world, calls);
    }
    hide Run, Step, Eval, Nesting, Rest, FlagFits, TailMark, Parse, Idle, WellFormed;
  }

  /** The frames the machine with tail calls holds at most are those that calls in other
      than last position ask for. */
  lemma {:induction false} NestingIsPeak<W>(m: Machine<W>, p: Proc, i: nat, flag: IfElseFlag, w: W,
                                            depth: nat, calls: nat, fuel: nat)
    requires Throughout(m.store, p, WellFormed) && FlagFits(p, i, flag) && m.tailCalls && m.limit.None?
    requires Eval(m.interp, m.store, Rest(p, i, flag), w, calls).Done?
    requires fuel >= |p| - i + 256 * calls
    ensures RunsAsAsked(m, p, i, flag, w, depth, calls, fuel)
    decreases fuel
  {
    hide Run, Step, Eval, Nesting, Rest, TailMark, Parse, FlagFits, Throughout, WellFormed, RunsAsAsked;
    if i >= |p| {
      EndAsAsked(m, p, i, flag, w, depth, calls, fuel);
      return;
    }
    ItselfIs(m.store, p, WellFormed);
    RestUnfolds(m.interp, m.store, p, i, flag, w, calls);
    match Step(m.interp, p[i], flag, w)
    case Stop(_, _) =>
      RoundAsAsked(m, p, i, flag, w, depth, calls, fuel);
    case Goto(flag', w') =>
      NestingIsPeak(m, p, i + 1, flag', w', depth, calls, fuel - 1);
      RoundAsAsked(m, p, i, flag, w, depth, calls, fuel);
    case Invoke(slot, flag') =>
      var q := m.store[slot];
      ThroughCall(m.store, p, i, WellFormed);
      AtStart(q);
      NestingIsPeak(m, q, 0, FlagNone, w, if TailMark(p, i) then depth else depth + 1, calls - 1, fuel - 1);
      var r := Eval(m.interp, m.store, Parse(q), w, calls - 1);
      if r.code == 0 {
        NestingIsPeak(m, p, i + 1, flag', r.world, depth, calls, fuel - 1);
      }
      CallAsAsked(m, p, i, flag, w, depth, calls, fuel);
  }

  /** The mark of a call says that it stands in last position. */
  lemma MarkIsLastPosition(p: Proc, i: nat, flag: IfElseFlag)
    requires WellFormed(p) && i < |p| && p[i].op.Call? && FlagFits(p, i, flag) && !flag.FlagFalse?
    requires FlagFits(p, i + 1, Behind(flag))
    ensures TailMark(p, i) <==> Idle(Rest(p, i + 1, Behind(flag)))
  {
    WellFormedMarks(p);
    TailMarkExact(p, i, flag);
    MarkMeansIdle(p, i + 1, Behind(flag));
  }

  lemma {:induction false} IdleIsDone<W>(interp: Interp<W>, store: Store, s: Stmt, w: W, calls: nat)
    requires Idle(s)
    ensures Eval(interp, store, s, w, calls) == Done(0, w) && Nesting(interp, store, s, true, w, calls) == 0
    decreases s
  {
    if s.Seq? {
      IdleIsDone(interp, store, s.first, w, calls);
      IdleIsDone(interp, store, s.rest, w, calls);
    }
  }

  /** Whatever has a meaning, the runtime ends on. It ends with the depth error if and only
      if calls in other than last position nest deeper than the limit; otherwise it ends
      with the meaning, on exactly the frames that these calls ask for. */
  lemma MeaningIsRun<W>(interp: Interp<W>, store: Store, p: Proc, w: W, calls: nat)
    requires Throughout(store, p, WellFormed)
    requires Eval(interp, store, Parse(p), w, calls).Done?
    ensures var meaning := Eval(interp, store, Parse(p), w, calls);
            var nesting := Nesting(interp, store, Parse(p), true, w, calls);
            var r := Enter(Real(interp, store), p, w, 0, 256 * (calls + 1));
            if nesting > 1000 then r.Finished? && r.tooDeep
            else r == Finished(meaning.code, false, meaning.world, nesting + 1)
  {
    var m := Real(interp, store);
    var fuel := 256 * (calls + 1);
    AtStart(p);
    NestingIsPeak(m.(limit := None), p, 0, FlagNone, w, 1, calls, fuel);
    LimitIsExact(m, p, 0, FlagNone, w, 1, fuel);
  }

  /** If every call that can be reached is a tail call, the runtime ends exactly when the
      structured code does, with the same code and world, however deep its calls nest. */
  lemma TailProgramsRunExactly<W>(interp: Interp<W>, store: Store, p: Proc, w: W, code: int, w': W)
    requires Throughout(store, p, WellFormed) && Throughout(store, p, OnlyTailCalls)
    ensures (exists fuel: nat :: Enter(Real(interp, store), p, w, 0, fuel).Is(code, w'))
       <==> (exists calls: nat :: Eval(interp, store, Parse(p), w, calls) == Done(code, w'))
  {
    if fuel: nat :| Enter(Real(interp, store), p, w, 0, fuel).Is(code, w') {
      RealRunMeans(interp, store, p, w, fuel);
    }
    if calls: nat :| Eval(interp, store, Parse(p), w, calls) == Done(code, w') {
      MeaningIsRun(interp, store, p, w, calls);
      TailCallsStayInFrame(Real(interp, store), p, 0, FlagNone, w, 1, 256 * (calls + 1));
      assert Enter(Real(interp, store), p, w, 0, 256 * (calls + 1)).Is(code, w');
    }
  }

  // ---------------------------------------------------------------- executed instructions

  /** An interpretation that also keeps the list of the primitive instructions executed. */
  function Logged<W>(interp: Interp<W>): Interp<(W, seq<Instruction<CString>>)> {
    Interp(
      (i: Instruction<CString>, w: (W, seq<Instruction<CString>>)) =>
        var (code, w') := interp.leaf(i, w.0); (code, (w', w.1 + [i])),
      (i: Instruction<CString>, w: (W, seq<Instruction<CString>>)) =>
        var (verdict, w') := interp.cond(i, w.0); (verdict, (w', w.1 + [i])))
  }

  /** Logging does not disturb the meaning: code and world are as without it, and the log
      only grows. */
  lemma {:induction false} LogIsTransparent<W>(interp: Interp<W>, store: Store, s: Stmt, w: W,
                                               log: seq<Instruction<CString>>, calls: nat)
    ensures var plain := Eval(interp, store, s, w, calls);
            match Eval(Logged(interp), store, s, (w, log), calls)
            case OutOfCalls => plain == OutOfCalls
            case Done(code, world) => plain == Done(code, world.0) && log <= world.1
    decreases calls, s
  {
    match s
    case Skip =>
    case Do(instruction) =>
      if instruction.op.Call? && calls > 0 {
        LogIsTransparent(interp, store, Parse(store[instruction.op.slot]), w, log, calls - 1);
      }
    case If(test, thn, els) =>
      var (verdict, w') := interp.cond(test, w);
      if verdict.Code() > FlagErr.Code() {
        LogIsTransparent(interp, store, if verdict.FlagTrue? then thn else els, w', log + [test], calls);
      }
    case Seq(first, rest) =>
      LogIsTransparent(interp, store, first, w, log, calls);
      var r := Eval(Logged(interp), store, first, (w, log), calls);
      if r.Done? && r.code == 0 {
        LogIsTransparent(interp, store, rest, r.world.0, r.world.1, calls);
      }
  }

  /** The same of the flag machine. */
  lemma {:induction false} LogDoesNotDisturb<W>(m: Machine<W>, p: Proc, i: nat, flag: IfElseFlag, w: W,
                                                log: seq<Instruction<CString>>, depth: nat, fuel: nat)
    ensures var plain := Run(m, p, i, flag, w, depth, fuel);
            match Run(Machine(Logged(m.interp), m.store, m.tailCalls, m.limit), p, i, flag, (w, log), depth, fuel)
            case OutOfFuel(peak) => plain == OutOfFuel(peak)
            case Finished(code, tooDeep, world, peak) => plain == Finished(code, tooDeep, world.0, peak) && log <= world.1
    decreases fuel
  {
    hide Run, Step, TailMark, Logged;
    var logging := Machine(Logged(m.interp), m.store, m.tailCalls, m.limit);
    RunUnfolds(m, p, i, flag, w, depth, fuel);
    RunUnfolds(logging, p, i, flag, (w, log), depth, fuel);
    if i >= |p| || fuel == 0 {
      return;
    }
    StepIsLogged(m.interp, p[i], flag, w, log);
    match Step(logging.interp, p[i], flag, (w, log))
    case Stop(_, _) =>
    case Goto(flag', w') => LogDoesNotDisturb(m, p, i + 1, flag', w'.0, w'.1, depth, fuel - 1);
    case Invoke(slot, flag') =>
      var q := m.store[slot];
      if m.tailCalls && TailMark(p, i) {
        LogDoesNotDisturb(m, q, 0, FlagNone, w, log, depth, fuel - 1);
      } else {
        LogDoesNotDisturb(m, q, 0, FlagNone, w, log, depth + 1, fuel - 1);
        var r := Enter(logging, q, (w, log), depth, fuel - 1);
        if r.Finished? && r.code == 0 {
          LogDoesNotDisturb(m, p, i + 1, flag', r.world.0, r.world.1, depth, fuel - 1);
        }
      }
  }

  lemma StepIsLogged<W>(interp: Interp<W>, instruction: Instruction<CString>, flag: IfElseFlag, w: W,
                        log: seq<Instruction<CString>>)
    ensures var plain := Step(interp, instruction, flag, w);
            match Step(Logged(interp), instruction, flag, (w, log))
            case Stop(code, w') => plain == Stop(code, w'.0) && log <= w'.1
            case Goto(flag', w') => plain == Goto(flag', w'.0) && log <= w'.1
            case Invoke(slot, flag') => plain == Invoke(slot, flag')
  {
  }

  /** The runtime and the structured code execute the same primitive instructions in the
      same order: logging them, both end with one log, and with the code and the world of
      the run that does not log. */
  lemma SameInstructions<W>(interp: Interp<W>, store: Store, p: Proc, w: W,
          fuel: nat) returns (log: seq<Instruction<CString>>)
    requires Throughout(store, p, WellFormed)
    requires Enter(Real(interp, store), p, w, 0, fuel).Proper()
    ensures var r := Enter(Real(interp, store), p, w, 0, fuel);
            && Enter(Real(Logged(interp), store), p, (w, []), 0, fuel) == Finished(r.code, false, (r.world, log), r.peak)
            && Eval(Logged(interp), store, Parse(p), (w, []), fuel + MAX_INSTRUCTIONS) == Done(r.code, (r.world, log))
            && Eval(interp, store, Parse(p), w, fuel + MAX_INSTRUCTIONS) == Done(r.code, r.world)
  {
    LogDoesNotDisturb(Real(interp, store), p, 0, FlagNone, w, [], 1, fuel);
    var logged := Enter(Real(Logged(interp), store), p, (w, []), 0, fuel);
    log := logged.world.1;
    hide Run, Logged;
    RealRunMeans(Logged(interp), store, p, (w, []), fuel);
    LogIsTransparent(interp, store, Parse(p), w, [], fuel + MAX_INSTRUCTIONS);
  }
}
