/** Exactly when tail calls are invisible. In a procedure of known instruction types, a
    mismarked call always loses an instruction in some run: it is reached under some
    verdicts of the conditions, and the instruction behind it is dropped.
 */
module TailCalls {
  import opened ProcTypes
  import opened Analyze
  import opened Machine
  import opened Codec

  /** A world that answers conditions from a script and counts primitive instructions. */
  datatype Script = Script(verdicts: seq<bool>, count: nat)

  function Counting(): Interp<Script> {
    Interp(
      (_: Instruction<CString>, w: Script) => (0, w.(count := w.count + 1)),
      (_: Instruction<CString>, w: Script) =>
        if w.verdicts == [] then (FlagFalse, w.(count := w.count + 1))
        else (if w.verdicts[0] then FlagTrue else FlagFalse, Script(w.verdicts[1..], w.count + 1)))
  }

  /** Every slot holds one primitive instruction. */
  const LEAF: Proc := [Instruction(0, Set([], []))]

  predicate Leaves(store: Store) {
    forall s: byte :: store[s] == LEAF
  }

  predicate SameEnd(r: Outcome<Script>, whole: Outcome<Script>) {
    r.Proper() ==> whole.Proper() && whole.code == r.code && whole.world == r.world
  }

  lemma LeafRuns(m: Machine<Script>, w: Script, depth: nat, fuel: nat)
    requires m.interp == Counting() && fuel >= 1
    ensures Run(m, LEAF, 0, FlagNone, w, depth, fuel).Is(0, w.(count := w.count + 1))
  {
    assert Run(m, LEAF, 1, FlagNone, w.(count := w.count + 1), depth, fuel - 1).Is(0, w.(count := w.count + 1));
  }

  /** How an executed instruction other than a test changes the count. */
  function Counted(op: Op<CString>): nat {
    if op.Noop? then 0 else 1
  }

  /** One executed instruction other than a test. */
  lemma Executes(m: Machine<Script>, p: Proc, j: nat, f: IfElseFlag, w: Script, depth: nat, fuel: nat)
    requires m.interp == Counting() && Leaves(m.store) && m.limit == None
    requires j < |p| && Known(p[j].op) && !p[j].op.IfElse? && !f.FlagFalse? && fuel >= 1
    requires m.tailCalls && p[j].op.Call? ==> !TailMark(p, j)
    ensures SameEnd(Run(m, p, j + 1, Behind(f), w.(count := w.count + Counted(p[j].op)), depth, fuel),
                    Run(m, p, j, f, w, depth, fuel + 1))
  {
    if p[j].op.Call? {
      assert m.store[p[j].op.slot] == LEAF;
      LeafRuns(m, w, depth + 1, fuel);
      assert Enter(m, LEAF, w, depth, fuel).Is(0, w.(count := w.count + 1));
    }
  }

  /** One executed test, answered from the script. */
  lemma Tests(m: Machine<Script>, p: Proc, j: nat, f: IfElseFlag, b: bool, rest: seq<bool>, count: nat, depth: nat,
          fuel: nat)
    requires m.interp == Counting() && IfElseAt(p, j) && !f.FlagFalse?
    ensures Run(m, p, j, f, Script([b] + rest, count), depth, fuel + 1)
         == Run(m, p, j + 1, if b then FlagTrue else FlagFalse, Script(rest, count + 1), depth, fuel)
  {
    assert ([b] + rest)[1..] == rest;
  }

  /** In front of an instruction that is no NOOP, no call has a mark, unless that
      instruction is the else-branch of the call. */
  lemma NoEarlyMarks(p: Proc, i: nat, j: nat)
    requires i + 1 < |p| && !p[i].op.Noop? && !p[i + 1].op.Noop? && j < i
    ensures !TailMark(p, j)
  {
  }

  /** From the start under one world, either machine comes to instruction `j` under another. */
  ghost predicate Leads(m: Machine<Script>, p: Proc, start: Script, j: nat, f: IfElseFlag, w: Script, depth: nat,
          fuel: nat) {
    && SameEnd(Run(m.(tailCalls := false), p, j, f, w, depth, fuel),
               Run(m.(tailCalls := false), p, 0, FlagNone, start, depth, fuel + j))
    && SameEnd(Run(m.(tailCalls := true), p, j, f, w, depth, fuel),
               Run(m.(tailCalls := true), p, 0, FlagNone, start, depth, fuel + j))
  }

  /** Any instruction can be reached and executed, under some verdicts; the rest of the
      script is left for what follows. */
  lemma {:induction false} Reach(m: Machine<Script>, p: Proc, i: nat, j: nat, rest: seq<bool>, depth: nat, fuel: nat)
    returns (verdicts: seq<bool>, f: IfElseFlag, count: nat)
    requires m.interp == Counting() && Leaves(m.store) && m.limit == None
    requires AllKnown(p) && j <= i && i + 1 < |p| && !p[i].op.Noop? && !p[i + 1].op.Noop? && fuel >= 1
    ensures f.FlagNone? || (f.FlagTrue? && IfElseAt(p, j - 1))
    ensures Leads(m, p, Script(verdicts, 0), j, f, Script(rest, count), depth, fuel)
    decreases j
  {
    hide Run, TailMark;
    var nesting, tail := m.(tailCalls := false), m.(tailCalls := true);
    if j == 0 {
      verdicts, f, count := rest, FlagNone, 0;
    } else if IfElseAt(p, j - 1) {
      verdicts, f, count := Reach(m, p, i, j - 1, [true] + rest, depth, fuel + 1);
      Tests(nesting, p, j - 1, f, true, rest, count, depth, fuel);
      Tests(tail, p, j - 1, f, true, rest, count, depth, fuel);
      f, count := FlagTrue, count + 1;
    } else if IfElseAt(p, j - 2) {
      verdicts, f, count := Reach(m, p, i, j - 2, [false] + rest, depth, fuel + 2);
      Tests(nesting, p, j - 2, f, false, rest, count, depth, fuel + 1);
      Tests(tail, p, j - 2, f, false, rest, count, depth, fuel + 1);
      f, count := FlagNone, count + 1;
      SkipsOne(nesting, p, j - 1, Script(rest, count), depth, fuel);
      SkipsOne(tail, p, j - 1, Script(rest, count), depth, fuel);
    } else {
      verdicts, f, count := Reach(m, p, i, j - 1, rest, depth, fuel + 1);
      NoEarlyMarks(p, i, j - 1);
      Executes(nesting, p, j - 1, f, Script(rest, count), depth, fuel);
      Executes(tail, p, j - 1, f, Script(rest, count), depth, fuel);
      count := count + Counted(p[j - 1].op);
    }
  }

  lemma SkipsOne(m: Machine<Script>, p: Proc, j: nat, w: Script, depth: nat, fuel: nat)
    requires j < |p|
    ensures Run(m, p, j, FlagFalse, w, depth, fuel + 1) == Run(m, p, j + 1, FlagNone, w, depth, fuel)
  {
  }

  lemma {:induction false} NoopsIdle(p: Proc, i: nat, f: IfElseFlag)
    requires OnlyNoopsFrom(p, i)
    ensures Idles(p, i, f)
    decreases |p| - i
  {
    if i < |p| {
      NoopsIdle(p, i + 1, if f.FlagFalse? then FlagNone else Behind(f));
    }
  }

  /** The last instruction that matters, executed by the nesting machine. */
  lemma LastCounts(m: Machine<Script>, p: Proc, j: nat, w: Script, depth: nat, fuel: nat)
    requires m.interp == Counting() && Leaves(m.store) && m.limit == None && !m.tailCalls
    requires j < |p| && Known(p[j].op) && !p[j].op.Noop? && OnlyNoopsFrom(p, j + 1) && fuel >= |p| + 2
    ensures var r := Run(m, p, j, FlagNone, w, depth, fuel);
            r.Proper() && r.code == 0 && r.world.count == w.count + 1
  {
    if p[j].op.IfElse? {
      var (verdict, w') := Counting().cond(p[j], w);
      NoopsIdle(p, j + 1, verdict);
      IdleRun(m, p, j + 1, verdict, w', depth, fuel - 1);
    } else {
      NoopsIdle(p, j + 1, FlagNone);
      IdleRun(m, p, j + 1, FlagNone, w.(count := w.count + 1), depth, fuel - 1);
      Executes(m, p, j, FlagNone, w, depth, fuel - 1);
    }
  }

  /** At a mismarked call reached without a flag the machines part: the nesting machine
      executes one primitive instruction more. */
  lemma PartAt(m: Machine<Script>, p: Proc, i: nat, w: Script, depth: nat, fuel: nat)
    requires m.interp == Counting() && Leaves(m.store) && m.limit == None
    requires AllKnown(p) && i < |p| && Mismarked(p, i) && fuel >= |p| + 3
    ensures var nested := Run(m.(tailCalls := false), p, i, FlagNone, w, depth, fuel);
            var tailed := Run(m.(tailCalls := true), p, i, FlagNone, w, depth, fuel);
            nested.Proper() && tailed.Proper() && nested.world.count == tailed.world.count + 1
  {
    var nesting, tail := m.(tailCalls := false), m.(tailCalls := true);
    var w' := w.(count := w.count + 1);
    assert m.store[p[i].op.slot] == LEAF;
    LeafRuns(tail, w, depth, fuel - 1);
    LastCounts(nesting, p, i + 1, w', depth, fuel - 1);
    Executes(nesting, p, i, FlagNone, w, depth, fuel - 1);
    assert TailMark(p, i);
  }

  /** A mismarked call loses an instruction in some run. */
  lemma MismarkedLoses(m: Machine<Script>, p: Proc, i: nat, depth: nat) returns (start: Script, fuel: nat)
    requires m.interp == Counting() && Leaves(m.store) && m.limit == None
    requires AllKnown(p) && i < |p| && Mismarked(p, i)
    ensures var nested := Run(m.(tailCalls := false), p, 0, FlagNone, start, depth, fuel);
            var tailed := Run(m.(tailCalls := true), p, 0, FlagNone, start, depth, fuel);
            nested.Proper() && tailed.Proper() && nested.world.count == tailed.world.count + 1
  {
    hide Run, TailMark;
    var nesting, tail := m.(tailCalls := false), m.(tailCalls := true);
    var n := |p| + 3;
    var verdicts, f, count;
    assert [false] + [] == [false] && [true] + [] == [true];
    if IfElseAt(p, i - 2) {
      verdicts, f, count := Reach(m, p, i, i - 2, [false], depth, n + 2);
      Tests(nesting, p, i - 2, f, false, [], count, depth, n + 1);
      Tests(tail, p, i - 2, f, false, [], count, depth, n + 1);
      count := count + 1;
    } else {
      verdicts, f, count := Reach(m, p, i, i - 3, [true], depth, n + 3);
      Tests(nesting, p, i - 3, f, true, [], count, depth, n + 2);
      Tests(tail, p, i - 3, f, true, [], count, depth, n + 2);
      NoEarlyMarks(p, i, i - 2);
      Executes(nesting, p, i - 2, FlagTrue, Script([], count + 1), depth, n + 1);
      Executes(tail, p, i - 2, FlagTrue, Script([], count + 1), depth, n + 1);
      count := count + 1 + Counted(p[i - 2].op);
    }
    SkipsOne(nesting, p, i - 1, Script([], count), depth, n);
    SkipsOne(tail, p, i - 1, Script([], count), depth, n);
    PartAt(m, p, i, Script([], count), depth, n);
    start, fuel := Script(verdicts, 0), n + i;
  }

  /** A run without tail calls that ends properly ends the same with them. */
  ghost predicate Invisible<W>(m: Machine<W>, p: Proc, w: W, fuel: nat) {
    var nested := Enter(m.(tailCalls := false), p, w, 0, fuel);
    nested.Proper() ==> Enter(m.(tailCalls := true), p, w, 0, fuel).Is(nested.code, nested.world)
  }

  /** Without mismarked calls tail calls are invisible, whatever the instructions mean. */
  lemma SoundIsInvisible<W>(m: Machine<W>, p: Proc, w: W, fuel: nat)
    requires Throughout(m.store, p, MarksSound)
    ensures Invisible(m, p, w, fuel)
  {
    if Enter(m.(tailCalls := false), p, w, 0, fuel).Proper() {
      TailCallsKeepResult(m, p, 0, FlagNone, w, 1, 1, fuel);
    }
  }

  /** A mismarked call shows over a store of leaves. */
  lemma MismarkShows(p: Proc, i: nat) returns (m: Machine<Script>, w: Script, fuel: nat)
    requires AllKnown(p) && i < |p| && Mismarked(p, i)
    ensures Leaves(m.store) && !Invisible(m, p, w, fuel)
  {
    var store: Store := seq(MAX_PROC_SLOT + 1, _ => LEAF);
    m := Machine(Counting(), store, true, None);
    w, fuel := MismarkedLoses(m, p, i, 1);
  }

  /** No call of a procedure is mismarked if and only if tail calls are invisible in each
      of its runs over callees without mismarked calls. (The conditions and instructions
      of a script suffice to tell; the other direction holds for all meanings.) */
  lemma InvisibleIffMarksSound(p: Proc)
    requires AllKnown(p)
    ensures MarksSound(p)
       <==> forall m: Machine<Script>, w: Script, fuel: nat :: Callable(m.store, p, MarksSound) ==> Invisible(m, p, w, fuel)
  {
    if MarksSound(p) {
      forall m: Machine<Script>, w: Script, fuel: nat | Callable(m.store, p, MarksSound)
        ensures Invisible(m, p, w, fuel)
      {
        SoundIsInvisible(m, p, w, fuel);
      }
    } else {
      var i :| 0 <= i < |p| && Mismarked(p, i);
      var m, w, fuel := MismarkShows(p, i);
      assert MarksSound(LEAF);
      assert Callable(m.store, p, MarksSound) && !Invisible(m, p, w, fuel);
    }
  }

  /** A language of procedures that has leaves is safe for tail calls, in every program
      written in it, if and only if none of its procedures has a mismarked call. */
  lemma SafeLanguages(language: Proc -> bool)
    requires language(LEAF) && forall p: Proc :: language(p) ==> AllKnown(p)
    ensures (forall p: Proc :: language(p) ==> MarksSound(p))
       <==> forall m: Machine<Script>, p: Proc, w: Script, fuel: nat ::
              Throughout(m.store, p, language) ==> Invisible(m, p, w, fuel)
  {
    if forall p: Proc :: language(p) ==> MarksSound(p) {
      forall m: Machine<Script>, p: Proc, w: Script, fuel: nat | Throughout(m.store, p, language)
        ensures Invisible(m, p, w, fuel)
      {
        ThroughoutImplies(m.store, p, language, MarksSound);
        SoundIsInvisible(m, p, w, fuel);
      }
    } else {
      var p: Proc :| language(p) && !MarksSound(p);
      var i :| 0 <= i < |p| && Mismarked(p, i);
      var m, w, fuel := MismarkShows(p, i);
      assert Throughout(m.store, p, language) && !Invisible(m, p, w, fuel);
    }
  }

  // ---------------------------------------------------------------- a mismark that cannot show

  /** A procedure that calls its own slot. */
  function Loop(slot: byte): Proc {
    [Instruction(0, Call(slot))]
  }

  lemma {:induction false} LoopNeverEnds<W>(m: Machine<W>, slot: byte, w: W, depth: nat, fuel: nat)
    requires m.store[slot] == Loop(slot) && !m.tailCalls
    ensures !Run(m, Loop(slot), 0, FlagNone, w, depth, fuel).Proper()
    decreases fuel
  {
    if fuel > 0 {
      LoopNeverEnds(m, slot, w, depth + 1, fuel - 1);
    }
  }

  /** For a program over one given store the condition is not necessary: what stands behind
      a call that never returns is not run, mismarked or not. */
  lemma UnreachedMismark<W>(m: Machine<W>, slot: byte, behind: Instruction<CString>, w: W, fuel: nat)
    requires m.store[slot] == Loop(slot)
    ensures Invisible(m, [Instruction(0, Call(slot)), behind], w, fuel)
  {
    var p: Proc := [Instruction(0, Call(slot)), behind];
    var nesting := m.(tailCalls := false);
    if fuel > 0 {
      LoopNeverEnds(nesting, slot, w, 2, fuel - 1);
      assert !Run(nesting, p, 0, FlagNone, w, 1, fuel).Proper();
    }
  }
}
