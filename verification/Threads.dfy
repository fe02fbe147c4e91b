/** The table of running threads, shared by one admission caller and the workers it creates
    (proc_runtime_run and the clean-up of runtime_thread in
    src/runtime/proc_runtime_POSIX.c).

    Every read and write of shared state is a step of its own, so that all interleavings
    are covered: the bound check happens outside the mutex, a worker may run to its end
    before its entry is appended, and others move while one scans the table. The code that
    appends and removes entries in place is part of `Stores`.
 */
module Threads {
  import opened ProcTypes

  type Thread = nat

  /** Where the admission caller is in proc_runtime_run. */
  datatype Admission = Idle | Admitted | Locked | Created(thread: Thread) | Appended

  /** Where a worker is in runtime_thread; a worker whose analysis failed has returned
      early and leaves its entry behind. */
  datatype Worker = Running | Scanning(i: nat) | Removed | Cleaned | Failed

  datatype Owner = Free | Admitting | Cleaning(thread: Thread)

  datatype State = State(
    table: seq<Thread>,
    mutex: Owner,
    admission: Admission,
    workers: map<Thread, Worker>)

  const START := State([], Free, Idle, map[])

  /** The atomic steps; each names the thread that moves, unless it is the caller. */
  datatype Step =
    | Check
    | GiveUp
    | LockTable
    | Create(thread: Thread)
    | CreateFails
    | Append
    | UnlockTable
    | Fail(thread: Thread)
    | StartCleaning(thread: Thread)
    | Scan(thread: Thread)
    | StopCleaning(thread: Thread)

  /** The last element takes the place of the one removed. */
  function SwapRemove<T>(s: seq<T>, i: nat): seq<T>
    requires i < |s|
  {
    s[i := s[|s| - 1]][..|s| - 1]
  }

  predicate At(s: State, thread: Thread, at: Worker) {
    thread in s.workers && s.workers[thread] == at
  }

  predicate IsScanning(s: State, thread: Thread) {
    thread in s.workers && s.workers[thread].Scanning?
  }

  /** An identifier may come back once its thread has cleaned up. */
  predicate Enabled(s: State, step: Step) {
    match step
    case Check => s.admission.Idle?
    case GiveUp => s.admission.Admitted?
    case LockTable => s.admission.Admitted? && s.mutex.Free?
    case Create(t) => s.admission.Locked? && (t !in s.workers || s.workers[t].Cleaned?)
    case CreateFails => s.admission.Locked?
    case Append => s.admission.Created?
    case UnlockTable => s.admission.Appended?
    case Fail(t) => At(s, t, Running)
    case StartCleaning(t) => At(s, t, Running) && s.mutex.Free?
    case Scan(t) => IsScanning(s, t) && s.workers[t].i < |s.table|
    case StopCleaning(t) => At(s, t, Removed) || (IsScanning(s, t) && s.workers[t].i >= |s.table|)
  }

  function Next(s: State, step: Step): State
    requires Enabled(s, step)
  {
    match step
    case Check => if |s.table| >= MAX_PROC_CONCURRENT then s else s.(admission := Admitted)
    case GiveUp => s.(admission := Idle)
    case LockTable => s.(admission := Locked, mutex := Admitting)
    case Create(t) => s.(admission := Created(t), workers := s.workers[t := Running])
    case CreateFails => s.(admission := Idle, mutex := Free)
    case Append => s.(admission := Appended, table := s.table + [s.admission.thread])
    case UnlockTable => s.(admission := Idle, mutex := Free)
    case Fail(t) => s.(workers := s.workers[t := Failed])
    case StartCleaning(t) => s.(mutex := Cleaning(t), workers := s.workers[t := Scanning(0)])
    case Scan(t) =>
      var i := s.workers[t].i;
      if s.table[i] == t then s.(table := SwapRemove(s.table, i), workers := s.workers[t := Removed])
      else s.(workers := s.workers[t := Scanning(i + 1)])
    case StopCleaning(t) => s.(mutex := Free, workers := s.workers[t := Cleaned])
  }

  ghost predicate Possible(s: State, steps: seq<Step>)
    decreases |steps|
  {
    steps == [] || (Enabled(s, steps[0]) && Possible(Next(s, steps[0]), steps[1..]))
  }

  ghost function After(s: State, steps: seq<Step>): State
    requires Possible(s, steps)
    decreases |steps|
  {
    if steps == [] then s else After(Next(s, steps[0]), steps[1..])
  }

  // ---------------------------------------------------------------- the invariant

  /** Created and not yet removed from the table by itself. */
  predicate Live(s: State, t: Thread) {
    t in s.workers && (s.workers[t].Running? || s.workers[t].Scanning? || s.workers[t].Failed?)
  }

  predicate Distinct<T(==)>(table: seq<T>) {
    forall i, j :: 0 <= i < j < |table| ==> table[i] != table[j]
  }

  ghost predicate MutexHeld(s: State) {
    && (s.mutex.Admitting? <==> s.admission.Locked? || s.admission.Created? || s.admission.Appended?)
    && (forall t :: t in s.workers && (s.workers[t].Scanning? || s.workers[t].Removed?) ==> s.mutex == Cleaning(t))
    && (s.mutex.Cleaning? ==> IsScanning(s, s.mutex.thread) || At(s, s.mutex.thread, Removed))
  }

  /** The table lists the live workers, but for one that is created and not yet appended. */
  ghost predicate TableExact(s: State) {
    && Distinct(s.table)
    && (forall t :: t in s.table <==> Live(s, t) && s.admission != Created(t))
    && (s.admission.Created? ==> At(s, s.admission.thread, Running) || At(s, s.admission.thread, Failed))
  }

  ghost predicate ScansForward(s: State) {
    forall t :: IsScanning(s, t) ==> s.workers[t].i <= |s.table| && t !in s.table[..s.workers[t].i]
  }

  /** The check is made without the mutex; it stays true until the entry is appended, as
      the workers only remove entries. */
  ghost predicate Bounded(s: State) {
    && |s.table| <= MAX_PROC_CONCURRENT
    && (s.admission.Admitted? || s.admission.Locked? || s.admission.Created? ==> |s.table| < MAX_PROC_CONCURRENT)
  }

  ghost predicate Inv(s: State) {
    MutexHeld(s) && TableExact(s) && ScansForward(s) && Bounded(s)
  }

  /** The last entry stands where the removed one stood, the others where they were. */
  lemma SwapRemoveByIndex<T>(s: seq<T>, i: nat)
    requires i < |s|
    ensures |SwapRemove(s, i)| == |s| - 1
    ensures forall j :: 0 <= j < |s| - 1 ==> SwapRemove(s, i)[j] == if j == i then s[|s| - 1] else s[j]
  {
  }

  lemma SwapRemoveKeeps<T>(table: seq<T>, i: nat)
    requires i < |table| && Distinct(table)
    ensures Distinct(SwapRemove(table, i))
    ensures forall t :: t in SwapRemove(table, i) <==> t in table && t != table[i]
  {
    var rest, last := SwapRemove(table, i), table[|table| - 1];
    forall t
      ensures t in rest <==> t in table && t != table[i]
    {
      if t in rest {
        var k :| 0 <= k < |rest| && rest[k] == t;
        assert t == if k == i then last else table[k];
      }
      if t in table && t != table[i] {
        var k :| 0 <= k < |table| && table[k] == t;
        assert rest[if k == |table| - 1 then i else k] == t;
      }
    }
  }

  /** Swap-removal loses nothing but the element it removes. */
  lemma SwapRemoveKeepsOthers<T>(s: seq<T>, i: nat, x: T)
    requires i < |s| && x in s && x != s[i]
    ensures x in SwapRemove(s, i)
  {
    var k :| 0 <= k < |s| && s[k] == x;
    assert SwapRemove(s, i)[if k == |s| - 1 then i else k] == x;
  }

  lemma StepKeepsInv(s: State, step: Step)
    requires Inv(s) && Enabled(s, step)
    ensures Inv(Next(s, step))
  {
    var s' := Next(s, step);
    match step
    case Scan(t) =>
      var i := s.workers[t].i;
      if s.table[i] == t {
        SwapRemoveKeeps(s.table, i);
      } else {
        assert s.table[..i + 1] == s.table[..i] + [s.table[i]];
      }
    case Append =>
      assert forall t :: t in s'.table <==> t in s.table || t == s.admission.thread;
    case _ =>
  }

  // ---------------------------------------------------------------- every interleaving

  lemma {:induction false} RunKeepsInv(s: State, steps: seq<Step>)
    requires Inv(s) && Possible(s, steps)
    ensures Inv(After(s, steps))
    decreases |steps|
  {
    if steps != [] {
      StepKeepsInv(s, steps[0]);
      RunKeepsInv(Next(s, steps[0]), steps[1..]);
    }
  }

  /** In every state of every interleaving: no entry occurs twice, there are never more
      than the maximum, the entries are exactly the live workers whenever the mutex is free,
      and a worker that scans for its entry is still in front of it. */
  lemma EveryInterleaving(steps: seq<Step>)
    requires Possible(START, steps)
    ensures var s := After(START, steps);
            && Distinct(s.table)
            && |s.table| <= 16
            && (s.mutex.Free? ==> forall t :: t in s.table <==> Live(s, t))
            && (forall t :: IsScanning(s, t) ==> s.workers[t].i < |s.table| && t in s.table[s.workers[t].i..])
  {
    RunKeepsInv(START, steps);
    var s := After(START, steps);
    forall t | IsScanning(s, t)
      ensures s.workers[t].i < |s.table| && t in s.table[s.workers[t].i..]
    {
      assert Live(s, t) && s.table == s.table[..s.workers[t].i] + s.table[s.workers[t].i..];
    }
  }

  /** A step takes an entry away only if it is the scanning worker's own, and adds one only
      for the worker just created. */
  lemma OnlyOwnEntries(steps: seq<Step>, step: Step, t: Thread)
    requires Possible(START, steps) && Enabled(After(START, steps), step)
    ensures var s := After(START, steps);
            (t in s.table) != (t in Next(s, step).table) ==>
              if t in s.table then step == Scan(t) else step == Append && s.admission == Created(t)
  {
    RunKeepsInv(START, steps);
    var s := After(START, steps);
    if step.Scan? && s.table[s.workers[step.thread].i] == step.thread {
      SwapRemoveKeeps(s.table, s.workers[step.thread].i);
    }
  }

  function FirstIndex(table: seq<Thread>, t: Thread, i: nat := 0): (k: nat)
    requires i <= |table|
    ensures i <= k <= |table|
    ensures k < |table| ==> table[k] == t
    ensures t !in table[i..k]
    decreases |table| - i
  {
    if i < |table| && table[i] != t then
      FirstIndex(table, t, i + 1)
    else i
  }

  /** The table without the entry of a thread, if it has one. */
  function Without(table: seq<Thread>, t: Thread): seq<Thread> {
    var k := FirstIndex(table, t);
    if k < |table| then SwapRemove(table, k) else table
  }

  /** The steps of an undisturbed scan from index `i` on, and the release of the mutex. */
  function ScanSteps(table: seq<Thread>, t: Thread, i: nat): seq<Step>
    requires i <= |table|
    decreases |table| - i
  {
    if i == |table| then [StopCleaning(t)]
    else [Scan(t)] + (if table[i] == t then [StopCleaning(t)] else ScanSteps(table, t, i + 1))
  }

  lemma LastStep(s: State, step: Step)
    requires Enabled(s, step)
    ensures Possible(s, [step]) && After(s, [step]) == Next(s, step)
  {
    assert [step][1..] == [];
  }

  lemma FirstStep(s: State, step: Step, steps: seq<Step>)
    requires Enabled(s, step) && Possible(Next(s, step), steps)
    ensures Possible(s, [step] + steps) && After(s, [step] + steps) == After(Next(s, step), steps)
  {
    assert ([step] + steps)[1..] == steps;
  }

  /** The state in which a worker has removed its entry, if it had one, and is done. */
  function CleanedUp(s: State, t: Thread, k: nat): State
    requires k <= |s.table|
  {
    State(if k < |s.table| then SwapRemove(s.table, k) else s.table, Free, s.admission, s.workers[t := Cleaned])
  }

  /** The scan, step by step, amounts to removing the first entry of the thread. */
  lemma {:induction false} ScanRemoves(s: State, t: Thread)
    requires IsScanning(s, t) && s.workers[t].i <= |s.table|
    ensures var i := s.workers[t].i;
            && Possible(s, ScanSteps(s.table, t, i))
            && After(s, ScanSteps(s.table, t, i)) == CleanedUp(s, t, FirstIndex(s.table, t, i))
            && (i == 0 ==> After(s, ScanSteps(s.table, t, i)).table == Without(s.table, t))
    decreases |s.table| - s.workers[t].i
  {
    var i := s.workers[t].i;
    if i == |s.table| {
      LastStep(s, StopCleaning(t));
    } else {
      var s' := Next(s, Scan(t));
      assert s'.workers[t := Cleaned] == s.workers[t := Cleaned];
      hide Possible, After;
      if s.table[i] == t {
        LastStep(s', StopCleaning(t));
        FirstStep(s, Scan(t), [StopCleaning(t)]);
      } else {
        ScanRemoves(s', t);
        FirstStep(s, Scan(t), ScanSteps(s.table, t, i + 1));
      }
    }
  }

  /** An admission that nobody disturbs appends one entry. */
  lemma AdmissionAppends(s: State, t: Thread)
    requires s.admission.Idle? && s.mutex.Free? && |s.table| < 16
    requires t !in s.workers || s.workers[t].Cleaned?
    ensures var steps := [Check] + ([LockTable] + ([Create(t)] + ([Append] + [UnlockTable])));
            Possible(s, steps) && After(s, steps) == s.(table := s.table + [t], workers := s.workers[t := Running])
  {
    var admitted := Next(s, Check);
    var locked := Next(admitted, LockTable);
    var created := Next(locked, Create(t));
    var appended := Next(created, Append);
    LastStep(appended, UnlockTable);
    hide Possible, After;
    FirstStep(created, Append, [UnlockTable]);
    FirstStep(locked, Create(t), [Append] + [UnlockTable]);
    FirstStep(admitted, LockTable, [Create(t)] + ([Append] + [UnlockTable]));
    FirstStep(s, Check, [LockTable] + ([Create(t)] + ([Append] + [UnlockTable])));
  }
}
