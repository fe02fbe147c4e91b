/** Static analysis: the tail-call marks of a procedure and the memoised walk of the
    call graph that builds one analysis node per called slot (src/proc_analyze.c).
 */
module Analyze {
  import opened ProcTypes

  // ---------------------------------------------------------------- tail calls

  predicate IfElseAt(p: Proc, i: int) {
    0 <= i < |p| && p[i].op.IfElse?
  }

  predicate OnlyNoopsFrom(p: Proc, start: nat) {
    forall j :: start <= j < |p| ==> p[j].op.Noop?
  }

  /** What the mark means on the text of the procedure: behind the call, and behind the
      else-instruction that a taken then-branch skips, there is nothing but NOOPs. */
  predicate TailMark(p: Proc, i: nat)
    requires i < |p|
  {
    OnlyNoopsFrom(p, if IfElseAt(p, i - 1) then i + 2 else i + 1)
  }

  method AnalyzeTailCall(p: Proc, i: nat) returns (isTailCall: bool)
    requires i < |p|
    ensures isTailCall == TailMark(p, i)
  {
    isTailCall := true;
    if i > 0 && p[i - 1].op.IfElse? && i + 1 < |p| {
      var j := i + 2;
      while j < |p|
        invariant i + 2 <= j <= |p|
        invariant forall k :: i + 2 <= k < j ==> p[k].op.Noop?
      {
        if !p[j].op.Noop? {
          isTailCall := false;
          break;
        }
        j := j + 1;
      }
    } else if i == 0 || !p[i - 1].op.IfElse? {
      var j := i + 1;
      while j < |p|
        invariant i + 1 <= j <= |p|
        invariant forall k :: i + 1 <= k < j ==> p[k].op.Noop?
      {
        if !p[j].op.Noop? {
          isTailCall := false;
          break;
        }
        j := j + 1;
      }
    }
  }

  // ---------------------------------------------------------------- what a node says

  datatype InstructionAnalysis = InstructionAnalysis(kind: byte, isTailCall: bool)

  /** A zeroed entry. */
  const BLANK := InstructionAnalysis(0, false)

  function Described(p: Proc, i: nat): InstructionAnalysis
    requires i < |p|
  {
    InstructionAnalysis(Tag(p[i].op), p[i].op.Call? && TailMark(p, i))
  }

  /** The slots called by the first `n` instructions, in order, repeats included. */
  function CallSlots(p: Proc, n: nat): seq<byte>
    requires n <= |p|
  {
    if n == 0 then []
    else CallSlots(p, n - 1) + (if p[n - 1].op.Call? then [p[n - 1].op.slot] else [])
  }

  predicate FilledCall(store: Store, p: Proc, i: nat)
    requires i < |p|
  {
    p[i].op.Call? ==> store[p[i].op.slot] != []
  }

  predicate CallsFilled(store: Store, p: Proc) {
    forall i :: 0 <= i < |p| ==> FilledCall(store, p, i)
  }

  predicate CallsSlot(p: Proc, s: byte) {
    exists i :: 0 <= i < |p| && p[i].op == Call(s)
  }

  /** `path` lists slots named one in the text of the other, the first in the text of `p`. */
  ghost predicate CallChain(store: Store, p: Proc, path: seq<byte>)
    decreases |path|
  {
    && path != []
    && CallsSlot(p, path[0])
    && (|path| > 1 ==> CallChain(store, store[path[0]], path[1..]))
  }

  /** How far the walk of `p` gets: the first call to a free slot, or the end. */
  function Cut(store: Store, p: Proc, i: nat := 0): (k: nat)
    requires i <= |p|
    ensures i <= k <= |p|
    ensures forall j :: i <= j < k && p[j].op.Call? ==> store[p[j].op.slot] != []
    ensures k < |p| ==> p[k].op.Call? && store[p[k].op.slot] == []
    decreases |p| - i
  {
    if i < |p| && FilledCall(store, p, i) then Cut(store, p, i + 1) else i
  }

  function Callees(store: Store, p: Proc): seq<byte> {
    CallSlots(p, Cut(store, p))
  }

  class Analysis {
    var proc: Proc
    var subAnalyses: seq<Analysis>
    var procedureSlots: seq<byte>
    var instructionAnalyses: seq<InstructionAnalysis>

    constructor () {
      proc, subAnalyses, procedureSlots, instructionAnalyses := [], [], [], [];
    }
  }

  type Memo = map<byte, Analysis>

  /** The state shared by one analysis: a slot is marked when it has an entry. */
  class AnalysisConfig {
    var analyses: Memo

    constructor ()
      ensures analyses == map[]
    {
      analyses := map[];
    }
  }

  /** `node` holds the entries of the first `n` instructions of `p`, and the
      sub-analyses that `memo` holds for the calls among the first `m`. */
  ghost predicate Recorded(p: Proc, node: Analysis, memo: Memo, n: nat, m: nat)
    requires n <= |p| && m <= |p|
    reads node
  {
    && node.proc == p
    && |node.instructionAnalyses| == |p|
    && (forall i :: 0 <= i < |p| ==> node.instructionAnalyses[i] == if i < n then Described(p, i) else BLANK)
    && node.procedureSlots == CallSlots(p, n)
    && LinkedTo(node.subAnalyses, CallSlots(p, m), memo)
  }

  /** `node` is the analysis of `p`, as far as the walk gets. */
  ghost predicate Describes(store: Store, p: Proc, node: Analysis, memo: Memo)
    reads node
  {
    var k := Cut(store, p);
    Recorded(p, node, memo, if k < |p| then k + 1 else k, k)
  }

  ghost predicate LinkedTo(subs: seq<Analysis>, slots: seq<byte>, memo: Memo) {
    |subs| == |slots| && forall j :: 0 <= j < |slots| ==> slots[j] in memo && subs[j] == memo[slots[j]]
  }

  ghost predicate Extends(memo: Memo, later: Memo) {
    forall s :: s in memo ==> s in later && later[s] == memo[s]
  }

  ghost predicate Injective(memo: Memo) {
    forall s, t :: s in memo && t in memo && memo[s] == memo[t] ==> s == t
  }

  // ---------------------------------------------------------------- reachability

  /** `path` lists slots called one from the other, starting with a callee of `p`. */
  ghost predicate CallPath(store: Store, p: Proc, path: seq<byte>)
    decreases |path|
  {
    && path != []
    && path[0] in Callees(store, p)
    && (|path| > 1 ==> CallPath(store, store[path[0]], path[1..]))
  }

  ghost predicate Reaches(store: Store, p: Proc, s: byte) {
    exists path: seq<byte> :: CallPath(store, p, path) && path[|path| - 1] == s
  }

  /** Every call that can be reached from `p` targets an occupied slot. */
  ghost predicate Closed(store: Store, p: Proc) {
    CallsFilled(store, p) && forall s: byte :: Reaches(store, p, s) ==> CallsFilled(store, store[s])
  }

  lemma ReachesCallee(store: Store, p: Proc, s: byte)
    requires s in Callees(store, p)
    ensures Reaches(store, p, s)
  {
    assert CallPath(store, p, [s]);
  }

  lemma ReachesThrough(store: Store, p: Proc, s: byte, t: byte)
    requires s in Callees(store, p) && Reaches(store, store[s], t)
    ensures Reaches(store, p, t)
  {
    var path: seq<byte> :| CallPath(store, store[s], path) && path[|path| - 1] == t;
    assert ([s] + path)[1..] == path;
    assert CallPath(store, p, [s] + path);
  }

  /** A set of slots that holds the callees of `p` and is closed under calls holds
      everything `p` reaches. */
  lemma {:induction false} ClosedSetHoldsPath(store: Store, p: Proc, path: seq<byte>, marked: set<byte>)
    requires CallPath(store, p, path)
    requires forall s :: s in Callees(store, p) ==> s in marked
    requires forall s, t :: s in marked && t in Callees(store, store[s]) ==> t in marked
    ensures path[|path| - 1] in marked
    decreases |path|
  {
    if |path| > 1 {
      ClosedSetHoldsPath(store, store[path[0]], path[1..], marked);
    }
  }

  // ---------------------------------------------------------------- in the text

  lemma {:induction false} CalleesInText(p: Proc, n: nat)
    requires n <= |p|
    ensures forall s :: s in CallSlots(p, n) <==> exists i :: 0 <= i < n && p[i].op == Call(s)
  {
    if n > 0 {
      CalleesInText(p, n - 1);
    }
  }

  lemma FilledInText(store: Store, p: Proc)
    ensures CallsFilled(store, p) <==> forall s: byte :: CallsSlot(p, s) ==> store[s] != []
    ensures CallsFilled(store, p) <==> Cut(store, p) == |p|
  {
    if CallsFilled(store, p) {
      forall s: byte | CallsSlot(p, s)
        ensures store[s] != []
      {
        var i :| 0 <= i < |p| && p[i].op == Call(s);
        assert FilledCall(store, p, i);
      }
    } else {
      var i :| 0 <= i < |p| && !FilledCall(store, p, i);
      assert CallsSlot(p, p[i].op.slot);
    }
  }

  /** No chain of calls in the text leads to a free slot. */
  ghost predicate NoChainToFree(store: Store, p: Proc) {
    forall path :: CallChain(store, p, path) ==> store[path[|path| - 1]] != []
  }

  lemma ChainsGoOn(store: Store, p: Proc, s: byte)
    requires NoChainToFree(store, p) && CallsSlot(p, s)
    ensures store[s] != [] && NoChainToFree(store, store[s])
  {
    assert CallChain(store, p, [s]);
    forall path | CallChain(store, store[s], path)
      ensures store[path[|path| - 1]] != []
    {
      assert ([s] + path)[1..] == path;
      assert CallChain(store, p, [s] + path);
    }
  }

  lemma NoChainFromFilled(store: Store, p: Proc)
    requires NoChainToFree(store, p)
    ensures CallsFilled(store, p)
  {
    FilledInText(store, p);
    forall s: byte | CallsSlot(p, s)
      ensures store[s] != []
    {
      ChainsGoOn(store, p, s);
    }
  }

  /** A procedure calls a free slot itself. */
  predicate CallsFree(store: Store, p: Proc) {
    exists i :: 0 <= i < |p| && p[i].op.Call? && store[p[i].op.slot] == []
  }

  /** A program fails in its analysis at once, or its analysis is complete. */
  ghost predicate Analysable(store: Store, p: Proc) {
    CallsFree(store, p) || NoChainToFree(store, p)
  }

  /** Where no chain leads to a free slot, the walk follows every chain. */
  lemma {:induction false} PathsAreChains(store: Store, p: Proc, path: seq<byte>)
    requires path != []
    ensures CallPath(store, p, path) ==> CallChain(store, p, path)
    ensures NoChainToFree(store, p) && CallChain(store, p, path) ==> CallPath(store, p, path)
    ensures CallPath(store, p, path) && NoChainToFree(store, p) ==> CallsFilled(store, store[path[|path| - 1]])
    decreases |path|
  {
    CalleesInText(p, Cut(store, p));
    FilledInText(store, p);
    if CallPath(store, p, path) || CallChain(store, p, path) {
      assert CallsSlot(p, path[0]);
      if |path| > 1 {
        PathsAreChains(store, store[path[0]], path[1..]);
      }
      if NoChainToFree(store, p) {
        NoChainFromFilled(store, p);
        ChainsGoOn(store, p, path[0]);
        NoChainFromFilled(store, store[path[0]]);
      }
    }
  }

  /** Closed under the calls of the walk, a program never meets a chain to a free slot. */
  lemma {:induction false} ChainsArePaths(store: Store, p: Proc, path: seq<byte>)
    requires CallChain(store, p, path) && Closed(store, p)
    ensures CallPath(store, p, path) && store[path[|path| - 1]] != []
    decreases |path|
  {
    var s := path[0];
    CalleesInText(p, Cut(store, p));
    FilledInText(store, p);
    assert s in Callees(store, p);
    if |path| > 1 {
      ReachesCallee(store, p, s);
      forall t: byte | Reaches(store, store[s], t)
        ensures CallsFilled(store, store[t])
      {
        ReachesThrough(store, p, s, t);
      }
      ChainsArePaths(store, store[s], path[1..]);
    }
  }

  /** What the walk reaches and where it is cut, in terms of the text alone. */
  lemma ClosedInText(store: Store, p: Proc)
    ensures Closed(store, p) <==> NoChainToFree(store, p)
    ensures NoChainToFree(store, p) ==>
              forall s: byte :: Reaches(store, p, s) <==> exists path :: CallChain(store, p, path) && path[|path| - 1] == s
  {
    if Closed(store, p) {
      forall path | CallChain(store, p, path)
        ensures store[path[|path| - 1]] != []
      {
        ChainsArePaths(store, p, path);
      }
    }
    if NoChainToFree(store, p) {
      NoChainFromFilled(store, p);
      forall path: seq<byte> | path != []
        ensures CallPath(store, p, path) <==> CallChain(store, p, path)
        ensures CallPath(store, p, path) ==> CallsFilled(store, store[path[|path| - 1]])
      {
        PathsAreChains(store, p, path);
      }
    }
  }

  /** In any case the walk reaches only what a chain leads to. */
  lemma ReachedByChain(store: Store, p: Proc, s: byte)
    requires Reaches(store, p, s)
    ensures exists path :: CallChain(store, p, path) && path[|path| - 1] == s
  {
    var path: seq<byte> :| CallPath(store, p, path) && path[|path| - 1] == s;
    PathsAreChains(store, p, path);
  }

  // ---------------------------------------------------------------- the walk

  lemma {:induction false} CallSlotsPrefix(p: Proc, n: nat, m: nat)
    requires n <= m <= |p|
    ensures CallSlots(p, n) <= CallSlots(p, m)
  {
    if n < m {
      CallSlotsPrefix(p, n, m - 1);
    }
  }

  lemma CallIsCallee(store: Store, p: Proc, i: nat)
    requires i < Cut(store, p) && p[i].op.Call?
    ensures p[i].op.slot in Callees(store, p)
  {
    CallSlotsPrefix(p, i + 1, Cut(store, p));
    assert p[i].op.slot == CallSlots(p, i + 1)[|CallSlots(p, i)|];
  }

  ghost function Unmarked(memo: Memo): set<int> {
    set s: int | 0 <= s <= MAX_PROC_SLOT && s !in memo
  }

  method AnalyzeInstruction(p: Proc, i: nat) returns (a: InstructionAnalysis)
    requires i < |p|
    ensures a == Described(p, i)
    ensures a.isTailCall <==> p[i].op.Call? && TailMark(p, i)
    ensures match p[i].op
            case Block(_, _, _) => a.kind == 0
            case IfElse(_, _, _) => a.kind == 1
            case Set(_, _) => a.kind == 2
            case Unop(_, _, _) => a.kind == 3
            case Binop(_, _, _, _) => a.kind == 4
            case Call(_) => a.kind == 5
            case Noop => a.kind == 6
            case Unknown(tag) => a.kind == tag
  {
    a := BLANK.(kind := Tag(p[i].op));
    match p[i].op
    case Call(_) =>
      var isTailCall := AnalyzeTailCall(p, i);
      a := a.(isTailCall := isTailCall);
    case _ =>
  }

  /** The nodes `later` adds to `memo`: each the analysis of a slot `p` reaches. */
  ghost predicate Explored(store: Store, p: Proc, memo: Memo, later: Memo)
    reads set s | s in later && s !in memo :: later[s]
  {
    && Extends(memo, later)
    && (forall s {:trigger Describes(store, store[s], later[s], later)} | s in later && s !in memo ::
          Describes(store, store[s], later[s], later))
    && (forall s {:trigger Reaches(store, p, s)} | s in later && s !in memo :: Reaches(store, p, s))
  }

  /** Exploring the callee in `slot` extends what the caller has explored. */
  lemma ExploredThrough(store: Store, caller: Proc, slot: byte, sub: Analysis, memo: Memo, mid: Memo, later: Memo)
    requires slot in Callees(store, caller) && slot !in mid
    requires Explored(store, caller, memo, mid)
    requires Explored(store, store[slot], mid[slot := sub], later)
    requires Describes(store, store[slot], sub, later)
    ensures Explored(store, caller, memo, later)
  {
    ReachesCallee(store, caller, slot);
    forall s | s in later && s !in memo
      ensures Describes(store, store[s], later[s], later) && Reaches(store, caller, s)
    {
      if s in mid {
        assert Describes(store, store[s], mid[s], mid);
      } else if s != slot {
        ReachesThrough(store, caller, slot, s);
      }
    }
  }

  /** The memoised recursion; `memo` is the state at the start of the caller's analysis. */
  method AnalyzeCallee(store: Store, ghost caller: Proc, slot: byte, config: AnalysisConfig, ghost memo: Memo)
    returns (sub: Analysis)
    requires slot in Callees(store, caller) && Injective(config.analyses)
    requires Explored(store, caller, memo, config.analyses)
    modifies config
    decreases Unmarked(config.analyses), 1
    ensures slot in config.analyses && sub == config.analyses[slot]
    ensures Extends(old(config.analyses), config.analyses) && Injective(config.analyses)
    ensures Explored(store, caller, memo, config.analyses)
    ensures forall s | s in config.analyses && s !in old(config.analyses) :: fresh(config.analyses[s])
  {
    if slot in config.analyses {
      sub := config.analyses[slot];
    } else {
      sub := new Analysis();
      ghost var mid := config.analyses;
      config.analyses := config.analyses[slot := sub];
      assert slot in Unmarked(mid) && slot !in Unmarked(config.analyses);
      var _ := ProcAnalyze(store, store[slot], sub, config);
      ExploredThrough(store, caller, slot, sub, memo, mid, config.analyses);
    }
  }

  /** One round of the analysis loop. */
  method AnalyzeNext(store: Store, proc: Proc, i: nat, node: Analysis, config: AnalysisConfig, ghost memo: Memo)
    returns (ret: int)
    requires i < |proc| && i <= Cut(store, proc) && Injective(config.analyses)
    requires Recorded(proc, node, config.analyses, i, i)
    requires Explored(store, proc, memo, config.analyses)
    requires forall s | s in config.analyses && s !in memo :: config.analyses[s] != node
    modifies node, config
    decreases Unmarked(config.analyses), 2
    ensures ret == if proc[i].op.Call? && store[proc[i].op.slot] == [] then -1 else 0
    ensures Recorded(proc, node, config.analyses, i + 1, if ret == 0 then i + 1 else i)
    ensures Extends(old(config.analyses), config.analyses) && Injective(config.analyses)
    ensures Explored(store, proc, memo, config.analyses)
    ensures forall s | s in config.analyses && s !in old(config.analyses) :: fresh(config.analyses[s])
  {
    hide Explored, Described, TailMark, Reaches, Unmarked;
    RecordInstruction(proc, i, node, config.analyses);
    if proc[i].op.Call? {
      var slot := proc[i].op.slot;
      if store[slot] == [] {
        return -1;
      }
      assert FilledCall(store, proc, i) && i < Cut(store, proc);
      CallIsCallee(store, proc, i);
      var sub := AnalyzeCallee(store, proc, slot, config, memo);
      node.subAnalyses := node.subAnalyses + [sub];
    }
    return 0;
  }

  /** The entry of an instruction, and the slot of a call. */
  method RecordInstruction(proc: Proc, i: nat, node: Analysis, ghost memo: Memo)
    requires i < |proc| && Recorded(proc, node, memo, i, i)
    modifies node
    ensures Recorded(proc, node, memo, i + 1, i)
  {
    hide Described;
    var a := AnalyzeInstruction(proc, i);
    node.instructionAnalyses := node.instructionAnalyses[i := a];
    if proc[i].op.Call? {
      node.procedureSlots := node.procedureSlots + [proc[i].op.slot];
    }
  }

  method ProcAnalyze(store: Store, proc: Proc, node: Analysis, config: AnalysisConfig) returns (ret: int)
    requires Injective(config.analyses)
    modifies node, config
    decreases Unmarked(config.analyses), 3
    ensures ret == if exists s: byte :: CallsSlot(proc, s) && store[s] == [] then -1 else 0
    ensures Describes(store, proc, node, config.analyses)
    ensures Explored(store, proc, old(config.analyses), config.analyses) && Injective(config.analyses)
    ensures forall s | s in config.analyses && s !in old(config.analyses) :: fresh(config.analyses[s])
  {
    ghost var memo := config.analyses;
    node.proc := proc;
    node.subAnalyses, node.procedureSlots := [], [];
    node.instructionAnalyses := seq(|proc|, _ => BLANK);
    var i := 0;
    while i < |proc|
      invariant 0 <= i <= Cut(store, proc)
      invariant Recorded(proc, node, config.analyses, i, i)
      invariant Explored(store, proc, memo, config.analyses) && Injective(config.analyses)
      invariant forall s | s in config.analyses && s !in memo :: fresh(config.analyses[s])
    {
      assert Unmarked(config.analyses) <= Unmarked(memo);
      ret := AnalyzeNext(store, proc, i, node, config, memo);
      if ret != 0 {
        assert Cut(store, proc) == i && CallsSlot(proc, proc[i].op.slot);
        return;
      }
      i := i + 1;
    }
    return 0;
  }

  // ---------------------------------------------------------------- the whole analysis

  /** A node with an entry per instruction and a sub-analysis per call. */
  ghost predicate Complete(node: Analysis)
    reads node
  {
    && |node.instructionAnalyses| == |node.proc|
    && (forall i :: 0 <= i < |node.proc| ==> node.instructionAnalyses[i] == Described(node.proc, i))
    && node.procedureSlots == CallSlots(node.proc, |node.proc|)
    && |node.subAnalyses| == |node.procedureSlots|
  }

  /** Complete nodes whose sub-analyses are nodes again, each for the stored procedure. */
  ghost predicate Graph(store: Store, nodes: set<Analysis>)
    reads nodes
  {
    forall n :: n in nodes ==>
      && Complete(n)
      && forall j :: 0 <= j < |n.subAnalyses| ==>
           n.subAnalyses[j] in nodes && n.subAnalyses[j].proc == store[n.procedureSlots[j]]
  }

  lemma CompleteIffFilled(store: Store, p: Proc, node: Analysis, memo: Memo)
    requires Describes(store, p, node, memo)
    ensures Complete(node) <==> CallsFilled(store, p)
  {
    var k := Cut(store, p);
    if k < |p| {
      assert !FilledCall(store, p, k);
    }
  }

  lemma MarkedIffReached(store: Store, root: Proc, node: Analysis, memo: Memo)
    requires Explored(store, root, map[], memo) && Describes(store, root, node, memo)
    ensures forall s: byte :: s in memo <==> Reaches(store, root, s)
  {
    forall s, t | s in memo.Keys && t in Callees(store, store[s])
      ensures t in memo.Keys
    {
      assert Describes(store, store[s], memo[s], memo);
    }
    forall s: byte | Reaches(store, root, s)
      ensures s in memo
    {
      var path: seq<byte> :| CallPath(store, root, path) && path[|path| - 1] == s;
      ClosedSetHoldsPath(store, root, path, memo.Keys);
    }
    forall s: byte | s in memo
      ensures Reaches(store, root, s)
    {
    }
  }

  lemma CompleteIffClosed(store: Store, root: Proc, node: Analysis, memo: Memo)
    requires Explored(store, root, map[], memo) && Describes(store, root, node, memo)
    ensures (forall n :: n in memo.Values + {node} ==> Complete(n)) <==> Closed(store, root)
    ensures Closed(store, root) <==> NoChainToFree(store, root)
  {
    MarkedIffReached(store, root, node, memo);
    CompleteIffFilled(store, root, node, memo);
    ClosedInText(store, root);
    forall s | s in memo
      ensures Complete(memo[s]) <==> CallsFilled(store, store[s])
    {
      assert Describes(store, store[s], memo[s], memo);
      CompleteIffFilled(store, store[s], memo[s], memo);
    }
    if forall n :: n in memo.Values + {node} ==> Complete(n) {
      forall s: byte | Reaches(store, root, s)
        ensures CallsFilled(store, store[s])
      {
        assert memo[s] in memo.Values;
      }
    }
  }

  lemma LinksOf(store: Store, root: Proc, p: Proc, n: Analysis, memo: Memo)
    requires Explored(store, root, map[], memo) && Describes(store, p, n, memo) && CallsFilled(store, p)
    ensures forall j :: 0 <= j < |n.subAnalyses| ==>
              && j < |n.procedureSlots|
              && n.subAnalyses[j] in memo.Values
              && n.subAnalyses[j].proc == store[n.procedureSlots[j]]
  {
    forall j | 0 <= j < |n.subAnalyses|
      ensures j < |n.procedureSlots|
      ensures n.subAnalyses[j] in memo.Values
      ensures n.subAnalyses[j].proc == store[n.procedureSlots[j]]
    {
      var s := n.procedureSlots[j];
      assert s in memo && n.subAnalyses[j] == memo[s];
      assert Describes(store, store[s], memo[s], memo);
    }
  }

  lemma ClosedGraph(store: Store, root: Proc, node: Analysis, memo: Memo)
    requires Explored(store, root, map[], memo) && Describes(store, root, node, memo) && Closed(store, root)
    ensures Graph(store, memo.Values + {node})
  {
    MarkedIffReached(store, root, node, memo);
    CompleteIffClosed(store, root, node, memo);
    LinksOf(store, root, root, node, memo);
    forall n | n in memo.Values
      ensures forall j :: 0 <= j < |n.subAnalyses| ==>
                && j < |n.procedureSlots|
                && n.subAnalyses[j] in memo.Values
                && n.subAnalyses[j].proc == store[n.procedureSlots[j]]
    {
      var s :| s in memo && memo[s] == n;
      assert Describes(store, store[s], memo[s], memo);
      LinksOf(store, root, store[s], n, memo);
    }
  }

  /** The analysis a worker runs before it executes `root`, from a zeroed configuration:
      it fails exactly if the root itself calls a free slot, as codes of inner analyses are
      dropped; it leaves every node complete exactly if no chain of calls leads to a free
      slot, and then marks exactly the slots at the end of such chains. */
  method AnalyzeProgram(store: Store, root: Proc) returns (node: Analysis, config: AnalysisConfig, ret: int)
    ensures fresh(node) && fresh(config) && fresh(config.analyses.Values)
    ensures node.proc == root && node !in config.analyses.Values
    ensures ret == 0 || ret == -1
    ensures ret == -1 <==> exists i :: 0 <= i < |root| && root[i].op.Call? && store[root[i].op.slot] == []
    ensures forall s: byte :: s in config.analyses <==> Reaches(store, root, s)
    ensures forall s :: s in config.analyses ==> config.analyses[s].proc == store[s]
    ensures Injective(config.analyses)
    ensures (forall n :: n in config.analyses.Values + {node} ==> Complete(n))
       <==> forall path :: CallChain(store, root, path) ==> store[path[|path| - 1]] != []
    ensures forall s: byte :: s in config.analyses ==> exists path :: CallChain(store, root, path) && path[|path| - 1] == s
    ensures (forall n :: n in config.analyses.Values + {node} ==> Complete(n)) ==>
              && Graph(store, config.analyses.Values + {node})
              && forall path :: CallChain(store, root, path) ==> path[|path| - 1] in config.analyses
  {
    hide Explored, Describes, Complete, Injective, Graph, Closed, CallChain, Reaches;
    config := new AnalysisConfig();
    node := new Analysis();
    ret := ProcAnalyze(store, root, node, config);
    Analyzed(store, root, node, config.analyses);
  }

  lemma Analyzed(store: Store, root: Proc, node: Analysis, memo: Memo)
    requires Explored(store, root, map[], memo) && Describes(store, root, node, memo) && Injective(memo)
    ensures node.proc == root
    ensures forall s: byte :: s in memo <==> Reaches(store, root, s)
    ensures forall s :: s in memo ==> memo[s].proc == store[s]
    ensures (forall n :: n in memo.Values + {node} ==> Complete(n)) <==> NoChainToFree(store, root)
    ensures forall s: byte :: s in memo ==> exists path :: CallChain(store, root, path) && path[|path| - 1] == s
    ensures NoChainToFree(store, root) ==>
              && Graph(store, memo.Values + {node})
              && forall path :: CallChain(store, root, path) ==> path[|path| - 1] in memo
  {
    MarkedIffReached(store, root, node, memo);
    CompleteIffClosed(store, root, node, memo);
    ClosedInText(store, root);
    if Closed(store, root) {
      ClosedGraph(store, root, node, memo);
    }
    forall s | s in memo
      ensures memo[s].proc == store[s]
    {
      assert Describes(store, store[s], memo[s], memo);
    }
    forall s: byte | s in memo
      ensures exists path :: CallChain(store, root, path) && path[|path| - 1] == s
    {
      ReachedByChain(store, root, s);
    }
  }
}
