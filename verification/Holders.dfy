/** Collections of procedures that own string buffers. */
module Holders {
  import opened ProcTypes
  import opened Memory

  /** How often a collection of procedures holds each buffer. */
  function HolderBag(hs: seq<HeapProc>): multiset<Ptr> {
    if hs == [] then multiset{}
    else
      var last := hs[|hs| - 1];
      HolderBag(hs[..|hs| - 1]) + Bag(last, |last|)
  }

  function BagOf(p: HeapProc): multiset<Ptr> {
    Bag(p, |p|)
  }

  lemma HolderAppend(hs: seq<HeapProc>, p: HeapProc)
    ensures HolderBag(hs + [p]) == HolderBag(hs) + BagOf(p)
  {
    assert (hs + [p])[..|hs|] == hs;
  }

  lemma AddSame<T>(a: multiset<T>, b: multiset<T>, c: multiset<T>, d: multiset<T>, e: multiset<T>)
    requires a + b == c + d
    ensures (a + e) + b == (c + e) + d
  {
    forall x
      ensures ((a + e) + b)[x] == ((c + e) + d)[x]
    {
      assert (a + b)[x] == (c + d)[x];
    }
  }

  /** Replacing one holder changes the count by the difference. */
  lemma {:induction false} HolderUpdate(hs: seq<HeapProc>, k: nat, p: HeapProc)
    requires k < |hs|
    ensures HolderBag(hs[k := p]) + BagOf(hs[k]) == HolderBag(hs) + BagOf(p)
    decreases |hs|
  {
    hide Bag;
    var front, last, updated := hs[..|hs| - 1], hs[|hs| - 1], hs[k := p];
    if k < |hs| - 1 {
      HolderUpdate(front, k, p);
      assert front[k] == hs[k] && updated[..|hs| - 1] == front[k := p] && updated[|hs| - 1] == last;
      AddSame(HolderBag(front[k := p]), BagOf(hs[k]), HolderBag(front), BagOf(p), BagOf(last));
    } else {
      assert updated[..|hs| - 1] == front && updated[|hs| - 1] == p;
    }
  }

  lemma {:induction false} HolderHolds(hs: seq<HeapProc>, k: nat)
    requires k < |hs|
    ensures BagOf(hs[k]) <= HolderBag(hs)
    decreases |hs|
  {
    hide Bag;
    if k < |hs| - 1 {
      HolderHolds(hs[..|hs| - 1], k);
    }
  }

  /** Two holders hold at most what all hold together. */
  lemma {:induction false} TwoHold(hs: seq<HeapProc>, j: nat, k: nat)
    requires j < |hs| && k < |hs| && j != k
    ensures BagOf(hs[j]) + BagOf(hs[k]) <= HolderBag(hs)
    decreases |hs|
  {
    hide Bag;
    var front := hs[..|hs| - 1];
    if j == |hs| - 1 {
      HolderHolds(front, k);
    } else if k == |hs| - 1 {
      HolderHolds(front, j);
    } else {
      TwoHold(front, j, k);
    }
  }

  /** Releasing one holder's buffers leaves the buffers of the others as they are. */
  lemma OthersAgree(before: Heap, after: Heap, freed: multiset<Ptr>, other: multiset<Ptr>)
    requires Handles(before) == Handles(after) + freed
    requires freed + other <= Handles(before) && Extends(after, before)
    ensures AgreeOn(before, after, other)
  {
    Remains(Handles(before), Handles(after), freed, other);
    forall p | p in other
      ensures p in after
    {
      assert p in Handles(after);
    }
  }

  /** So does duplicating into new buffers. */
  lemma LiveAgree(before: Heap, after: Heap, bag: multiset<Ptr>)
    requires bag <= Handles(before) && Extends(before, after)
    ensures AgreeOn(before, after, bag)
  {
    forall p | p in bag
      ensures p in before
    {
      assert p in Handles(before);
    }
  }
}
