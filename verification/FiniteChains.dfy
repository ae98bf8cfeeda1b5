/** Chains of nodes in which every node has at most one successor, among finitely many nodes. */
module FiniteChains {
  import opened Wrappers

  /** The node after `k` hops, if the chain is that long. */
  function After(hop: nat -> Option<nat>, start: nat, k: nat): Option<nat> {
    if k == 0 then Some(start)
    else
      match After(hop, start, k - 1)
      case None => None
      case Some(node) => hop(node)
  }

  lemma {:induction false} AfterSplit(hop: nat -> Option<nat>, start: nat, i: nat, k: nat)
    requires After(hop, start, i).Some?
    ensures After(hop, start, i + k) == After(hop, After(hop, start, i).value, k)
  {
    if k > 0 {
      AfterSplit(hop, start, i, k - 1);
    }
  }

  lemma {:induction false} Pigeonhole(nodes: seq<nat>, count: nat)
    requires forall i | 0 <= i < |nodes| :: nodes[i] < count
    requires forall i, j | 0 <= i < j < |nodes| :: nodes[i] != nodes[j]
    ensures |nodes| <= count
  {
    if nodes != [] {
      assert nodes[0] < count;
      if i :| 0 <= i < |nodes| && nodes[i] == count - 1 {
        Pigeonhole(nodes[..i] + nodes[i + 1..], count - 1);
      } else {
        Pigeonhole(nodes, count - 1);
      }
    }
  }

  lemma {:induction false} EarlierIsReached(hop: nat -> Option<nat>, start: nat, i: nat, k: nat)
    requires After(hop, start, k).Some? && i <= k
    ensures After(hop, start, i).Some?
  {
    if i < k {
      EarlierIsReached(hop, start, i, k - 1);
    }
  }

  /** A chain that ends visits no node twice. */
  lemma {:induction false} EndingChainHasNoRepeats(hop: nat -> Option<nat>, start: nat, k: nat, i: nat, j: nat)
    requires After(hop, start, k).Some? && hop(After(hop, start, k).value).None? && i < j <= k
    ensures After(hop, start, i).Some? && After(hop, start, j).Some? && After(hop, start, i) != After(hop, start, j)
  {
    EarlierIsReached(hop, start, i, k);
    EarlierIsReached(hop, start, j, k);
    if After(hop, start, i) == After(hop, start, j) {
      AfterSplit(hop, start, i, k - j);
      AfterSplit(hop, start, j, k - j);
      EarlierIsReached(hop, start, i + (k - j) + 1, k);
      assert false;
    }
  }

  /** A chain that ends within `count` nodes ends before `count` hops. */
  lemma {:induction false} EndingChainIsShort(hop: nat -> Option<nat>, start: nat, k: nat, count: nat)
    requires After(hop, start, k).Some? && hop(After(hop, start, k).value).None?
    requires forall i | 0 <= i <= k :: After(hop, start, i).Some? ==> After(hop, start, i).value < count
    ensures k < count
  {
    forall i | 0 <= i <= k ensures After(hop, start, i).Some? {
      EarlierIsReached(hop, start, i, k);
    }
    var nodes := seq(k + 1, i requires 0 <= i <= k => After(hop, start, i).value);
    forall i, j | 0 <= i < j < |nodes| ensures nodes[i] != nodes[j] {
      EndingChainHasNoRepeats(hop, start, k, i, j);
    }
    Pigeonhole(nodes, count);
  }
}
