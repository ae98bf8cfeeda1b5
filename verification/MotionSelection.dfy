/**
 Which motions run when several want the same nodes (workbench/src/native.rs,
 `select_motion_bindings`): newest first, a motion that meets a newer running one stops entirely.
 */
module MotionSelection {

  const ACTIVATIONS: nat := 0x1_0000_0000_0000_0000

  type u64 = n: int | 0 <= n < ACTIVATIONS

  datatype MotionTarget = Model(id: u64) | Skeleton(id: u64)

  datatype MotionBinding = MotionBinding(resource: u64, skeleton: u64, target: MotionTarget, nodes: seq<nat>,
                                         activation: u64)

  /** Two motions want a node of the same skeleton on the same target. */
  predicate Clash(newer: MotionBinding, candidate: MotionBinding) {
    && newer.resource != candidate.resource
    && newer.skeleton == candidate.skeleton
    && newer.target == candidate.target
    && exists node :: node in newer.nodes && node in candidate.nodes
  }

  // ---------- the rule ----------

  /** Each activation belongs to one resource, and each resource was activated once. */
  ghost predicate OneActivationEach(all: set<MotionBinding>) {
    forall a, b | a in all && b in all :: a.resource == b.resource <==> a.activation == b.activation
  }

  /** The motion of that activation wants a node that the newer binding has. */
  ghost predicate Blocks(all: set<MotionBinding>, newer: MotionBinding, activation: u64) {
    exists c :: c in all && c.activation == activation && Clash(newer, c)
  }

  /** The motion of that activation clashes with a newer one that is not stopped itself. */
  ghost predicate Loses(all: set<MotionBinding>, activation: u64)
    decreases ACTIVATIONS - activation
  {
    exists newer | newer in all ::
      newer.activation > activation && Blocks(all, newer, activation) && !Loses(all, newer.activation)
  }

  ghost predicate Stopped(all: set<MotionBinding>, resource: u64) {
    exists c :: c in all && c.resource == resource && Loses(all, c.activation)
  }

  /** A choice of motions in which a motion runs exactly when it meets no newer running one. */
  ghost predicate Settled(all: set<MotionBinding>, running: set<u64>) {
    forall c | c in all ::
      c.activation in running <==>
        !exists newer | newer in all ::
           newer.activation > c.activation && Blocks(all, newer, c.activation) && newer.activation in running
  }

  /** There is only one such choice. */
  lemma {:induction false} SettledIsUnique(all: set<MotionBinding>, running: set<u64>, c: MotionBinding)
    requires Settled(all, running) && c in all
    ensures c.activation in running <==> !Loses(all, c.activation)
    decreases ACTIVATIONS - c.activation
  {
    hide Settled, Loses;
    forall newer | newer in all && newer.activation > c.activation
      ensures newer.activation in running <==> !Loses(all, newer.activation)
    {
      SettledIsUnique(all, running, newer);
    }
    SettledAt(all, running, c);
  }

  lemma {:induction false} SettledAt(all: set<MotionBinding>, running: set<u64>, c: MotionBinding)
    requires Settled(all, running) && c in all
    requires forall newer | newer in all && newer.activation > c.activation ::
               newer.activation in running <==> !Loses(all, newer.activation)
    ensures c.activation in running <==> !Loses(all, c.activation)
  {
    hide Blocks;
    if Loses(all, c.activation) {
      var newer :| newer in all && newer.activation > c.activation && Blocks(all, newer, c.activation)
        && !Loses(all, newer.activation);
      assert newer.activation in running;
    }
  }

  /** Running motions do not clash. */
  lemma {:induction false} RunningMotionsAreApart(all: set<MotionBinding>, a: MotionBinding, b: MotionBinding)
    requires OneActivationEach(all) && a in all && b in all
    requires Clash(a, b)
    ensures Stopped(all, a.resource) || Stopped(all, b.resource)
  {
    if a.activation > b.activation {
      assert Blocks(all, a, b.activation);
      assert Loses(all, a.activation) || Loses(all, b.activation);
    } else {
      assert Clash(b, a) && Blocks(all, b, a.activation);
      assert Loses(all, a.activation) || Loses(all, b.activation);
    }
  }

  // ---------- sorting ----------

  ghost predicate NewestFirst(bindings: seq<MotionBinding>) {
    forall i, j | 0 <= i < j < |bindings| :: bindings[i].activation >= bindings[j].activation
  }

  function Placed(binding: MotionBinding, sorted: seq<MotionBinding>): seq<MotionBinding> {
    if sorted == [] || binding.activation >= sorted[0].activation then [binding] + sorted
    else [sorted[0]] + Placed(binding, sorted[1..])
  }

  /** The stable sort by descending activation. */
  function Sorted(bindings: seq<MotionBinding>): seq<MotionBinding> {
    if bindings == [] then [] else Placed(bindings[0], Sorted(bindings[1..]))
  }

  function OfActivation(bindings: seq<MotionBinding>, activation: u64): seq<MotionBinding> {
    if bindings == [] then []
    else (if bindings[0].activation == activation then [bindings[0]] else []) + OfActivation(bindings[1..], activation)
  }

  lemma {:induction false} PlacedElements(binding: MotionBinding, sorted: seq<MotionBinding>)
    ensures multiset(Placed(binding, sorted)) == multiset{binding} + multiset(sorted)
    ensures forall b :: b in Placed(binding, sorted) <==> b == binding || b in sorted
  {
    if !(sorted == [] || binding.activation >= sorted[0].activation) {
      PlacedElements(binding, sorted[1..]);
      assert sorted == [sorted[0]] + sorted[1..];
    }
  }

  lemma {:induction false} PlacedInOrder(binding: MotionBinding, sorted: seq<MotionBinding>)
    requires NewestFirst(sorted)
    ensures NewestFirst(Placed(binding, sorted))
  {
    if !(sorted == [] || binding.activation >= sorted[0].activation) {
      var rest := Placed(binding, sorted[1..]);
      PlacedInOrder(binding, sorted[1..]);
      PlacedElements(binding, sorted[1..]);
      forall i | 0 <= i < |rest| ensures sorted[0].activation >= rest[i].activation {
        assert rest[i] in rest;
      }
    }
  }

  lemma {:induction false} PlacedFirst(binding: MotionBinding, sorted: seq<MotionBinding>, activation: u64)
    ensures OfActivation(Placed(binding, sorted), activation) == OfActivation([binding] + sorted, activation)
  {
    if !(sorted == [] || binding.activation >= sorted[0].activation) {
      var rest := sorted[1..];
      PlacedFirst(binding, rest, activation);
      assert Placed(binding, sorted)[1..] == Placed(binding, rest);
      assert ([binding] + sorted)[1..] == sorted;
      assert ([binding] + rest)[1..] == rest;
    }
  }

  /** Newest first, and the same bindings. */
  lemma {:induction false} SortedInOrder(bindings: seq<MotionBinding>)
    ensures NewestFirst(Sorted(bindings))
    ensures multiset(Sorted(bindings)) == multiset(bindings)
  {
    if bindings != [] {
      SortedInOrder(bindings[1..]);
      PlacedInOrder(bindings[0], Sorted(bindings[1..]));
      PlacedElements(bindings[0], Sorted(bindings[1..]));
      assert bindings == [bindings[0]] + bindings[1..];
    }
  }

  /** Bindings of one activation keep their given order. */
  lemma {:induction false} SortedIsStable(bindings: seq<MotionBinding>, activation: u64)
    ensures OfActivation(Sorted(bindings), activation) == OfActivation(bindings, activation)
  {
    if bindings != [] {
      var rest := Sorted(bindings[1..]);
      SortedIsStable(bindings[1..], activation);
      PlacedFirst(bindings[0], rest, activation);
      assert ([bindings[0]] + rest)[1..] == rest;
    }
  }

  // ---------- the selection ----------

  ghost function Elements(bindings: seq<MotionBinding>): set<MotionBinding> {
    set b | b in bindings
  }

  ghost function Running(all: set<MotionBinding>, bindings: seq<MotionBinding>): seq<MotionBinding> {
    if bindings == [] then []
    else
      var last := bindings[|bindings| - 1];
      Running(all, bindings[..|bindings| - 1]) + if Stopped(all, last.resource) then [] else [last]
  }

  function Without(bindings: seq<MotionBinding>, stopped: seq<u64>): seq<MotionBinding> {
    if bindings == [] then []
    else
      var last := bindings[|bindings| - 1];
      Without(bindings[..|bindings| - 1], stopped) + if last.resource in stopped then [] else [last]
  }

  lemma {:induction false} WithoutElements(bindings: seq<MotionBinding>, stopped: seq<u64>, b: MotionBinding)
    ensures b in Without(bindings, stopped) <==> b in bindings && b.resource !in stopped
  {
    if bindings != [] {
      WithoutElements(bindings[..|bindings| - 1], stopped, b);
      assert bindings == bindings[..|bindings| - 1] + [bindings[|bindings| - 1]];
    }
  }

  lemma {:induction false} WithoutMore(bindings: seq<MotionBinding>, stopped: seq<u64>, resource: u64)
    ensures Without(Without(bindings, stopped), [resource]) == Without(bindings, stopped + [resource])
  {
    if bindings == [] {
      assert Without(bindings, stopped) == [];
    } else {
      hide *;
      var before, last := bindings[..|bindings| - 1], bindings[|bindings| - 1];
      assert bindings == before + [last];
      WithoutMore(before, stopped, resource);
      if last.resource in stopped {
        WithoutDropped(before, last, stopped);
        WithoutDropped(before, last, stopped + [resource]);
      } else if last.resource == resource {
        WithoutLast(before, last, stopped);
        WithoutDropped(Without(before, stopped), last, [resource]);
        WithoutDropped(before, last, stopped + [resource]);
      } else {
        WithoutLast(before, last, stopped);
        WithoutLast(before, last, stopped + [resource]);
        WithoutLast(Without(before, stopped), last, [resource]);
      }
    }
  }

  lemma {:induction false} WithoutDropped(bindings: seq<MotionBinding>, last: MotionBinding, stopped: seq<u64>)
    requires last.resource in stopped
    ensures Without(bindings + [last], stopped) == Without(bindings, stopped)
  {
    assert (bindings + [last])[..|bindings|] == bindings;
    assert Without(bindings, stopped) + [] == Without(bindings, stopped);
  }

  lemma {:induction false} WithoutLast(bindings: seq<MotionBinding>, last: MotionBinding, stopped: seq<u64>)
    ensures Without(bindings + [last], stopped)
            == Without(bindings, stopped) + if last.resource in stopped then [] else [last]
  {
    assert (bindings + [last])[..|bindings|] == bindings;
  }

  lemma {:induction false} WithoutIsRunning(all: set<MotionBinding>, bindings: seq<MotionBinding>, stopped: seq<u64>)
    requires forall b | b in bindings :: b.resource in stopped <==> Stopped(all, b.resource)
    ensures Without(bindings, stopped) == Running(all, bindings)
  {
    if bindings != [] {
      WithoutIsRunning(all, bindings[..|bindings| - 1], stopped);
    }
  }

  /** The candidates before `i` have been decided against the newer ones that run. */
  ghost predicate Decided(all: set<MotionBinding>, sorted: seq<MotionBinding>, i: nat, stopped: seq<u64>)
    requires i <= |sorted|
  {
    forall r :: r in stopped <==> exists k | 0 <= k < i :: sorted[k].resource == r && Meets(all, sorted[k])
  }

  /** The binding clashes with a newer running one. */
  ghost predicate Meets(all: set<MotionBinding>, candidate: MotionBinding) {
    exists newer | newer in all ::
      newer.activation > candidate.activation && Clash(newer, candidate) && !Loses(all, newer.activation)
  }

  /** Newer candidates are fully decided. */
  lemma {:induction false} NewerIsDecided(all: set<MotionBinding>, sorted: seq<MotionBinding>, i: nat,
                                          stopped: seq<u64>, newer: MotionBinding)
    requires NewestFirst(sorted) && all == Elements(sorted) && OneActivationEach(all) && i <= |sorted|
    requires Decided(all, sorted, i, stopped) && newer in all
    requires i < |sorted| ==> newer.activation > sorted[i].activation
    ensures newer.resource in stopped <==> Loses(all, newer.activation)
    ensures Loses(all, newer.activation) <==> Stopped(all, newer.resource)
  {
    hide Decided, NewestFirst, Loses;
    if Loses(all, newer.activation) {
      LosersAreStopped(all, sorted, i, stopped, newer);
    }
    if newer.resource in stopped {
      StoppedHasLost(all, sorted, i, stopped, newer);
    }
  }

  lemma {:induction false} LosersAreStopped(all: set<MotionBinding>, sorted: seq<MotionBinding>, i: nat,
                                            stopped: seq<u64>, newer: MotionBinding)
    requires NewestFirst(sorted) && all == Elements(sorted) && OneActivationEach(all) && i <= |sorted|
    requires Decided(all, sorted, i, stopped) && newer in all
    requires i < |sorted| ==> newer.activation > sorted[i].activation
    requires Loses(all, newer.activation)
    ensures newer.resource in stopped
  {
    hide Clash;
    var n :| n in all && n.activation > newer.activation && Blocks(all, n, newer.activation)
            && !Loses(all, n.activation);
    var c :| c in all && c.activation == newer.activation && Clash(n, c);
    var k :| 0 <= k < |sorted| && sorted[k] == c;
    assert k < i && Meets(all, sorted[k]);
  }

  lemma {:induction false} StoppedHasLost(all: set<MotionBinding>, sorted: seq<MotionBinding>, i: nat,
                                          stopped: seq<u64>, newer: MotionBinding)
    requires all == Elements(sorted) && OneActivationEach(all) && i <= |sorted|
    requires Decided(all, sorted, i, stopped) && newer in all && newer.resource in stopped
    ensures Loses(all, newer.activation)
  {
    hide Clash;
    var k :| 0 <= k < i && sorted[k].resource == newer.resource && Meets(all, sorted[k]);
    var n :| n in all && n.activation > sorted[k].activation && Clash(n, sorted[k]) && !Loses(all, n.activation);
    assert sorted[k] in all && Blocks(all, n, sorted[k].activation);
  }

  /** The test the loop makes is the rule's test. */
  lemma {:induction false} MeetsRunning(all: set<MotionBinding>, sorted: seq<MotionBinding>, i: nat, stopped: seq<u64>)
    requires NewestFirst(sorted) && all == Elements(sorted) && OneActivationEach(all) && i < |sorted|
    requires Decided(all, sorted, i, stopped)
    ensures (exists newer :: newer in Without(sorted[..i], stopped) && Clash(newer, sorted[i]))
            <==> Meets(all, sorted[i])
  {
    assert sorted[i] in all;
    if newer :| newer in Without(sorted[..i], stopped) && Clash(newer, sorted[i]) {
      WithoutElements(sorted[..i], stopped, newer);
      var k :| 0 <= k < i && sorted[k] == newer;
      NewerIsDecided(all, sorted, i, stopped, newer);
    }
    if newer :| newer in all && newer.activation > sorted[i].activation && Clash(newer, sorted[i])
                && !Loses(all, newer.activation)
    {
      NewerIsDecided(all, sorted, i, stopped, newer);
      var k :| 0 <= k < |sorted| && sorted[k] == newer;
      assert k < i && newer in sorted[..i];
      WithoutElements(sorted[..i], stopped, newer);
    }
  }

  lemma {:induction false} DecideNext(all: set<MotionBinding>, sorted: seq<MotionBinding>, i: nat, stopped: seq<u64>,
                                      meets: bool)
    requires i < |sorted| && Decided(all, sorted, i, stopped)
    requires meets <==> Meets(all, sorted[i])
    ensures meets && sorted[i].resource !in stopped ==> Decided(all, sorted, i + 1, stopped + [sorted[i].resource])
    ensures !meets || sorted[i].resource in stopped ==> Decided(all, sorted, i + 1, stopped)
  {
    hide Meets;
  }

  /** Resources in the order of their activations, newest first, each once. */
  ghost predicate NewestResourcesFirst(all: set<MotionBinding>, resources: seq<u64>) {
    forall i, j, a, b |
      0 <= i < j < |resources| && a in all && b in all && a.resource == resources[i] && b.resource == resources[j] ::
      a.activation > b.activation
  }

  lemma {:induction false} NextResource(all: set<MotionBinding>, sorted: seq<MotionBinding>, i: nat, stopped: seq<u64>)
    requires NewestFirst(sorted) && all == Elements(sorted) && OneActivationEach(all) && i < |sorted|
    requires Decided(all, sorted, i, stopped) && NewestResourcesFirst(all, stopped) && sorted[i].resource !in stopped
    ensures NewestResourcesFirst(all, stopped + [sorted[i].resource])
  {
    forall k, a, b | 0 <= k < |stopped| && a in all && b in all && a.resource == stopped[k]
                     && b.resource == sorted[i].resource
      ensures a.activation > b.activation
    {
      StoppedIsNewer(all, sorted, i, stopped, stopped[k], a, b);
    }
  }

  lemma {:induction false} StoppedIsNewer(all: set<MotionBinding>, sorted: seq<MotionBinding>, i: nat,
                                          stopped: seq<u64>, resource: u64, a: MotionBinding, b: MotionBinding)
    requires NewestFirst(sorted) && all == Elements(sorted) && OneActivationEach(all) && i < |sorted|
    requires Decided(all, sorted, i, stopped) && resource in stopped && sorted[i].resource !in stopped
    requires a in all && b in all && a.resource == resource && b.resource == sorted[i].resource
    ensures a.activation > b.activation
  {
    hide Meets;
    var m :| 0 <= m < i && sorted[m].resource == resource && Meets(all, sorted[m]);
    assert sorted[m] in all && sorted[i] in all;
    assert a.activation == sorted[m].activation && b.activation == sorted[i].activation;
  }

  lemma {:induction false} RunningElements(all: set<MotionBinding>, bindings: seq<MotionBinding>, b: MotionBinding)
    ensures b in Running(all, bindings) <==> b in bindings && !Stopped(all, b.resource)
  {
    if bindings != [] {
      RunningElements(all, bindings[..|bindings| - 1], b);
      assert bindings == bindings[..|bindings| - 1] + [bindings[|bindings| - 1]];
    }
  }

  lemma {:induction false} SelectedElements(candidates: seq<MotionBinding>, b: MotionBinding)
    ensures b in Running(Elements(candidates), Sorted(candidates))
            <==> b in candidates && !Stopped(Elements(candidates), b.resource)
  {
    hide Running, Stopped, Sorted, NewestFirst;
    SortedInOrder(candidates);
    SameElements(candidates, Sorted(candidates));
    assert b in Elements(candidates) <==> b in candidates;
    assert b in Elements(Sorted(candidates)) <==> b in Sorted(candidates);
    RunningElements(Elements(candidates), Sorted(candidates), b);
  }

  /** Two motions would move a node of one skeleton on one target. */
  predicate Share(a: MotionBinding, b: MotionBinding, node: nat) {
    && a.resource != b.resource && a.skeleton == b.skeleton && a.target == b.target
    && node in a.nodes && node in b.nodes
  }

  lemma {:induction false} SelectedAreApart(candidates: seq<MotionBinding>, a: MotionBinding, b: MotionBinding,
                                            node: nat)
    requires OneActivationEach(Elements(candidates))
    requires a in Running(Elements(candidates), Sorted(candidates))
    requires b in Running(Elements(candidates), Sorted(candidates))
    ensures !Share(a, b, node)
  {
    hide Running, Stopped, Sorted;
    SelectedElements(candidates, a);
    SelectedElements(candidates, b);
    if Share(a, b, node) {
      RunningMotionsAreApart(Elements(candidates), a, b);
    }
  }

  /** Some binding of the motion shares a node with a newer binding that was selected. */
  ghost predicate MeetsSelected(candidates: seq<MotionBinding>, selected: seq<MotionBinding>, resource: u64) {
    exists newer, own, node ::
      && newer in selected && own in candidates && own.resource == resource && newer.activation > own.activation
      && Share(newer, own, node)
  }

  lemma {:induction false} StoppedMeetsSelected(candidates: seq<MotionBinding>, resource: u64)
    requires OneActivationEach(Elements(candidates)) && Stopped(Elements(candidates), resource)
    ensures MeetsSelected(candidates, Running(Elements(candidates), Sorted(candidates)), resource)
  {
    var all := Elements(candidates);
    hide Running, Sorted;
    var c :| c in all && c.resource == resource && Loses(all, c.activation);
    var newer :| newer in all && newer.activation > c.activation && Blocks(all, newer, c.activation)
                 && !Loses(all, newer.activation);
    var own :| own in all && own.activation == c.activation && Clash(newer, own);
    var node :| node in newer.nodes && node in own.nodes;
    hide Loses, Blocks;
    SelectedElements(candidates, newer);
    assert Share(newer, own, node);
  }

  /** Exactly the bindings of the motions that are not stopped, newest first, and the stopped motions, newest first. */
  method SelectMotionBindings(candidates: seq<MotionBinding>) returns (selected: seq<MotionBinding>, stopped: seq<u64>)
    requires OneActivationEach(Elements(candidates))
    ensures selected == Running(Elements(candidates), Sorted(candidates))
    ensures forall r :: r in stopped <==> Stopped(Elements(candidates), r)
    ensures NewestResourcesFirst(Elements(candidates), stopped)
    ensures forall b :: b in selected <==> b in candidates && b.resource !in stopped
    ensures forall a, b, node | a in selected && b in selected :: !Share(a, b, node)
    ensures forall r | r in stopped :: MeetsSelected(candidates, selected, r)
  {
    hide *;
    var sorted := Sorted(candidates);
    SortedInOrder(candidates);
    ghost var all := Elements(candidates);
    SameElements(candidates, sorted);
    selected, stopped := [], [];
    NothingDecided(all, sorted);
    for i := 0 to |sorted|
      invariant Decided(all, sorted, i, stopped) && NewestResourcesFirst(all, stopped)
      invariant selected == Without(sorted[..i], stopped)
    {
      var candidate := sorted[i];
      assert sorted[..i + 1] == sorted[..i] + [candidate];
      WithoutLast(sorted[..i], candidate, stopped);
      MeetsRunning(all, sorted, i, stopped);
      var meets := exists newer :: newer in selected && Clash(newer, candidate);
      DecideNext(all, sorted, i, stopped, meets);
      if candidate.resource in stopped {
        continue;
      }
      if meets {
        NextResource(all, sorted, i, stopped);
        WithoutMore(sorted[..i], stopped, candidate.resource);
        WithoutLast(sorted[..i], candidate, stopped + [candidate.resource]);
        stopped := stopped + [candidate.resource];
        selected := Without(selected, [candidate.resource]);
      } else {
        selected := selected + [candidate];
      }
    }
    assert sorted[..|sorted|] == sorted;
    AllDecided(all, sorted, stopped);
    WithoutIsRunning(all, sorted, stopped);
    forall b ensures b in selected <==> b in candidates && b.resource !in stopped {
      SelectedElements(candidates, b);
    }
    forall a, b, node | a in selected && b in selected ensures !Share(a, b, node) {
      SelectedAreApart(candidates, a, b, node);
    }
    forall r | r in stopped ensures MeetsSelected(candidates, selected, r) {
      StoppedMeetsSelected(candidates, r);
    }
  }

  lemma {:induction false} SameElements(candidates: seq<MotionBinding>, sorted: seq<MotionBinding>)
    requires multiset(candidates) == multiset(sorted)
    ensures Elements(candidates) == Elements(sorted)
  {
    forall b ensures b in candidates <==> b in sorted {
      assert b in multiset(candidates) <==> b in multiset(sorted);
    }
  }

  lemma {:induction false} NothingDecided(all: set<MotionBinding>, sorted: seq<MotionBinding>)
    ensures Decided(all, sorted, 0, []) && NewestResourcesFirst(all, []) && Without(sorted[..0], []) == []
  {
  }

  lemma {:induction false} AllDecided(all: set<MotionBinding>, sorted: seq<MotionBinding>, stopped: seq<u64>)
    requires NewestFirst(sorted) && all == Elements(sorted) && OneActivationEach(all)
             && Decided(all, sorted, |sorted|, stopped)
    ensures forall r :: r in stopped <==> Stopped(all, r)
  {
    forall r ensures r in stopped <==> Stopped(all, r) {
      if r in stopped {
        var k :| 0 <= k < |sorted| && sorted[k].resource == r && Meets(all, sorted[k]);
        NewerIsDecided(all, sorted, |sorted|, stopped, sorted[k]);
      }
      if Stopped(all, r) {
        var c :| c in all && c.resource == r && Loses(all, c.activation);
        NewerIsDecided(all, sorted, |sorted|, stopped, c);
      }
    }
  }

  // ---------- input order ----------

  lemma {:induction false} RunningCount(all: set<MotionBinding>, bindings: seq<MotionBinding>, b: MotionBinding)
    ensures multiset(Running(all, bindings))[b] == if Stopped(all, b.resource) then 0 else multiset(bindings)[b]
  {
    if bindings != [] {
      RunningCount(all, bindings[..|bindings| - 1], b);
      assert bindings == bindings[..|bindings| - 1] + [bindings[|bindings| - 1]];
    }
  }

  /** The input order decides neither which motions stop nor which bindings run. */
  lemma {:induction false} OrderDoesNotMatter(one: seq<MotionBinding>, other: seq<MotionBinding>)
    requires multiset(one) == multiset(other)
    ensures Elements(one) == Elements(other)
    ensures multiset(Running(Elements(one), Sorted(one))) == multiset(Running(Elements(other), Sorted(other)))
  {
    hide Running, Stopped, Sorted, NewestFirst;
    SameElements(one, other);
    SortedInOrder(one);
    SortedInOrder(other);
    forall b: MotionBinding
      ensures multiset(Running(Elements(one), Sorted(one)))[b] == multiset(Running(Elements(other), Sorted(other)))[b]
    {
      RunningCount(Elements(one), Sorted(one), b);
      RunningCount(Elements(other), Sorted(other), b);
    }
  }
}
