/**
 Inspecting a document without growing the call stack, and following wrappers to a payload
 (workbench/src/inspect.rs, `Builder::run` and `Document::payload`). What one task does to the
 document, and which tasks it pushes, is a parameter.
 */
module Inspection {
  import opened Wrappers
  import opened FiniteChains
  import opened Sequences

  // ---------- the recursive traversal ----------

  /** Tasks with all the tasks they led to: the first, what it pushed, and its later siblings. */
  datatype Forest<!T> = Nothing | Grown(task: T, inside: Forest<T>, later: Forest<T>)

  type Effect<!S, !T> = (S, T) -> (S, seq<T>)

  /** The document after every task of the forest has run, each followed at once by what it pushed. */
  function Final<S, T>(effect: Effect<S, T>, document: S, forest: Forest<T>): S {
    match forest
    case Nothing => document
    case Grown(task, inside, later) => Final(effect, Final(effect, effect(document, task).0, inside), later)
  }

  /**
   The forest that recursion visits: every task's own tasks in the order it pushed them, before its
   later siblings.
   */
  ghost predicate Unfolds<S, T>(effect: Effect<S, T>, document: S, tasks: seq<T>, forest: Forest<T>)
    decreases forest
  {
    match forest
    case Nothing => tasks == []
    case Grown(task, inside, later) =>
      && tasks != [] && tasks[0] == task
      && Unfolds(effect, effect(document, task).0, effect(document, task).1, inside)
      && Unfolds(effect, Final(effect, effect(document, task).0, inside), tasks[1..], later)
  }

  /** The tasks in the order in which recursion runs them. */
  function Visited<T>(forest: Forest<T>): seq<T> {
    match forest
    case Nothing => []
    case Grown(task, inside, later) => [task] + Visited(inside) + Visited(later)
  }

  function Beside<T>(forest: Forest<T>, later: Forest<T>): Forest<T> {
    match forest
    case Nothing => later
    case Grown(task, inside, rest) => Grown(task, inside, Beside(rest, later))
  }

  function Size<T>(forest: Forest<T>): nat {
    match forest
    case Nothing => 0
    case Grown(_, inside, later) => 1 + Size(inside) + Size(later)
  }

  /** Recursion visits one forest only. */
  lemma {:induction false} UnfoldsOnce<S, T>(effect: Effect<S, T>, document: S, tasks: seq<T>, one: Forest<T>,
                                             other: Forest<T>)
    requires Unfolds(effect, document, tasks, one) && Unfolds(effect, document, tasks, other)
    ensures one == other
    decreases one
  {
    if one.Grown? {
      UnfoldsOnce(effect, effect(document, one.task).0, effect(document, one.task).1, one.inside, other.inside);
      UnfoldsOnce(effect, Final(effect, effect(document, one.task).0, one.inside), tasks[1..], one.later, other.later);
    }
  }

  lemma {:induction false} BesideCounts<T>(forest: Forest<T>, later: Forest<T>)
    ensures Visited(Beside(forest, later)) == Visited(forest) + Visited(later)
    ensures Size(Beside(forest, later)) == Size(forest) + Size(later)
    decreases forest
  {
    if forest.Grown? {
      BesideCounts(forest.later, later);
    }
  }

  lemma {:induction false} FinalBeside<S, T>(effect: Effect<S, T>, document: S, forest: Forest<T>, later: Forest<T>)
    ensures Final(effect, document, Beside(forest, later)) == Final(effect, Final(effect, document, forest), later)
    decreases forest
  {
    if forest.Grown? {
      FinalBeside(effect, Final(effect, effect(document, forest.task).0, forest.inside), forest.later, later);
    }
  }

  /** Two forests one after the other are the forest of both lists of tasks. */
  lemma {:induction false} UnfoldsBeside<S, T>(effect: Effect<S, T>, document: S, tasks: seq<T>, forest: Forest<T>,
                                               moreTasks: seq<T>, later: Forest<T>)
    requires Unfolds(effect, document, tasks, forest)
    requires Unfolds(effect, Final(effect, document, forest), moreTasks, later)
    ensures Unfolds(effect, document, tasks + moreTasks, Beside(forest, later))
    ensures Final(effect, document, Beside(forest, later)) == Final(effect, Final(effect, document, forest), later)
    ensures Visited(Beside(forest, later)) == Visited(forest) + Visited(later)
    ensures Size(Beside(forest, later)) == Size(forest) + Size(later)
    decreases forest
  {
    hide Size, Visited;
    BesideCounts(forest, later);
    FinalBeside(effect, document, forest, later);
    match forest {
      case Nothing =>
        assert tasks + moreTasks == moreTasks;
      case Grown(task, inside, rest) =>
        var after := Final(effect, effect(document, task).0, inside);
        UnfoldsBeside(effect, after, tasks[1..], rest, moreTasks, later);
        assert (tasks + moreTasks)[1..] == tasks[1..] + moreTasks;
    }
  }

  /** The forest of two lists of tasks splits where the first list ends. */
  lemma {:induction false} UnfoldsSplit<S, T>(effect: Effect<S, T>, document: S, tasks: seq<T>, moreTasks: seq<T>,
                                              forest: Forest<T>)
    returns (first: Forest<T>, later: Forest<T>)
    requires Unfolds(effect, document, tasks + moreTasks, forest)
    ensures Unfolds(effect, document, tasks, first)
    ensures Unfolds(effect, Final(effect, document, first), moreTasks, later)
    ensures forest == Beside(first, later)
    decreases forest
  {
    if tasks == [] {
      assert tasks + moreTasks == moreTasks;
      first, later := Nothing, forest;
    } else {
      assert (tasks + moreTasks)[1..] == tasks[1..] + moreTasks;
      var after := Final(effect, effect(document, forest.task).0, forest.inside);
      var rest;
      rest, later := UnfoldsSplit(effect, after, tasks[1..], moreTasks, forest.later);
      first := Grown(forest.task, forest.inside, rest);
    }
  }

  /**
   A task pushed last, as the completion of an archive is pushed after its members, runs when
   every task in the members' subtrees has run, and on the document they leave.
   */
  lemma {:induction false} CompletionRunsLast<S(!new), T>(effect: Effect<S, T>, document: S, archive: T,
                                                          members: seq<T>, completion: T, forest: Forest<T>)
    requires Unfolds(effect, document, [archive], forest)
    requires effect(document, archive).1 == members + [completion]
    requires forall d: S :: effect(d, completion).1 == []
    ensures exists within: Forest<T> ::
              && Unfolds(effect, effect(document, archive).0, members, within)
              && Visited(forest) == [archive] + Visited(within) + [completion]
              && Final(effect, document, forest)
                 == effect(Final(effect, effect(document, archive).0, within), completion).0
  {
    var entered := effect(document, archive).0;
    var within, last := UnfoldsSplit(effect, entered, members, [completion], forest.inside);
    UnfoldsBeside(effect, entered, members, within, [completion], last);
    assert [completion][1..] == [] && [archive][1..] == [];
    assert last == Grown(completion, Nothing, Nothing);
    assert forest == Grown(archive, forest.inside, Nothing);
  }

  // ---------- the work list ----------

  lemma {:induction false} TopIsFirst<T>(work: seq<T>)
    requires work != []
    ensures Reversed(work) == [work[|work| - 1]] + Reversed(work[..|work| - 1])
  {
  }

  lemma {:induction false} PushedComeNext<T>(previous: seq<T>, pushed: seq<T>)
    ensures Reversed(previous + Reversed(pushed)) == pushed + Reversed(previous)
  {
  }

  lemma {:induction false} UnfoldsFirst<S, T>(effect: Effect<S, T>, document: S, task: T, tasks: seq<T>,
                                              forest: Forest<T>)
    requires Unfolds(effect, document, [task] + tasks, forest)
    ensures forest.Grown? && forest.task == task
    ensures Unfolds(effect, effect(document, task).0, effect(document, task).1, forest.inside)
    ensures Unfolds(effect, Final(effect, effect(document, task).0, forest.inside), tasks, forest.later)
    ensures Visited(forest) == [task] + (Visited(forest.inside) + Visited(forest.later))
    ensures Final(effect, document, forest)
            == Final(effect, Final(effect, effect(document, task).0, forest.inside), forest.later)
    ensures Size(forest) == 1 + Size(forest.inside) + Size(forest.later)
  {
    assert ([task] + tasks)[1..] == tasks;
  }

  /** Running the task on top of the work list, and reversing what it pushed, is one step of the recursion. */
  lemma {:induction false} WorkStep<S, T>(effect: Effect<S, T>, document: S, work: seq<T>, left: Forest<T>)
    requires work != [] && Unfolds(effect, document, Reversed(work), left)
    ensures var previous, task := work[..|work| - 1], work[|work| - 1];
            var (next, pushed) := effect(document, task);
            && left.Grown? && left.task == task
            && Unfolds(effect, next, Reversed(previous + Reversed(pushed)), Beside(left.inside, left.later))
            && Visited(left) == [task] + Visited(Beside(left.inside, left.later))
            && Final(effect, document, left) == Final(effect, next, Beside(left.inside, left.later))
            && Size(Beside(left.inside, left.later)) < Size(left)
  {
    hide *;
    var previous, task := work[..|work| - 1], work[|work| - 1];
    var (next, pushed) := effect(document, task);
    TopIsFirst(work);
    UnfoldsFirst(effect, document, task, Reversed(previous), left);
    PushedComeNext(previous, pushed);
    UnfoldsBeside(effect, next, pushed, left.inside, Reversed(previous), left.later);
  }

  lemma {:induction false} NothingLeft<S, T>(effect: Effect<S, T>, document: S, left: Forest<T>)
    requires Unfolds(effect, document, Reversed([]), left)
    ensures left == Nothing && Visited(left) == [] && Final(effect, document, left) == document
  {
  }

  class Builder<S, T> {
    const effect: Effect<S, T>
    var document: S
    var work: seq<T>
    // Every task run so far.
    ghost var visited: seq<T>

    constructor (effect: Effect<S, T>, document: S, work: seq<T>)
      ensures this.effect == effect && this.document == document && this.work == work && visited == []
    {
      this.effect, this.document, this.work, this.visited := effect, document, work, [];
    }

    /**
     Runs exactly the tasks that recursion would, in the same order and with the same effect, and ends if
     recursion does.
     */
    method Run(ghost forest: Forest<T>)
      requires Unfolds(effect, document, Reversed(work), forest)
      modifies this
      ensures work == []
      ensures visited == old(visited) + Visited(forest)
      ensures document == Final(effect, old(document), forest)
    {
      hide *;
      ghost var start, earlier := document, visited;
      ghost var left := forest;
      while work != []
        invariant Unfolds(effect, document, Reversed(work), left)
        invariant visited + Visited(left) == earlier + Visited(forest)
        invariant Final(effect, document, left) == Final(effect, start, forest)
        decreases Size(left)
      {
        WorkStep(effect, document, work, left);
        var task := work[|work| - 1];
        work := work[..|work| - 1];
        var previous := |work|;
        var (next, pushed) := effect(document, task);
        assert visited + Visited(left) == (visited + [task]) + Visited(Beside(left.inside, left.later));
        document, visited, left := next, visited + [task], Beside(left.inside, left.later);
        work := work + pushed;
        assert work[..previous] == work[..|work| - |pushed|] && work[previous..] == pushed;
        work := work[..previous] + Reversed(work[previous..]);
      }
      NothingLeft(effect, document, left);
    }
  }

  // ---------- payloads ----------

  datatype Node = Node(transparent: bool, children: seq<nat>)

  /** From a wrapper or a reference to the one node in it. */
  function Inner(nodes: seq<Node>): nat -> Option<nat> {
    (index: nat) =>
      if index < |nodes| && nodes[index].transparent && |nodes[index].children| == 1
      then Some(nodes[index].children[0]) else None
  }

  predicate Shown(nodes: seq<Node>, index: nat) {
    index < |nodes| && !nodes[index].transparent
  }

  /** After some number of hops the chain shows this node. */
  ghost predicate LeadsTo(nodes: seq<Node>, index: nat, payload: nat) {
    exists k: nat :: After(Inner(nodes), index, k) == Some(payload) && Shown(nodes, payload)
  }

  lemma {:induction false} PayloadIsNear(nodes: seq<Node>, index: nat, k: nat)
    requires After(Inner(nodes), index, k).Some? && Shown(nodes, After(Inner(nodes), index, k).value)
    ensures k < |nodes|
  {
    forall i | 0 <= i <= k && After(Inner(nodes), index, i).Some?
      ensures After(Inner(nodes), index, i).value < |nodes|
    {
      if i < k {
        EarlierIsReached(Inner(nodes), index, i + 1, k);
      }
    }
    EndingChainIsShort(Inner(nodes), index, k, |nodes|);
  }

  /** Every node of the chain but the last is transparent and has one child, the next; the last is shown. */
  predicate Chain(nodes: seq<Node>, chain: seq<nat>) {
    && chain != [] && (forall i | 0 <= i < |chain| :: chain[i] < |nodes|)
    && (forall i | 0 <= i < |chain| - 1 :: nodes[chain[i]].transparent && nodes[chain[i]].children == [chain[i + 1]])
    && !nodes[chain[|chain| - 1]].transparent
  }

  /** Some chain of wrappers and references goes from the one node to the other. */
  ghost predicate Wraps(nodes: seq<Node>, index: nat, payload: nat) {
    exists chain :: Chain(nodes, chain) && chain[0] == index && chain[|chain| - 1] == payload
  }

  lemma {:induction false} ChainIsFollowed(nodes: seq<Node>, chain: seq<nat>, k: nat)
    requires Chain(nodes, chain) && k < |chain|
    ensures After(Inner(nodes), chain[0], k) == Some(chain[k])
  {
    if k > 0 {
      ChainIsFollowed(nodes, chain, k - 1);
      assert nodes[chain[k - 1]].children == [chain[k]];
    }
  }

  lemma {:induction false} FollowedIsChain(nodes: seq<Node>, index: nat, k: nat) returns (chain: seq<nat>)
    requires After(Inner(nodes), index, k).Some?
    requires Shown(nodes, After(Inner(nodes), index, k).value)
    ensures Chain(nodes, chain) && chain[0] == index && chain[|chain| - 1] == After(Inner(nodes), index, k).value
    decreases k
  {
    if k == 0 {
      chain := [index];
    } else {
      EarlierIsReached(Inner(nodes), index, 1, k);
      assert After(Inner(nodes), index, 0) == Some(index);
      var next := After(Inner(nodes), index, 1).value;
      AfterSplit(Inner(nodes), index, 1, k - 1);
      var rest := FollowedIsChain(nodes, next, k - 1);
      chain := [index] + rest;
      assert nodes[index].children == [next];
    }
  }

  lemma {:induction false} WrapsIff(nodes: seq<Node>, index: nat, payload: nat)
    ensures Wraps(nodes, index, payload) <==> LeadsTo(nodes, index, payload)
  {
    if Wraps(nodes, index, payload) {
      var chain :| Chain(nodes, chain) && chain[0] == index && chain[|chain| - 1] == payload;
      ChainIsFollowed(nodes, chain, |chain| - 1);
    }
    if LeadsTo(nodes, index, payload) {
      var k: nat :| After(Inner(nodes), index, k) == Some(payload) && Shown(nodes, payload);
      var chain := FollowedIsChain(nodes, index, k);
    }
  }

  /**
   The bound on the number of hops cuts no chain short: a payload is found exactly when a chain of any
   length leads to it.
   */
  method Payload(nodes: seq<Node>, index: nat) returns (payload: Option<nat>)
    ensures forall target: nat :: payload == Some(target) <==> Wraps(nodes, index, target)
  {
    hide Wraps;
    forall target: nat ensures Wraps(nodes, index, target) <==> LeadsTo(nodes, index, target) {
      WrapsIff(nodes, index, target);
    }
    var current := index;
    var i := 0;
    while i < |nodes|
      invariant 0 <= i <= |nodes|
      invariant After(Inner(nodes), index, i) == Some(current)
      invariant forall k | 0 <= k < i ::
                  After(Inner(nodes), index, k).Some? && !Shown(nodes, After(Inner(nodes), index, k).value)
    {
      if current >= |nodes| {
        ChainStops(nodes, index, i);
        return None;
      }
      if !nodes[current].transparent {
        ChainStops(nodes, index, i);
        return Some(current);
      }
      if |nodes[current].children| != 1 {
        ChainStops(nodes, index, i);
        return None;
      }
      current := nodes[current].children[0];
      i := i + 1;
    }
    forall target: nat ensures !LeadsTo(nodes, index, target) {
      if k: nat :| After(Inner(nodes), index, k) == Some(target) && Shown(nodes, target) {
        PayloadIsNear(nodes, index, k);
      }
    }
    payload := None;
  }

  /** Where the chain stops, what is shown there is all it leads to. */
  lemma {:induction false} ChainStops(nodes: seq<Node>, index: nat, i: nat)
    requires After(Inner(nodes), index, i).Some? && Inner(nodes)(After(Inner(nodes), index, i).value).None?
    requires forall k | 0 <= k < i ::
               After(Inner(nodes), index, k).Some? && !Shown(nodes, After(Inner(nodes), index, k).value)
    ensures forall target: nat ::
              LeadsTo(nodes, index, target) <==> target == After(Inner(nodes), index, i).value && Shown(nodes, target)
  {
    forall target: nat | LeadsTo(nodes, index, target) ensures target == After(Inner(nodes), index, i).value {
      var k: nat :| After(Inner(nodes), index, k) == Some(target) && Shown(nodes, target);
      if k > i {
        EarlierIsReached(Inner(nodes), index, i + 1, k);
      }
    }
  }
}
