/**
 Keys of inspected nodes: child ordinals down the ownership tree, and the identity of a record in
 an EMD resource (workbench/src/edit.rs, `parents`, `node_key`, `locate`, `EmdIdentity`).
 */
module NodeKeys {
  import opened Wrappers
  import opened FiniteChains
  import opened Sequences

  datatype Kind = Emd | StageResourceReference | Other(code: nat)

  datatype Node = Node(kind: Kind, name: string, buffer: nat, start: nat, end: nat, children: seq<nat>)

  datatype Document = Document(nodes: seq<Node>, root: nat)

  datatype Owner = Owner(parent: nat, ordinal: nat)

  datatype EmdIdentity = EmdIdentity(kind: Kind, name: string, start: nat, end: nat)

  datatype NodeKey = NodeKey(path: seq<nat>, emd: Option<EmdIdentity>)

  /** A record's kind and name, and its range relative to the EMD resource in the same buffer. */
  function Identity(node: Node, emd: Node): Option<EmdIdentity> {
    if node.buffer != emd.buffer || node.start < emd.start || node.end < emd.start then None
    else Some(EmdIdentity(node.kind, node.name, node.start - emd.start, node.end - emd.start))
  }

  // ---------- ownership ----------

  /** An edge that owns its child: stage references only point at nodes owned elsewhere. */
  predicate Owns(document: Document, owner: Owner, child: nat) {
    && owner.parent < |document.nodes|
    && document.nodes[owner.parent].kind != StageResourceReference
    && owner.ordinal < |document.nodes[owner.parent].children|
    && document.nodes[owner.parent].children[owner.ordinal] == child
  }

  /** Later edges of the document replace earlier ones. */
  predicate EarlierEdge(a: Owner, b: Owner) {
    a.parent < b.parent || (a.parent == b.parent && a.ordinal < b.ordinal)
  }

  function LastOrdinal(children: seq<nat>, end: nat, child: nat): Option<nat>
    requires end <= |children|
  {
    if end == 0 then None
    else if children[end - 1] == child then Some(end - 1)
    else LastOrdinal(children, end - 1, child)
  }

  /** The last owning edge among those of the first `end` nodes. */
  function OwnerAmong(document: Document, end: nat, child: nat): Option<Owner>
    requires end <= |document.nodes|
  {
    if end == 0 then None
    else
      var node := document.nodes[end - 1];
      match if node.kind == StageResourceReference then None else LastOrdinal(node.children, |node.children|, child)
      case Some(ordinal) => Some(Owner(end - 1, ordinal))
      case None => OwnerAmong(document, end - 1, child)
  }

  function OwnerOf(document: Document, child: nat): Option<Owner> {
    OwnerAmong(document, |document.nodes|, child)
  }

  lemma {:induction false} LastOrdinalIsLast(children: seq<nat>, end: nat, child: nat)
    requires end <= |children|
    ensures match LastOrdinal(children, end, child)
            case None => forall o | 0 <= o < end :: children[o] != child
            case Some(last) =>
              last < end && children[last] == child && forall o | last < o < end :: children[o] != child
  {
    if end > 0 {
      LastOrdinalIsLast(children, end - 1, child);
    }
  }

  /** The owner is the last owning edge, and is missing only where there is none. */
  lemma {:induction false} OwnerIsLast(document: Document, end: nat, child: nat)
    requires end <= |document.nodes|
    ensures match OwnerAmong(document, end, child)
            case None => forall o: Owner :: o.parent < end ==> !Owns(document, o, child)
            case Some(last) =>
              && Owns(document, last, child) && last.parent < end
              && forall o: Owner :: o.parent < end && Owns(document, o, child) ==> o == last || EarlierEdge(o, last)
  {
    if end > 0 {
      OwnerIsLast(document, end - 1, child);
      LastOrdinalIsLast(document.nodes[end - 1].children, |document.nodes[end - 1].children|, child);
    }
  }

  method Parents(document: Document) returns (parents: seq<Option<Owner>>)
    ensures |parents| == |document.nodes|
    ensures forall child | 0 <= child < |parents| :: parents[child] == OwnerOf(document, child)
  {
    parents := seq(|document.nodes|, _ => None);
    for index := 0 to |document.nodes|
      invariant |parents| == |document.nodes|
      invariant forall child | 0 <= child < |parents| :: parents[child] == OwnerAmong(document, index, child)
    {
      var node := document.nodes[index];
      if node.kind != StageResourceReference {
        for ordinal := 0 to |node.children|
          invariant |parents| == |document.nodes|
          invariant forall child | 0 <= child < |parents| ::
                      parents[child] == match LastOrdinal(node.children, ordinal, child)
                                        case Some(last) => Some(Owner(index, last))
                                        case None => OwnerAmong(document, index, child)
        {
          var child := node.children[ordinal];
          if child < |parents| {
            parents := parents[child := Some(Owner(index, ordinal))];
          }
        }
      }
    }
  }

  // ---------- keys ----------

  /** The ordinals from the root down to the node, if its owners lead to the root in fewer than `steps` steps. */
  function Climb(document: Document, node: nat, steps: nat): Option<seq<nat>>
    decreases steps
  {
    if steps == 0 || node >= |document.nodes| then None
    else if node == document.root then Some([])
    else
      match OwnerOf(document, node)
      case None => None
      case Some(owner) =>
        match Climb(document, owner.parent, steps - 1)
        case None => None
        case Some(path) => Some(path + [owner.ordinal])
  }

  /** The nearest EMD resource among the node and its owners. */
  function NearestEmd(document: Document, node: nat, steps: nat): (emd: Option<nat>)
    ensures emd.Some? ==> emd.value < |document.nodes|
    decreases steps
  {
    if steps == 0 || node >= |document.nodes| then None
    else if document.nodes[node].kind == Emd then Some(node)
    else if node == document.root then None
    else
      match OwnerOf(document, node)
      case None => None
      case Some(owner) => NearestEmd(document, owner.parent, steps - 1)
  }

  function KeyOf(document: Document, node: nat): Option<NodeKey> {
    match Climb(document, node, |document.nodes|)
    case None => None
    case Some(path) =>
      match NearestEmd(document, node, |document.nodes|)
      case None => Some(NodeKey(path, None))
      case Some(emd) =>
        if node >= |document.nodes| || Identity(document.nodes[node], document.nodes[emd]).None? then None
        else Some(NodeKey(path, Identity(document.nodes[node], document.nodes[emd])))
  }

  method NodeKeyOf(document: Document, target: nat) returns (key: Option<NodeKey>)
    ensures key == KeyOf(document, target)
  {
    var parents := Parents(document);
    if target >= |document.nodes| {
      return None;
    }
    var node, path, emd := target, [], None;
    assert forall above: seq<nat> :: above + Reversed([]) == above;
    for i := 0 to |document.nodes|
      invariant Climb(document, target, |document.nodes|)
                == match Climb(document, node, |document.nodes| - i)
                   case None => None
                   case Some(above) => Some(above + Reversed(path))
      invariant match emd
                case None =>
                  NearestEmd(document, target, |document.nodes|)
                  == NearestEmd(document, node, |document.nodes| - i)
                case Some(identity) =>
                  var nearest := NearestEmd(document, target, |document.nodes|);
                  nearest.Some? && Identity(document.nodes[target], document.nodes[nearest.value]) == Some(identity)
    {
      if node >= |document.nodes| {
        return None;
      }
      if document.nodes[node].kind == Emd && emd.None? {
        emd := Identity(document.nodes[target], document.nodes[node]);
        if emd.None? {
          return None;
        }
      }
      if node == document.root {
        assert [] + Reversed(path) == Reversed(path);
        return Some(NodeKey(Reversed(path), emd));
      }
      var owner := parents[node];
      if owner.None? {
        return None;
      }
      assert forall above: seq<nat> ::
          above + [owner.value.ordinal] + Reversed(path) == above + Reversed(path + [owner.value.ordinal]);
      path, node := path + [owner.value.ordinal], owner.value.parent;
    }
    key := None;
  }

  // ---------- locating ----------

  /** The node that the ordinals lead to from the root, through references as well. */
  function Walk(document: Document, path: seq<nat>): (node: Option<nat>)
    ensures node.Some? ==> node.value < |document.nodes|
  {
    if path == [] then if document.root < |document.nodes| then Some(document.root) else None
    else
      match Walk(document, path[..|path| - 1])
      case None => None
      case Some(parent) =>
        var children, ordinal := document.nodes[parent].children, path[|path| - 1];
        if ordinal < |children| && children[ordinal] < |document.nodes| then Some(children[ordinal]) else None
  }

  /** The last EMD resource on the way. */
  function LastEmd(document: Document, path: seq<nat>): (emd: Option<nat>)
    requires Walk(document, path).Some?
    ensures emd.Some? ==> emd.value < |document.nodes|
  {
    var node := Walk(document, path).value;
    if document.nodes[node].kind == Emd then Some(node)
    else if path == [] then None
    else LastEmd(document, path[..|path| - 1])
  }

  function Located(document: Document, key: NodeKey): Option<nat> {
    match Walk(document, key.path)
    case None => None
    case Some(node) =>
      if key.emd.None? then Some(node)
      else
        match LastEmd(document, key.path)
        case None => None
        case Some(emd) => if Identity(document.nodes[node], document.nodes[emd]) == key.emd then Some(node) else None
  }

  method Locate(document: Document, key: NodeKey) returns (located: Option<nat>)
    ensures located == Located(document, key)
  {
    var path := key.path;
    if document.root >= |document.nodes| {
      NoWalk(document, [], path);
      return None;
    }
    var node := document.root;
    var emd := if document.nodes[node].kind == Emd then Some(node) else None;
    for i := 0 to |path|
      invariant Walk(document, path[..i]) == Some(node)
      invariant LastEmd(document, path[..i]) == emd
    {
      var children := document.nodes[node].children;
      assert path[..i + 1][..i] == path[..i];
      if path[i] >= |children| || children[path[i]] >= |document.nodes| {
        NoWalk(document, path[..i + 1], path);
        return None;
      }
      node := children[path[i]];
      if document.nodes[node].kind == Emd {
        emd := Some(node);
      }
    }
    assert path[..|path|] == path;
    if key.emd.Some? {
      if emd.None? {
        return None;
      }
      var current := Identity(document.nodes[node], document.nodes[emd.value]);
      if current != key.emd {
        return None;
      }
    }
    located := Some(node);
  }

  lemma {:induction false} NoWalk(document: Document, prefix: seq<nat>, path: seq<nat>)
    requires prefix <= path && Walk(document, prefix).None?
    ensures Walk(document, path).None?
  {
    if prefix != path {
      NoWalk(document, prefix, path[..|path| - 1]);
    }
  }

  // ---------- keys and nodes ----------

  /** No step of the way goes through a reference. */
  ghost predicate Owned(document: Document, path: seq<nat>) {
    Walk(document, path).Some?
    && (path != [] ==>
          && Owned(document, path[..|path| - 1])
          && document.nodes[Walk(document, path[..|path| - 1]).value].kind != StageResourceReference)
  }

  /** Climbing is walking backwards along owning edges. */
  lemma {:induction false} ClimbIsWalk(document: Document, node: nat, steps: nat)
    requires Climb(document, node, steps).Some?
    ensures var path := Climb(document, node, steps).value;
            && Walk(document, path) == Some(node) && Owned(document, path)
            && NearestEmd(document, node, steps) == LastEmd(document, path)
    decreases steps
  {
    if node != document.root {
      var owner := OwnerOf(document, node).value;
      OwnerIsLast(document, |document.nodes|, node);
      ClimbIsWalk(document, owner.parent, steps - 1);
      var above := Climb(document, owner.parent, steps - 1).value;
      assert (above + [owner.ordinal])[..|above|] == above;
    }
  }

  /** In any document, a node is found again under its key. */
  lemma {:induction false} KeyFindsNode(document: Document, node: nat)
    requires KeyOf(document, node).Some?
    ensures Located(document, KeyOf(document, node).value) == Some(node)
  {
    ClimbIsWalk(document, node, |document.nodes|);
  }

  /** Two nodes never share a key. */
  lemma {:induction false} KeysAreDistinct(document: Document, node: nat, other: nat)
    requires KeyOf(document, node).Some? && KeyOf(document, node) == KeyOf(document, other)
    ensures node == other
  {
    KeyFindsNode(document, node);
    KeyFindsNode(document, other);
  }

  // ---------- the same record in another document ----------

  /** The nodes on the way that the ordinals take from the root. */
  predicate Way(document: Document, path: seq<nat>, way: seq<nat>) {
    && |way| == |path| + 1 && way[0] == document.root
    && (forall i | 0 <= i < |way| :: way[i] < |document.nodes|)
    && forall i | 0 <= i < |path| ::
         path[i] < |document.nodes[way[i]].children| && document.nodes[way[i]].children[path[i]] == way[i + 1]
  }

  /** The last EMD resource among the nodes of the way. */
  predicate LastOn(document: Document, way: seq<nat>, emd: Option<nat>)
    requires forall i | 0 <= i < |way| :: way[i] < |document.nodes|
  {
    match emd
    case None => forall i | 0 <= i < |way| :: document.nodes[way[i]].kind != Emd
    case Some(node) => exists i | 0 <= i < |way| ::
      && way[i] == node && document.nodes[node].kind == Emd
      && forall j | i < j < |way| :: document.nodes[way[j]].kind != Emd
  }

  /** The ordinals lead to the node, and this is the last EMD resource on the way. */
  ghost predicate Leads(document: Document, path: seq<nat>, node: nat, emd: Option<nat>) {
    exists way :: Way(document, path, way) && way[|path|] == node && LastOn(document, way, emd)
  }

  lemma {:induction false} WayIsWalked(document: Document, path: seq<nat>, way: seq<nat>, emd: Option<nat>)
    requires Way(document, path, way) && LastOn(document, way, emd)
    ensures Walk(document, path) == Some(way[|path|]) && LastEmd(document, path) == emd
  {
    if path != [] {
      var before, shorter := path[..|path| - 1], way[..|way| - 1];
      var last := way[|path|];
      assert Way(document, before, shorter);
      var earlier := if document.nodes[last].kind == Emd then LastEmdOf(document, shorter) else emd;
      assert LastOn(document, shorter, earlier) by {
        LastEmdIsLast(document, shorter);
        assert forall i | 0 <= i < |shorter| :: shorter[i] == way[i];
      }
      WayIsWalked(document, before, shorter, earlier);
    }
  }

  function LastEmdOf(document: Document, way: seq<nat>): Option<nat>
    requires forall i | 0 <= i < |way| :: way[i] < |document.nodes|
  {
    if way == [] then None
    else if document.nodes[way[|way| - 1]].kind == Emd then Some(way[|way| - 1])
    else LastEmdOf(document, way[..|way| - 1])
  }

  lemma {:induction false} LastEmdIsLast(document: Document, way: seq<nat>)
    requires forall i | 0 <= i < |way| :: way[i] < |document.nodes|
    ensures LastOn(document, way, LastEmdOf(document, way))
  {
    if way != [] && document.nodes[way[|way| - 1]].kind != Emd {
      LastEmdIsLast(document, way[..|way| - 1]);
      assert forall i | 0 <= i < |way| - 1 :: way[i] == way[..|way| - 1][i];
    }
  }

  lemma {:induction false} WalkHasWay(document: Document, path: seq<nat>) returns (way: seq<nat>)
    requires Walk(document, path).Some?
    ensures Way(document, path, way)
  {
    if path == [] {
      way := [document.root];
    } else {
      var before := WalkHasWay(document, path[..|path| - 1]);
      LastEmdIsLast(document, before);
      WayIsWalked(document, path[..|path| - 1], before, LastEmdOf(document, before));
      way := before + [Walk(document, path).value];
    }
  }

  lemma {:induction false} WalkLeads(document: Document, path: seq<nat>, node: nat, emd: Option<nat>)
    ensures Leads(document, path, node, emd)
            <==> Walk(document, path) == Some(node) && LastEmd(document, path) == emd
  {
    if Leads(document, path, node, emd) {
      var way :| Way(document, path, way) && way[|path|] == node && LastOn(document, way, emd);
      WayIsWalked(document, path, way, emd);
    }
    if Walk(document, path) == Some(node) {
      var way := WalkHasWay(document, path);
      LastEmdIsLast(document, way);
      WayIsWalked(document, path, way, LastEmdOf(document, way));
    }
  }

  /** One record seen in two EMD resources: each in its resource's buffer, at the same place in it. */
  predicate SameRecord(one: Node, oneEmd: Node, other: Node, otherEmd: Node) {
    && one.kind == other.kind && one.name == other.name
    && one.buffer == oneEmd.buffer && other.buffer == otherEmd.buffer
    && 0 <= one.start - oneEmd.start == other.start - otherEmd.start
    && 0 <= one.end - oneEmd.start == other.end - otherEmd.start
  }

  /**
   A key taken from one document locates a node of another exactly when its ordinals lead there and,
   if they pass an EMD resource in the first document, the node is the same record of the last EMD
   resource they pass in the second.
   */
  lemma {:induction false} KeyFollowsRecord(from: Document, node: nat, to: Document, found: nat)
    requires KeyOf(from, node).Some?
    ensures Located(to, KeyOf(from, node).value) == Some(found) <==>
              exists fromEmd: Option<nat>, toEmd: Option<nat> ::
                && Leads(from, KeyOf(from, node).value.path, node, fromEmd)
                && Leads(to, KeyOf(from, node).value.path, found, toEmd)
                && node < |from.nodes| && found < |to.nodes|
                && (fromEmd.Some? ==>
                      && toEmd.Some? && fromEmd.value < |from.nodes| && toEmd.value < |to.nodes|
                      && SameRecord(from.nodes[node], from.nodes[fromEmd.value],
                                    to.nodes[found], to.nodes[toEmd.value]))
  {
    hide Leads, Walk, LastEmd, Climb, NearestEmd;
    var key := KeyOf(from, node).value;
    ClimbIsWalk(from, node, |from.nodes|);
    var fromEmd := LastEmd(from, key.path);
    WalkLeads(from, key.path, node, fromEmd);
    if Walk(to, key.path).Some? {
      WalkLeads(to, key.path, found, LastEmd(to, key.path));
    }
    forall a: Option<nat>, b: Option<nat> | Leads(from, key.path, node, a) && Leads(to, key.path, found, b)
      ensures a == fromEmd && Walk(to, key.path) == Some(found) && LastEmd(to, key.path) == b
    {
      WalkLeads(from, key.path, node, a);
      WalkLeads(to, key.path, found, b);
    }
  }

  /** Only a record inside its EMD resource, in the same buffer, has a key. */
  lemma {:induction false} KeyIsInEmd(document: Document, node: nat, emd: nat)
    requires KeyOf(document, node).Some? && Leads(document, KeyOf(document, node).value.path, node, Some(emd))
    ensures node < |document.nodes| && emd < |document.nodes|
    ensures document.nodes[node].buffer == document.nodes[emd].buffer
    ensures document.nodes[emd].start <= document.nodes[node].start
    ensures document.nodes[emd].start <= document.nodes[node].end
  {
    hide Leads, Climb;
    ClimbIsWalk(document, node, |document.nodes|);
    WalkLeads(document, KeyOf(document, node).value.path, node, Some(emd));
  }

  /** A record that moves together with its EMD resource keeps its key. */
  lemma {:induction false} MovedRecordKeepsKey(from: Document, node: nat, fromEmd: nat, to: Document, found: nat,
                                               toEmd: nat, distance: int)
    requires KeyOf(from, node).Some? && Leads(from, KeyOf(from, node).value.path, node, Some(fromEmd))
    requires Leads(to, KeyOf(from, node).value.path, found, Some(toEmd))
    requires node < |from.nodes| && fromEmd < |from.nodes| && found < |to.nodes| && toEmd < |to.nodes|
    requires to.nodes[found].kind == from.nodes[node].kind && to.nodes[found].name == from.nodes[node].name
    requires to.nodes[found].buffer == to.nodes[toEmd].buffer
    requires to.nodes[found].start == from.nodes[node].start + distance
    requires to.nodes[found].end == from.nodes[node].end + distance
    requires to.nodes[toEmd].start == from.nodes[fromEmd].start + distance
    ensures Located(to, KeyOf(from, node).value) == Some(found)
  {
    hide Leads, KeyOf, Located;
    KeyIsInEmd(from, node, fromEmd);
    assert SameRecord(from.nodes[node], from.nodes[fromEmd], to.nodes[found], to.nodes[toEmd]);
    KeyFollowsRecord(from, node, to, found);
  }

  // ---------- the step limit ----------

  function Above(document: Document): nat -> Option<nat> {
    (node: nat) =>
      if node == document.root then None
      else match OwnerOf(document, node) case None => None case Some(owner) => Some(owner.parent)
  }

  lemma {:induction false} ClimbFollowsOwners(document: Document, node: nat, steps: nat, i: nat)
    requires Climb(document, node, steps).Some? && i <= |Climb(document, node, steps).value|
    ensures var reached := After(Above(document), node, i);
            && reached.Some? && reached.value < |document.nodes|
            && (i == |Climb(document, node, steps).value| ==> reached.value == document.root)
    decreases steps
  {
    if node != document.root && i > 0 {
      var owner := OwnerOf(document, node).value;
      ClimbFollowsOwners(document, owner.parent, steps - 1, i - 1);
      AfterSplit(Above(document), node, 1, i - 1);
    }
  }

  lemma {:induction false} ClimbIsShort(document: Document, node: nat, steps: nat)
    requires Climb(document, node, steps).Some?
    ensures |Climb(document, node, steps).value| < |document.nodes|
  {
    var length := |Climb(document, node, steps).value|;
    forall i | 0 <= i <= length
      ensures After(Above(document), node, i).Some? && After(Above(document), node, i).value < |document.nodes|
    {
      ClimbFollowsOwners(document, node, steps, i);
    }
    ClimbFollowsOwners(document, node, steps, length);
    EndingChainIsShort(Above(document), node, length, |document.nodes|);
  }

  lemma {:induction false} EnoughSteps(document: Document, node: nat, steps: nat, more: nat)
    requires Climb(document, node, steps).Some? && more > |Climb(document, node, steps).value|
    ensures Climb(document, node, more) == Climb(document, node, steps)
    ensures NearestEmd(document, node, more) == NearestEmd(document, node, steps)
    decreases steps
  {
    if node != document.root {
      var owner := OwnerOf(document, node).value;
      EnoughSteps(document, owner.parent, steps - 1, more - 1);
    }
  }

  /** The limit on the number of steps never cuts off a climb that any number of steps would finish. */
  lemma {:induction false} StepLimitIsEnough(document: Document, node: nat, steps: nat)
    requires steps >= |document.nodes|
    ensures Climb(document, node, |document.nodes|) == Climb(document, node, steps)
  {
    if Climb(document, node, steps).Some? {
      ClimbIsShort(document, node, steps);
      EnoughSteps(document, node, steps, |document.nodes|);
    } else if Climb(document, node, |document.nodes|).Some? {
      ClimbIsShort(document, node, |document.nodes|);
      EnoughSteps(document, node, |document.nodes|, steps);
    }
  }

  // ---------- nodes and keys ----------

  /** Every node has at most one owning edge, and the root has none. */
  ghost predicate OwnershipIsTree(document: Document) {
    && (forall a, b, child :: Owns(document, a, child) && Owns(document, b, child) ==> a == b)
    && forall a :: !Owns(document, a, document.root)
  }

  lemma {:induction false} WalkIsClimb(document: Document, path: seq<nat>)
    requires OwnershipIsTree(document) && Owned(document, path)
    ensures Climb(document, Walk(document, path).value, |path| + 1) == Some(path)
  {
    var node := Walk(document, path).value;
    if path != [] {
      var before, ordinal := path[..|path| - 1], path[|path| - 1];
      WalkIsClimb(document, before);
      var owner := Owner(Walk(document, before).value, ordinal);
      assert Owns(document, owner, node);
      OwnerIsLast(document, |document.nodes|, node);
      assert OwnerOf(document, node) == Some(owner);
      assert before + [ordinal] == path;
    }
  }

  /**
   The key of the node a key locates is that key again exactly when the key's way goes through no
   reference and names the record of any EMD resource it enters.
   */
  lemma {:induction false} NodeHasKey(document: Document, key: NodeKey)
    requires OwnershipIsTree(document) && Located(document, key).Some?
    ensures KeyOf(document, Located(document, key).value) == Some(key)
            <==> Owned(document, key.path) && (LastEmd(document, key.path).Some? ==> key.emd.Some?)
  {
    var node := Located(document, key).value;
    if KeyOf(document, node) == Some(key) {
      ClimbIsWalk(document, node, |document.nodes|);
    } else if Owned(document, key.path) && (LastEmd(document, key.path).Some? ==> key.emd.Some?) {
      WalkIsClimb(document, key.path);
      ClimbIsShort(document, node, |key.path| + 1);
      EnoughSteps(document, node, |key.path| + 1, |document.nodes|);
      ClimbIsWalk(document, node, |document.nodes|);
      assert false;
    }
  }

  predicate InsideEmd(document: Document, node: nat, emd: Option<nat>) {
    && node < |document.nodes|
    && (emd.Some? ==>
          && emd.value < |document.nodes|
          && document.nodes[node].buffer == document.nodes[emd.value].buffer
          && document.nodes[emd.value].start <= document.nodes[node].start
          && document.nodes[emd.value].start <= document.nodes[node].end)
  }

  /** A node has a key exactly when an owned way leads to it and it lies inside the last EMD resource on the way. */
  lemma {:induction false} HasKeyIff(document: Document, node: nat)
    requires OwnershipIsTree(document)
    ensures KeyOf(document, node).Some? <==>
              exists path: seq<nat>, emd: Option<nat> ::
                Owned(document, path) && Leads(document, path, node, emd) && InsideEmd(document, node, emd)
  {
    hide Leads, Owned, Climb, NearestEmd, LastEmd, Walk;
    if KeyOf(document, node).Some? {
      var path := KeyOf(document, node).value.path;
      ClimbIsWalk(document, node, |document.nodes|);
      WalkLeads(document, path, node, LastEmd(document, path));
      assert InsideEmd(document, node, LastEmd(document, path));
    }
    forall path: seq<nat>, emd: Option<nat> |
      Owned(document, path) && Leads(document, path, node, emd) && InsideEmd(document, node, emd)
      ensures KeyOf(document, node).Some?
    {
      WalkLeads(document, path, node, emd);
      WalkIsClimb(document, path);
      ClimbIsShort(document, node, |path| + 1);
      EnoughSteps(document, node, |path| + 1, |document.nodes|);
      ClimbIsWalk(document, node, |document.nodes|);
    }
  }

  /** The exception is real: a key through a stage reference locates a node that has another key. */
  lemma {:induction false} ReferenceKeyIsNotKept()
    ensures exists document: Document, key ::
              && OwnershipIsTree(document) && Located(document, key).Some?
              && KeyOf(document, Located(document, key).value).Some?
              && KeyOf(document, Located(document, key).value) != Some(key)
  {
    hide KeyOf, Climb, NearestEmd;
    var plain := Node(Other(0), "member", 0, 0, 0, []);
    var document := Document([plain.(children := [1, 2]), plain.(kind := StageResourceReference, children := [2]),
                              plain], 0);
    var reference, own := NodeKey([0, 0], None), NodeKey([1], None);
    assert reference.path[..1] == [0] && [0][..0] == [] && own.path[..0] == [];
    assert Walk(document, []) == Some(0);
    assert Walk(document, [0]) == Some(1) && Walk(document, own.path) == Some(2);
    assert Walk(document, reference.path) == Some(2);
    assert !Owned(document, reference.path) && Owned(document, []) && Owned(document, own.path);
    assert OwnershipIsTree(document);
    assert LastEmd(document, []) == None;
    assert LastEmd(document, own.path) == None;
    NodeHasKey(document, own);
    NodeHasKey(document, reference);
  }
}
