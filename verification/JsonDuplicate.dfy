/**
 cJSON_Duplicate of src/giga_spi_8adc/cJSON.c: a deep copy that shares nothing with the
 original, its child lists linked as every other operation expects them.  The original is
 any graph of nodes, children shared or leading back up; the depth limit decides what is
 refused.
 */
module JsonDuplicate {
  import opened JsonList
  import opened Common

  /** A node as the original has it: what it carries and its children, which may be shared and
      may lead back to the node itself. */
  datatype Shape = Shape(payload: Payload, kids: seq<Node>)

  type Graph = map<Node, Shape>

  /** What an item says, without the nodes it lies in. */
  datatype Item = Item(payload: Payload, children: seq<Item>)

  /** A copy and the nodes it lies in. */
  datatype Tree = Tree(node: Node, payload: Payload, children: seq<Tree>, nodes: set<Node>)

  /** The nodes at the end of next pointers from the head; of prev nothing is asked. */
  ghost predicate NextChain(head: Node?, nodes: seq<Node>)
    reads nodes
  {
    head == NodeAt(nodes, 0) && forall i :: 0 <= i < |nodes| ==> nodes[i].next == NodeAt(nodes, i + 1)
  }

  /** The children of a node of the graph are in the graph. */
  ghost predicate Closed(g: Graph) {
    forall n, k :: n in g && 0 <= k < |g[n].kids| ==> g[n].kids[k] in g
  }

  /** The graph is what lies in memory. */
  ghost predicate Drawn(g: Graph)
    reads g.Keys
  {
    Closed(g) && forall n :: n in g ==> n.payload == g[n].payload && ChildrenDrawn(g, n)
  }

  ghost predicate ChildrenDrawn(g: Graph, n: Node)
    requires Closed(g) && n in g
    reads g.Keys
  {
    (forall k :: 0 <= k < |g[n].kids| ==> g[n].kids[k] in g) && NextChain(n.child, g[n].kids)
  }

  // ---- what is copied ---------------------------------------------------------------------------

  /** The item at a node, its children followed down to the depth limit; None if there are
      children beyond it. */
  function Unfold(g: Graph, n: Node, depth: nat): (r: Option<Item>)
    requires Closed(g) && n in g
    decreases Left(depth), 1, 0
  {
    if g[n].kids == [] then Some(Item(g[n].payload, []))
    else if depth >= CIRCULAR_LIMIT then None
    else
      var children := UnfoldAll(g, g[n].kids, depth);
      if children.None? then None else Some(Item(g[n].payload, children.value))
  }

  function UnfoldAll(g: Graph, kids: seq<Node>, depth: nat): Option<seq<Item>>
    requires Closed(g) && depth < CIRCULAR_LIMIT && forall k :: 0 <= k < |kids| ==> kids[k] in g
    decreases Left(depth), 0, |kids|
  {
    if kids == [] then Some([])
    else
      var last := |kids| - 1;
      var before, item := UnfoldAll(g, kids[..last], depth), Unfold(g, kids[last], depth + 1);
      if before.None? || item.None? then None else Some(before.value + [item.value])
  }

  lemma {:induction false} UnfoldsEach(g: Graph, kids: seq<Node>, depth: nat)
    requires Closed(g) && depth < CIRCULAR_LIMIT && forall k :: 0 <= k < |kids| ==> kids[k] in g
    ensures var r := UnfoldAll(g, kids, depth);
            && (r.Some? <==> forall k :: 0 <= k < |kids| ==> Unfold(g, kids[k], depth + 1).Some?)
            && (r.Some? ==> |r.value| == |kids|
                            && forall k :: 0 <= k < |kids| ==> r.value[k] == Unfold(g, kids[k], depth + 1).value)
    decreases |kids|
  {
    hide Unfold;
    if kids != [] {
      var last := |kids| - 1;
      UnfoldsEach(g, kids[..last], depth);
      assert forall k :: 0 <= k < last ==> kids[..last][k] == kids[k];
    }
  }

  function Left(depth: nat): nat {
    if depth < CIRCULAR_LIMIT then CIRCULAR_LIMIT - depth else 0
  }

  predicate Refused(g: Graph, n: Node, depth: nat)
    requires Closed(g) && n in g
  {
    Unfold(g, n, depth).None?
  }

  lemma RefusedStep(g: Graph, n: Node, depth: nat)
    requires Closed(g) && n in g
    ensures forall k :: 0 <= k < |g[n].kids| ==> g[n].kids[k] in g
    ensures Refused(g, n, depth) && depth < CIRCULAR_LIMIT ==>
              exists k :: 0 <= k < |g[n].kids| && Refused(g, g[n].kids[k], depth + 1)
    ensures Refused(g, n, depth) ==> g[n].kids != []
    ensures g[n].kids != [] && depth >= CIRCULAR_LIMIT ==> Refused(g, n, depth)
    ensures forall k :: 0 <= k < |g[n].kids| && Refused(g, g[n].kids[k], depth + 1) ==> Refused(g, n, depth)
  {
    if depth < CIRCULAR_LIMIT {
      UnfoldsEach(g, g[n].kids, depth);
    }
  }

  /** A walk down from a node, from child to child. */
  ghost predicate Walk(g: Graph, p: seq<Node>) {
    && p != [] && (forall i :: 0 <= i < |p| ==> p[i] in g)
    && forall i :: 0 < i < |p| ==> p[i] in g[p[i - 1]].kids
  }

  /** A walk that goes below the depth limit. */
  lemma {:induction false} LongWalkIsRefused(g: Graph, p: seq<Node>, depth: nat)
    requires Closed(g) && Walk(g, p) && depth + |p| - 1 > CIRCULAR_LIMIT
    requires |p| > 1
    ensures Refused(g, p[0], depth)
    decreases |p|
  {
    hide Refused;
    assert p[1] in g[p[0]].kids;
    RefusedStep(g, p[0], depth);
    if depth < CIRCULAR_LIMIT {
      LongWalkIsRefused(g, p[1..], depth + 1);
      var k :| 0 <= k < |g[p[0]].kids| && g[p[0]].kids[k] == p[1];
    }
  }

  lemma {:induction false} RefusedHasLongWalk(g: Graph, n: Node, depth: nat) returns (p: seq<Node>)
    requires Closed(g) && n in g && Refused(g, n, depth)
    ensures Walk(g, p) && p[0] == n && |p| > 1 && depth + |p| - 1 > CIRCULAR_LIMIT
    decreases Left(depth)
  {
    hide Refused;
    RefusedStep(g, n, depth);
    if depth >= CIRCULAR_LIMIT {
      p := [n, g[n].kids[0]];
    } else {
      var k :| 0 <= k < |g[n].kids| && Refused(g, g[n].kids[k], depth + 1);
      var rest := RefusedHasLongWalk(g, g[n].kids[k], depth + 1);
      p := [n] + rest;
      WalkOn(g, n, rest);
    }
  }

  lemma WalkOn(g: Graph, n: Node, rest: seq<Node>)
    requires n in g && Walk(g, rest) && rest[0] in g[n].kids
    ensures Walk(g, [n] + rest)
  {
    var p := [n] + rest;
    forall i | 0 < i < |p| ensures p[i] in g[p[i - 1]].kids {
      if i > 1 {
        assert p[i] == rest[i - 1] && p[i - 1] == rest[i - 2];
      }
    }
  }

  /** An item is not copied exactly when a walk from it goes deeper than the limit. */
  lemma RefusedExactly(g: Graph, n: Node)
    requires Closed(g) && n in g
    ensures Refused(g, n, 0)
            <==> exists p :: Walk(g, p) && p[0] == n && |p| == 10_002
  {
    hide Refused;
    if Refused(g, n, 0) {
      var p := RefusedHasLongWalk(g, n, 0);
      var q := p[..CIRCULAR_LIMIT + 2];
      assert Walk(g, q) && q[0] == n;
    }
    if p: seq<Node> :| Walk(g, p) && p[0] == n && |p| == CIRCULAR_LIMIT + 2 {
      LongWalkIsRefused(g, p, 0);
    }
  }

  /** One of the node's children is in the set. */
  ghost predicate Continues(g: Graph, ring: set<Node>, n: Node) {
    n in g && exists k :: 0 <= k < |g[n].kids| && g[n].kids[k] in ring
  }

  lemma ChildInRing(g: Graph, ring: set<Node>, n: Node) returns (k: nat)
    requires Continues(g, ring, n)
    ensures n in g && k < |g[n].kids| && g[n].kids[k] in ring
  {
    k :| 0 <= k < |g[n].kids| && g[n].kids[k] in ring;
  }

  /** In a set of nodes that all have a child in the set every walk can go on. */
  lemma {:induction false} EndlessIsRefused(g: Graph, ring: set<Node>, n: Node, depth: nat)
    requires Closed(g) && n in ring && n in g && forall m :: m in ring ==> Continues(g, ring, m)
    ensures Refused(g, n, depth)
    decreases Left(depth)
  {
    hide Refused;
    hide Continues;
    RefusedStep(g, n, depth);
    var k := ChildInRing(g, ring, n);
    if depth < CIRCULAR_LIMIT {
      EndlessIsRefused(g, ring, g[n].kids[k], depth + 1);
    }
  }

  /** An item below which a walk comes back to a node: what the limit is for. */
  lemma CircularIsRefused(g: Graph, p: seq<Node>, i: nat, depth: nat)
    requires Closed(g) && Walk(g, p) && i < |p| - 1 && p[i] == p[|p| - 1]
    ensures Refused(g, p[0], depth)
  {
    hide Refused;
    var last := |p| - 1;
    var ring := set k | 0 <= k < last :: p[k];
    forall m | m in ring ensures Continues(g, ring, m) {
      var j :| 0 <= j < last && p[j] == m;
      assert p[j + 1] in g[p[j]].kids;
      var k :| 0 <= k < |g[m].kids| && g[m].kids[k] == p[j + 1];
      assert p[j + 1] in ring by {
        if j + 1 == last {
          assert p[j + 1] == p[i];
        }
      }
    }
    assert p[0] in ring;
    EndlessIsRefused(g, ring, p[0], depth);
  }

  // ---- what a copy is -----------------------------------------------------------------------------

  ghost function Says(t: Tree): Item
    decreases t
  {
    Item(t.payload, seq(|t.children|, i requires 0 <= i < |t.children| => Says(t.children[i])))
  }

  function Owned(p: Payload): Payload {
    p.(isReference := false)
  }

  /** What a copy says: the same, but a copy is never a reference. */
  ghost function Copied(x: Item): Item
    decreases x
  {
    Item(Owned(x.payload), seq(|x.children|, i requires 0 <= i < |x.children| => Copied(x.children[i])))
  }

  /** Somewhere in the item is a reference. */
  ghost predicate HasReference(x: Item)
    decreases x
  {
    x.payload.isReference || exists i :: 0 <= i < |x.children| && HasReference(x.children[i])
  }

  /** A copy says exactly the same if there is no reference in the original; a reference becomes an item
      of its own, with everything else as it was. */
  lemma {:induction false} CopiedExactly(x: Item)
    ensures Copied(x) == x <==> !HasReference(x)
    ensures !HasReference(Copied(x))
    ensures Copied(x).payload == Payload(x.payload.kind, false, x.payload.valueint, x.payload.valuestring, x.payload.name)
    ensures |Copied(x).children| == |x.children|
    decreases x
  {
    var y := Copied(x);
    forall i | 0 <= i < |x.children|
      ensures y.children[i] == x.children[i] <==> !HasReference(x.children[i])
      ensures !HasReference(y.children[i])
    {
      CopiedExactly(x.children[i]);
    }
  }

  ghost function Roots(ts: seq<Tree>): (nodes: seq<Node>)
    ensures |nodes| == |ts| && forall i :: 0 <= i < |ts| ==> nodes[i] == ts[i].node
  {
    seq(|ts|, i requires 0 <= i < |ts| => ts[i].node)
  }

  /** The nodes hold the tree. */
  ghost predicate Holds(t: Tree)
    reads t.nodes
    decreases t
  {
    && t.node in t.nodes
    && t.node.payload == t.payload
    && (forall i :: 0 <= i < |t.children| ==> t.children[i].node in t.nodes && t.children[i].nodes <= t.nodes)
    && IsList(t.node.child, Roots(t.children))
    && (forall i :: 0 <= i < |t.children| ==> Holds(t.children[i]))
  }

  /** No node occurs twice. */
  ghost predicate Separate(t: Tree)
    decreases t
  {
    && t.node in t.nodes
    && (forall i :: 0 <= i < |t.children| ==> t.node !in t.children[i].nodes)
    && (forall i :: 0 <= i < |t.children| ==> Separate(t.children[i]))
    && (forall i, j :: 0 <= i < j < |t.children| ==> t.children[i].nodes !! t.children[j].nodes)
  }

  /** The copies made so far hang below the new item, chained but for the head's prev. */
  ghost predicate Built(newitem: Node, last: Node?, done: seq<Tree>, nodes: set<Node>)
    reads newitem, nodes
  {
    && newitem !in nodes
    && (forall i :: 0 <= i < |done| ==> done[i].node in done[i].nodes && done[i].nodes <= nodes)
    && (forall i, j :: 0 <= i < j < |done| ==> done[i].nodes !! done[j].nodes)
    && (forall i :: 0 <= i < |done| ==> Separate(done[i]))
    && (forall i :: 0 <= i < |done| ==> Holds(done[i]))
    && Chain(newitem.child, Roots(done))
    && last == NodeAt(Roots(done), |done| - 1)
  }

  /** Relinking the root of a separate tree does not touch what it holds. */
  twostate lemma StillHolds(t: Tree)
    requires old(Holds(t)) && Separate(t)
    requires forall n :: n in t.nodes && n != t.node ==> unchanged(n)
    requires t.node.child == old(t.node.child) && t.node.payload == old(t.node.payload)
    ensures Holds(t)
  {
    forall i | 0 <= i < |t.children| ensures Holds(t.children[i]) {
      assert unchanged(t.children[i].nodes);
    }
  }

  /** The same for the root of the first of several. */
  twostate lemma AllStillHold(done: seq<Tree>)
    requires forall i :: 0 <= i < |done| ==> old(Holds(done[i])) && Separate(done[i])
    requires forall i, j :: 0 <= i < j < |done| ==> done[i].nodes !! done[j].nodes
    requires forall i :: 0 <= i < |done| ==>
               forall n :: n in done[i].nodes && n != done[0].node ==> unchanged(n)
    requires done != [] ==>
               done[0].node.child == old(done[0].node.child) && done[0].node.payload == old(done[0].node.payload)
    ensures forall i :: 0 <= i < |done| ==> Holds(done[i])
  {
    forall i | 0 <= i < |done| ensures Holds(done[i]) {
      assert i > 0 ==> done[0].nodes !! done[i].nodes && done[0].node in done[0].nodes;
      StillHolds(done[i]);
    }
  }

  /** The chaining step of the loop, on pointers. */
  method LinkLast(newitem: Node, last: Node?, newchild: Node, ghost roots: seq<Node>)
    requires Chain(newitem.child, roots) && last == NodeAt(roots, |roots| - 1)
    requires newitem !in roots && newitem != newchild && newchild !in roots
    requires newchild.next == null
    modifies newitem`child, newchild`prev, set n: Node | n in roots && n == last :: n
    ensures Chain(newitem.child, roots + [newchild])
    ensures last != null ==> last.child == old(last.child) && last.payload == old(last.payload)
  {
    if last != null {
      assert last == roots[|roots| - 1] && last in roots;
      last.next := newchild;
      newchild.prev := last;
    } else {
      newitem.child := newchild;
    }
    ghost var all := roots + [newchild];
    forall k | 0 <= k < |roots| ensures LinkedAt(all, k) {
      assert old(LinkedAt(roots, k));
    }
    assert LinkedAt(all, |roots|);
  }

  lemma RootsSnoc(ts: seq<Tree>, t: Tree)
    ensures Roots(ts + [t]) == Roots(ts) + [t.node]
  {
  }

  /** Trees over disjoint sets have their roots outside each other. */
  lemma RootsApart(ts: seq<Tree>, nodes: set<Node>, t: Tree)
    requires forall i :: 0 <= i < |ts| ==> ts[i].node in ts[i].nodes && ts[i].nodes <= nodes
    requires t.nodes !! nodes && t.node in t.nodes
    ensures forall i :: 0 <= i < |ts| ==> t.node !in ts[i].nodes && ts[i].node != t.node
    ensures t.node !in Roots(ts)
  {
  }

  /** The chaining step of the loop. */
  method Append(newitem: Node, last: Node?, newchild: Node, ghost done: seq<Tree>, ghost copy: Tree, ghost nodes: set<Node>)
    requires Built(newitem, last, done, nodes)
    requires copy.node == newchild && Holds(copy) && Separate(copy)
    requires newchild.next == null && newchild.prev == null
    requires copy.nodes !! nodes && newitem !in copy.nodes
    modifies newitem`child, newchild`prev, set n: Node | n in nodes && n == last :: n
    ensures Built(newitem, newchild, done + [copy], nodes + copy.nodes)
    ensures newitem.next == old(newitem.next) && newitem.prev == old(newitem.prev) && newitem.payload == old(newitem.payload)
  {
    hide Chain;
    hide Holds;
    hide Separate;
    RootIn(copy);
    RootsApart(done, nodes, copy);
    RootsSnoc(done, copy);
    forall n | n in Roots(done) ensures n in nodes {
    }
    label before:
    LinkLast(newitem, last, newchild, Roots(done));
    forall i | 0 <= i < |done| ensures Holds(done[i]) {
      assert forall n :: n in done[i].nodes && n != done[i].node ==> unchanged@before(n) by {
        if i + 1 < |done| {
          assert done[i].nodes !! done[|done| - 1].nodes;
        }
      }
      StillHolds@before(done[i]);
    }
    StillHolds@before(copy);
  }

  lemma RootIn(t: Tree)
    requires Holds(t)
    ensures t.node in t.nodes
  {
  }

  /** What the copies made so far say. */
  ghost predicate SaidSoFar(done: seq<Tree>, g: Graph, kids: seq<Node>, depth: nat)
    requires Closed(g) && forall k :: 0 <= k < |kids| ==> kids[k] in g
  {
    && |done| <= |kids|
    && forall i :: 0 <= i < |done| ==>
         && Unfold(g, kids[i], depth + 1).Some?
         && Says(done[i]) == Copied(Unfold(g, kids[i], depth + 1).value)
  }

  /** The end of the copy: the head's prev is the last copy made. */
  method Close(copied: Node, last: Node?, ghost done: seq<Tree>, ghost nodes: set<Node>) returns (ghost copy: Tree)
    requires Built(copied, last, done, nodes)
    modifies set n: Node | n in nodes && n == copied.child :: n
    ensures copy == Tree(copied, copied.payload, done, {copied} + nodes)
    ensures Holds(copy) && Separate(copy)
    ensures copied.next == old(copied.next) && copied.prev == old(copied.prev) && copied.payload == old(copied.payload)
  {
    label before:
    ghost var roots := Roots(done);
    if copied.child != null {
      assert copied.child == roots[0] == done[0].node;
      copied.child.prev := last;
    }
    copy := Tree(copied, copied.payload, done, {copied} + nodes);
    forall k | 0 <= k < |roots| ensures LinkedAt(roots, k) {
      assert old(LinkedAt(roots, k));
    }
    hide Separate;
    hide Holds;
    AllStillHold@before(done);
    WholeTree(copied, done, nodes);
  }

  lemma WholeTree(root: Node, children: seq<Tree>, nodes: set<Node>)
    requires root !in nodes && IsList(root.child, Roots(children))
    requires forall i :: 0 <= i < |children| ==> children[i].node in children[i].nodes && children[i].nodes <= nodes
    requires forall i, j :: 0 <= i < j < |children| ==> children[i].nodes !! children[j].nodes
    requires forall i :: 0 <= i < |children| ==> Separate(children[i])
    requires forall i :: 0 <= i < |children| ==> Holds(children[i])
    ensures var t := Tree(root, root.payload, children, {root} + nodes); Holds(t) && Separate(t)
  {
  }

  lemma BuiltNone(newitem: Node)
    requires newitem.child == null
    ensures Built(newitem, null, [], {})
  {
  }

  /** Walking a child list. */
  lemma FirstChild(g: Graph, n: Node)
    requires Drawn(g) && n in g
    ensures n.child == NodeAt(g[n].kids, 0) && n.payload == g[n].payload
    ensures forall k :: 0 <= k < |g[n].kids| ==> g[n].kids[k] in g
  {
    assert ChildrenDrawn(g, n);
  }

  lemma ChildAfter(g: Graph, n: Node, k: nat)
    requires Drawn(g) && n in g && k < |g[n].kids|
    ensures g[n].kids[k] in g && g[n].kids[k].next == NodeAt(g[n].kids, k + 1)
  {
    assert ChildrenDrawn(g, n);
  }

  /** A child that is not copied, or is below the limit. */
  lemma KidRefused(g: Graph, n: Node, k: nat, depth: nat)
    requires Closed(g) && n in g && k < |g[n].kids|
    requires g[n].kids[k] in g
    ensures depth >= CIRCULAR_LIMIT || Unfold(g, g[n].kids[k], depth + 1).None? ==> Unfold(g, n, depth).None?
  {
    if depth < CIRCULAR_LIMIT {
      UnfoldsEach(g, g[n].kids, depth);
    }
  }

  lemma SaysWhole(copy: Tree, g: Graph, n: Node, depth: nat)
    requires Closed(g) && n in g && (g[n].kids != [] ==> depth < CIRCULAR_LIMIT)
    requires copy.payload == Owned(g[n].payload)
    requires forall k :: 0 <= k < |g[n].kids| ==> g[n].kids[k] in g
    requires SaidSoFar(copy.children, g, g[n].kids, depth) && |copy.children| == |g[n].kids|
    ensures Unfold(g, n, depth).Some?
    ensures Says(copy) == Copied(Unfold(g, n, depth).value)
  {
    if g[n].kids != [] {
      UnfoldsEach(g, g[n].kids, depth);
    }
  }

  /** cJSON_Duplicate_rec: the copy of a whole item, or null if it nests too deep. */
  method DuplicateRec(item: Node?, depth: nat, ghost g: Graph) returns (newitem: Node?, ghost copy: Option<Tree>)
    requires item != null ==> item in g && Drawn(g)
    ensures newitem != null <==> item != null && Unfold(g, item, depth).Some?
    ensures newitem != null ==> copy.Some? && newitem.next == null && newitem.prev == null
    ensures newitem != null ==>
              && copy.value.node == newitem
              && fresh(copy.value.nodes)
              && Holds(copy.value)
              && Separate(copy.value)
              && Says(copy.value) == Copied(Unfold(g, item, depth).value)
    decreases Left(depth)
  {
    hide Built;
    hide Chain;
    hide Separate;
    hide LinkedAt;
    hide Holds;
    hide Says;
    hide Copied;
    hide Unfold;
    hide ChildrenDrawn;
    if item == null {
      return null, None;
    }
    var copied := new Node(Owned(item.payload));
    FirstChild(g, item);
    ghost var kids := g[item].kids;
    var child, last: Node? := item.child, null;
    ghost var done: seq<Tree> := [];
    ghost var nodes: set<Node> := {};
    BuiltNone(copied);
    while child != null
      invariant |done| <= |kids| && child == NodeAt(kids, |done|)
      invariant Drawn(g)
      invariant fresh(copied) && fresh(nodes) && Built(copied, last, done, nodes)
      invariant copied.next == null && copied.prev == null && copied.payload == Owned(g[item].payload)
      invariant SaidSoFar(done, g, kids, depth)
      invariant done != [] ==> depth < CIRCULAR_LIMIT
      decreases |kids| - |done|
    {
      KidRefused(g, item, |done|, depth);
      ChildAfter(g, item, |done|);
      if depth >= CIRCULAR_LIMIT {
        return null, None;
      }
      var newchild;
      ghost var made;
      newchild, made := DuplicateRec(child, depth + 1, g);
      if newchild == null {
        return null, None;
      }
      ghost var newcopy := made.value;
      RootIn(newcopy);
      Append(copied, last, newchild, done, newcopy, nodes);
      ChildAfter(g, item, |done|);
      last := newchild;
      done := done + [newcopy];
      nodes := nodes + newcopy.nodes;
      child := child.next;
    }
    ghost var whole := Close(copied, last, done, nodes);
    SaysWhole(whole, g, item, depth);
    return copied, Some(whole);
  }

  /** cJSON_Duplicate: the whole item, or the item alone. */
  method Duplicate(item: Node?, recurse: bool, ghost g: Graph) returns (newitem: Node?, ghost copy: Option<Tree>)
    requires item != null ==> item in g && Drawn(g)
    ensures newitem != null <==> item != null && (recurse ==> Unfold(g, item, 0).Some?)
    ensures newitem != null ==> copy.Some? && newitem.next == null && newitem.prev == null
    ensures newitem != null ==>
              && copy.value.node == newitem
              && fresh(copy.value.nodes)
              && Holds(copy.value)
              && Separate(copy.value)
              && Says(copy.value) == if recurse then Copied(Unfold(g, item, 0).value) else Item(Owned(g[item].payload), [])
  {
    if recurse || item == null {
      newitem, copy := DuplicateRec(item, 0, g);
    } else {
      newitem := new Node(Owned(item.payload));
      copy := Some(Tree(newitem, newitem.payload, [], {newitem}));
    }
  }
}
