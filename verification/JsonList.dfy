/**
 The child lists of src/giga_spi_8adc/cJSON.c: a chain of `next` pointers that ends in
 null, `prev` pointers that go back, and the head's `prev` at the tail.  `nodes` is the
 abstract list; ListIsUnique shows the pointers determine it.
 */
module JsonList {

  const CIRCULAR_LIMIT: nat := 10000    // CJSON_CIRCULAR_LIMIT

  /** The members of struct cJSON that list editing carries along untouched; the type
      word's bit cJSON_IsReference stands apart. */
  datatype Payload = Payload(kind: nat, isReference: bool, valueint: int, valuestring: seq<char>, name: seq<char>)

  class Node {
    var next: Node?
    var prev: Node?
    var child: Node?
    var payload: Payload

    /** cJSON_New_Item: everything zero. */
    constructor (payload: Payload)
      ensures next == null && prev == null && child == null && this.payload == payload
    {
      next := null;
      prev := null;
      child := null;
      this.payload := payload;
    }
  }

  ghost predicate Distinct(nodes: seq<Node>) {
    forall i, j :: 0 <= i < j < |nodes| ==> nodes[i] != nodes[j]
  }

  function NodeAt(nodes: seq<Node>, i: int): Node? {
    if 0 <= i < |nodes| then nodes[i] else null
  }

  ghost predicate LinkedAt(nodes: seq<Node>, i: nat)
    requires i < |nodes|
    reads nodes
  {
    nodes[i].next == NodeAt(nodes, i + 1) && (i > 0 ==> nodes[i].prev == nodes[i - 1])
  }

  /** Linked both ways, but for the head's prev. */
  ghost predicate Chain(head: Node?, nodes: seq<Node>)
    reads nodes
  {
    && head == NodeAt(nodes, 0)
    && Distinct(nodes)
    && forall i :: 0 <= i < |nodes| ==> LinkedAt(nodes, i)
  }

  /** The child-list invariant. */
  ghost predicate IsList(head: Node?, nodes: seq<Node>)
    reads nodes
  {
    Chain(head, nodes) && (nodes != [] ==> nodes[0].prev == nodes[|nodes| - 1])
  }

  ghost predicate ChildList(parent: Node, nodes: seq<Node>)
    reads parent, nodes
  {
    parent !in nodes && IsList(parent.child, nodes)
  }

  /** At most one sequence of nodes is the list of a head. */
  lemma ListIsUnique(head: Node?, a: seq<Node>, b: seq<Node>)
    requires IsList(head, a) && IsList(head, b)
    ensures a == b
  {
    PrefixesAgree(head, a, b, if |a| < |b| then |a| else |b|);
  }

  lemma {:induction false} PrefixesAgree(head: Node?, a: seq<Node>, b: seq<Node>, n: nat)
    requires Chain(head, a) && Chain(head, b) && n <= |a| && n <= |b|
    ensures a[..n] == b[..n] && NodeAt(a, n) == NodeAt(b, n)
  {
    if n > 0 {
      PrefixesAgree(head, a, b, n - 1);
      assert LinkedAt(a, n - 1) && LinkedAt(b, n - 1);
      assert a[..n] == a[..n - 1] + [a[n - 1]] && b[..n] == b[..n - 1] + [b[n - 1]];
    }
  }

  /** get_array_item. */
  method GetArrayItem(parent: Node?, index: nat, ghost nodes: seq<Node>) returns (item: Node?)
    requires parent != null ==> ChildList(parent, nodes)
    ensures item == if parent == null then null else NodeAt(nodes, index)
  {
    if parent == null {
      return null;
    }
    item := parent.child;
    var left := index;
    ghost var i: nat := 0;
    while item != null && left > 0
      invariant i + left == index && i <= |nodes|
      invariant item == NodeAt(nodes, i)
      decreases left
    {
      assert LinkedAt(nodes, i);
      left := left - 1;
      item := item.next;
      i := i + 1;
    }
  }

  /** cJSON_GetArraySize, without its conversion to int. */
  method GetArraySize(parent: Node?, ghost nodes: seq<Node>) returns (size: nat)
    requires parent != null ==> ChildList(parent, nodes)
    ensures size == if parent == null then 0 else |nodes|
  {
    size := 0;
    if parent == null {
      return;
    }
    var child := parent.child;
    while child != null
      invariant size <= |nodes| && child == NodeAt(nodes, size)
      decreases |nodes| - size
    {
      assert LinkedAt(nodes, size);
      size := size + 1;
      child := child.next;
    }
  }

  // ---- when no list is left ---------------------------------------------------------------------

  /** A walk along `next` from the head. */
  ghost predicate Path(head: Node?, p: seq<Node>)
    reads p
  {
    p != [] && head == p[0] && forall k :: 0 <= k < |p| - 1 ==> p[k].next == p[k + 1]
  }

  lemma {:induction false} PathIsPrefix(head: Node?, p: seq<Node>, list: seq<Node>)
    requires Path(head, p) && IsList(head, list)
    ensures |p| <= |list| && forall k :: 0 <= k < |p| ==> p[k] == list[k]
  {
    var n := |p| - 1;
    if n == 0 {
      assert list[0] == head;
    } else {
      PathIsPrefix(head, p[..n], list);
      assert p[..n][n - 1] == p[n - 1] == list[n - 1] && p[n - 1].next == p[n];
      assert LinkedAt(list, n - 1);
      forall k | 0 <= k < n ensures p[k] == list[k] {
        assert p[..n][k] == p[k];
      }
    }
  }

  lemma PathPointsBack(head: Node?, p: seq<Node>, list: seq<Node>)
    requires Path(head, p) && |p| > 1 && IsList(head, list)
    ensures p[|p| - 1].prev == p[|p| - 2]
  {
    PathIsPrefix(head, p, list);
    assert LinkedAt(list, |p| - 1);
  }

  lemma TailEnds(head: Node, list: seq<Node>)
    requires IsList(head, list)
    ensures head.prev != null && head.prev.next == null
  {
    assert LinkedAt(list, |list| - 1);
  }

  /** A walk that comes back to a node has no end. */
  lemma RepeatHasNoList(head: Node?, p: seq<Node>, i: nat, j: nat)
    requires Path(head, p) && i < j < |p| && p[i] == p[j]
    ensures forall list: seq<Node> :: !IsList(head, list)
  {
    forall list: seq<Node> ensures !IsList(head, list) {
      if IsList(head, list) {
        PathIsPrefix(head, p, list);
      }
    }
  }

  /** The last of a walk must point back at the one before. */
  lemma BadPrevHasNoList(head: Node?, p: seq<Node>)
    requires Path(head, p) && |p| > 1 && p[|p| - 1].prev != p[|p| - 2]
    ensures forall list: seq<Node> :: !IsList(head, list)
  {
    forall list: seq<Node> ensures !IsList(head, list) {
      if IsList(head, list) {
        PathPointsBack(head, p, list);
      }
    }
  }

  /** The head's prev must be the node without a next. */
  lemma BadTailHasNoList(head: Node)
    requires head.prev == null || head.prev.next != null
    ensures forall list: seq<Node> :: !IsList(head, list)
  {
    forall list: seq<Node> ensures !IsList(head, list) {
      if IsList(head, list) {
        TailEnds(head, list);
      }
    }
  }

  // ---- editing ----------------------------------------------------------------------------------

  /** add_item_to_array: an append.  On a list that is not empty it leaves the item's own
      `next` alone, so a list is left exactly when that was null and the item was no child. */
  method AddItemToArray(parent: Node?, item: Node?, ghost nodes: seq<Node>) returns (ok: bool)
    requires parent != null ==> ChildList(parent, nodes)
    modifies parent, item, nodes
    ensures ok == (item != null && parent != null && parent != item)
    ensures ok && (nodes == [] || (item !in nodes && old(item.next) == null)) ==> ChildList(parent, nodes + [item])
    ensures ok && nodes != [] && (item in nodes || old(item.next) != null) ==>
              forall list: seq<Node> :: !IsList(parent.child, list)
    ensures forall n: Node :: n in nodes ==> n.payload == old(n.payload) && n.child == old(n.child)
    ensures item != null ==> item.payload == old(item.payload) && (item != parent ==> item.child == old(item.child))
    ensures parent != null ==> parent.payload == old(parent.payload)
    ensures !ok && parent != null ==> ChildList(parent, nodes)
  {
    if item == null || parent == null || parent == item {
      return false;
    }
    var child := parent.child;
    if child == null {
      parent.child := item;
      item.prev := item;
      item.next := null;
    } else if child.prev != null {
      SuffixObject(child.prev, item);
      parent.child.prev := item;
    }
    if nodes != [] && (item in nodes || old(item.next) != null) {
      if item in nodes {
        ghost var j :| 0 <= j < |nodes| && nodes[j] == item;
        assert old(LinkedAt(nodes, j));
      }
      BadTailHasNoList(nodes[0]);
    } else {
      ghost var list := nodes + [item];
      forall k | 0 <= k < |nodes| ensures LinkedAt(list, k) {
        assert old(LinkedAt(nodes, k));
      }
      assert LinkedAt(list, |nodes|);
    }
    return true;
  }

  method SuffixObject(prev: Node, item: Node)
    modifies prev, item
    ensures prev.next == item && item.prev == prev
    ensures prev != item ==> prev.prev == old(prev.prev) && item.next == old(item.next)
    ensures prev.child == old(prev.child) && item.child == old(item.child)
    ensures prev.payload == old(prev.payload) && item.payload == old(item.payload)
  {
    prev.next := item;
    item.prev := prev;
  }

  function Without<T>(s: seq<T>, i: nat): seq<T>
    requires i < |s|
  {
    s[..i] + s[i + 1..]
  }

  function With<T>(s: seq<T>, i: nat, x: T): seq<T>
    requires i <= |s|
  {
    s[..i] + [x] + s[i..]
  }

  lemma WithoutDistinct(nodes: seq<Node>, i: nat)
    requires i < |nodes| && Distinct(nodes)
    ensures Distinct(Without(nodes, i))
    ensures forall k :: 0 <= k < |nodes| - 1 ==> Without(nodes, i)[k] == nodes[if k < i then k else k + 1]
  {
  }

  lemma WithDistinct(nodes: seq<Node>, i: nat, item: Node)
    requires i <= |nodes| && Distinct(nodes) && item !in nodes
    ensures Distinct(With(nodes, i, item))
    ensures forall k :: 0 <= k < |nodes| + 1 ==>
              With(nodes, i, item)[k] == if k < i then nodes[k] else if k == i then item else nodes[k - 1]
  {
    var list := With(nodes, i, item);
    assert forall k :: 0 <= k < |list| ==> list[k] == if k < i then nodes[k] else if k == i then item else nodes[k - 1];
    forall j, k | 0 <= j < k < |list| ensures list[j] != list[k] {
      assert j < i ==> list[j] == nodes[j];
      assert j > i ==> list[j] == nodes[j - 1];
      assert k < i ==> list[k] == nodes[k];
      assert k > i ==> list[k] == nodes[k - 1];
    }
  }

  lemma UpdateDistinct(nodes: seq<Node>, i: nat, item: Node)
    requires i < |nodes| && Distinct(nodes) && item !in nodes
    ensures Distinct(nodes[i := item])
  {
  }

  /** The pointer stores of cJSON_DetachItemViaPointer. */
  method Unlink(parent: Node, item: Node, ghost nodes: seq<Node>, ghost i: nat)
    requires ChildList(parent, nodes) && i < |nodes| && nodes[i] == item
    modifies parent, nodes
    ensures item.next == null && item.prev == null
    ensures IsList(parent.child, Without(nodes, i))
    ensures forall n: Node :: n in nodes ==> n.payload == old(n.payload) && n.child == old(n.child)
    ensures parent.payload == old(parent.payload) && parent.next == old(parent.next) && parent.prev == old(parent.prev)
  {
    assert LinkedAt(nodes, i);
    assert i > 0 ==> LinkedAt(nodes, i - 1);
    assert i + 1 < |nodes| ==> LinkedAt(nodes, i + 1);
    assert item == parent.child <==> i == 0;
    if item != parent.child {
      item.prev.next := item.next;
    }
    if item.next != null {
      item.next.prev := item.prev;
    }
    if item == parent.child {
      parent.child := item.next;
    } else if item.next == null {
      parent.child.prev := item.prev;
    }
    item.prev := null;
    item.next := null;
    ghost var rest := Without(nodes, i);
    WithoutDistinct(nodes, i);
    hide Distinct;
    forall k | 0 <= k < |rest| ensures LinkedAt(rest, k) {
      assert old(LinkedAt(nodes, if k < i then k else k + 1));
    }
  }

  /** cJSON_DetachItemViaPointer: the item leaves the list and points nowhere. */
  method DetachItemViaPointer(parent: Node?, item: Node?, ghost nodes: seq<Node>, ghost i: nat) returns (r: Node?)
    requires parent != null && item != null ==> ChildList(parent, nodes) && i < |nodes| && nodes[i] == item
    modifies parent, nodes
    ensures r == if parent == null then null else item
    ensures r != null ==> item.next == null && item.prev == null && ChildList(parent, Without(nodes, i))
    ensures forall n: Node :: n in nodes ==> n.payload == old(n.payload) && n.child == old(n.child)
  {
    assert parent != null && item != null ==> LinkedAt(nodes, i);
    if parent == null || item == null || (item != parent.child && item.prev == null) {
      return null;
    }
    Unlink(parent, item, nodes, i);
    return item;
  }

  /** The prev pointers of a list, the head's at the tail. */
  function PrevAt(nodes: seq<Node>, k: nat): Node
    requires k < |nodes|
  {
    if k > 0 then nodes[k - 1] else nodes[|nodes| - 1]
  }

  lemma Pointers(head: Node?, nodes: seq<Node>)
    requires IsList(head, nodes)
    ensures forall k :: 0 <= k < |nodes| ==> nodes[k].next == NodeAt(nodes, k + 1) && nodes[k].prev == PrevAt(nodes, k)
  {
    forall k | 0 <= k < |nodes| ensures nodes[k].next == NodeAt(nodes, k + 1) && nodes[k].prev == PrevAt(nodes, k) {
      assert LinkedAt(nodes, k);
    }
  }

  lemma Neighbours(head: Node?, nodes: seq<Node>, i: nat)
    requires IsList(head, nodes) && i < |nodes|
    ensures head == nodes[0] && (head == nodes[i] <==> i == 0) && PrevAt(nodes, i) in nodes
    ensures NodeAt(nodes, i + 1) != null ==> NodeAt(nodes, i + 1) in nodes
    ensures NodeAt(nodes, i + 1) != nodes[i] && (nodes[i] == PrevAt(nodes, i) <==> |nodes| == 1)
  {
  }

  /** What the pointer stores of cJSON_InsertItemInArray leave of a list, whatever node the item is. */
  ghost predicate Linked(parent: Node, nodes: seq<Node>, i: nat, item: Node)
    requires i < |nodes|
    reads parent, nodes, item
  {
    var after := nodes[i];
    var before := if item == after then item else PrevAt(nodes, i);
    && parent.child == (if i == 0 then item else nodes[0])
    && item.next == (if i > 0 && item == before then item else after)
    && item.prev == (if item == after then item else PrevAt(nodes, i))
    && forall k :: 0 <= k < |nodes| && nodes[k] != item ==>
         && nodes[k].next == (if i > 0 && nodes[k] == before then item else NodeAt(nodes, k + 1))
         && nodes[k].prev == (if nodes[k] == after then item else PrevAt(nodes, k))
  }

  /** The pointer stores of cJSON_InsertItemInArray. */
  method StoreBefore(parent: Node, after: Node, item: Node, ghost nodes: seq<Node>)
    requires after in nodes && after.prev in nodes
    modifies parent, nodes, item
    ensures parent.child == if old(parent.child) == after then item else old(parent.child)
    ensures var before := if item == after then item else old(after.prev);
            forall n: Node :: n in nodes || n == item ==>
              && n.next == (if old(parent.child) != after && n == before then item else if n == item then after else old(n.next))
              && n.prev == (if n == after then item else if n == item then old(after.prev) else old(n.prev))
    ensures forall n: Node :: n in nodes || n == item || n == parent ==> n.payload == old(n.payload)
    ensures forall n: Node :: (n in nodes || n == item) && n != parent ==> n.child == old(n.child)
  {
    item.next := after;
    item.prev := after.prev;
    after.prev := item;
    if after == parent.child {
      parent.child := item;
    } else {
      item.prev.next := item;
    }
  }

  method LinkBefore(parent: Node, after: Node, item: Node, ghost nodes: seq<Node>, ghost i: nat)
    requires ChildList(parent, nodes) && i < |nodes| && nodes[i] == after
    modifies parent, nodes, item
    ensures Linked(parent, nodes, i, item)
    ensures forall n: Node :: n in nodes ==> n.payload == old(n.payload) && n.child == old(n.child)
    ensures item.payload == old(item.payload) && (item != parent ==> item.child == old(item.child))
    ensures parent.payload == old(parent.payload)
  {
    hide Distinct;
    hide IsList;
    hide NodeAt;
    hide PrevAt;
    Pointers(parent.child, nodes);
    Neighbours(parent.child, nodes, i);
    StoreBefore(parent, after, item, nodes);
  }

  /** A new item is linked in. */
  lemma LinkedFresh(parent: Node, nodes: seq<Node>, i: nat, item: Node)
    requires i < |nodes| && Distinct(nodes) && Linked(parent, nodes, i, item) && item !in nodes
    ensures IsList(parent.child, With(nodes, i, item))
  {
    var list := With(nodes, i, item);
    WithDistinct(nodes, i, item);
    forall k | 0 <= k < |list| ensures LinkedAt(list, k) {
      assert k < i ==> list[k] == nodes[k];
      assert k > i ==> list[k] == nodes[k - 1];
    }
  }

  /** An item that is a child already is linked into a circle, or its old prev is lost. */
  lemma LinkedAgain(parent: Node, nodes: seq<Node>, i: nat, j: nat)
    requires i < |nodes| && j < |nodes| && Distinct(nodes) && Linked(parent, nodes, i, nodes[j])
    ensures forall list: seq<Node> :: !IsList(parent.child, list)
  {
    if i <= j {
      LinkedBack(parent, nodes, i, j);
    } else if j == i - 1 {
      LinkedToItself(parent, nodes, i);
    } else if j == 0 {
      BadTailHasNoList(nodes[j]);
    } else {
      BadPrevHasNoList(parent.child, nodes[..j + 1]);
    }
  }

  lemma LinkedToItself(parent: Node, nodes: seq<Node>, i: nat)
    requires 0 < i < |nodes| && Distinct(nodes) && Linked(parent, nodes, i, nodes[i - 1])
    ensures forall list: seq<Node> :: !IsList(parent.child, list)
  {
    RepeatHasNoList(parent.child, With(nodes, i, nodes[i - 1])[..i + 1], i - 1, i);
  }

  lemma LinkedBack(parent: Node, nodes: seq<Node>, i: nat, j: nat)
    requires i <= j < |nodes| && Distinct(nodes) && Linked(parent, nodes, i, nodes[j])
    ensures forall list: seq<Node> :: !IsList(parent.child, list)
  {
    var p := With(nodes, i, nodes[j])[..j + 2];
    forall k | 0 <= k < j + 1 ensures p[k].next == p[k + 1] {
      LinkedStep(parent, nodes, i, j, k);
    }
    RepeatHasNoList(parent.child, p, i, j + 1);
  }

  lemma LinkedStep(parent: Node, nodes: seq<Node>, i: nat, j: nat, k: nat)
    requires i <= j < |nodes| && Distinct(nodes) && Linked(parent, nodes, i, nodes[j]) && k <= j
    ensures With(nodes, i, nodes[j])[k].next == With(nodes, i, nodes[j])[k + 1]
  {
    if k == i {
      assert nodes[j].next == nodes[i];
    } else {
      var at := if k < i then k else k - 1;
      assert nodes[at] != nodes[j];
      assert nodes[at].next == if i > 0 && nodes[at] == PrevAt(nodes, i) && i != j then nodes[j] else nodes[at + 1];
    }
  }

  /** cJSON_InsertItemInArray: before the item at `which`, or at the end when there is none. */
  method InsertItemInArray(parent: Node?, which: int, item: Node?, ghost nodes: seq<Node>) returns (ok: bool)
    requires parent != null ==> ChildList(parent, nodes)
    modifies parent, nodes, item
    ensures ok == (which >= 0 && item != null && parent != null && !(item == parent && which >= |nodes|))
    ensures ok && which < |nodes| && item !in nodes ==> IsList(parent.child, With(nodes, which, item))
    ensures ok && which >= |nodes| && (nodes == [] || (item !in nodes && old(item.next) == null)) ==>
              IsList(parent.child, nodes + [item])
    ensures ok && (item in nodes || (which >= |nodes| > 0 && old(item.next) != null)) ==>
              forall list: seq<Node> :: !IsList(parent.child, list)
    ensures !ok && parent != null ==> ChildList(parent, nodes)
    ensures forall n: Node :: n in nodes ==> n.payload == old(n.payload) && n.child == old(n.child)
    ensures item != null ==> item.payload == old(item.payload) && (item != parent ==> item.child == old(item.child))
  {
    if which < 0 || item == null {
      return false;
    }
    var after := GetArrayItem(parent, which, nodes);
    if after == null {
      ok := AddItemToArray(parent, item, nodes);
      return;
    }
    assert LinkedAt(nodes, which);
    if after != parent.child && after.prev == null {
      return false;
    }
    LinkBefore(parent, after, item, nodes, which);
    if item in nodes {
      ghost var j :| 0 <= j < |nodes| && nodes[j] == item;
      LinkedAgain(parent, nodes, which, j);
    } else {
      LinkedFresh(parent, nodes, which, item);
    }
    return true;
  }

  /** What the pointer stores of cJSON_ReplaceItemViaPointer leave of a list, whatever node the
      replacement is. */
  ghost predicate Replaced(parent: Node, nodes: seq<Node>, i: nat, replacement: Node)
    requires i < |nodes|
    reads parent, nodes, replacement
  {
    var item, next, prev := nodes[i], NodeAt(nodes, i + 1), PrevAt(nodes, i);
    var before := if replacement == next then replacement else prev;
    var tail := i > 0 && next == null && before != replacement;
    && parent.child == (if i == 0 then replacement else nodes[0])
    && item.next == null && item.prev == null
    && replacement.next == (if i > 0 && replacement == before then replacement else next)
    && replacement.prev == (if replacement == next || (tail && replacement == nodes[0]) then replacement
                            else if |nodes| == 1 then replacement
                            else prev)
    && forall k :: 0 <= k < |nodes| && nodes[k] != item && nodes[k] != replacement ==>
         && nodes[k].next == (if i > 0 && nodes[k] == before then replacement else NodeAt(nodes, k + 1))
         && nodes[k].prev == (if (tail && nodes[k] == nodes[0]) || nodes[k] == next then replacement else PrevAt(nodes, k))
  }

  /** The replacement takes over the item's links. */
  method TakeLinks(item: Node, replacement: Node, ghost nodes: seq<Node>)
    requires item in nodes && (item.next != null ==> item.next in nodes) && replacement != item
    modifies nodes, replacement
    ensures replacement.next == old(item.next)
    ensures replacement.prev == if replacement == old(item.next) then replacement else old(item.prev)
    ensures forall n: Node :: n in nodes && n != replacement ==>
              n.next == old(n.next) && n.prev == if n == old(item.next) then replacement else old(n.prev)
    ensures forall n: Node :: n in nodes || n == replacement ==> n.payload == old(n.payload) && n.child == old(n.child)
  {
    replacement.next := item.next;
    replacement.prev := item.prev;
    if replacement.next != null {
      replacement.next.prev := replacement;
    }
  }

  /** The pointer stores of cJSON_ReplaceItemViaPointer. */
  method StoreInPlace(parent: Node, item: Node, replacement: Node, ghost nodes: seq<Node>)
    requires item in nodes && (item.next != null ==> item.next in nodes) && item.prev in nodes
    requires parent.child in nodes && replacement != item && (parent.child == item ==> item.next != item)
    modifies parent, nodes, replacement
    ensures parent.child == if old(parent.child) == item then replacement else old(parent.child)
    ensures item.next == null && item.prev == null
    ensures var atHead, next, prev := old(parent.child) == item, old(item.next), old(item.prev);
            var before := if replacement == next then replacement else prev;
            forall n: Node :: (n in nodes || n == replacement) && n != item ==>
              n.next == (if !atHead && n == before then replacement else if n == replacement then next else old(n.next))
    ensures var atHead, next, prev := old(parent.child) == item, old(item.next), old(item.prev);
            var before := if replacement == next then replacement else prev;
            var tail := !atHead && next == null && before != replacement;
            forall n: Node :: (n in nodes || n == replacement) && n != item ==>
              n.prev == (if tail && n == old(parent.child) then replacement
                         else if n == next then replacement
                         else if n == replacement then (if atHead && prev == item then replacement else prev)
                         else old(n.prev))
    ensures forall n: Node :: n in nodes || n == replacement || n == parent ==> n.payload == old(n.payload)
    ensures forall n: Node :: (n in nodes || n == replacement) && n != parent ==> n.child == old(n.child)
  {
    TakeLinks(item, replacement, nodes);
    if parent.child == item {
      if parent.child.prev == parent.child {
        replacement.prev := replacement;
      }
      parent.child := replacement;
    } else {
      if replacement.prev != null {
        replacement.prev.next := replacement;
      }
      if replacement.next == null {
        parent.child.prev := replacement;
      }
    }
    item.next := null;
    item.prev := null;
  }

  method Replace(parent: Node, item: Node, replacement: Node, ghost nodes: seq<Node>, ghost i: nat)
    requires ChildList(parent, nodes) && i < |nodes| && nodes[i] == item && replacement != item
    modifies parent, nodes, replacement
    ensures Replaced(parent, nodes, i, replacement)
    ensures forall n: Node :: n in nodes ==> n.payload == old(n.payload) && n.child == old(n.child)
    ensures replacement.payload == old(replacement.payload)
    ensures replacement != parent ==> replacement.child == old(replacement.child)
    ensures parent.payload == old(parent.payload)
  {
    hide Distinct;
    hide IsList;
    hide NodeAt;
    hide PrevAt;
    Pointers(parent.child, nodes);
    Neighbours(parent.child, nodes, i);
    StoreInPlace(parent, item, replacement, nodes);
  }

  /** A new item stands where the old one was. */
  lemma ReplacedFresh(parent: Node, nodes: seq<Node>, i: nat, replacement: Node)
    requires i < |nodes| && Distinct(nodes) && Replaced(parent, nodes, i, replacement) && replacement !in nodes
    ensures IsList(parent.child, nodes[i := replacement])
  {
    var list := nodes[i := replacement];
    UpdateDistinct(nodes, i, replacement);
    forall k | 0 <= k < |list| ensures LinkedAt(list, k) {
      assert k != i ==> list[k] == nodes[k];
    }
  }

  /** A child put in another's place leaves no list, but for the first in place of the last:
      then it alone is left. */
  lemma ReplacedByChild(parent: Node, nodes: seq<Node>, i: nat, j: nat)
    requires i < |nodes| && j < |nodes| && i != j && Distinct(nodes) && Replaced(parent, nodes, i, nodes[j])
    ensures if j == 0 && 1 < i == |nodes| - 1 then IsList(parent.child, [nodes[j]])
            else forall list: seq<Node> :: !IsList(parent.child, list)
  {
    if 0 < i == j - 1 {
      BadPrevHasNoList(parent.child, nodes[..i + 1]);
    } else if i < j {
      ReplacedBack(parent, nodes, i, j);
    } else if j == i - 1 {
      RepeatHasNoList(parent.child, nodes[i := nodes[j]][..i + 1], j, i);
    } else if j > 0 {
      BadPrevHasNoList(parent.child, nodes[..j + 1]);
    } else if i < |nodes| - 1 {
      BadTailHasNoList(nodes[j]);
    } else {
      assert LinkedAt([nodes[j]], 0);
    }
  }

  lemma ReplacedBack(parent: Node, nodes: seq<Node>, i: nat, j: nat)
    requires i < j < |nodes| && (i > 0 ==> j != i + 1) && Distinct(nodes) && Replaced(parent, nodes, i, nodes[j])
    ensures forall list: seq<Node> :: !IsList(parent.child, list)
  {
    var p := nodes[i := nodes[j]][..j + 1];
    forall k | 0 <= k < j ensures p[k].next == p[k + 1] {
      assert k != i ==> p[k] == nodes[k];
    }
    RepeatHasNoList(parent.child, p, i, j);
  }

  /** cJSON_ReplaceItemViaPointer; the replaced item is deleted, which is no longer of the list. */
  method ReplaceItemViaPointer(parent: Node?, item: Node?, replacement: Node?, ghost nodes: seq<Node>, ghost i: nat)
    returns (ok: bool)
    requires parent != null ==> ChildList(parent, nodes)
    requires parent != null && item != null ==> i < |nodes| && nodes[i] == item
    modifies parent, nodes, replacement
    ensures ok == (parent != null && item != null && replacement != null)
    ensures ok && (replacement == item || replacement !in nodes) ==> IsList(parent.child, nodes[i := replacement])
    ensures ok && replacement != item && replacement in nodes ==>
              if replacement == nodes[0] && 1 < i == |nodes| - 1 then IsList(parent.child, [replacement])
              else forall list: seq<Node> :: !IsList(parent.child, list)
    ensures ok && replacement != item ==> item.next == null && item.prev == null
    ensures forall n: Node :: n in nodes ==> n.payload == old(n.payload) && n.child == old(n.child)
  {
    if parent == null || parent.child == null || replacement == null || item == null {
      return false;
    }
    if replacement == item {
      assert nodes[i := replacement] == nodes;
      return true;
    }
    Replace(parent, item, replacement, nodes, i);
    if replacement in nodes {
      ghost var j :| 0 <= j < |nodes| && nodes[j] == replacement;
      ReplacedByChild(parent, nodes, i, j);
    } else {
      ReplacedFresh(parent, nodes, i, replacement);
    }
    return true;
  }

  // ---- what one call undoes ---------------------------------------------------------------------

  lemma WithoutWith<T>(s: seq<T>, i: nat, x: T)
    ensures i <= |s| ==> Without(With(s, i, x), i) == s
    ensures i < |s| ==> With(Without(s, i), i, s[i]) == s
  {
  }

  lemma WithAtEnd<T>(s: seq<T>, i: nat)
    requires i < |s|
    ensures i == |s| - 1 ==> Without(s, i) + [s[i]] == s
  {
  }

  lemma ItemAt(nodes: seq<Node>, i: nat)
    requires i < |nodes|
    ensures NodeAt(nodes, i) == nodes[i]
  {
  }

  lemma HeadOf(head: Node?, nodes: seq<Node>)
    requires IsList(head, nodes)
    ensures head == NodeAt(nodes, 0) && Distinct(nodes)
  {
  }

  lemma WithMembers(nodes: seq<Node>, i: nat, item: Node)
    requires i <= |nodes|
    ensures With(nodes, i, item)[i] == item
    ensures forall n: Node :: n in With(nodes, i, item) <==> n in nodes || n == item
  {
    assert nodes == nodes[..i] + nodes[i..];
  }

  /** Every pointer of the list is as it was. */
  twostate predicate SamePointers(parent: Node, nodes: seq<Node>)
    reads parent, nodes
  {
    && parent.child == old(parent.child)
    && forall n: Node :: n in nodes ==> n.next == old(n.next) && n.prev == old(n.prev)
  }

  /** An insertion and the detaching of what was inserted leave every pointer as it was. */
  method InsertThenDetach(parent: Node, which: nat, item: Node, ghost nodes: seq<Node>)
    requires ChildList(parent, nodes) && which < |nodes| && item !in nodes && item != parent
    modifies parent, nodes, item
    ensures SamePointers(parent, nodes) && ChildList(parent, nodes)
    ensures item.next == null && item.prev == null
  {
    hide Distinct;
    hide IsList;
    hide NodeAt;
    hide PrevAt;
    HeadOf(parent.child, nodes);
    Pointers(parent.child, nodes);
    WithMembers(nodes, which, item);
    var ok := InsertItemInArray(parent, which, item, nodes);
    var r := DetachItemViaPointer(parent, item, With(nodes, which, item), which);
    WithoutWith(nodes, which, item);
    HeadOf(parent.child, nodes);
    Pointers(parent.child, nodes);
  }

  /** So do a detaching and an insertion at the same place. */
  method DetachThenInsert(parent: Node, which: nat, ghost nodes: seq<Node>)
    requires ChildList(parent, nodes) && which < |nodes|
    modifies parent, nodes
    ensures SamePointers(parent, nodes) && ChildList(parent, nodes)
  {
    hide IsList;
    hide NodeAt;
    hide PrevAt;
    HeadOf(parent.child, nodes);
    Pointers(parent.child, nodes);
    var item := GetArrayItem(parent, which, nodes);
    ItemAt(nodes, which);
    var r := DetachItemViaPointer(parent, item, nodes, which);
    ghost var rest := Without(nodes, which);
    NotInRest(nodes, which);
    var ok := InsertItemInArray(parent, which, item, rest);
    WithoutWith(nodes, which, item);
    WithAtEnd(nodes, which);
    HeadOf(parent.child, nodes);
    Pointers(parent.child, nodes);
  }

  lemma NotInRest(nodes: seq<Node>, i: nat)
    requires i < |nodes| && Distinct(nodes)
    ensures nodes[i] !in Without(nodes, i)
    ensures forall n :: n in Without(nodes, i) ==> n in nodes
  {
    forall k | 0 <= k < |nodes| - 1 ensures Without(nodes, i)[k] != nodes[i] {
      assert Without(nodes, i)[k] == nodes[if k < i then k else k + 1];
    }
  }
}
