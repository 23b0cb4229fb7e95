/**
 The EFI memory map of qnx_guests/src/hardware/startup/lib/efi_entry_point.c,
 sorted in place by a heap sort that sifts up only, and then walked.
 */
module EfiMap {
  import opened Common

  /** EFI_MEMORY_DESCRIPTOR: the sort key and the rest. */
  datatype Descriptor = Descriptor(physicalStart: nat, kind: nat, pages: nat, attribute: nat)

  predicate Before(a: Descriptor, b: Descriptor) {
    a.physicalStart <= b.physicalStart
  }

  /** No descriptor among the first n is above its parent, child `hole` excepted. */
  ghost predicate HeapBut(s: seq<Descriptor>, n: nat, hole: nat)
    requires n <= |s|
  {
    forall c :: 0 < c < n && c != hole ==> Before(s[c], s[Parent(c)])
  }

  ghost predicate Heap(s: seq<Descriptor>, n: nat)
    requires n <= |s|
  {
    forall c :: 0 < c < n ==> Before(s[c], s[Parent(c)])
  }

  function Parent(c: nat): (p: nat)
    requires c > 0
    ensures p < c
  {
    (c - 1) / 2
  }

  /** The children of `hole` are below its parent. */
  ghost predicate GrandchildrenBelow(s: seq<Descriptor>, n: nat, hole: nat)
    requires hole < n <= |s|
  {
    hole > 0 ==> forall c :: 0 < c < n && Parent(c) == hole ==> Before(s[c], s[Parent(hole)])
  }

  ghost predicate Sorted(s: seq<Descriptor>) {
    forall i, j :: 0 <= i < j < |s| ==> Before(s[i], s[j])
  }

  function Swapped(s: seq<Descriptor>, i: nat, j: nat): (t: seq<Descriptor>)
    requires i < |s| && j < |s|
    ensures |t| == |s|
  {
    s[i := s[j]][j := s[i]]
  }

  lemma SwappedPermutes(s: seq<Descriptor>, i: nat, j: nat, n: nat)
    requires i < j < n <= |s|
    ensures multiset(Swapped(s, i, j)[..n]) == multiset(s[..n])
    ensures Swapped(s, i, j)[n..] == s[n..]
  {
    assert Swapped(s, i, j)[..n] == s[..n][i := s[j]][j := s[i]];
  }

  /** One step of the sift: the hole moves to its parent. */
  lemma SiftStep(s: seq<Descriptor>, n: nat, child: nat)
    requires 0 < child < n <= |s|
    requires HeapBut(s, n, child) && GrandchildrenBelow(s, n, child)
    requires !Before(s[child], s[Parent(child)])
    ensures var t := Swapped(s, Parent(child), child);
            HeapBut(t, n, Parent(child)) && GrandchildrenBelow(t, n, Parent(child))
  {
    var p := Parent(child);
    var t := Swapped(s, p, child);
    forall c | 0 < c < n && c != p ensures Before(t[c], t[Parent(c)]) {
      assert c != child ==> Before(s[c], s[Parent(c)]);
      assert p > 0 ==> Before(s[p], s[Parent(p)]);
    }
    if p > 0 {
      forall c | 0 < c < n && Parent(c) == p ensures Before(t[c], t[Parent(p)]) {
        assert Before(s[p], s[Parent(p)]);
        assert c != child ==> Before(s[c], s[Parent(c)]);
      }
    }
  }

  method Swap(a: array<Descriptor>, i: nat, j: nat)
    requires i < a.Length && j < a.Length
    modifies a
    ensures a[..] == Swapped(old(a[..]), i, j)
  {
    var desc := a[i];
    a[i] := a[j];
    a[j] := desc;
  }

  /** What heapify leaves: a heap on the first n, made of the same descriptors. */
  ghost predicate Heapified(before: seq<Descriptor>, after: seq<Descriptor>, n: nat) {
    && |after| == |before|
    && n <= |before|
    && Heap(after, n)
    && multiset(after[..n]) == multiset(before[..n])
    && after[n..] == before[n..]
  }

  /** Sift the descriptor at `end` up a heap of `end` descriptors. */
  method SiftUp(a: array<Descriptor>, end: nat)
    requires 0 < end < a.Length && Heap(a[..], end)
    modifies a
    ensures Heapified(old(a[..]), a[..], end + 1)
  {
    var child := end;
    while child > 0
      invariant child <= end
      invariant HeapBut(a[..], end + 1, child) && GrandchildrenBelow(a[..], end + 1, child)
      invariant multiset(a[..][..end + 1]) == multiset(old(a[..])[..end + 1])
      invariant a[..][end + 1..] == old(a[..])[end + 1..]
    {
      var parent := Parent(child);
      if a[parent].physicalStart >= a[child].physicalStart {
        assert Heap(a[..], end + 1);
        return;
      }
      ghost var s := a[..];
      SiftStep(s, end + 1, child);
      SwappedPermutes(s, parent, child, end + 1);
      Swap(a, parent, child);
      child := parent;
    }
  }

  lemma HeapifiedGrows(s0: seq<Descriptor>, s1: seq<Descriptor>, s2: seq<Descriptor>, end: nat)
    requires end < |s0| && Heapified(s0, s1, end) && Heapified(s1, s2, end + 1)
    ensures Heapified(s0, s2, end + 1)
  {
    assert s1[end] == s1[end..][0] == s0[end..][0] == s0[end];
    assert s1[..end + 1] == s1[..end] + [s1[end]];
    assert s0[..end + 1] == s0[..end] + [s0[end]];
    assert s1[end + 1..] == s1[end..][1..] && s0[end + 1..] == s0[end..][1..];
  }

  /** heapify: grow the heap one descriptor at a time. */
  method Heapify(a: array<Descriptor>, count: nat)
    requires 1 <= count <= a.Length
    modifies a
    ensures Heapified(old(a[..]), a[..], count)
  {
    var end := 1;
    while end < count
      invariant 1 <= end <= count
      invariant Heapified(old(a[..]), a[..], end)
    {
      ghost var s := a[..];
      SiftUp(a, end);
      HeapifiedGrows(old(a[..]), s, a[..], end);
      end := end + 1;
    }
  }

  lemma {:induction false} HeapTop(s: seq<Descriptor>, n: nat, i: nat)
    requires i < n <= |s| && Heap(s, n)
    ensures Before(s[i], s[0])
    decreases i
  {
    if i > 0 {
      HeapTop(s, n, Parent(i));
    }
  }

  /** The last n descriptors are in order and above all the others. */
  ghost predicate TopSorted(s: seq<Descriptor>, n: nat)
    requires n <= |s|
  {
    && Sorted(s[n..])
    && (forall i, j :: 0 <= i < n <= j < |s| ==> Before(s[i], s[j]))
  }

  /** Moving the heap's top behind the heap extends the sorted part, and re-heapifying keeps it. */
  lemma TopSortedGrows(s: seq<Descriptor>, t: seq<Descriptor>, end: nat)
    requires 0 < end < |s| && Heap(s, end + 1) && TopSorted(s, end + 1)
    requires Heapified(Swapped(s, 0, end), t, end)
    ensures TopSorted(t, end)
  {
    var w := Swapped(s, 0, end);
    assert forall j :: end <= j < |s| ==> t[j] == t[end..][j - end] == w[end..][j - end] == w[j];
    assert forall j :: end < j < |s| ==> s[j] == s[end + 1..][j - end - 1];
    forall i | 0 <= i < end ensures Before(t[i], s[0]) && forall j :: end < j < |s| ==> Before(t[i], s[j]) {
      assert t[i] in multiset(t[..end]);
      assert t[i] in multiset(w[..end]);
      var k :| 0 <= k < end && w[k] == t[i];
      var k' := if k == 0 then end else k;
      assert w[k] == s[k'];
      HeapTop(s, end + 1, k');
    }
    forall i, j | 0 <= i < j < |t[end..]| ensures Before(t[end..][i], t[end..][j]) {
      assert t[end..][j] == s[end + j];
      if i > 0 {
        assert s[end + 1..][i - 1] == s[end + i] && s[end + 1..][j - 1] == s[end + j];
      }
    }
  }

  lemma SwapHeapifyPermutes(s: seq<Descriptor>, t: seq<Descriptor>, end: nat)
    requires 0 < end < |s| && Heapified(Swapped(s, 0, end), t, end)
    ensures multiset(t) == multiset(s)
  {
    var w := Swapped(s, 0, end);
    SwappedPermutes(s, 0, end, |s|);
    assert w[..|s|] == w && s[..|s|] == s;
    assert t == t[..end] + t[end..] && w == w[..end] + w[end..];
  }

  /** efi_sort_map: ascending by PhysicalStart, and a permutation of the input. */
  method SortMap(a: array<Descriptor>)
    requires a.Length >= 1
    modifies a
    ensures forall i, j :: 0 <= i < j < a.Length ==> a[i].physicalStart <= a[j].physicalStart
    ensures multiset(a[..]) == multiset(old(a[..]))
  {
    var n := a.Length;
    Heapify(a, n);
    assert a[..][..n] == a[..] && old(a[..])[..n] == old(a[..]);
    var end := n - 1;
    while end > 0
      invariant 0 <= end < n
      invariant Heap(a[..], end + 1)
      invariant TopSorted(a[..], end + 1)
      invariant multiset(a[..]) == multiset(old(a[..]))
    {
      ghost var s := a[..];
      SwapEnds(a, end);
      Heapify(a, end);
      TopSortedGrows(s, a[..], end);
      SwapHeapifyPermutes(s, a[..], end);
      end := end - 1;
    }
    FirstIsLeast(a[..]);
    assert forall i, j :: 0 <= i < j < |a[..]| ==> Before(a[..][i], a[..][j]);
  }

  method SwapEnds(a: array<Descriptor>, end: nat)
    requires end < a.Length
    modifies a
    ensures a[..] == Swapped(old(a[..]), 0, end)
  {
    var desc := a[end];
    a[end] := a[0];
    a[0] := desc;
  }

  lemma FirstIsLeast(s: seq<Descriptor>)
    requires |s| >= 1 && TopSorted(s, 1)
    ensures Sorted(s)
  {
    forall i, j | 0 <= i < j < |s| ensures Before(s[i], s[j]) {
      if i > 0 {
        assert s[i] == s[1..][i - 1] && s[j] == s[1..][j - 1];
      }
    }
  }

  /** The map and its walker; `sorted` is the function's static flag. */
  class Walker {
    const descs: array<Descriptor>
    var sorted: bool

    ghost predicate Valid()
      reads this, descs
    {
      descs.Length >= 1 && (sorted ==> Sorted(descs[..]))
    }

    constructor (descs: array<Descriptor>)
      requires descs.Length >= 1
      ensures Valid() && this.descs == descs && !sorted
    {
      this.descs := descs;
      sorted := false;
    }

    /** efi_walk_map, with a descriptor named by its index. */
    method Walk(previous: Option<nat>) returns (next: Option<nat>)
      requires Valid()
      modifies this, descs
      ensures Valid() && multiset(descs[..]) == multiset(old(descs[..]))
      ensures previous.None? ==> sorted && next == Some(0)
      ensures previous.Some? ==>
                && sorted == old(sorted) && descs[..] == old(descs[..])
                && next == if previous.value + 1 < descs.Length then Some(previous.value + 1) else None
      ensures old(sorted) ==> descs[..] == old(descs[..])
    {
      if previous.None? {
        if !sorted {
          SortMap(descs);
          assert Sorted(descs[..]);
          sorted := true;
        }
        return Some(0);
      }
      if previous.value + 1 >= descs.Length {
        return None;
      }
      return Some(previous.value + 1);
    }

    /** A caller's loop over the map sees every descriptor exactly once, lowest start first. */
    method WalkAll() returns (visited: seq<Descriptor>)
      requires Valid()
      modifies this, descs
      ensures Valid()
      ensures forall i, j :: 0 <= i < j < |visited| ==> visited[i].physicalStart <= visited[j].physicalStart
      ensures multiset(visited) == multiset(old(descs[..]))
    {
      var at := Walk(None);
      visited := [];
      while at.Some?
        invariant Valid() && sorted
        invariant multiset(descs[..]) == multiset(old(descs[..]))
        invariant at.Some? ==> at.value == |visited| < descs.Length
        invariant at.None? ==> |visited| == descs.Length
        invariant visited == descs[..|visited|]
        decreases descs.Length - |visited|, at.Some?
      {
        visited := visited + [descs[at.value]];
        at := Walk(at);
      }
      assert visited == descs[..];
      assert forall i, j :: 0 <= i < j < |visited| ==> Before(visited[i], visited[j]);
    }
  }
}
