/**
 * The daemon's generic doubly linked list (struct s_list).
 *
 * There is no container object: a list is the pointer to its first cell, and every
 * operation takes that head and returns the (possibly new) head. The model pairs each
 * head with a ghost sequence `nodes`, the cells reachable from it through `next`, in
 * order. Cell identity is object identity, as `remove_link` and `insert_before` use it;
 * payloads are compared by identity too (D's equality). A cell's payload never changes
 * once the cell exists, so it is a `const`.
 */
module DaemonList {
  import opened Wrappers
  import opened Errno

  class Node<D> {
    const data: D
    var previous: Node?<D>
    var next: Node?<D>

    /** _s_list_new: a cell holding data between previous and next; the neighbours are not touched. */
    constructor (previous: Node?<D>, data: D, next: Node?<D>)
      ensures this.previous == previous && this.data == data && this.next == next
    {
      this.previous := previous;
      this.data := data;
      this.next := next;
    }
  }

  /** No cell occurs twice. */
  ghost predicate Distinct<T>(s: seq<T>)
  {
    forall i, j :: 0 <= i < j < |s| ==> s[i] != s[j]
  }

  /** Forward links: each cell's next is the following one, the last has none, no cell repeats. */
  ghost predicate ForwardLinked<D>(nodes: seq<Node<D>>)
    reads nodes
  {
    (forall i :: 0 <= i < |nodes| - 1 ==> nodes[i].next == nodes[i + 1]) &&
    (nodes != [] ==> nodes[|nodes| - 1].next == null) &&
    Distinct(nodes)
  }

  /** Forward links, and every back link mirrors a forward one. */
  ghost predicate Linked<D>(nodes: seq<Node<D>>)
    reads nodes
  {
    ForwardLinked(nodes) &&
    (forall i :: 0 < i < |nodes| ==> nodes[i].previous == nodes[i - 1])
  }

  /** head starts the linked cells nodes (possibly in the middle of a longer list). */
  ghost predicate Segment<D>(head: Node?<D>, nodes: seq<Node<D>>)
    reads nodes
  {
    Linked(nodes) && (if nodes == [] then head == null else head == nodes[0])
  }

  /** head is a whole list: a segment whose first cell has no predecessor. */
  ghost predicate Chain<D>(head: Node?<D>, nodes: seq<Node<D>>)
    reads nodes
  {
    Segment(head, nodes) && (nodes != [] ==> nodes[0].previous == null)
  }

  /** The payloads of the cells, in list order. */
  ghost function Elems<D>(nodes: seq<Node<D>>): seq<D>
  {
    seq(|nodes|, i requires 0 <= i < |nodes| => nodes[i].data)
  }

  // ---------------------------------------------------------------------------
  // Sequence-level specification of the operations

  /** Index of the first occurrence of x in s. */
  function FirstIndex<T(==)>(s: seq<T>, x: T): (k: nat)
    requires x in s
    ensures k < |s| && s[k] == x && x !in s[..k]
  {
    if s[0] == x then 0 else 1 + FirstIndex(s[1..], x)
  }

  /** s with its first occurrence of x deleted (s itself when x does not occur). */
  ghost function RemoveFirst<T>(s: seq<T>, x: T): seq<T>
  {
    if x in s then s[..FirstIndex(s, x)] + s[FirstIndex(s, x) + 1..] else s
  }

  /** s with every occurrence of x deleted, the rest in order. */
  ghost function RemoveEvery<T>(s: seq<T>, x: T): seq<T>
  {
    if s == [] then []
    else RemoveEvery(s[..|s| - 1], x) + (if s[|s| - 1] == x then [] else [s[|s| - 1]])
  }

  /** The cells of nodes whose payload is not x, in order. */
  ghost function KeepOthers<D>(nodes: seq<Node<D>>, x: D): seq<Node<D>>
  {
    if nodes == [] then []
    else KeepOthers(nodes[..|nodes| - 1], x) +
         (if nodes[|nodes| - 1].data == x then [] else [nodes[|nodes| - 1]])
  }

  /** s with d placed at index k. */
  ghost function InsertedAt<T>(s: seq<T>, k: nat, d: T): seq<T>
    requires k <= |s|
  {
    s[..k] + [d] + s[k..]
  }

  ghost function Reverse<T>(s: seq<T>): seq<T>
  {
    if s == [] then [] else Reverse(s[1..]) + [s[0]]
  }

  /** Index at which s_list_insert places its new cell in a list of length len. */
  function InsertIndex(len: nat, position: nat): (k: nat)
    ensures k <= len
  {
    if position == 0 || len == 0 then 0
    else if position + 1 < len then position + 1
    else len
  }

  /** Index at which the header's contract puts it: at position, or last when position is past the end. */
  function IntendedInsertIndex(len: nat, position: nat): (k: nat)
    ensures k <= len
  {
    if position < len then position else len
  }

  // ---------------------------------------------------------------------------
  // Lemmas about the specification

  /**
   * s_list_insert agrees with its header only at position 0 and past the end; in between
   * the new cell lands one place later than asked (position 1 of three cells: index 2).
   */
  lemma InsertIndexOffByOne(len: nat, position: nat)
    ensures InsertIndex(len, position) == IntendedInsertIndex(len, position) <==> position == 0 || position >= len
    ensures 0 < position < len ==> InsertIndex(len, position) == position + 1
    ensures InsertIndex(3, 1) == 2 && IntendedInsertIndex(3, 1) == 1
  {
  }

  lemma {:induction false} LinkedSuffix<D>(nodes: seq<Node<D>>, k: nat)
    requires Linked(nodes) && k <= |nodes|
    ensures Linked(nodes[k..])
  {
    var t := nodes[k..];
    forall i | 0 <= i < |t| - 1 ensures t[i].next == t[i + 1] {
      assert t[i] == nodes[k + i] && t[i + 1] == nodes[k + i + 1];
    }
    forall i | 0 < i < |t| ensures t[i].previous == t[i - 1] {
      assert t[i] == nodes[k + i] && t[i - 1] == nodes[k + i - 1];
    }
  }

  /** Deleting the first occurrence takes exactly one x out of the multiset. */
  lemma {:induction false} RemoveFirstMultiset<T>(s: seq<T>, x: T)
    requires x in s
    ensures multiset(RemoveFirst(s, x)) == multiset(s) - multiset{x}
    ensures |RemoveFirst(s, x)| == |s| - 1
  {
    var k := FirstIndex(s, x);
    assert s == s[..k] + [s[k]] + s[k + 1..];
    calc {
      multiset(s);
      multiset(s[..k]) + multiset{x} + multiset(s[k + 1..]);
      multiset(s[..k] + s[k + 1..]) + multiset{x};
    }
  }

  /** After deleting its first occurrence, x is still present exactly when it occurred twice or more. */
  lemma RemoveFirstKeeps<T>(s: seq<T>, x: T)
    ensures x in RemoveFirst(s, x) <==> multiset(s)[x] > 1
  {
    if x in s {
      RemoveFirstMultiset(s, x);
      assert x in RemoveFirst(s, x) <==> multiset(RemoveFirst(s, x))[x] > 0;
    }
  }

  /** RemoveEvery keeps exactly the elements different from x: its length drops by x's count. */
  lemma {:induction false} RemoveEveryCount<T>(s: seq<T>, x: T)
    ensures |RemoveEvery(s, x)| == |s| - multiset(s)[x]
    ensures x !in RemoveEvery(s, x)
    ensures forall y :: y != x ==> multiset(RemoveEvery(s, x))[y] == multiset(s)[y]
  {
    if s != [] {
      var init := s[..|s| - 1];
      assert s == init + [s[|s| - 1]];
      RemoveEveryCount(init, x);
    }
  }

  lemma {:induction false} ElemsKeepOthers<D>(nodes: seq<Node<D>>, x: D)
    ensures Elems(KeepOthers(nodes, x)) == RemoveEvery(Elems(nodes), x)
  {
    if nodes != [] {
      var init := nodes[..|nodes| - 1];
      ElemsKeepOthers(init, x);
      assert Elems(nodes)[..|nodes| - 1] == Elems(init);
    }
  }

  lemma {:induction false} KeepOthersSubset<D>(nodes: seq<Node<D>>, x: D)
    ensures forall n :: n in KeepOthers(nodes, x) ==> n in nodes
  {
    if nodes != [] {
      var init := nodes[..|nodes| - 1];
      KeepOthersSubset(init, x);
      assert forall n :: n in init ==> n in nodes;
    }
  }

  /** KeepOthers over one more cell: that cell is kept exactly when its payload is not x. */
  lemma KeepOthersStep<D>(nodes: seq<Node<D>>, i: nat, x: D)
    requires i < |nodes|
    ensures KeepOthers(nodes[..i + 1], x) == KeepOthers(nodes[..i], x) + (if nodes[i].data == x then [] else [nodes[i]])
  {
    assert nodes[..i + 1][..i] == nodes[..i];
  }

  /** Indexing into kept + rest at the seam. */
  lemma SplitAt<T>(kept: seq<T>, rest: seq<T>)
    requires rest != []
    ensures (kept + rest)[|kept|] == rest[0]
    ensures (kept + rest)[..|kept|] == kept && (kept + rest)[|kept| + 1..] == rest[1..]
    ensures |rest| > 1 ==> (kept + rest)[|kept| + 1] == rest[1]
  {
  }

  /** Moving the seam of kept + rest one element to the right. */
  lemma ShiftSeam<T>(kept: seq<T>, rest: seq<T>)
    requires rest != []
    ensures kept + rest == (kept + [rest[0]]) + rest[1..]
  {
  }

  /** The suffix from i starts with s[i], continues with the suffix from i + 1, and lies within s. */
  lemma SuffixStep<T>(s: seq<T>, i: nat)
    requires i < |s|
    ensures s[i..] != [] && s[i..][0] == s[i] && s[i..][1..] == s[i + 1..]
    ensures forall x :: x in s[i..] ==> x in s
  {
  }

  /** The payloads left once the cell at index k is taken out. */
  lemma ElemsRemoveAt<D>(nodes: seq<Node<D>>, k: nat)
    requires k < |nodes|
    ensures Elems(nodes[..k] + nodes[k + 1..]) == Elems(nodes)[..k] + Elems(nodes)[k + 1..]
  {
  }

  lemma ElemsTakeStep<D>(nodes: seq<Node<D>>, i: nat)
    requires i < |nodes|
    ensures Elems(nodes)[..i + 1] == Elems(nodes)[..i] + [nodes[i].data]
  {
  }

  lemma TakeAll<T>(s: seq<T>)
    ensures s[..|s|] == s
  {
  }

  /** In a sequence without repetitions, no cell before index i occurs from i on. */
  lemma DistinctSplit<T>(s: seq<T>, i: nat)
    requires Distinct(s) && i <= |s|
    ensures forall j :: 0 <= j < i ==> s[j] !in s[i..]
  {
  }

  /** Taking one element out keeps the others apart, and the element taken out is not among them. */
  lemma DistinctRemoveAt<T>(s: seq<T>, k: nat)
    requires Distinct(s) && k < |s|
    ensures Distinct(s[..k] + s[k + 1..]) && s[k] !in s[..k] + s[k + 1..]
  {
    var t := s[..k] + s[k + 1..];
    forall i, j | 0 <= i < j < |t| ensures t[i] != t[j] {
      assert t[i] == s[if i < k then i else i + 1];
      assert t[j] == s[if j < k then j else j + 1];
    }
  }

  /** In a sequence without repetitions, the first occurrence of s[k] is k itself. */
  lemma DistinctFirstIndex<T>(s: seq<T>, k: nat)
    requires Distinct(s) && k < |s|
    ensures FirstIndex(s, s[k]) == k
  {
    var f := FirstIndex(s, s[k]);
    assert s[f] == s[k];
  }

  /** The old elements keep their relative order around an inserted one. */
  lemma InsertedAtKeepsOrder<T>(s: seq<T>, k: nat, d: T)
    requires k <= |s|
    ensures |InsertedAt(s, k, d)| == |s| + 1 && InsertedAt(s, k, d)[k] == d
    ensures InsertedAt(s, k, d)[..k] + InsertedAt(s, k, d)[k + 1..] == s
  {
    var r := InsertedAt(s, k, d);
    assert r[..k] == s[..k];
    assert r[k + 1..] == s[k..];
  }

  // ---------------------------------------------------------------------------
  // Walks that only read the list

  /** _s_list_check: whether link is one of the cells reachable from head. */
  method Check<D>(head: Node?<D>, ghost nodes: seq<Node<D>>, link: Node?<D>) returns (found: bool)
    requires Segment(head, nodes)
    ensures found <==> head != null && link != null && link in nodes
  {
    if head == null || link == null {
      return false;
    }
    var cur: Node?<D> := head;
    ghost var i := 0;
    while cur != null && cur != link
      invariant 0 <= i <= |nodes|
      invariant cur == (if i < |nodes| then nodes[i] else null)
      invariant link !in nodes[..i]
      decreases |nodes| - i
    {
      assert nodes[..i + 1] == nodes[..i] + [nodes[i]];
      cur := cur.next;
      i := i + 1;
    }
    found := cur == link;
  }

  /** s_list_first: the first cell, NULL for the empty list. */
  method First<D>(head: Node?<D>, ghost nodes: seq<Node<D>>) returns (first: Node?<D>)
    requires Segment(head, nodes)
    ensures first == (if nodes == [] then null else nodes[0])
  {
    if head == null {
      return null;
    }
    return head;
  }

  /** s_list_last: the last cell, NULL for the empty list. */
  method Last<D>(head: Node?<D>, ghost nodes: seq<Node<D>>) returns (last: Node?<D>)
    requires Segment(head, nodes)
    ensures last == (if nodes == [] then null else nodes[|nodes| - 1])
  {
    if head == null {
      return head;
    }
    var cur := head;
    assert cur.next == (if 1 < |nodes| then nodes[1] else null);
    if cur.next == null {
      return cur;
    }
    ghost var i := 0;
    while cur.next != null
      invariant 0 <= i < |nodes| && cur == nodes[i]
      invariant cur.next == (if i + 1 < |nodes| then nodes[i + 1] else null)
      decreases |nodes| - i
    {
      cur := cur.next;
      i := i + 1;
    }
    return cur;
  }

  /** s_list_length: the number of cells, counted in a uint32_t that wraps past 2^32 - 1. */
  method Length<D>(head: Node?<D>, ghost nodes: seq<Node<D>>) returns (size: uint32)
    requires Segment(head, nodes)
    ensures size == |nodes| % UINT32_LIMIT
  {
    if head == null {
      return 0;
    }
    size := 1;
    var cur := head;
    ghost var i := 0;
    while cur.next != null
      invariant 0 <= i < |nodes| && cur == nodes[i]
      invariant cur.next == (if i + 1 < |nodes| then nodes[i + 1] else null)
      invariant size == (i + 1) % UINT32_LIMIT
      decreases |nodes| - i
    {
      cur := cur.next;
      size := (size + 1) % UINT32_LIMIT;
      i := i + 1;
    }
  }

  /** s_list_nth: the cell at index n of a whole list; NULL past the end or when head is not a list's first cell. */
  method Nth<D>(head: Node?<D>, ghost nodes: seq<Node<D>>, n: uint32) returns (r: Node?<D>)
    requires Segment(head, nodes)
    ensures r == (if head != null && head.previous == null && n < |nodes| then nodes[n] else null)
  {
    if head == null || head.previous != null {
      return null;
    }
    var current: uint32 := 0;
    var cur := head;
    while cur.next != null && current != n
      invariant current <= n && current < |nodes| && cur == nodes[current]
      decreases |nodes| - current
    {
      cur := cur.next;
      current := current + 1;
    }
    if current != n {
      return null;
    }
    return cur;
  }

  /**
   * s_list_find: the first cell whose payload is data, NULL when there is none or data is NULL.
   * The walk dereferences head before testing it, so a NULL list is the caller's fault.
   */
  method Find<D(==)>(head: Node?<D>, ghost nodes: seq<Node<D>>, data: Option<D>) returns (r: Node?<D>)
    requires Segment(head, nodes)
    requires data.Some? ==> head != null
    ensures data.None? || data.value !in Elems(nodes) ==> r == null
    ensures data.Some? && data.value in Elems(nodes) ==> r == nodes[FirstIndex(Elems(nodes), data.value)]
  {
    if data.None? {
      return null;
    }
    var d := data.value;
    var cur := head;
    ghost var i := 0;
    while cur.next != null && cur.data != d
      invariant 0 <= i < |nodes| && cur == nodes[i]
      invariant cur.next == (if i + 1 < |nodes| then nodes[i + 1] else null)
      invariant d !in Elems(nodes)[..i]
      decreases |nodes| - i
    {
      assert Elems(nodes)[..i + 1] == Elems(nodes)[..i] + [nodes[i].data];
      cur := cur.next;
      i := i + 1;
    }
    if cur.data == d {
      assert Elems(nodes)[i] == d;
      return cur;
    }
    assert Elems(nodes) == Elems(nodes)[..i] + [cur.data];
    return null;
  }

  /**
   * s_list_free: releases head's cell and, first, every cell after it; the result lists
   * the released cells in the order they are released (the last cell first).
   */
  method Free<D>(head: Node?<D>, ghost nodes: seq<Node<D>>) returns (freed: seq<Node<D>>)
    requires Segment(head, nodes)
    ensures freed == Reverse(nodes)
    decreases |nodes|
  {
    freed := [];
    if head != null {
      if head.next != null {
        LinkedSuffix(nodes, 1);
        freed := Free(head.next, nodes[1..]);
      }
      freed := freed + [head];
    }
  }

  /**
   * s_list_foreach: one callback invocation per cell, in list order. Each entry is the pair
   * of arguments as passed: the user data first and the payload second, the reverse of the
   * order s_foreach_cbk declares.
   */
  method Foreach<D, U, F>(head: Node?<D>, ghost nodes: seq<Node<D>>, func: Option<F>, user: U)
      returns (calls: seq<(U, D)>)
    requires Segment(head, nodes)
    ensures func.None? ==> calls == []
    ensures func.Some? ==>
              |calls| == |nodes| && forall i :: 0 <= i < |nodes| ==> calls[i] == (user, nodes[i].data)
  {
    calls := [];
    if func.None? {
      return;
    }
    var cur := head;
    ghost var i := 0;
    while cur != null
      invariant 0 <= i <= |nodes|
      invariant cur == (if i < |nodes| then nodes[i] else null)
      invariant |calls| == i && forall j :: 0 <= j < i ==> calls[j] == (user, nodes[j].data)
      decreases |nodes| - i
    {
      calls := calls + [(user, cur.data)];
      cur := cur.next;
      i := i + 1;
    }
  }

  // ---------------------------------------------------------------------------
  // Operations that add a cell

  /** Links a new cell holding data right after nodes[j]: the step insert and append share. */
  method LinkAfter<D>(ghost head: Node?<D>, ghost nodes: seq<Node<D>>, ghost j: nat, prev: Node<D>, data: D)
      returns (cell: Node<D>, ghost nodes': seq<Node<D>>)
    requires Chain(head, nodes) && j < |nodes| && prev == nodes[j]
    modifies nodes
    ensures fresh(cell) && cell.data == data
    ensures nodes' == nodes[..j + 1] + [cell] + nodes[j + 1..]
    ensures Chain(head, nodes')
  {
    var next := prev.next;
    assert next == (if j + 1 < |nodes| then nodes[j + 1] else null);
    assert next != nodes[0];
    cell := new Node(prev, data, next);
    prev.next := cell;
    if next != null {
      next.previous := cell;
    }
    nodes' := nodes[..j + 1] + [cell] + nodes[j + 1..];
    forall i | 0 <= i < |nodes'| - 1 ensures nodes'[i].next == nodes'[i + 1] {
      if i < j {
        assert nodes'[i] == nodes[i] && nodes'[i + 1] == nodes[i + 1];
      } else if i > j + 1 {
        assert nodes'[i] == nodes[i - 1] && nodes'[i + 1] == nodes[i];
      }
    }
    forall i | 0 < i < |nodes'| ensures nodes'[i].previous == nodes'[i - 1] {
      if i <= j {
        assert nodes'[i] == nodes[i] && nodes'[i - 1] == nodes[i - 1];
      } else if i > j + 2 {
        assert nodes'[i] == nodes[i - 1] && nodes'[i - 1] == nodes[i - 2];
      }
    }
  }

  /** _s_list_append: a cell holding copy(data, user) added after the last cell. */
  method AppendCopy<D, U>(head: Node?<D>, ghost nodes: seq<Node<D>>, copy: (D, U) -> D, data: D, user: U)
      returns (r: Node?<D>, ghost nodes': seq<Node<D>>)
    requires Chain(head, nodes)
    modifies nodes
    ensures Chain(r, nodes')
    ensures |nodes'| == |nodes| + 1 && nodes'[..|nodes|] == nodes && fresh(nodes'[|nodes|])
    ensures Elems(nodes') == Elems(nodes) + [copy(data, user)]
    ensures r == (if head == null then nodes'[0] else head)
  {
    var last := Last(head, nodes);
    if last == null {
      var cell := new Node(null, copy(data, user), null);
      return cell, [cell];
    }
    var cell;
    cell, nodes' := LinkAfter(head, nodes, |nodes| - 1, last, copy(data, user));
    assert nodes'[..|nodes|] == nodes;
    return head, nodes';
  }

  /** _s_list_default_copy: the payload itself. */
  function DefaultCopy<D>(data: D, user: ()): D
  {
    data
  }

  /** s_list_append: data added as the new last payload; a NULL payload leaves the list as it is. */
  method Append<D>(head: Node?<D>, ghost nodes: seq<Node<D>>, data: Option<D>)
      returns (r: Node?<D>, ghost nodes': seq<Node<D>>)
    requires Chain(head, nodes)
    modifies nodes
    ensures Chain(r, nodes')
    ensures data.None? ==> r == head && nodes' == nodes && unchanged(nodes)
    ensures data.Some? ==>
              |nodes'| == |nodes| + 1 && nodes'[..|nodes|] == nodes && fresh(nodes'[|nodes|]) &&
              Elems(nodes') == Elems(nodes) + [data.value] && r == nodes'[0]
  {
    if data.None? {
      return head, nodes;
    }
    r, nodes' := AppendCopy(head, nodes, DefaultCopy, data.value, ());
  }

  /** s_list_prepend: a new first cell holding data; a NULL payload leaves the list as it is. */
  method Prepend<D>(head: Node?<D>, ghost nodes: seq<Node<D>>, data: Option<D>)
      returns (r: Node?<D>, ghost nodes': seq<Node<D>>)
    requires Chain(head, nodes)
    modifies nodes
    ensures Chain(r, nodes')
    ensures data.None? ==> r == head && nodes' == nodes && unchanged(nodes)
    ensures data.Some? ==> nodes' == [r] + nodes && fresh(r) && Elems(nodes') == [data.value] + Elems(nodes)
  {
    if data.None? {
      return head, nodes;
    }
    var cell := new Node(null, data.value, head);
    if head != null {
      head.previous := cell;
    }
    nodes' := [cell] + nodes;
    forall i | 0 < i < |nodes'| ensures nodes'[i].previous == nodes'[i - 1] {
      if i > 1 {
        assert nodes'[i] == nodes[i - 1] && nodes'[i - 1] == nodes[i - 2];
      }
    }
    return cell, nodes';
  }

  /**
   * s_list_insert: the walk stops on the cell at index position (or on the last cell) and
   * the new cell goes AFTER it, so position p >= 1 lands at index p + 1; see InsertIndex.
   */
  method Insert<D>(head: Node?<D>, ghost nodes: seq<Node<D>>, data: Option<D>, position: uint32)
      returns (r: Node?<D>, ghost nodes': seq<Node<D>>)
    requires Chain(head, nodes)
    modifies nodes
    ensures Chain(r, nodes')
    ensures data.None? ==> r == head && nodes' == nodes && unchanged(nodes)
    ensures data.Some? ==>
              var k := InsertIndex(|nodes|, position);
              |nodes'| == |nodes| + 1 && nodes' == InsertedAt(nodes, k, nodes'[k]) && fresh(nodes'[k]) &&
              Elems(nodes') == InsertedAt(Elems(nodes), k, data.value)
  {
    if data.None? {
      return head, nodes;
    }
    if position == 0 || head == null {
      r, nodes' := Prepend(head, nodes, data);
      return;
    }
    var current: uint32 := 0;
    var cur := head;
    while current < position && cur.next != null
      invariant current <= position && current < |nodes| && cur == nodes[current]
      invariant cur.next == (if current + 1 < |nodes| then nodes[current + 1] else null)
      decreases |nodes| - current
    {
      cur := cur.next;
      current := current + 1;
    }
    var cell;
    cell, nodes' := LinkAfter(head, nodes, current, cur, data.value);
    assert nodes' == InsertedAt(nodes, current + 1, cell);
    assert Elems(nodes') == InsertedAt(Elems(nodes), current + 1, data.value);
    return head, nodes';
  }

  /** The insertion the header describes: the new cell at index position, or last past the end. */
  method InsertAtPosition<D>(head: Node?<D>, ghost nodes: seq<Node<D>>, data: Option<D>, position: uint32)
      returns (r: Node?<D>, ghost nodes': seq<Node<D>>)
    requires Chain(head, nodes)
    modifies nodes
    ensures Chain(r, nodes')
    ensures data.None? ==> r == head && nodes' == nodes && unchanged(nodes)
    ensures data.Some? ==>
              var k := IntendedInsertIndex(|nodes|, position);
              |nodes'| == |nodes| + 1 && nodes' == InsertedAt(nodes, k, nodes'[k]) && fresh(nodes'[k]) &&
              Elems(nodes') == InsertedAt(Elems(nodes), k, data.value)
  {
    if data.None? {
      return head, nodes;
    }
    if position == 0 || head == null {
      r, nodes' := Prepend(head, nodes, data);
      return;
    }
    var current: uint32 := 1;
    var cur := head;
    while current < position && cur.next != null
      invariant 1 <= current <= position && current <= |nodes| && cur == nodes[current - 1]
      invariant cur.next == (if current < |nodes| then nodes[current] else null)
      decreases |nodes| - current
    {
      cur := cur.next;
      current := current + 1;
    }
    var cell;
    cell, nodes' := LinkAfter(head, nodes, current - 1, cur, data.value);
    assert nodes' == InsertedAt(nodes, current, cell);
    assert Elems(nodes') == InsertedAt(Elems(nodes), current, data.value);
    return head, nodes';
  }

  /** The payloads of a list with a cell inserted are the old payloads with its payload inserted. */
  lemma ElemsInsertedAt<D>(nodes: seq<Node<D>>, k: nat, cell: Node<D>)
    requires k <= |nodes|
    ensures Elems(InsertedAt(nodes, k, cell)) == InsertedAt(Elems(nodes), k, cell.data)
  {
    var s := InsertedAt(nodes, k, cell);
    var e := InsertedAt(Elems(nodes), k, cell.data);
    assert |Elems(s)| == |e|;
    forall i | 0 <= i < |e| ensures Elems(s)[i] == e[i] {
      if i > k {
        assert s[i] == nodes[i - 1];
      }
    }
  }

  /** The cell before nodes[k] (k > 0) is its back link, in a linked list. */
  lemma PreviousInChain<D>(head: Node?<D>, nodes: seq<Node<D>>, k: nat)
    requires Chain(head, nodes) && k < |nodes|
    ensures nodes[k].previous == (if k == 0 then null else nodes[k - 1])
  {
  }

  /** Links a new cell holding data right before the inner cell sibling == nodes[k]. */
  method LinkBefore<D>(ghost head: Node?<D>, ghost nodes: seq<Node<D>>, ghost k: nat, sibling: Node<D>, data: D)
      returns (cell: Node<D>, ghost nodes': seq<Node<D>>)
    requires Chain(head, nodes) && 0 < k < |nodes| && sibling == nodes[k]
    modifies nodes
    ensures fresh(cell) && nodes' == InsertedAt(nodes, k, cell)
    ensures Elems(nodes') == InsertedAt(Elems(nodes), k, data)
    ensures Chain(head, nodes')
  {
    PreviousInChain(head, nodes, k);
    var prev := sibling.previous;
    cell, nodes' := LinkAfter(head, nodes, k - 1, prev, data);
    assert nodes' == InsertedAt(nodes, k, cell);
    ElemsInsertedAt(nodes, k, cell);
  }

  /**
   * s_list_insert_before as written: a NULL payload, a NULL sibling or a sibling that is
   * not one of the list's cells leaves the list as it is, because the membership check
   * rejects them before the branch meant to append on a NULL sibling (which therefore never
   * runs). Before an inner cell the new cell is linked both ways; before the first cell it
   * becomes the new head, but the old head's back link is left NULL, so the result is
   * forward-linked only.
   */
  method InsertBefore<D>(head: Node?<D>, ghost nodes: seq<Node<D>>, sibling: Node?<D>, data: Option<D>)
      returns (r: Node?<D>, ghost nodes': seq<Node<D>>)
    requires Chain(head, nodes)
    modifies nodes
    ensures data.None? || sibling == null || sibling !in nodes ==> r == head && nodes' == nodes && unchanged(nodes)
    ensures data.Some? && sibling != null && sibling in nodes ==>
              var k := FirstIndex<Node<D>>(nodes, sibling);
              |nodes'| == |nodes| + 1 && nodes' == InsertedAt(nodes, k, nodes'[k]) && fresh(nodes'[k]) &&
              Elems(nodes') == InsertedAt(Elems(nodes), k, data.value) &&
              ForwardLinked(nodes') && r == nodes'[0]
    ensures data.Some? && sibling != null && sibling in nodes && sibling != head ==> Chain(r, nodes')
    ensures data.Some? && sibling != null && sibling == head ==> sibling.previous == null && !Linked(nodes')
    ensures data.Some? && sibling != null && sibling == head ==> unchanged(nodes)
  {
    if data.None? {
      return head, nodes;
    }
    var found := Check(head, nodes, sibling);
    if !found {
      return head, nodes;
    }
    ghost var k := FirstIndex<Node<D>>(nodes, sibling);
    PreviousInChain(head, nodes, k);
    if sibling.previous != null {
      var cell;
      cell, nodes' := LinkBefore(head, nodes, k, sibling, data.value);
      return head, nodes';
    }
    var cell := new Node(null, data.value, sibling);
    nodes' := [cell] + nodes;
    assert nodes' == InsertedAt(nodes, 0, cell);
    ElemsInsertedAt(nodes, 0, cell);
    assert nodes'[1].previous != nodes'[0];
    return cell, nodes';
  }

  /**
   * The insertion the header describes: before sibling, linked both ways (a new first cell
   * when sibling is the head), or at the end when sibling is NULL.
   */
  method InsertBeforeLinked<D>(head: Node?<D>, ghost nodes: seq<Node<D>>, sibling: Node?<D>, data: Option<D>)
      returns (r: Node?<D>, ghost nodes': seq<Node<D>>)
    requires Chain(head, nodes)
    modifies nodes
    ensures Chain(r, nodes')
    ensures data.None? || (sibling != null && sibling !in nodes) ==> r == head && nodes' == nodes && unchanged(nodes)
    ensures data.Some? && sibling == null ==>
              |nodes'| == |nodes| + 1 && nodes'[..|nodes|] == nodes && fresh(nodes'[|nodes|]) &&
              Elems(nodes') == Elems(nodes) + [data.value]
    ensures data.Some? && sibling != null && sibling in nodes ==>
              var k := FirstIndex<Node<D>>(nodes, sibling);
              |nodes'| == |nodes| + 1 && nodes' == InsertedAt(nodes, k, nodes'[k]) && fresh(nodes'[k]) &&
              Elems(nodes') == InsertedAt(Elems(nodes), k, data.value)
  {
    if data.None? {
      return head, nodes;
    }
    if sibling == null {
      r, nodes' := Append(head, nodes, data);
      return;
    }
    var found := Check(head, nodes, sibling);
    if !found {
      return head, nodes;
    }
    ghost var k := FirstIndex<Node<D>>(nodes, sibling);
    PreviousInChain(head, nodes, k);
    if sibling.previous != null {
      var cell;
      cell, nodes' := LinkBefore(head, nodes, k, sibling, data.value);
      return head, nodes';
    }
    r, nodes' := Prepend(head, nodes, data);
    assert nodes' == InsertedAt(nodes, 0, r);
    ElemsInsertedAt(nodes, 0, r);
  }

  // ---------------------------------------------------------------------------
  // Operations that take cells out

  /**
   * s_list_remove_link: unlinks link from the list without releasing it and leaves it as a
   * one-cell list of its own. A NULL list, a NULL link or a link that is not one of the
   * list's cells leaves everything as it is.
   */
  method RemoveLink<D>(head: Node?<D>, ghost nodes: seq<Node<D>>, link: Node?<D>)
      returns (r: Node?<D>, ghost nodes': seq<Node<D>>)
    requires Chain(head, nodes)
    modifies nodes
    ensures Chain(r, nodes')
    ensures link == null || link !in nodes ==> r == head && nodes' == nodes && unchanged(nodes)
    ensures link != null && link in nodes ==>
              var k := FirstIndex<Node<D>>(nodes, link);
              nodes' == nodes[..k] + nodes[k + 1..] && link.next == null && link.previous == null
  {
    if head == null || link == null {
      return head, nodes;
    }
    var found := Check(head, nodes, link);
    if !found {
      return head, nodes;
    }
    ghost var k := FirstIndex<Node<D>>(nodes, link);
    var prev := link.previous;
    var next := link.next;
    assert prev == (if k > 0 then nodes[k - 1] else null);
    assert next == (if k + 1 < |nodes| then nodes[k + 1] else null);
    nodes' := nodes[..k] + nodes[k + 1..];
    r := head;
    if prev != null {
      prev.next := next;
    } else {
      r := next;
    }
    forall i | 0 <= i < |nodes'| - 1 ensures nodes'[i].next == nodes'[i + 1] {
      if i < k - 1 {
        assert nodes'[i] == nodes[i] && nodes'[i + 1] == nodes[i + 1];
      } else if i >= k {
        assert nodes'[i] == nodes[i + 1] && nodes'[i + 1] == nodes[i + 2];
      }
    }
    if next != null {
      next.previous := prev;
    }
    forall i | 0 < i < |nodes'| ensures nodes'[i].previous == nodes'[i - 1] {
      if i < k {
        assert nodes'[i] == nodes[i] && nodes'[i - 1] == nodes[i - 1];
      } else if i > k {
        assert nodes'[i] == nodes[i + 1] && nodes'[i - 1] == nodes[i];
      }
    }
    DistinctRemoveAt(nodes, k);
    link.next := null;
    link.previous := null;
  }

  /** s_list_delete_link: remove_link, then the unlinked cell is released. */
  method DeleteLink<D>(head: Node?<D>, ghost nodes: seq<Node<D>>, link: Node?<D>)
      returns (r: Node?<D>, ghost nodes': seq<Node<D>>)
    requires Chain(head, nodes)
    requires link == null || link in nodes
    modifies nodes
    ensures Chain(r, nodes')
    ensures link == null ==> r == head && nodes' == nodes && unchanged(nodes)
    ensures link != null ==>
              var k := FirstIndex<Node<D>>(nodes, link);
              nodes' == nodes[..k] + nodes[k + 1..] && link.next == null && link.previous == null
  {
    r, nodes' := RemoveLink(head, nodes, link);
    if link != null {
      Detached(link);
    }
    var released := Free(link, if link == null then [] else [link]);
  }

  /**
   * s_list_remove: the first cell holding data is unlinked and released; no such cell,
   * a NULL list or a NULL payload leaves the list as it is.
   */
  method Remove<D(==)>(head: Node?<D>, ghost nodes: seq<Node<D>>, data: Option<D>)
      returns (r: Node?<D>, ghost nodes': seq<Node<D>>)
    requires Chain(head, nodes)
    modifies nodes
    ensures Chain(r, nodes')
    ensures data.None? || data.value !in Elems(nodes) ==> r == head && nodes' == nodes && unchanged(nodes)
    ensures data.Some? && data.value in Elems(nodes) ==>
              var k := FirstIndex(Elems(nodes), data.value);
              nodes' == nodes[..k] + nodes[k + 1..] && nodes[k].next == null && nodes[k].previous == null
    ensures Elems(nodes') == (if data.None? then Elems(nodes) else RemoveFirst(Elems(nodes), data.value))
  {
    if data.None? || head == null {
      return head, nodes;
    }
    var link := Find(head, nodes, data);
    if link != null {
      ghost var k := FirstIndex(Elems(nodes), data.value);
      DistinctFirstIndex(nodes, k);
      ElemsRemoveAt(nodes, k);
      assert RemoveFirst(Elems(nodes), data.value) == Elems(nodes[..k] + nodes[k + 1..]);
    }
    r, nodes' := RemoveLink(head, nodes, link);
    if link != null {
      Detached(link);
    }
    var released := Free(link, if link == null then [] else [link]);
  }

  /**
   * Every cell holding data unlinked and released, the others kept in order. The walk reads
   * each cell's successor before deleting it and keeps the head that deletion returns.
   */
  method RemoveAll<D(==)>(head: Node?<D>, ghost nodes: seq<Node<D>>, data: Option<D>)
      returns (r: Node?<D>, ghost nodes': seq<Node<D>>)
    requires Chain(head, nodes)
    modifies nodes
    ensures Chain(r, nodes')
    ensures data.None? ==> r == head && nodes' == nodes && unchanged(nodes)
    ensures data.Some? ==>
              nodes' == KeepOthers(nodes, data.value) && Elems(nodes') == RemoveEvery(Elems(nodes), data.value)
  {
    if data.None? {
      return head, nodes;
    }
    var d := data.value;
    r := head;
    var cur := head;
    ghost var i := 0;
    ghost var kept: seq<Node<D>> := [];
    assert nodes[..0] == [] && nodes[0..] == nodes;
    while cur != null
      invariant 0 <= i <= |nodes| && cur == (if i < |nodes| then nodes[i] else null)
      invariant kept == KeepOthers(nodes[..i], d) && (forall n :: n in kept ==> n in nodes)
      invariant Chain(r, kept + nodes[i..])
      decreases |nodes| - i
    {
      r, cur, kept := RemoveAllStep(r, cur, d, kept, i, nodes);
      i := i + 1;
    }
    assert kept + nodes[i..] == kept;
    nodes' := kept;
    TakeAll(nodes);
    ElemsKeepOthers(nodes, d);
  }

  /** A cell with no neighbours is a one-cell list of its own. */
  lemma Detached<D>(cell: Node<D>)
    requires cell.next == null && cell.previous == null
    ensures Chain(cell, [cell])
  {
  }

  /** In a list made of kept + rest, the first cell of rest links to the second (or to nothing). */
  lemma NextInChain<D>(r: Node?<D>, kept: seq<Node<D>>, rest: seq<Node<D>>)
    requires Chain(r, kept + rest) && rest != []
    ensures rest[0].next == (if |rest| > 1 then rest[1] else null)
  {
    SplitAt(kept, rest);
    var list := kept + rest;
    assert list[|kept|].next == (if |kept| + 1 < |list| then list[|kept| + 1] else null);
  }

  /**
   * One step of the s_list_remove_all walk over cur, the cell right after the cells kept so
   * far: its successor is read first, then cur is deleted (keeping the head delete_link
   * returns) when it holds data, and kept otherwise.
   */
  method RemoveAllStep<D(==)>(r: Node?<D>, cur: Node<D>, data: D, ghost kept: seq<Node<D>>,
                              ghost i: nat, ghost nodes: seq<Node<D>>)
      returns (r': Node?<D>, next: Node?<D>, ghost kept': seq<Node<D>>)
    requires i < |nodes| && cur == nodes[i]
    requires kept == KeepOthers(nodes[..i], data) && (forall n :: n in kept ==> n in nodes)
    requires Chain(r, kept + nodes[i..])
    modifies nodes
    ensures kept' == KeepOthers(nodes[..i + 1], data) && (forall n :: n in kept' ==> n in nodes)
    ensures Chain(r', kept' + nodes[i + 1..])
    ensures next == (if i + 1 < |nodes| then nodes[i + 1] else null)
  {
    ghost var rest := nodes[i..];
    KeepOthersStep(nodes, i, data);
    SuffixStep(nodes, i);
    NextInChain(r, kept, rest);
    next := cur.next;
    ghost var list := kept + rest;
    SplitAt(kept, rest);
    if cur.data != data {
      ShiftSeam(kept, rest);
      return r, next, kept + [cur];
    }
    DistinctFirstIndex(list, |kept|);
    assert forall j :: 0 <= j < |list| ==> list[j] in nodes;
    ghost var list';
    r', list' := DeleteLink(r, list, cur);
    assert list' == kept + nodes[i + 1..];
    kept' := kept;
  }

  /**
   * s_list_free_full: every cell unlinked and released, func called on each payload in list
   * order. The results are the payloads handed to func and the cells handed to s_list_free,
   * in the order of the calls. A NULL func does nothing. Each step unlinks from the head
   * that the previous removal returned.
   */
  method FreeFull<D, F>(head: Node?<D>, ghost nodes: seq<Node<D>>, func: Option<F>)
      returns (destroyed: seq<D>, ghost released: seq<Node<D>>)
    requires Chain(head, nodes)
    modifies nodes
    ensures func.None? ==> destroyed == [] && released == [] && unchanged(nodes)
    ensures func.Some? ==> destroyed == Elems(nodes) && released == nodes
  {
    destroyed, released := [], [];
    if func.None? || head == null {
      return;
    }
    var list := head;
    var cur := First(head, nodes);
    ghost var i := 0;
    assert nodes[0..] == nodes;
    while cur != null
      invariant 0 <= i <= |nodes| && cur == (if i < |nodes| then nodes[i] else null)
      invariant Chain(list, nodes[i..])
      invariant destroyed == Elems(nodes)[..i] && released == nodes[..i]
      decreases |nodes| - i
    {
      ElemsTakeStep(nodes, i);
      assert nodes[..i + 1] == nodes[..i] + [cur];
      destroyed := destroyed + [cur.data];
      ghost var freed;
      list, cur, freed := FreeFullStep(list, cur, i, nodes);
      released := released + freed;
      i := i + 1;
    }
    assert Elems(nodes)[..i] == Elems(nodes);
    TakeAll(nodes);
  }

  /**
   * One step of the s_list_free_full walk over cur, the first cell left: its successor is
   * read, cur is unlinked from the head the previous step returned, and released.
   */
  method FreeFullStep<D>(list: Node?<D>, cur: Node<D>, ghost i: nat, ghost nodes: seq<Node<D>>)
      returns (list': Node?<D>, next: Node?<D>, ghost freed: seq<Node<D>>)
    requires i < |nodes| && cur == nodes[i]
    requires Chain(list, nodes[i..])
    modifies nodes
    ensures Chain(list', nodes[i + 1..])
    ensures next == (if i + 1 < |nodes| then nodes[i + 1] else null)
    ensures freed == [cur]
  {
    ghost var rest := nodes[i..];
    SuffixStep(nodes, i);
    assert rest[0].next == (if |rest| > 1 then rest[1] else null);
    next := cur.next;
    assert forall j :: 0 <= j < |rest| ==> rest[j] in nodes;
    assert FirstIndex<Node<D>>(rest, cur) == 0;
    assert rest[..0] + rest[1..] == nodes[i + 1..];
    ghost var rest';
    list', rest' := RemoveLink(list, rest, cur);
    Detached(cur);
    freed := Free(cur, [cur]);
    assert Reverse([cur]) == [cur] by {
      assert [cur][1..] == [];
    }
  }

  // ---------------------------------------------------------------------------
  // Operations that build new lists from old ones

  /**
   * s_list_copy: a new list of fresh cells holding the same payloads, in order. A NULL
   * list, or a cell that is not the first of its list, is returned as it is.
   */
  method Copy<D>(head: Node?<D>, ghost nodes: seq<Node<D>>) returns (r: Node?<D>, ghost nodes': seq<Node<D>>)
    requires Segment(head, nodes)
    ensures head == null || head.previous != null ==> r == head && nodes' == nodes
    ensures head != null && head.previous == null ==>
              Chain(r, nodes') && Elems(nodes') == Elems(nodes) && forall n :: n in nodes' ==> fresh(n)
  {
    if head == null || head.previous != null {
      return head, nodes;
    }
    r, nodes' := null, [];
    var cur := head;
    ghost var i := 0;
    while cur != null
      invariant 0 <= i <= |nodes| && cur == (if i < |nodes| then nodes[i] else null)
      invariant Chain(r, nodes') && Elems(nodes') == Elems(nodes)[..i]
      invariant forall j :: 0 <= j < |nodes'| ==> fresh(nodes'[j])
      decreases |nodes| - i
    {
      ElemsTakeStep(nodes, i);
      assert cur.next == (if i + 1 < |nodes| then nodes[i + 1] else null);
      r, nodes' := Append(r, nodes', Some(cur.data));
      cur := cur.next;
      i := i + 1;
    }
    assert Elems(nodes)[..i] == Elems(nodes);
  }

  /**
   * s_list_deep_copy: a new list of fresh cells whose payloads are func applied to each old
   * payload and user, in order. A NULL list, a cell that is not the first of its list or
   * a NULL func gives back list itself.
   */
  method DeepCopy<D, U>(head: Node?<D>, ghost nodes: seq<Node<D>>, func: Option<(D, U) -> D>, user: U)
      returns (r: Node?<D>, ghost nodes': seq<Node<D>>)
    requires Segment(head, nodes)
    ensures head == null || head.previous != null || func.None? ==> r == head && nodes' == nodes
    ensures head != null && head.previous == null && func.Some? ==>
              Chain(r, nodes') && |nodes'| == |nodes| &&
              (forall i :: 0 <= i < |nodes| ==> nodes'[i].data == func.value(nodes[i].data, user)) &&
              forall n :: n in nodes' ==> fresh(n)
  {
    if head == null || head.previous != null || func.None? {
      return head, nodes;
    }
    var copy := func.value;
    r, nodes' := null, [];
    var cur := head;
    ghost var i := 0;
    while cur != null
      invariant 0 <= i <= |nodes| && cur == (if i < |nodes| then nodes[i] else null)
      invariant Chain(r, nodes') && |nodes'| == i
      invariant forall j :: 0 <= j < i ==> nodes'[j].data == copy(nodes[j].data, user)
      invariant forall j :: 0 <= j < |nodes'| ==> fresh(nodes'[j])
      decreases |nodes| - i
    {
      assert cur.next == (if i + 1 < |nodes| then nodes[i + 1] else null);
      ghost var before := nodes';
      r, nodes' := AppendCopy(r, nodes', copy, cur.data, user);
      assert forall j :: 0 <= j < i ==> nodes'[j] == before[j];
      assert Elems(nodes')[i] == copy(cur.data, user);
      cur := cur.next;
      i := i + 1;
    }
  }

  /**
   * s_list_concat: fresh cells holding list2's payloads appended after list1's last cell;
   * list2's own cells are left as they are. Nothing changes unless both arguments are the
   * first cells of their lists; a NULL list1 is returned as it is.
   */
  method Concat<D>(head1: Node?<D>, ghost nodes1: seq<Node<D>>, head2: Node?<D>, ghost nodes2: seq<Node<D>>)
      returns (r: Node?<D>, ghost nodes': seq<Node<D>>)
    requires Segment(head1, nodes1) && Segment(head2, nodes2)
    requires head1 != null && head1.previous == null && head2 != null && head2.previous == null ==>
               forall j :: 0 <= j < |nodes2| ==> nodes2[j] !in nodes1
    modifies nodes1
    ensures head1 == null || head1.previous != null || head2 == null || head2.previous != null ==>
              r == head1 && nodes' == nodes1 && unchanged(nodes1)
    ensures head1 != null && head1.previous == null && head2 != null && head2.previous == null ==>
              r == head1 && Chain(r, nodes') && |nodes'| == |nodes1| + |nodes2| && nodes'[..|nodes1|] == nodes1 &&
              Elems(nodes') == Elems(nodes1) + Elems(nodes2) &&
              forall n :: n in nodes'[|nodes1|..] ==> fresh(n)
  {
    if head1 == null || head1.previous != null || head2 == null || head2.previous != null {
      return head1, nodes1;
    }
    r, nodes' := head1, nodes1;
    var cur := head2;
    ghost var i := 0;
    assert Elems(nodes2)[..0] == [] && Elems(nodes1) + [] == Elems(nodes1);
    while cur != null
      invariant 0 <= i <= |nodes2| && cur == (if i < |nodes2| then nodes2[i] else null)
      invariant Linked(nodes2) && (forall j :: 0 <= j < |nodes2| ==> nodes2[j] !in nodes')
      invariant Chain(head1, nodes') && |nodes'| == |nodes1| + i && nodes'[..|nodes1|] == nodes1
      invariant Elems(nodes') == Elems(nodes1) + Elems(nodes2)[..i]
      invariant forall j :: |nodes1| <= j < |nodes'| ==> fresh(nodes'[j])
      decreases |nodes2| - i
    {
      assert forall j :: 0 <= j < |nodes'| ==> nodes'[j] in nodes1 || fresh(nodes'[j]);
      cur, nodes' := ConcatStep(head1, cur, i, nodes', nodes1, nodes2);
      i := i + 1;
    }
    assert Elems(nodes2)[..i] == Elems(nodes2);
  }

  /**
   * One step of the s_list_concat walk over list2's cell cur: a copy of its payload is
   * appended to list1 (whose head stays head1) and cur's successor is returned.
   */
  method ConcatStep<D>(head1: Node<D>, cur: Node<D>, ghost i: nat, ghost acc: seq<Node<D>>,
                       ghost nodes1: seq<Node<D>>, ghost nodes2: seq<Node<D>>)
      returns (next: Node?<D>, ghost acc': seq<Node<D>>)
    requires i < |nodes2| && cur == nodes2[i]
    requires Linked(nodes2) && (forall j :: 0 <= j < |nodes2| ==> nodes2[j] !in acc)
    requires Chain(head1, acc) && |acc| == |nodes1| + i && acc[..|nodes1|] == nodes1
    requires Elems(acc) == Elems(nodes1) + Elems(nodes2)[..i]
    modifies acc
    ensures next == (if i + 1 < |nodes2| then nodes2[i + 1] else null)
    ensures Linked(nodes2) && (forall j :: 0 <= j < |nodes2| ==> nodes2[j] !in acc')
    ensures Chain(head1, acc') && |acc'| == |nodes1| + i + 1 && acc'[..|nodes1|] == nodes1
    ensures Elems(acc') == Elems(nodes1) + Elems(nodes2)[..i + 1]
    ensures forall j :: 0 <= j < |acc| ==> acc'[j] == acc[j]
    ensures fresh(acc'[|acc|])
  {
    assert cur.next == (if i + 1 < |nodes2| then nodes2[i + 1] else null);
    next := cur.next;
    ElemsTakeStep(nodes2, i);
    var r;
    r, acc' := Append(head1, acc, Some(cur.data));
    assert acc'[..|nodes1|] == acc[..|nodes1|];
    assert forall j :: 0 <= j < |acc| ==> acc'[j] == acc'[..|acc|][j];
  }
}
