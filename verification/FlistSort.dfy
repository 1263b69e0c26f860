/** The linked list of flist/flist.c and its in-place insertion sort.

    The list starts with a dummy node.  After every insertion the sort goes on from the node behind the
    inserted one, so it walks through part of the sorted prefix again; it ends all the same, because inside
    that prefix every node stops at its predecessor.
 */
module FlistSort {

  /** The comparison, as its users must supply it: of any two elements one is not above the other. */
  ghost predicate Total<T(!new)>(cmp: (T, T) -> int) {
    forall a, b :: cmp(a, b) > 0 ==> cmp(b, a) <= 0
  }

  ghost predicate Transitive<T(!new)>(cmp: (T, T) -> int) {
    forall a, b, c :: cmp(a, b) <= 0 && cmp(b, c) <= 0 ==> cmp(a, c) <= 0
  }

  // ------------------------------------------------------------------ what sorting yields

  /** Put `x` behind the last element that is not above it. */
  function Insert<T>(s: seq<T>, x: T, cmp: (T, T) -> int): (r: seq<T>)
    ensures |r| == |s| + 1
  {
    if s == [] || cmp(s[|s| - 1], x) <= 0 then s + [x]
    else Insert(s[..|s| - 1], x, cmp) + [s[|s| - 1]]
  }

  function Sorted<T>(s: seq<T>, cmp: (T, T) -> int): (r: seq<T>)
    ensures |r| == |s|
  {
    if s == [] then [] else Insert(Sorted(s[..|s| - 1], cmp), s[|s| - 1], cmp)
  }

  ghost predicate Ascending<T>(s: seq<T>, cmp: (T, T) -> int) {
    forall i :: 0 <= i < |s| - 1 ==> cmp(s[i], s[i + 1]) <= 0
  }

  /** The elements of `s` that `cmp` does not tell apart from `x`, in order. */
  function Equals<T>(s: seq<T>, x: T, cmp: (T, T) -> int): seq<T> {
    if s == [] then []
    else
      var last := s[|s| - 1];
      Equals(s[..|s| - 1], x, cmp) + (if cmp(x, last) <= 0 && cmp(last, x) <= 0 then [last] else [])
  }

  lemma {:induction false} InsertAscending<T(!new)>(s: seq<T>, x: T, cmp: (T, T) -> int)
    requires Ascending(s, cmp) && Total(cmp)
    ensures Ascending(Insert(s, x, cmp), cmp)
    ensures s != [] ==> Insert(s, x, cmp)[|s|] == x || Insert(s, x, cmp)[|s|] == s[|s| - 1]
  {
    if s != [] && cmp(s[|s| - 1], x) > 0 {
      InsertAscending(s[..|s| - 1], x, cmp);
    }
  }

  lemma {:induction false} SortedAscending<T(!new)>(s: seq<T>, cmp: (T, T) -> int)
    requires Total(cmp)
    ensures Ascending(Sorted(s, cmp), cmp)
  {
    if s != [] {
      SortedAscending(s[..|s| - 1], cmp);
      InsertAscending(Sorted(s[..|s| - 1], cmp), s[|s| - 1], cmp);
    }
  }

  lemma {:induction false} InsertPermutes<T>(s: seq<T>, x: T, cmp: (T, T) -> int)
    ensures multiset(Insert(s, x, cmp)) == multiset(s) + multiset{x}
  {
    if s != [] && cmp(s[|s| - 1], x) > 0 {
      InsertPermutes(s[..|s| - 1], x, cmp);
      assert s == s[..|s| - 1] + [s[|s| - 1]];
    }
  }

  lemma {:induction false} SortedPermutes<T>(s: seq<T>, cmp: (T, T) -> int)
    ensures multiset(Sorted(s, cmp)) == multiset(s)
  {
    if s != [] {
      SortedPermutes(s[..|s| - 1], cmp);
      InsertPermutes(Sorted(s[..|s| - 1], cmp), s[|s| - 1], cmp);
      assert s == s[..|s| - 1] + [s[|s| - 1]];
    }
  }

  lemma EqualsPush<T>(s: seq<T>, y: T, x: T, cmp: (T, T) -> int)
    ensures Equals(s + [y], x, cmp) == Equals(s, x, cmp) + (if cmp(x, y) <= 0 && cmp(y, x) <= 0 then [y] else [])
  {
    assert (s + [y])[..|s|] == s;
  }

  lemma {:induction false} InsertStable<T(!new)>(s: seq<T>, y: T, x: T, cmp: (T, T) -> int)
    requires Transitive(cmp)
    ensures Equals(Insert(s, y, cmp), x, cmp) == Equals(s + [y], x, cmp)
  {
    EqualsPush(s, y, x, cmp);
    if s != [] && cmp(s[|s| - 1], y) > 0 {
      var last := s[|s| - 1];
      InsertStable(s[..|s| - 1], y, x, cmp);
      EqualsPush(s[..|s| - 1], y, x, cmp);
      EqualsPush(Insert(s[..|s| - 1], y, cmp), last, x, cmp);
    }
  }

  /** Elements that compare equal keep their order. */
  lemma {:induction false} SortedStable<T(!new)>(s: seq<T>, x: T, cmp: (T, T) -> int)
    requires Transitive(cmp)
    ensures Equals(Sorted(s, cmp), x, cmp) == Equals(s, x, cmp)
  {
    if s != [] {
      var front, last := s[..|s| - 1], s[|s| - 1];
      SortedStable(front, x, cmp);
      InsertStable(Sorted(front, cmp), last, x, cmp);
      EqualsPush(Sorted(front, cmp), last, x, cmp);
      EqualsPush(front, last, x, cmp);
      assert front + [last] == s;
    }
  }

  lemma {:induction false} AscendingPairs<T(!new)>(s: seq<T>, i: nat, j: nat, cmp: (T, T) -> int)
    requires Ascending(s, cmp) && Transitive(cmp) && i < j < |s|
    ensures cmp(s[i], s[j]) <= 0
    decreases j
  {
    if i < j - 1 {
      AscendingPairs(s, i, j - 1, cmp);
    }
  }

  /** The result of the sort: a sorted, stable permutation of what went in. */
  lemma SortedIsStableSort<T(!new)>(s: seq<T>, cmp: (T, T) -> int)
    requires Total(cmp) && Transitive(cmp)
    ensures forall i, j :: 0 <= i < j < |s| ==> cmp(Sorted(s, cmp)[i], Sorted(s, cmp)[j]) <= 0
    ensures multiset(Sorted(s, cmp)) == multiset(s)
    ensures forall x :: Equals(Sorted(s, cmp), x, cmp) == Equals(s, x, cmp)
  {
    SortedAscending(s, cmp);
    SortedPermutes(s, cmp);
    forall i, j | 0 <= i < j < |s| ensures cmp(Sorted(s, cmp)[i], Sorted(s, cmp)[j]) <= 0 {
      AscendingPairs(Sorted(s, cmp), i, j, cmp);
    }
    forall x ensures Equals(Sorted(s, cmp), x, cmp) == Equals(s, x, cmp) {
      SortedStable(s, x, cmp);
    }
  }

  /** Where the scan back from the first `m` elements stops: behind the last one not above `x`. */
  function Stop<T>(c: seq<T>, x: T, m: nat, cmp: (T, T) -> int): (j: nat)
    requires m <= |c|
    ensures j <= m && (j > 0 ==> cmp(c[j - 1], x) <= 0)
    ensures forall k :: j <= k < m ==> cmp(c[k], x) > 0
  {
    if m == 0 || cmp(c[m - 1], x) <= 0 then m else Stop(c, x, m - 1, cmp)
  }

  /** Inserting at the place the scan found is inserting. */
  lemma {:induction false} InsertAt<T>(s: seq<T>, x: T, j: nat, cmp: (T, T) -> int)
    requires j <= |s| && (j > 0 ==> cmp(s[j - 1], x) <= 0)
    requires forall m :: j <= m < |s| ==> cmp(s[m], x) > 0
    ensures Insert(s, x, cmp) == s[..j] + [x] + s[j..]
    decreases |s|
  {
    if j == |s| {
      assert s[..j] == s && s[j..] == [];
    } else {
      var front := s[..|s| - 1];
      InsertAt(front, x, j, cmp);
      assert front[..j] == s[..j] && s[j..] == front[j..] + [s[|s| - 1]];
    }
  }

  /** One insertion of the sort, seen on the contents: element `k` goes to place `j`, found by the scan. */
  lemma InsertNext<T>(c: seq<T>, was: seq<T>, k: nat, j: nat, cmp: (T, T) -> int)
    requires j <= k < |was| && c == Sorted(was[..k], cmp) + was[k..]
    requires j > 0 ==> cmp(c[j - 1], c[k]) <= 0
    requires forall m :: j <= m < k ==> cmp(c[m], c[k]) > 0
    ensures Sorted(was[..k + 1], cmp) + was[k + 1..] == c[..j] + [c[k]] + c[j..k] + c[k + 1..]
  {
    var p := Sorted(was[..k], cmp);
    assert was[..k + 1][..k] == was[..k];
    assert c[..k] == p && c[k] == was[k] && c[k + 1..] == was[k + 1..];
    InsertAt(p, c[k], j, cmp);
    assert p[..j] == c[..j] && p[j..] == c[j..k];
  }

  /** In the sorted part every element stops at its predecessor. */
  lemma StopsAtOnce<T(!new)>(c: seq<T>, was: seq<T>, k: nat, i: nat, cmp: (T, T) -> int)
    requires Total(cmp) && 0 < i < k <= |was| && c == Sorted(was[..k], cmp) + was[k..]
    ensures cmp(c[i - 1], c[i]) <= 0
  {
    SortedAscending(was[..k], cmp);
    assert c[i - 1] == Sorted(was[..k], cmp)[i - 1] && c[i] == Sorted(was[..k], cmp)[i];
  }

  /** One round of the sort: the sorted part grows, or the round was a step inside it. */
  lemma NextRound<T(!new)>(c: seq<T>, was: seq<T>, k: nat, i: nat, j: nat, cmp: (T, T) -> int)
    requires Total(cmp) && k <= |was| && c == Sorted(was[..k], cmp) + was[k..]
    requires 1 < i <= k + 1 && i <= |was| && j < i
    requires j > 0 ==> cmp(c[j - 1], c[i - 1]) <= 0
    requires forall m :: j <= m < i - 1 ==> cmp(c[m], c[i - 1]) > 0
    ensures i <= k ==> j == i - 1
    ensures var k' := if i <= k then k else k + 1;
      c[..j] + [c[i - 1]] + c[j..i - 1] + c[i..] == Sorted(was[..k'], cmp) + was[k'..]
  {
    if i <= k {
      StopsAtOnce(c, was, k, i - 1, cmp);
      assert c == c[..j] + [c[i - 1]] + c[j..i - 1] + c[i..];
    } else {
      InsertNext(c, was, k, j, cmp);
    }
  }

  lemma FirstIsSorted<T>(s: seq<T>, cmp: (T, T) -> int)
    requires s != []
    ensures Sorted(s[..1], cmp) + s[1..] == s
  {
    assert s[..1][..0] == [];
    assert Sorted(s[..1][..0], cmp) == [];
    assert Sorted(s[..1], cmp) == [s[0]];
  }

  // ------------------------------------------------------------------ the list

  class LNode<T> {
    const data: T
    var pre: LNode?<T>
    var next: LNode?<T>

    constructor (data: T)
      ensures this.data == data && pre == null && next == null
    {
      this.data := data;
      pre, next := null, null;
    }
  }

  ghost function Datas<T>(ns: seq<LNode<T>>): seq<T> {
    seq(|ns|, i requires 0 <= i < |ns| => ns[i].data)
  }

  /** The nodes of `ns` are linked both ways in this order; the pre link of the first is not looked at. */
  ghost predicate Chain<T>(ns: seq<LNode<T>>)
    reads ns
  {
    && (forall i, j :: 0 <= i < j < |ns| ==> ns[i] != ns[j])
    && (forall i {:trigger ns[i].next} :: 0 <= i < |ns| ==> ns[i].next == if i + 1 < |ns| then ns[i + 1] else null)
    && (forall i {:trigger ns[i].pre} :: 0 < i < |ns| ==> ns[i].pre == ns[i - 1])
  }

  /** Take the `k`-th node out of a chain; its own links stay. */
  method CutOut<T>(node: LNode<T>, ghost ns: seq<LNode<T>>, ghost k: nat)
    requires Chain(ns) && 0 < k < |ns| && ns[k] == node
    modifies ns
    ensures Chain(ns[..k] + ns[k + 1..])
  {
    node.pre.next := node.next;
    if node.next != null {
      node.next.pre := node.pre;
    }
    ghost var rest := ns[..k] + ns[k + 1..];
    forall i | 0 <= i < |rest|
      ensures rest[i].next == if i + 1 < |rest| then rest[i + 1] else null
      ensures i > 0 ==> rest[i].pre == rest[i - 1]
    {
      assert rest[i] == ns[if i < k then i else i + 1];
    }
    assert forall i :: 0 <= i < |rest| ==> rest[i] == ns[if i < k then i else i + 1];
  }

  /** Put a node behind the `j`-th of a chain, which has one after it. */
  method PutBehind<T>(node: LNode<T>, nodeJ: LNode<T>, ghost ns: seq<LNode<T>>, ghost j: nat)
    requires Chain(ns) && j + 1 < |ns| && ns[j] == nodeJ && node !in ns
    modifies ns, node
    ensures Chain(ns[..j + 1] + [node] + ns[j + 1..])
  {
    node.next := nodeJ.next;
    node.pre := nodeJ;
    nodeJ.next := node;
    node.next.pre := node;
    ghost var all := ns[..j + 1] + [node] + ns[j + 1..];
    assert forall i :: 0 <= i < |all| ==> all[i] == if i <= j then ns[i] else if i == j + 1 then node else ns[i - 1];
    forall i | 0 <= i < |all|
      ensures all[i].next == if i + 1 < |all| then all[i + 1] else null
      ensures i > 0 ==> all[i].pre == all[i - 1]
    {
      assert all[i] == if i <= j then ns[i] else if i == j + 1 then node else ns[i - 1];
    }
  }

  /** Moving a node moves its element. */
  lemma MovedDatas<T>(was: seq<LNode<T>>, i: nat, j: nat)
    requires j < i < |was|
    ensures var c := Datas(was[1..]);
      Datas((was[..j + 1] + [was[i]] + was[j + 1..i] + was[i + 1..])[1..]) == c[..j] + [c[i - 1]] + c[j..i - 1] + c[i..]
  {
    var ns, c := was[..j + 1] + [was[i]] + was[j + 1..i] + was[i + 1..], Datas(was[1..]);
    var d := c[..j] + [c[i - 1]] + c[j..i - 1] + c[i..];
    forall m | 0 <= m < |d| ensures Datas(ns[1..])[m] == d[m] {
      var from := if m < j then m else if m == j then i - 1 else if m < i then m - 1 else m;
      assert ns[m + 1] == was[from + 1];
      assert d[m] == c[from];
    }
  }

  /** Taking the `s`-th element out and putting it behind the `j`-th: the ends, and the order. */
  lemma MovedOrder<T>(was: seq<T>, s: nat, j: nat)
    requires j + 1 < s < |was|
    ensures var rest := was[..s] + was[s + 1..];
      var now := rest[..j + 1] + [was[s]] + rest[j + 1..];
      && now == was[..j + 1] + [was[s]] + was[j + 1..s] + was[s + 1..]
      && now[0] == was[0]
      && now[|now| - 1] == was[if s == |was| - 1 then s - 1 else |was| - 1]
  {
    var rest := was[..s] + was[s + 1..];
    assert rest[..j + 1] == was[..j + 1] && rest[j + 1..] == was[j + 1..s] + was[s + 1..];
  }

  class FList<T(!new)> {
    var head: LNode<T>
    var tail: LNode<T>
    ghost var nodes: seq<LNode<T>>  // the dummy first

    ghost predicate Valid()
      reads this, nodes
    {
      && nodes != [] && head == nodes[0] && tail == nodes[|nodes| - 1]
      && Chain(nodes)
    }

    ghost function Contents(): seq<T>
      requires nodes != []
      reads this
    {
      Datas(nodes[1..])
    }

    constructor (dummy: T)
      ensures Valid() && Contents() == []
    {
      var node := new LNode(dummy);
      head, tail, nodes := node, node, [node];
    }

    predicate Empty()
      reads this
    {
      head == tail
    }

    lemma EmptyIsEmpty()
      requires Valid()
      ensures Empty() <==> Contents() == []
      ensures Empty() <==> |nodes| == 1
    {
    }

    method Push(data: T)
      requires Valid()
      modifies this`tail, this`nodes, tail`next
      ensures Valid() && Contents() == old(Contents()) + [data] && head == old(head)
    {
      var node := new LNode(data);
      node.pre := tail;
      tail.next := node;
      tail := node;
      nodes := nodes + [node];
      assert nodes[1..] == old(nodes)[1..] + [node];
      assert Contents() == old(Contents()) + [data];
    }

    /** The node popped becomes the new dummy. */
    method Pop() returns (failed: bool, data: T)
      requires Valid()
      modifies this`head, this`nodes
      ensures Valid() && failed == (old(Contents()) == [])
      ensures failed ==> Contents() == []
      ensures !failed ==> data == old(Contents())[0] && Contents() == old(Contents())[1..]
    {
      if Empty() {
        return true, head.data;
      }
      head := head.next;
      nodes := nodes[1..];
      return false, head.data;
    }

    // ---------------------------------------------------------------- sorting

    /** The node before the `s`-th, and whether that is the last. */
    lemma BeforeNode(s: nat)
      requires Valid() && 0 < s < |nodes|
      ensures nodes[s].pre == nodes[s - 1] && (nodes[s] == tail <==> s == |nodes| - 1)
      ensures forall i :: 0 <= i < |nodes| && i != s ==> nodes[i] != nodes[s]
    {
    }

    /** Take the `s`-th node out and put it behind the `j`-th, further to the front. */
    method MoveBehind(node: LNode<T>, nodeJ: LNode<T>, ghost s: nat, ghost j: nat)
      requires Valid() && j + 1 < s < |nodes| && nodes[s] == node && nodes[j] == nodeJ
      modifies this`tail, this`nodes, nodes
      ensures Valid() && head == old(head)
      ensures nodes == old(nodes)[..j + 1] + [node] + old(nodes)[j + 1..s] + old(nodes)[s + 1..]
    {
      hide Chain;
      BeforeNode(s);
      if node == tail {
        tail := node.pre;
      }
      ghost var was := nodes;
      ghost var rest := was[..s] + was[s + 1..];
      CutOut(node, was, s);
      assert node !in rest && forall i :: 0 <= i < |rest| ==> rest[i] in was;
      PutBehind(node, nodeJ, rest, j);
      MovedOrder(was, s, j);
      nodes := rest[..j + 1] + [node] + rest[j + 1..];
    }

    /** The first `k` elements are sorted, the rest is as it came. */
    ghost predicate Progress(was: seq<T>, k: nat, cmp: (T, T) -> int)
      reads this, nodes
    {
      Valid() && k <= |was| && |nodes| == |was| + 1 && Contents() == Sorted(was[..k], cmp) + was[k..]
    }

    /** The place the scan back from the `i`-th node stops at. */
    ghost function StopFor(i: nat, cmp: (T, T) -> int): (j: nat)
      requires Valid() && 1 < i < |nodes|
      reads this, nodes
      ensures j < i
    {
      Stop(Contents(), Contents()[i - 1], i - 1, cmp)
    }

    /** The scan of the sort: back from `nodeI`, the `i`-th node, to one not above it, or to the dummy. */
    method ScanBack(nodeI: LNode<T>, ghost i: nat, cmp: (T, T) -> int) returns (nodeJ: LNode<T>)
      requires Valid() && 1 < i < |nodes| && nodes[i] == nodeI
      ensures nodeJ == nodes[StopFor(i, cmp)]
    {
      nodeJ := nodeI.pre;
      ghost var j: nat := i - 1;
      while nodeJ != head
        invariant j < i && nodes[j] == nodeJ
        invariant StopFor(i, cmp) == Stop(Contents(), Contents()[i - 1], j, cmp)
        decreases j
      {
        if cmp(nodeJ.data, nodeI.data) <= 0 {
          return;
        }
        nodeJ, j := nodeJ.pre, j - 1;
      }
    }

    /** What follows one scan: the node is moved unless the scan stopped at once. */
    method Place(nodeI: LNode<T>, nodeJ: LNode<T>, ghost i: nat, ghost j: nat) returns (ghost at: nat)
      requires Valid() && j < i && 1 < i < |nodes| && nodes[i] == nodeI && nodes[j] == nodeJ
      modifies this`tail, this`nodes, nodes
      ensures Valid() && head == old(head) && |nodes| == |old(nodes)|
      ensures at == j + 1 && nodes[at] == nodeI
      ensures Contents() == old(Contents()[..j] + [Contents()[i - 1]] + Contents()[j..i - 1] + Contents()[i..])
      ensures forall m :: 0 <= m < |nodes| ==> nodes[m] in old(nodes)
    {
      ghost var was, c := nodes, Contents();
      at := j + 1;
      if nodeJ != nodeI.pre {
        MoveBehind(nodeI, nodeJ, i, j);
        MovedDatas(was, i, j);
      } else {
        assert j == i - 1;
        assert c == c[..j] + [c[i - 1]] + c[j..i - 1] + c[i..];
      }
    }

    /** One round of the sort's loop, from the scan to the placing. */
    method Round(nodeI: LNode<T>, ghost was: seq<T>, ghost i: nat, ghost k: nat, cmp: (T, T) -> int)
      returns (ghost at: nat)
      requires Progress(was, k, cmp) && Total(cmp) && 1 < i <= k + 1 && i < |nodes| && nodes[i] == nodeI
      modifies this`tail, this`nodes, nodes
      ensures Progress(was, if i <= k then k else k + 1, cmp) && head == old(head)
      ensures 0 < at <= i < |nodes| && nodes[at] == nodeI && (i <= k ==> at == i)
      ensures forall m :: 0 <= m < |nodes| ==> nodes[m] in old(nodes)
    {
      hide Sorted, Total, Chain;
      ghost var j := StopFor(i, cmp);
      var nodeJ := ScanBack(nodeI, i, cmp);
      NextRound(Contents(), was, k, i, j, cmp);
      at := Place(nodeI, nodeJ, i, j);
    }

    /** The node behind the `i`-th. */
    lemma NextOf(i: nat)
      requires Valid() && i < |nodes|
      ensures nodes[i].next == if i + 1 < |nodes| then nodes[i + 1] else null
    {
    }

    /** flist_sort. */
    method Sort(cmp: (T, T) -> int) returns (failed: bool)
      requires Valid() && Total(cmp)
      modifies this`tail, this`nodes, nodes
      ensures Valid() && head == old(head)
      ensures failed == (old(Contents()) == [])
      ensures Contents() == Sorted(old(Contents()), cmp)
    {
      hide Sorted, Total, Chain;
      EmptyIsEmpty();
      if Empty() {
        EmptySorted(cmp);
        return true;
      }
      ghost var was := Contents();
      NextOf(0);
      NextOf(1);
      var nodeI := head.next.next;
      ghost var i, k := 2, 1;
      FirstIsSorted(was, cmp);
      while nodeI != null
        invariant 1 <= k && Progress(was, k, cmp)
        invariant 2 <= i <= k + 1
        invariant nodeI == if i < |nodes| then nodes[i] else null
        invariant head == old(head)
        invariant forall m :: 0 <= m < |nodes| ==> nodes[m] in old(nodes)
        decreases |was| - k, |nodes| - i
      {
        ghost var at := Round(nodeI, was, i, k, cmp);
        NextOf(at);
        k := if i <= k then k else k + 1;
        i := at + 1;
        nodeI := nodeI.next;
      }
      assert was[..k] == was && was[k..] == [];
      return false;
    }
  }

  lemma EmptySorted<T>(cmp: (T, T) -> int)
    ensures Sorted([], cmp) == []
  {
  }
}
