/**
 The array list behind SIEVE: nodes in one slice, doubly linked from the oldest (tail) to the newest (head), removed
 slots on a freelist threaded through `next`. `list` is the list oldest first, `spare` the freelist from its head.
 */
module SieveLists {
  import opened PolicyContract

  const NO_LINK := -1

  /** `prev` points toward the newer end, `next` toward the older end or to the next free slot. */
  datatype SieveNode = SieveNode(item: QNode, prev: int, next: int)

  ghost function At(s: seq<int>, i: int): int { if 0 <= i < |s| then s[i] else NO_LINK }

  ghost predicate Chain(nodes: seq<SieveNode>, list: seq<int>) {
    forall i | 0 <= i < |list| ::
      && 0 <= list[i] < |nodes|
      && nodes[list[i]].prev == At(list, i + 1) && nodes[list[i]].next == At(list, i - 1)
  }

  ghost predicate Spares(nodes: seq<SieveNode>, spare: seq<int>) {
    forall i | 0 <= i < |spare| :: 0 <= spare[i] < |nodes| && nodes[spare[i]].next == At(spare, i + 1)
  }

  ghost predicate Once(s: seq<int>) { forall i, j | 0 <= i < j < |s| :: s[i] != s[j] }

  /** Every slot of the slice is in exactly one of the two lists, once. */
  ghost predicate Parts(list: seq<int>, spare: seq<int>, n: nat) {
    && Once(list) && Once(spare)
    && (forall x | x in list :: 0 <= x < n && x !in spare)
    && (forall x | x in spare :: 0 <= x < n)
    && (forall x | 0 <= x < n :: x in list || x in spare)
  }

  ghost predicate Shape(nodes: seq<SieveNode>, free: int, head: int, tail: int, list: seq<int>, spare: seq<int>) {
    && Chain(nodes, list) && Spares(nodes, spare) && Parts(list, spare, |nodes|)
    && head == At(list, |list| - 1) && tail == At(list, 0) && free == At(spare, 0)
  }

  /** The queue nodes the list holds, oldest first. */
  ghost function Held(nodes: seq<SieveNode>, list: seq<int>): (c: seq<QNode>)
    requires forall i | 0 <= i < |list| :: 0 <= list[i] < |nodes|
    ensures |c| == |list|
    ensures forall i | 0 <= i < |list| :: c[i] == nodes[list[i]].item
  {
    seq(|list|, i requires 0 <= i < |list| => nodes[list[i]].item)
  }

  function Removed<T>(s: seq<T>, i: nat): (r: seq<T>)
    requires i < |s|
    ensures |r| == |s| - 1
    ensures forall j | 0 <= j < |r| :: r[j] == s[if j < i then j else j + 1]
  {
    s[..i] + s[i + 1..]
  }

  /** The slice after `cur` is taken out of the list and put on the freelist. */
  function Detached(nodes: seq<SieveNode>, cur: int, free: int): (r: seq<SieveNode>)
    requires 0 <= cur < |nodes|
    requires var node := nodes[cur];
             && (node.prev == NO_LINK || 0 <= node.prev < |nodes|) && (node.next == NO_LINK || 0 <= node.next < |nodes|)
    ensures |r| == |nodes|
  {
    var node := nodes[cur];
    var newer := if node.prev != NO_LINK then nodes[node.prev := nodes[node.prev].(next := node.next)] else nodes;
    var older := if node.next != NO_LINK then newer[node.next := newer[node.next].(prev := node.prev)] else newer;
    older[cur := SieveNode(QNode(0, 0), node.prev, free)]
  }

  lemma OnceRemoved(list: seq<int>, i: nat)
    requires i < |list| && Once(list)
    ensures Once(Removed(list, i)) && list[i] !in Removed(list, i)
    ensures forall x | x in list && x != list[i] :: x in Removed(list, i)
    ensures forall x | x in Removed(list, i) :: x in list
  {
    var r := Removed(list, i);
    forall x | x in list && x != list[i] ensures x in r {
      var j :| 0 <= j < |list| && list[j] == x;
      assert r[if j < i then j else j - 1] == x;
    }
  }

  /** Only the removed node's neighbours change, and only in the link that pointed at it. */
  lemma DetachedAt(nodes: seq<SieveNode>, cur: int, free: int, x: int)
    requires 0 <= cur < |nodes| && 0 <= x < |nodes| && x != cur
    requires var node := nodes[cur];
             && (node.prev == NO_LINK || 0 <= node.prev < |nodes|) && (node.next == NO_LINK || 0 <= node.next < |nodes|)
    ensures var node, nodes' := nodes[cur], Detached(nodes, cur, free);
            && |nodes'| == |nodes| && nodes'[cur].next == free && nodes'[x].item == nodes[x].item
            && nodes'[x].prev == (if x == node.next then node.prev else nodes[x].prev)
            && nodes'[x].next == (if x == node.prev then node.next else nodes[x].next)
  {
  }

  lemma LinksOf(nodes: seq<SieveNode>, list: seq<int>, i: nat)
    requires i < |list| && Chain(nodes, list)
    ensures 0 <= list[i] < |nodes|
    ensures nodes[list[i]].prev == At(list, i + 1) && nodes[list[i]].next == At(list, i - 1)
    ensures nodes[list[i]].prev == NO_LINK || 0 <= nodes[list[i]].prev < |nodes|
    ensures nodes[list[i]].next == NO_LINK || 0 <= nodes[list[i]].next < |nodes|
    ensures nodes[list[i]].prev == NO_LINK <==> i == |list| - 1
    ensures nodes[list[i]].next == NO_LINK <==> i == 0
  {
  }

  /** A neighbour link can be read off the list. */
  lemma AtIs(list: seq<int>, i: int, k: nat)
    requires Once(list) && k < |list|
    ensures (0 <= i < |list| ==> At(list, i) == list[i]) && (!(0 <= i < |list|) ==> At(list, i) == NO_LINK)
    ensures 0 <= i < |list| ==> (list[k] == list[i] <==> k == i)
  {
  }

  lemma LinkRemoved(nodes: seq<SieveNode>, list: seq<int>, i: nat, free: int, j: nat)
    requires i < |list| && Chain(nodes, list) && Once(list) && j < |list| - 1
    ensures 0 <= list[i] < |nodes|
    ensures nodes[list[i]].prev == NO_LINK || 0 <= nodes[list[i]].prev < |nodes|
    ensures nodes[list[i]].next == NO_LINK || 0 <= nodes[list[i]].next < |nodes|
    ensures var r, nodes' := Removed(list, i), Detached(nodes, list[i], free);
            && 0 <= r[j] < |nodes| && |nodes'| == |nodes| && nodes'[r[j]].item == nodes[r[j]].item
            && nodes'[r[j]].prev == At(r, j + 1) && nodes'[r[j]].next == At(r, j - 1)
  {
    hide Chain, Detached;
    var k := if j < i then j else j + 1;
    LinksOf(nodes, list, i);
    LinksOf(nodes, list, k);
    AtIs(list, i, k);
    AtIs(list, i + 1, k);
    AtIs(list, i - 1, k);
    DetachedAt(nodes, list[i], free, list[k]);
  }

  lemma ChainRemoved(nodes: seq<SieveNode>, list: seq<int>, i: nat, free: int)
    requires i < |list| && Chain(nodes, list) && Once(list)
    ensures 0 <= list[i] < |nodes|
    ensures nodes[list[i]].prev == NO_LINK || 0 <= nodes[list[i]].prev < |nodes|
    ensures nodes[list[i]].next == NO_LINK || 0 <= nodes[list[i]].next < |nodes|
    ensures Chain(Detached(nodes, list[i], free), Removed(list, i))
    ensures Held(Detached(nodes, list[i], free), Removed(list, i)) == Removed(Held(nodes, list), i)
  {
    hide Detached, At;
    LinksOf(nodes, list, i);
    var r, nodes' := Removed(list, i), Detached(nodes, list[i], free);
    forall j: nat | j < |r|
      ensures 0 <= r[j] < |nodes| && |nodes'| == |nodes| && nodes'[r[j]].item == nodes[r[j]].item
      ensures nodes'[r[j]].prev == At(r, j + 1) && nodes'[r[j]].next == At(r, j - 1)
    {
      LinkRemoved(nodes, list, i, free, j);
    }
    assert Held(nodes', r) == Removed(Held(nodes, list), i);
  }

  lemma SparesPushed(nodes: seq<SieveNode>, list: seq<int>, spare: seq<int>, i: nat)
    requires i < |list| && Chain(nodes, list) && Spares(nodes, spare) && Parts(list, spare, |nodes|)
    ensures Spares(Detached(nodes, list[i], At(spare, 0)), [list[i]] + spare)
  {
    var cur, s, nodes' := list[i], [list[i]] + spare, Detached(nodes, list[i], At(spare, 0));
    assert forall x | x in spare :: x !in list;
    forall j | 0 <= j < |s| ensures 0 <= s[j] < |nodes'| && nodes'[s[j]].next == At(s, j + 1) {
      if j > 0 {
        assert s[j] == spare[j - 1] && s[j] in spare;
        assert i + 1 < |list| ==> list[i + 1] in list;
        assert i > 0 ==> list[i - 1] in list;
        assert list[i] in list;
      }
    }
  }

  lemma PartsMoved(list: seq<int>, spare: seq<int>, i: nat, n: nat)
    requires i < |list| && Parts(list, spare, n)
    ensures Parts(Removed(list, i), [list[i]] + spare, n)
  {
    OnceRemoved(list, i);
    assert list[i] in list;
  }

  lemma ShapeIs(nodes: seq<SieveNode>, free: int, head: int, tail: int, list: seq<int>, spare: seq<int>)
    ensures Shape(nodes, free, head, tail, list, spare) <==>
              && Chain(nodes, list) && Spares(nodes, spare) && Parts(list, spare, |nodes|)
              && head == At(list, |list| - 1) && tail == At(list, 0) && free == At(spare, 0)
  {
  }

  lemma PartsOnce(list: seq<int>, spare: seq<int>, n: nat)
    requires Parts(list, spare, n)
    ensures Once(list) && Once(spare)
  {
  }

  lemma EndsRemoved(list: seq<int>, spare: seq<int>, i: nat)
    requires i < |list|
    ensures At(Removed(list, i), |list| - 2) == if i == |list| - 1 then At(list, i - 1) else At(list, |list| - 1)
    ensures At(Removed(list, i), 0) == if i == 0 then At(list, 1) else At(list, 0)
    ensures At([list[i]] + spare, 0) == list[i]
  {
  }

  /** Unlinking a node keeps the shape; the list loses exactly that node, and its slot heads the freelist. */
  lemma UnlinkKeepsShape(nodes: seq<SieveNode>, free: int, head: int, tail: int, list: seq<int>, spare: seq<int>,
                         i: nat)
    requires Shape(nodes, free, head, tail, list, spare) && i < |list|
    ensures var cur := list[i];
            && 0 <= cur < |nodes| && nodes[cur].prev == At(list, i + 1) && nodes[cur].next == At(list, i - 1)
            && (nodes[cur].prev == NO_LINK || 0 <= nodes[cur].prev < |nodes|)
            && (nodes[cur].next == NO_LINK || 0 <= nodes[cur].next < |nodes|)
            && Shape(Detached(nodes, cur, free), cur,
                     if nodes[cur].prev != NO_LINK then head else nodes[cur].next,
                     if nodes[cur].next != NO_LINK then tail else nodes[cur].prev,
                     Removed(list, i), [cur] + spare)
            && Held(Detached(nodes, cur, free), Removed(list, i)) == Removed(Held(nodes, list), i)
  {
    hide *;
    ShapeIs(nodes, free, head, tail, list, spare);
    PartsOnce(list, spare, |nodes|);
    LinksOf(nodes, list, i);
    ChainRemoved(nodes, list, i, free);
    SparesPushed(nodes, list, spare, i);
    PartsMoved(list, spare, i, |nodes|);
    EndsRemoved(list, spare, i);
    ShapeIs(Detached(nodes, list[i], free), list[i], At(Removed(list, i), |list| - 2), At(Removed(list, i), 0),
            Removed(list, i), [list[i]] + spare);
  }

  /** The slice after the fresh slot `cur` becomes the newest node. */
  function Attached(nodes: seq<SieveNode>, cur: int, head: int, item: QNode): (r: seq<SieveNode>)
    requires 0 <= cur < |nodes| && (head == NO_LINK || 0 <= head < |nodes|)
    ensures |r| == |nodes|
  {
    var placed := nodes[cur := SieveNode(item, NO_LINK, head)];
    if head != NO_LINK then placed[head := placed[head].(prev := cur)] else placed
  }

  /** Taking the freelist's head keeps what is left of it. */
  lemma SpareTaken(nodes: seq<SieveNode>, list: seq<int>, spare: seq<int>)
    requires spare != [] && Spares(nodes, spare) && Parts(list, spare, |nodes|)
    ensures 0 <= spare[0] < |nodes| && spare[0] !in list && spare[0] !in spare[1..]
    ensures nodes[spare[0]].next == At(spare[1..], 0)
    ensures Spares(nodes, spare[1..]) && Once(spare[1..])
    ensures Parts(list + [spare[0]], spare[1..], |nodes|)
  {
    var rest := spare[1..];
    assert spare[0] in spare && forall x | x in rest :: x in spare;
    assert forall j | 0 <= j < |rest| :: rest[j] == spare[j + 1];
    assert forall x | x in spare :: x == spare[0] || x in rest;
  }

  /** Growing the slice by one gives a slot in neither list. */
  lemma SliceGrown(nodes: seq<SieveNode>, list: seq<int>, blank: SieveNode)
    requires Chain(nodes, list) && Parts(list, [], |nodes|)
    ensures Chain(nodes + [blank], list) && |nodes| !in list
    ensures Parts(list + [|nodes|], [], |nodes| + 1)
    ensures Held(nodes + [blank], list) == Held(nodes, list) && Spares(nodes + [blank], [])
  {
  }

  lemma AttachedAt(nodes: seq<SieveNode>, cur: int, head: int, item: QNode, x: int)
    requires 0 <= cur < |nodes| && (head == NO_LINK || 0 <= head < |nodes|) && 0 <= x < |nodes| && head != cur
    ensures var nodes' := Attached(nodes, cur, head, item);
            && nodes'[x].item == (if x == cur then item else nodes[x].item)
            && nodes'[x].prev == (if x == cur then NO_LINK else if x == head then cur else nodes[x].prev)
            && nodes'[x].next == (if x == cur then head else nodes[x].next)
  {
  }

  lemma LinkAdded(nodes: seq<SieveNode>, list: seq<int>, cur: int, head: int, item: QNode, i: nat)
    requires Chain(nodes, list) && Once(list) && 0 <= cur < |nodes| && cur !in list && head == At(list, |list| - 1)
             && i <= |list|
    ensures head == NO_LINK || 0 <= head < |nodes|
    ensures var list', nodes' := list + [cur], Attached(nodes, cur, head, item);
            && 0 <= list'[i] < |nodes|
            && nodes'[list'[i]].prev == At(list', i + 1) && nodes'[list'[i]].next == At(list', i - 1)
            && nodes'[list'[i]].item == if i < |list| then nodes[list[i]].item else item
  {
    hide Attached;
    AttachedAt(nodes, cur, head, item, (list + [cur])[i]);
    if i < |list| {
      AtIs(list, |list| - 1, i);
    }
  }

  lemma SpareUntouched(nodes: seq<SieveNode>, list: seq<int>, spare: seq<int>, cur: int, head: int, item: QNode)
    requires Spares(nodes, spare) && Parts(list + [cur], spare, |nodes|)
    requires 0 <= cur < |nodes| && cur !in list && head == At(list, |list| - 1)
             && (head == NO_LINK || 0 <= head < |nodes|)
    ensures Spares(Attached(nodes, cur, head, item), spare)
  {
    hide Attached;
    assert (list + [cur])[|list|] == cur && cur in list + [cur];
    forall i | 0 <= i < |spare| ensures Attached(nodes, cur, head, item)[spare[i]].next == nodes[spare[i]].next {
      assert spare[i] in spare && spare[i] != cur;
      AttachedAt(nodes, cur, head, item, spare[i]);
    }
  }

  lemma PartsShed(list: seq<int>, spare: seq<int>, cur: int, n: nat)
    requires Parts(list + [cur], spare, n)
    ensures 0 <= cur < n && cur !in list && Once(list)
  {
    var list' := list + [cur];
    assert list'[|list|] in list';
    forall i, j | 0 <= i < j < |list| ensures list[i] != list[j] {
      assert list'[i] != list'[j];
    }
    forall i | 0 <= i < |list| ensures list[i] != cur {
      assert list'[i] != list'[|list|];
    }
  }

  /** The fresh slot becomes the newest node of the list. */
  lemma AddKeepsShape(nodes: seq<SieveNode>, head: int, tail: int, list: seq<int>, spare: seq<int>, cur: int,
                      item: QNode)
    requires Chain(nodes, list) && Spares(nodes, spare) && Parts(list + [cur], spare, |nodes|)
    requires head == At(list, |list| - 1) && tail == At(list, 0)
    ensures 0 <= cur < |nodes| && (head == NO_LINK || 0 <= head < |nodes|)
    ensures var nodes' := Attached(nodes, cur, head, item);
            && Shape(nodes', At(spare, 0), cur, if head == NO_LINK then cur else tail, list + [cur], spare)
            && Held(nodes', list + [cur]) == Held(nodes, list) + [item]
  {
    hide Attached, Parts, Spares;
    PartsShed(list, spare, cur, |nodes|);
    var list', nodes' := list + [cur], Attached(nodes, cur, head, item);
    forall i: nat | i < |list'|
      ensures 0 <= list'[i] < |nodes|
      ensures nodes'[list'[i]].prev == At(list', i + 1) && nodes'[list'[i]].next == At(list', i - 1)
      ensures nodes'[list'[i]].item == if i < |list| then nodes[list[i]].item else item
    {
      LinkAdded(nodes, list, cur, head, item, i);
    }
    SpareUntouched(nodes, list, spare, cur, head, item);
    assert Chain(nodes', list');
    assert Held(nodes', list') == Held(nodes, list) + [item];
  }
}
