/** What a queue node's cost stands for: the cost of a value once stored under its slot's key. */
module NodeCosts {
  import opened SlotTable
  import opened PolicyContract
  import opened ShardLedger
  import opened ShardState
  import opened ShardRebuild

  /** The node was queued for a value stored under the key its slot holds. An overwrite or a new occupancy of the same
      slot leaves the node as it is. */
  ghost predicate Bought<K, V>(node: QNode, s: seq<Slot<K, V>>, stored: seq<(K, V)>, cost: (K, V) -> nat) {
    && node.idx < |s| && s[node.idx].Keyed()
    && exists i :: 0 <= i < |stored| && stored[i].0 == s[node.idx].key && node.cost == cost(stored[i].0, stored[i].1)
  }

  ghost predicate Priced<K, V>(nodes: seq<QNode>, s: seq<Slot<K, V>>, stored: seq<(K, V)>, cost: (K, V) -> nat) {
    forall i | 0 <= i < |nodes| :: Bought(nodes[i], s, stored, cost)
  }

  lemma NothingPriced<K, V>(s: seq<Slot<K, V>>, stored: seq<(K, V)>, cost: (K, V) -> nat)
    ensures Priced([], s, stored, cost)
  {
  }

  lemma StillBought<K, V>(node: QNode, s: seq<Slot<K, V>>, stored: seq<(K, V)>, s': seq<Slot<K, V>>,
                          stored': seq<(K, V)>, cost: (K, V) -> nat)
    requires Bought(node, s, stored, cost) && stored <= stored'
    requires node.idx < |s'| && s'[node.idx].Keyed() && s'[node.idx].key == s[node.idx].key
    ensures Bought(node, s', stored', cost)
  {
    var i :| 0 <= i < |stored| && stored[i].0 == s[node.idx].key && node.cost == cost(stored[i].0, stored[i].1);
    assert stored'[i] == stored[i];
  }

  /** Slots only lose their items, nodes only leave: the rest stays as it was. */
  lemma PricedKept<K, V>(nodes: seq<QNode>, s: seq<Slot<K, V>>, stored: seq<(K, V)>, nodes': seq<QNode>,
                         s': seq<Slot<K, V>>, stored': seq<(K, V)>, cost: (K, V) -> nat)
    requires Priced(nodes, s, stored, cost) && multiset(nodes') <= multiset(nodes)
    requires OnlyDrops(s, s') && stored <= stored' && Linked(nodes', s')
    ensures Priced(nodes', s', stored', cost)
  {
    hide Bought;
    forall i | 0 <= i < |nodes'| ensures Bought(nodes'[i], s', stored', cost) {
      assert nodes'[i] in multiset(nodes');
      var j :| 0 <= j < |nodes| && nodes[j] == nodes'[i];
      NodeInTable(nodes', s', i);
      StillBought(nodes[j], s, stored, s', stored', cost);
    }
  }

  lemma NodeInTable<K, V>(nodes: seq<QNode>, s: seq<Slot<K, V>>, i: nat)
    requires Linked(nodes, s) && i < |nodes|
    ensures nodes[i].idx < |s| && s[nodes[i].idx].Keyed()
  {
    assert Indices(nodes)[i] in multiset(Indices(nodes));
    assert nodes[i].idx in multiset(KeyedSet(s));
  }

  /** A new item comes with a node of its own cost. */
  lemma PricedAdded<K, V>(nodes: seq<QNode>, s: seq<Slot<K, V>>, stored: seq<(K, V)>, nodes': seq<QNode>, p: nat,
                          x: Slot<K, V>, cost: (K, V) -> nat)
    requires Priced(nodes, s, stored, cost) && p < |s| && !s[p].Keyed() && x.Live?
    requires multiset(nodes') == multiset(nodes) + multiset{QNode(p, cost(x.key, x.value))}
    ensures Priced(nodes', s[p := x], stored + [(x.key, x.value)], cost)
  {
    hide Bought;
    var stored' := stored + [(x.key, x.value)];
    NewBought(p, s, stored, x, cost);
    forall i | 0 <= i < |nodes'| ensures Bought(nodes'[i], s[p := x], stored', cost) {
      assert nodes'[i] in multiset(nodes');
      if nodes'[i] in multiset(nodes) {
        var j :| 0 <= j < |nodes| && nodes[j] == nodes'[i];
        BoughtAt(nodes[j], s, stored, cost);
        StillBought(nodes[j], s, stored, s[p := x], stored', cost);
      }
    }
  }

  lemma BoughtAt<K, V>(node: QNode, s: seq<Slot<K, V>>, stored: seq<(K, V)>, cost: (K, V) -> nat)
    requires Bought(node, s, stored, cost)
    ensures node.idx < |s| && s[node.idx].Keyed()
  {
  }

  lemma NewBought<K, V>(p: nat, s: seq<Slot<K, V>>, stored: seq<(K, V)>, x: Slot<K, V>, cost: (K, V) -> nat)
    requires p < |s| && x.Live?
    ensures Bought(QNode(p, cost(x.key, x.value)), s[p := x], stored + [(x.key, x.value)], cost)
  {
    assert (stored + [(x.key, x.value)])[|stored|] == (x.key, x.value);
  }

  /** A new value in the key's own slot, dead or alive: its node stays. */
  lemma PricedReused<K, V>(nodes: seq<QNode>, s: seq<Slot<K, V>>, stored: seq<(K, V)>, nodes': seq<QNode>, p: nat,
                           x: Slot<K, V>, cost: (K, V) -> nat, item: (K, V))
    requires Priced(nodes, s, stored, cost) && multiset(nodes') == multiset(nodes)
    requires p < |s| && s[p].Keyed() && x.Live? && x.key == s[p].key
    ensures Priced(nodes', s[p := x], stored + [item], cost)
  {
    hide Bought;
    forall i | 0 <= i < |nodes'| ensures Bought(nodes'[i], s[p := x], stored + [item], cost) {
      assert nodes'[i] in multiset(nodes');
      var j :| 0 <= j < |nodes| && nodes[j] == nodes'[i];
      BoughtAt(nodes[j], s, stored, cost);
      StillBought(nodes[j], s, stored, s[p := x], stored + [item], cost);
    }
  }

  /** Nodes that follow their items to a new table take their costs along. */
  lemma PricedFollows<K, V>(nodes: seq<QNode>, s: seq<Slot<K, V>>, nodes': seq<QNode>, s': seq<Slot<K, V>>,
                            stored: seq<(K, V)>, cost: (K, V) -> nat)
    requires Priced(nodes, s, stored, cost) && NodesFollow(s, nodes, s', nodes')
    ensures Priced(nodes', s', stored, cost)
  {
    hide Bought, Carries;
    var remap :| Carries(s, s', remap) && multiset(nodes') == multiset(Moved(nodes, remap));
    forall i | 0 <= i < |nodes'| ensures Bought(nodes'[i], s', stored, cost) {
      assert nodes'[i] in multiset(nodes');
      assert nodes'[i] in Moved(nodes, remap);
      var j := MovedFrom(nodes, remap, nodes'[i]);
      MovedBought(nodes[j], s, s', remap, stored, cost);
    }
  }

  lemma {:induction false} MovedFrom(nodes: seq<QNode>, remap: map<nat, nat>, node: QNode) returns (j: nat)
    requires node in Moved(nodes, remap)
    ensures j < |nodes| && nodes[j].idx in remap && node == QNode(remap[nodes[j].idx], nodes[j].cost)
  {
    var last := |nodes| - 1;
    if node in Moved(nodes[..last], remap) {
      j := MovedFrom(nodes[..last], remap, node);
    } else {
      j := last;
    }
  }

  lemma MovedBought<K, V>(node: QNode, s: seq<Slot<K, V>>, s': seq<Slot<K, V>>, remap: map<nat, nat>,
                          stored: seq<(K, V)>, cost: (K, V) -> nat)
    requires Carries(s, s', remap) && node.idx in remap && Bought(node, s, stored, cost)
    ensures Bought(QNode(remap[node.idx], node.cost), s', stored, cost)
  {
    assert s'[remap[node.idx]] == s[node.idx];
  }
}
