/** The remapping a shard's rebuild hands to its policy is one a policy can follow. */
module RebuildRemap {
  import opened SlotTable
  import opened PolicyContract
  import opened QueuePasses
  import ShardRebuild

  lemma CarriedApart<K, V>(s: seq<Slot<K, V>>, s': seq<Slot<K, V>>, remap: map<nat, nat>, u: nat, v: nat)
    requires Unique(s) && ShardRebuild.Carries(s, s', remap)
    requires u in remap && v in remap && remap[u] == remap[v]
    ensures u == v
  {
    assert s[u] == s'[remap[u]] == s[v];
  }

  /** Items that move with `Carries` move to slots in range, no two to the same. */
  lemma CarriedInjects<K, V>(s: seq<Slot<K, V>>, s': seq<Slot<K, V>>, remap: map<nat, nat>, nodes: seq<QNode>)
    requires Unique(s) && Distinct(nodes) && ShardRebuild.Carries(s, s', remap)
    ensures Injects(nodes, remap, |s'|)
  {
    forall i, j | 0 <= i < j < |nodes| && nodes[i].idx in remap && nodes[j].idx in remap
      ensures remap[nodes[i].idx] != remap[nodes[j].idx]
    {
      if remap[nodes[i].idx] == remap[nodes[j].idx] {
        CarriedApart(s, s', remap, nodes[i].idx, nodes[j].idx);
      }
    }
  }
}
