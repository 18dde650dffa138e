/** The chunked FIFO queue of eviction nodes: chunks of 127 nodes, linked, with a head and a tail index. */
module EvictQueues {
  import opened PolicyContract

  const CHUNK: nat := 127

  class QueueChunk {
    const items: array<QNode>
    var next: QueueChunk?

    constructor ()
      ensures fresh(items) && items.Length == CHUNK && next == null
    {
      items := new QNode[CHUNK](_ => QNode(0, 0));
      next := null;
    }
  }

  class EvictQueue {
    var head: QueueChunk?
    var tail: QueueChunk?
    var headIdx: nat
    var tailIdx: nat
    var size: nat
    /** The nodes queued, oldest first. */
    ghost var contents: seq<QNode>
    ghost var chunks: seq<QueueChunk>
    ghost var repr: set<object>

    ghost predicate Chained()
      reads this, repr
    {
      && this in repr
      && (forall i | 0 <= i < |chunks| ::
            chunks[i] in repr && chunks[i].items in repr && chunks[i].items.Length == CHUNK)
      && (forall i, j | 0 <= i < j < |chunks| :: chunks[i] != chunks[j] && chunks[i].items != chunks[j].items)
      && (forall i | 0 <= i < |chunks| - 1 :: chunks[i].next == chunks[i + 1])
      && (chunks != [] ==> chunks[|chunks| - 1].next == null)
    }

    /** Every node in the window of `size` places from `headIdx` on is in its chunk. */
    ghost predicate Stored()
      reads this, repr
      requires Chained()
    {
      forall c, k | 0 <= c < |chunks| && 0 <= k < CHUNK && headIdx <= CHUNK * c + k < headIdx + |contents| ::
        chunks[c].items[k] == contents[CHUNK * c + k - headIdx]
    }

    ghost predicate Ends()
      reads this
    {
      && size == |contents|
      && if chunks == [] then head == null && tail == null && headIdx == 0 && tailIdx == 0 && size == 0
         else
           && head == chunks[0] && tail == chunks[|chunks| - 1]
           && headIdx <= CHUNK && tailIdx <= CHUNK
           && headIdx + size == CHUNK * (|chunks| - 1) + tailIdx
    }

    ghost predicate Valid()
      reads this, repr
      ensures Valid() ==> this in repr
    {
      && Chained() && Stored() && Ends()
      && (chunks != [] ==>
            headIdx < CHUNK && (size == 0 ==> headIdx == 0 && |chunks| == 1) && (|chunks| > 1 ==> tailIdx > 0))
    }

    constructor ()
      ensures Valid() && contents == [] && fresh(repr)
    {
      head, tail, headIdx, tailIdx, size := null, null, 0, 0, 0;
      contents, chunks, repr := [], [], {this};
    }

    /** A place for one more node: a first chunk, a chunk behind a full one, or what the last one has left. */
    method MakeRoom()
      requires Valid()
      modifies repr
      ensures Chained() && Stored() && Ends() && tail != null && headIdx < CHUNK && tailIdx < CHUNK
              && contents == old(contents)
      ensures fresh(repr - old(repr))
    {
      if tail == null {
        var chunk := new QueueChunk();
        head, tail := chunk, chunk;
        chunks, repr := [chunk], repr + {chunk, chunk.items};
      } else if tailIdx == CHUNK {
        Extend();
      }
    }

    /** A new chunk behind a full one. */
    method Extend()
      requires Chained() && Stored() && Ends() && tail != null && tailIdx == CHUNK
      modifies this`tail, this`tailIdx, this`chunks, this`repr, tail`next
      ensures Chained() && Stored() && Ends() && tail != null && tailIdx == 0 && fresh(repr - old(repr))
    {
      var chunk := new QueueChunk();
      ghost var before := chunks;
      tail.next := chunk;
      tail := chunk;
      tailIdx := 0;
      chunks, repr := chunks + [chunk], repr + {chunk, chunk.items};
      forall i | 0 <= i < |chunks| - 1 ensures chunks[i].next == chunks[i + 1] {
        assert i < |before| - 1 ==> before[i].next == before[i + 1];
      }
    }

    method Push(node: QNode)
      requires Valid()
      modifies repr
      ensures Valid() && fresh(repr - old(repr)) && contents == old(contents) + [node]
    {
      MakeRoom();
      ghost var last, at, before := |chunks| - 1, tailIdx, contents;
      label Room:
      tail.items[tailIdx] := node;
      tailIdx := tailIdx + 1;
      size := size + 1;
      contents := contents + [node];
      forall c, k | 0 <= c < |chunks| && 0 <= k < CHUNK && headIdx <= CHUNK * c + k < headIdx + |contents|
        ensures chunks[c].items[k] == contents[CHUNK * c + k - headIdx]
      {
        if c != last || k != at {
          assert CHUNK * c + k < headIdx + |before|;
          assert chunks[c].items[k] == old@Room(chunks[c].items[k]);
        }
      }
    }

    method Len() returns (n: nat)
      requires Valid()
      ensures n == |contents|
    {
      n := size;
    }

    method Peek() returns (node: QNode, ok: bool)
      requires Valid()
      ensures ok <==> contents != []
      ensures ok ==> node == contents[0]
    {
      if size == 0 {
        return QNode(0, 0), false;
      }
      return head.items[headIdx], true;
    }

    method Pop() returns (node: QNode, ok: bool)
      requires Valid()
      modifies repr
      ensures Valid() && fresh(repr - old(repr))
      ensures ok <==> old(contents) != []
      ensures ok ==> node == old(contents)[0] && contents == old(contents)[1..]
      ensures !ok ==> contents == old(contents)
    {
      if size == 0 {
        return QNode(0, 0), false;
      }
      node, ok := head.items[headIdx], true;
      Advance();
      if headIdx == CHUNK {
        Retire();
      }
      if size == 0 && head != null {
        headIdx := 0;
        tailIdx := 0;
      }
    }

    /** The head index moves past the node it was on. */
    method Advance()
      requires Valid() && contents != []
      modifies this`headIdx, this`size, this`contents, head.items
      ensures Chained() && Stored() && Ends() && contents == old(contents)[1..] && chunks != []
      ensures |chunks| > 1 ==> tailIdx > 0
    {
      head.items[headIdx] := QNode(0, 0);
      headIdx := headIdx + 1;
      size := size - 1;
      contents := contents[1..];
    }

    /** A fully consumed chunk is let go as a whole. */
    method Retire()
      requires Chained() && Stored() && Ends() && chunks != [] && headIdx == CHUNK && (|chunks| > 1 ==> tailIdx > 0)
      modifies this`head, this`tail, this`headIdx, this`tailIdx, this`chunks
      ensures Chained() && Stored() && Ends() && contents == old(contents)
      ensures chunks != [] ==> headIdx == 0 && (|chunks| > 1 ==> tailIdx > 0) && (size == 0 ==> |chunks| == 1)
    {
      assert |chunks| > 1 ==> chunks[0].next == chunks[1];
      head := head.next;
      headIdx := 0;
      ghost var was := chunks;
      chunks := chunks[1..];
      if head == null {
        tail := null;
        tailIdx := 0;
      }
      forall c, k | 0 <= c < |chunks| && 0 <= k < CHUNK && headIdx <= CHUNK * c + k < headIdx + |contents|
        ensures chunks[c].items[k] == contents[CHUNK * c + k - headIdx]
      {
        assert chunks[c] == was[c + 1];
        assert CHUNK * (c + 1) + k - CHUNK == CHUNK * c + k;
      }
    }
  }
}
