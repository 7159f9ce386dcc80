/** Agent nodes, their ownership links, and the walk from a node to the root of its circuit. */
module CircuitRoots {
  import opened Bytes

  datatype Node = Node(id: int, mesh: int, position: int, archived: bool)

  /** The node store: nodes by id, and for each owned node the id of its parent (`None` for a null parent). */
  datatype Store = Store(index: map<int, Node>, owns: map<int, Option<int>>) {
    ghost predicate Valid() {
      forall id :: id in index ==> index[id].id == id
    }

    predicate Live(id: int) {
      id in index && !index[id].archived
    }

    /** The parent the walk steps to: known, of the same mesh and not archived. */
    function Parent(node: Node): (parent: Option<Node>)
      ensures Valid() && parent.Some? ==>
        parent.value.id in index && index[parent.value.id] == parent.value
      ensures parent.Some? ==> parent.value.mesh == node.mesh && !parent.value.archived
    {
      if node.id in owns && owns[node.id].Some? && owns[node.id].value in index then
        var parentId := owns[node.id].value;
        var parent := index[parentId];
        assert Valid() ==> parent.id == parentId;
        if parent.mesh == node.mesh && !parent.archived then Some(parent) else None
      else None
    }

    /** The walk from `start`, now at `current`, with the nodes already seen; a cycle leads back to the start. */
    function Walk(start: int, current: Node, seen: set<int>): int
      requires Valid() && current.id in index && index[current.id] == current
      decreases index.Keys - seen
    {
      if current.id in seen then start
      else
        match Parent(current)
        case None => current.id
        case Some(parent) => Walk(start, parent, seen + {current.id})
    }

    function Root(id: int): int
      requires Valid()
    {
      if id in index then Walk(id, index[id], {}) else id
    }

    method CircuitRootId(nodeId: int) returns (r: int)
      requires Valid()
      ensures r == Root(nodeId)
    {
      if nodeId !in index {
        return nodeId;
      }
      var seen := {};
      var current := index[nodeId];
      while true
        invariant current.id in index && index[current.id] == current
        invariant Walk(nodeId, current, seen) == Root(nodeId)
        decreases index.Keys - seen
      {
        if current.id in seen {
          return nodeId;
        }
        var parent := Parent(current);
        if parent == None {
          return current.id;
        }
        seen := seen + {current.id};
        current := parent.value;
      }
    }

    /** The walk ends at its start, or at a node it cannot leave; it stays in the mesh, and on live nodes
        once it has moved. */
    lemma {:induction false} WalkEnds(start: int, current: Node, seen: set<int>)
      requires Valid() && current.id in index && index[current.id] == current
      requires start in index && index[start].mesh == current.mesh
      ensures var r := Walk(start, current, seen);
              && r in index && index[r].mesh == index[start].mesh
              && (r == start || (Parent(index[r]) == None && (r == current.id || !index[r].archived)))
      decreases index.Keys - seen
    {
      var parent := Parent(current);
      if current.id !in seen && parent.Some? {
        WalkEnds(start, parent.value, seen + {current.id});
      }
    }

    /** A root is a node of the same mesh, live when the node it was reached from is, and its own root,
        even when links form cycles. */
    lemma {:induction false} RootIsStable(id: int)
      requires Valid()
      ensures Root(Root(id)) == Root(id)
      ensures id in index ==> Root(id) in index && index[Root(id)].mesh == index[id].mesh
      ensures Live(id) ==> Live(Root(id))
      ensures id !in index ==> Root(id) == id
    {
      if id in index {
        WalkEnds(id, index[id], {});
      }
    }

    // ----- The root, read off the ownership links -----

    /** `b` is recorded as the parent of `a`, and is a known live node of the mesh of `a`. */
    predicate Owns(b: int, a: int) {
      && a in index && a in owns && owns[a] == Some(b)
      && b in index && index[b].mesh == index[a].mesh && !index[b].archived
    }

    ghost predicate HasOwner(a: int) {
      exists b :: Owns(b, a)
    }

    /** Distinct nodes, each owned by the next. */
    ghost predicate Chain(ids: seq<int>) {
      && ids != [] && ids[0] in index
      && (forall j, k :: 0 <= j < k < |ids| ==> ids[j] != ids[k])
      && forall k :: 0 <= k < |ids| - 1 ==> Owns(ids[k + 1], ids[k])
    }

    function Before(ids: seq<int>, n: nat): set<int>
      requires n <= |ids|
    {
      set k | 0 <= k < n :: ids[k]
    }

    lemma {:induction false} ChainWalk(ids: seq<int>, n: nat)
      requires Valid() && Chain(ids) && n < |ids|
      ensures forall k :: 0 <= k < |ids| ==> ids[k] in index
      ensures Root(ids[0]) == Walk(ids[0], index[ids[n]], Before(ids, n))
    {
      forall k | 0 <= k < |ids| ensures ids[k] in index {
        assert k > 0 ==> Owns(ids[k - 1 + 1], ids[k - 1]);
      }
      if n == 0 {
        assert Before(ids, 0) == {};
      } else {
        ChainWalk(ids, n - 1);
        var seen := Before(ids, n - 1);
        assert ids[n - 1] !in seen && Owns(ids[n], ids[n - 1]);
        assert Before(ids, n) == seen + {ids[n - 1]};
      }
    }

    /** Where a node's chain of owners ends, there is its root; a chain that comes back to one of its nodes
        leaves the node its own root. */
    lemma {:induction false} RootOfChain(ids: seq<int>)
      requires Valid() && Chain(ids)
      ensures var last := ids[|ids| - 1];
              && (!HasOwner(last) ==> Root(ids[0]) == last)
              && ((exists b :: b in ids && Owns(b, last)) ==> Root(ids[0]) == ids[0])
    {
      var n := |ids| - 1;
      var last, seen := ids[n], Before(ids, n);
      ChainWalk(ids, n);
      assert last !in seen;
      if b :| b in ids && Owns(b, last) {
        var k :| 0 <= k < |ids| && ids[k] == b;
        assert b in seen + {last};
        assert Parent(index[last]) == Some(index[b]);
        assert Walk(ids[0], index[last], seen) == Walk(ids[0], index[b], seen + {last}) == ids[0];
      } else if !HasOwner(last) {
        var parent := Parent(index[last]);
        assert parent.Some? ==> Owns(parent.value.id, last);
      }
    }

    /** Every known node has such a chain, so its root is one of the two. */
    lemma {:induction false} ChainGrows(ids: seq<int>) returns (all: seq<int>)
      requires Valid() && Chain(ids)
      ensures Chain(all) && ids <= all
      ensures var last := all[|all| - 1]; !HasOwner(last) || exists b :: b in all && Owns(b, last)
      decreases index.Keys - (set id | id in ids)
    {
      var last := ids[|ids| - 1];
      assert |ids| > 1 ==> Owns(last, ids[|ids| - 2]);
      if b :| b !in ids && Owns(b, last) {
        var more := ids + [b];
        assert (set id | id in more) == (set id | id in ids) + {b};
        all := ChainGrows(more);
      } else {
        all := ids;
      }
    }

    lemma {:induction false} EveryNodeHasChain(id: int) returns (ids: seq<int>)
      requires Valid() && id in index
      ensures Chain(ids) && ids[0] == id
      ensures var last := ids[|ids| - 1];
              if HasOwner(last) then Root(id) == id && (exists b :: b in ids && Owns(b, last)) else Root(id) == last
    {
      ids := ChainGrows([id]);
      RootOfChain(ids);
    }
  }
}
