/** The sidebar, which sees one mesh's live nodes, and the grid and handover picker, which see the whole
    store, put every node on the same card. */
module NodeAgreement {
  import opened Sequences
  import opened CircuitRoots
  import opened NodeGroups
  import opened NodeComponents
  import opened NodeResolution
  import opened NodeActivities
  import opened NodeClusters

  // ----- The handover picker -----

  datatype HandoverTargets = HandoverTargets(sameActivity: seq<Node>, others: seq<Node>)

  predicate Candidate(store: Store, source: Node, n: Node) {
    n.id in store.index && store.index[n.id] == n && n.id != source.id && n.mesh == source.mesh && !n.archived
  }

  /** The candidates a bucket must hold: those on the source's card, or those on another. */
  ghost predicate Bucket(store: Store, groups: seq<Group>, source: Node, same: bool, ids: set<int>, nodes: seq<Node>)
    requires store.Valid()
  {
    && NoDup(nodes)
    && forall n :: n in nodes <==>
         (n.id in ids && Candidate(store, source, n)
          && (ActivityRoot(store, groups, n.id) == ActivityRoot(store, groups, source.id)) == same)
  }

  method Handover(sourceId: int, store: Store, groups: seq<Group>) returns (t: HandoverTargets)
    requires store.Valid()
    ensures sourceId !in store.index ==> t == HandoverTargets([], [])
    ensures sourceId in store.index ==>
      var source, ids := store.index[sourceId], store.index.Keys;
      && Bucket(store, groups, source, true, ids, t.sameActivity) && ByPosition(t.sameActivity)
      && Bucket(store, groups, source, false, ids, t.others) && ByPosition(t.others)
  {
    if sourceId !in store.index {
      return HandoverTargets([], []);
    }
    var source := store.index[sourceId];
    var resolved := ResolveNodeGroups(store, groups);
    var sourceRoot := store.CircuitRootId(sourceId);
    var root := Representative(resolved, sourceRoot, 0);
    var same, others: seq<Node> := [], [];
    var left: set<int> := store.index.Keys;
    while left != {}
      invariant left <= store.index.Keys
      invariant Bucket(store, groups, source, true, store.index.Keys - left, same)
      invariant Bucket(store, groups, source, false, store.index.Keys - left, others)
      decreases left
    {
      var id := AnyOf(left);
      left := left - {id};
      var node := store.index[id];
      if id == sourceId || node.mesh != source.mesh || node.archived {
        continue;
      }
      var nodeRoot := store.CircuitRootId(id);
      if Representative(resolved, nodeRoot, 0) == root {
        same := same + [node];
      } else {
        others := others + [node];
      }
    }
    SortByIsSort(PositionOrder, same);
    SortByIsSort(PositionOrder, others);
    t := HandoverTargets(SortBy(PositionOrder, same), SortBy(PositionOrder, others));
  }

  // ----- One mesh's live nodes -----

  /** The store as the sidebar sees it. */
  function Restrict(store: Store, mesh: int): (r: Store)
    ensures store.Valid() ==> r.Valid()
  {
    Store(
      map id | id in store.index && store.index[id].mesh == mesh && !store.index[id].archived :: store.index[id],
      store.owns)
  }

  predicate LiveIn(store: Store, mesh: int, id: int) {
    store.Live(id) && store.index[id].mesh == mesh
  }

  lemma {:induction false} WalkRestricted(store: Store, mesh: int, start: int, current: Node, seen: set<int>)
    requires store.Valid() && LiveIn(store, mesh, current.id) && store.index[current.id] == current
    ensures Restrict(store, mesh).Walk(start, current, seen) == store.Walk(start, current, seen)
    decreases store.index.Keys - seen
  {
    var parent := store.Parent(current);
    assert Restrict(store, mesh).Parent(current) == parent;
    if current.id !in seen && parent.Some? {
      WalkRestricted(store, mesh, start, parent.value, seen + {current.id});
    }
  }

  /** The walk from a live node never leaves its mesh's live nodes. */
  lemma {:induction false} RootRestricted(store: Store, mesh: int, id: int)
    requires store.Valid()
    ensures LiveIn(store, mesh, id) ==> Restrict(store, mesh).Root(id) == store.Root(id)
    ensures !LiveIn(store, mesh, id) ==> Restrict(store, mesh).Root(id) == id && !Restrict(store, mesh).Live(id)
  {
    if LiveIn(store, mesh, id) {
      WalkRestricted(store, mesh, id, store.index[id], {});
    }
  }

  // ----- Resolving on one mesh -----

  /** The lists of one mesh, in order, among the first `n`. */
  function OnMesh(store: Store, mesh: int, lists: seq<Group>, n: nat): seq<Group>
    requires n <= |lists|
  {
    if n == 0 then []
    else if MeshOf(store, lists[n - 1]) == mesh then OnMesh(store, mesh, lists, n - 1) + [lists[n - 1]]
    else OnMesh(store, mesh, lists, n - 1)
  }

  lemma {:induction false} OnMeshPrefix(store: Store, mesh: int, lists: seq<Group>, more: seq<Group>, n: nat)
    requires n <= |lists|
    ensures OnMesh(store, mesh, lists + more, n) == OnMesh(store, mesh, lists, n)
  {
    if n > 0 {
      OnMeshPrefix(store, mesh, lists, more, n - 1);
    }
  }

  lemma {:induction false} OnMeshSnoc(store: Store, mesh: int, lists: seq<Group>, last: Group)
    ensures OnMesh(store, mesh, lists + [last], |lists| + 1)
         == OnMesh(store, mesh, lists, |lists|) + if MeshOf(store, last) == mesh then [last] else []
  {
    OnMeshPrefix(store, mesh, lists, [last], |lists|);
  }

  lemma {:induction false} OnMeshAppend(store: Store, mesh: int, a: seq<Group>, b: seq<Group>, n: nat)
    requires n <= |b|
    ensures OnMesh(store, mesh, a + b, |a| + n) == OnMesh(store, mesh, a, |a|) + OnMesh(store, mesh, b, n)
  {
    if n == 0 {
      OnMeshPrefix(store, mesh, a, b, |a|);
    } else {
      OnMeshAppend(store, mesh, a, b, n - 1);
    }
  }

  lemma {:induction false} SelectPrefix(lists: seq<Group>, more: seq<Group>, ids: Group, want: bool, n: nat)
    requires n <= |lists|
    ensures Select(lists + more, ids, want, n) == Select(lists, ids, want, n)
  {
    if n > 0 {
      SelectPrefix(lists, more, ids, want, n - 1);
    }
  }

  /** Selecting for an edge of the mesh commutes with keeping that mesh's lists. */
  lemma {:induction false} SelectOnMesh(store: Store, mesh: int, lists: seq<Group>, ids: Group, n: nat)
    requires store.Valid() && RootLists(store, lists) && RootList(store, ids) && MeshOf(store, ids) == mesh
      && n <= |lists|
    ensures var kept := OnMesh(store, mesh, lists, n); var apart := Select(lists, ids, false, n);
            && Select(kept, ids, true, |kept|) == Select(lists, ids, true, n)
            && Select(kept, ids, false, |kept|) == OnMesh(store, mesh, apart, |apart|)
  {
    if n > 0 {
      SelectOnMesh(store, mesh, lists, ids, n - 1);
      var last, kept, apart := lists[n - 1], OnMesh(store, mesh, lists, n - 1), Select(lists, ids, false, n - 1);
      SelectPrefix(kept, [last], ids, true, |kept|);
      SelectPrefix(kept, [last], ids, false, |kept|);
      OnMeshSnoc(store, mesh, apart, last);
    }
  }

  /** An edge of another mesh leaves the mesh's lists alone. */
  lemma {:induction false} SelectOffMesh(store: Store, mesh: int, lists: seq<Group>, ids: Group, n: nat)
    requires store.Valid() && RootLists(store, lists) && RootList(store, ids) && MeshOf(store, ids) != mesh
      && n <= |lists|
    ensures var apart := Select(lists, ids, false, n);
            OnMesh(store, mesh, apart, |apart|) == OnMesh(store, mesh, lists, n)
  {
    if n > 0 {
      SelectOffMesh(store, mesh, lists, ids, n - 1);
      OnMeshSnoc(store, mesh, Select(lists, ids, false, n - 1), lists[n - 1]);
    }
  }

  /** The list an edge is merged into is of the edge's mesh. */
  lemma {:induction false} MergeOnMesh(store: Store, mesh: int, resolved: seq<Group>, ids: Group)
    requires store.Valid() && RootLists(store, resolved) && RootList(store, ids)
    ensures var kept, merged := OnMesh(store, mesh, resolved, |resolved|), Merge(resolved, ids);
            OnMesh(store, mesh, merged, |merged|) == if MeshOf(store, ids) == mesh then Merge(kept, ids) else kept
  {
    var kept, merged := OnMesh(store, mesh, resolved, |resolved|), Merge(resolved, ids);
    var apart := Select(resolved, ids, false, |resolved|);
    var last := merged[|merged| - 1];
    assert merged == apart + [last];
    OnMeshSnoc(store, mesh, apart, last);
    MergedMesh(store, resolved, ids);
    if MeshOf(store, ids) == mesh {
      SelectOnMesh(store, mesh, resolved, ids, |resolved|);
    } else {
      SelectOffMesh(store, mesh, resolved, ids, |resolved|);
    }
  }

  lemma {:induction false} MergedMesh(store: Store, resolved: seq<Group>, ids: Group)
    requires store.Valid() && RootLists(store, resolved) && RootList(store, ids)
    ensures var m := Merge(resolved, ids); MeshOf(store, m[|m| - 1]) == MeshOf(store, ids)
  {
    var m := Merge(resolved, ids);
    MergedList(resolved, ids);
    MergeRootLists(store, resolved, ids);
    assert RootList(store, m[|m| - 1]);
    assert Absorbed(resolved, ids, ids[0]) && ids[0] in m[|m| - 1];
    assert ids[0] in ids;
  }

  lemma {:induction false} MergeOneMore(store: Store, mesh: int, resolved: seq<Group>, kept: seq<Group>, ids: Group)
    requires store.Valid() && RootLists(store, resolved) && RootList(store, ids)
    requires OnMesh(store, mesh, resolved, |resolved|) == Merged(kept, |kept|)
    ensures var merged, now := Merge(resolved, ids), if MeshOf(store, ids) == mesh then kept + [ids] else kept;
            OnMesh(store, mesh, merged, |merged|) == Merged(now, |now|)
  {
    MergeOnMesh(store, mesh, resolved, ids);
    MergedSnoc(kept, ids);
  }

  lemma {:induction false} MergedOnMesh(store: Store, mesh: int, edges: seq<Group>, n: nat)
    requires store.Valid() && RootLists(store, edges) && n <= |edges|
    ensures var merged, kept := Merged(edges, n), OnMesh(store, mesh, edges, n);
            OnMesh(store, mesh, merged, |merged|) == Merged(kept, |kept|)
  {
    if n > 0 {
      MergedOnMesh(store, mesh, edges, n - 1);
      MergedRootLists(store, edges, n - 1);
      MergeOneMore(store, mesh, Merged(edges, n - 1), OnMesh(store, mesh, edges, n - 1), edges[n - 1]);
    }
  }

  lemma {:induction false} PluralOnMesh(store: Store, mesh: int, lists: seq<Group>, n: nat)
    requires n <= |lists|
    ensures var plural, kept := Plural(lists, n), OnMesh(store, mesh, lists, n);
            OnMesh(store, mesh, plural, |plural|) == Plural(kept, |kept|)
  {
    if n > 0 {
      PluralOnMesh(store, mesh, lists, n - 1);
      OnMeshSnoc(store, mesh, Plural(lists, n - 1), lists[n - 1]);
      PluralPrefix(OnMesh(store, mesh, lists, n - 1), [lists[n - 1]], |OnMesh(store, mesh, lists, n - 1)|);
    }
  }

  lemma {:induction false} PluralPrefix(lists: seq<Group>, more: seq<Group>, n: nat)
    requires n <= |lists|
    ensures Plural(lists + more, n) == Plural(lists, n)
  {
    if n > 0 {
      PluralPrefix(lists, more, n - 1);
    }
  }

  /** No entry of the group is an archived node of the mesh that still leads to a live root. */
  ghost predicate EntriesOk(store: Store, mesh: int, group: Group)
    requires store.Valid()
  {
    forall id :: id in group && id in store.index && store.index[id].archived && store.index[id].mesh == mesh ==>
      !store.Live(store.Root(id))
  }

  function OnlyMesh(byMesh: ByMesh, mesh: int): ByMesh {
    if mesh in byMesh.ids then OneMesh(mesh, byMesh.ids[mesh]) else ByMesh([], map[])
  }

  lemma {:induction false} RecordOnlyMesh(byMesh: ByMesh, mesh: int, m: int, id: int)
    requires byMesh.Ordered()
    ensures OnlyMesh(byMesh, mesh).Ordered()
    ensures OnlyMesh(byMesh.Record(m, id), mesh)
         == if m == mesh then OnlyMesh(byMesh, mesh).Record(m, id) else OnlyMesh(byMesh, mesh)
  {
  }

  lemma {:induction false} RootsOnMesh(store: Store, mesh: int, group: Group, n: nat)
    requires store.Valid() && n <= |group| && EntriesOk(store, mesh, group)
    ensures RootsByMesh(Restrict(store, mesh), group, n) == OnlyMesh(RootsByMesh(store, group, n), mesh)
  {
    if n > 0 {
      RootsOnMesh(store, mesh, group, n - 1);
      var id := group[n - 1];
      RootRestricted(store, mesh, id);
      store.RootIsStable(id);
      assert id in group;
      var root := store.Root(id);
      if store.Live(root) {
        RecordOnlyMesh(RootsByMesh(store, group, n - 1), mesh, store.index[root].mesh, root);
      }
    }
  }

  lemma {:induction false} ValuesOnMesh(store: Store, mesh: int, byMesh: ByMesh, group: Group, n: nat)
    requires store.Valid() && byMesh.Ordered() && Sorts(store, byMesh, group, |group|) && n <= |byMesh.order|
    ensures OnMesh(store, mesh, byMesh.Values(n), n)
         == if exists k :: 0 <= k < n && byMesh.order[k] == mesh then [byMesh.ids[mesh]] else []
  {
    if n > 0 {
      var at := byMesh.order[n - 1];
      ValuesOnMesh(store, mesh, byMesh, group, n - 1);
      OnMeshSnoc(store, mesh, byMesh.Values(n - 1), byMesh.ids[at]);
      ValueIsRootList(store, byMesh, group, at);
    }
  }

  lemma {:induction false} OnlyMeshValues(store: Store, mesh: int, byMesh: ByMesh, group: Group)
    requires store.Valid() && byMesh.Ordered() && Sorts(store, byMesh, group, |group|)
    ensures var only := OnlyMesh(byMesh, mesh);
            OnMesh(store, mesh, byMesh.Values(|byMesh.order|), |byMesh.order|) == only.Values(|only.order|)
  {
    ValuesOnMesh(store, mesh, byMesh, group, |byMesh.order|);
    var only := OnlyMesh(byMesh, mesh);
    if mesh in byMesh.ids {
      assert mesh in byMesh.order;
      assert only.Values(1) == only.Values(0) + [byMesh.ids[mesh]];
    }
  }

  lemma {:induction false} GroupOnMesh(store: Store, mesh: int, group: Group)
    requires store.Valid() && EntriesOk(store, mesh, group)
    ensures var full := EdgesOf(store, group);
            OnMesh(store, mesh, full, |full|) == EdgesOf(Restrict(store, mesh), group)
  {
    RootsOnMesh(store, mesh, group, |group|);
    RootsByMeshSorts(store, group, |group|);
    OnlyMeshValues(store, mesh, RootsByMesh(store, group, |group|), group);
  }

  ghost predicate AllEntriesOk(store: Store, mesh: int, groups: seq<Group>)
    requires store.Valid()
  {
    forall k :: 0 <= k < |groups| ==> EntriesOk(store, mesh, groups[k])
  }

  lemma {:induction false} EdgesOnMesh(store: Store, mesh: int, groups: seq<Group>, n: nat)
    requires store.Valid() && n <= |groups| && AllEntriesOk(store, mesh, groups)
    ensures var edges := Edges(store, groups, n);
            OnMesh(store, mesh, edges, |edges|) == Edges(Restrict(store, mesh), groups, n)
  {
    if n > 0 {
      EdgesOnMesh(store, mesh, groups, n - 1);
      GroupOnMesh(store, mesh, groups[n - 1]);
      OnMeshBoth(store, mesh, Edges(store, groups, n - 1), EdgesOf(store, groups[n - 1]));
    }
  }

  lemma {:induction false} OnMeshBoth(store: Store, mesh: int, before: seq<Group>, full: seq<Group>)
    ensures OnMesh(store, mesh, before + full, |before + full|)
         == OnMesh(store, mesh, before, |before|) + OnMesh(store, mesh, full, |full|)
  {
    OnMeshAppend(store, mesh, before, full, |full|);
  }

  /** The sidebar resolves the same groups as the whole store does on its mesh, in the same order. */
  lemma {:induction false} ResolveOnMesh(store: Store, mesh: int, groups: seq<Group>)
    requires store.Valid() && AllEntriesOk(store, mesh, groups)
    ensures var lists := Resolve(store, groups);
            Resolve(Restrict(store, mesh), groups) == OnMesh(store, mesh, lists, |lists|)
  {
    var edges := Edges(store, groups, |groups|);
    EdgesOnMesh(store, mesh, groups, |groups|);
    EdgesAreGroups(store, groups, |groups|);
    MergedOnMesh(store, mesh, edges, |edges|);
    PluralOnMesh(store, mesh, Merged(edges, |edges|), |Merged(edges, |edges|)|);
  }

  lemma {:induction false} OnMeshMembers(store: Store, mesh: int, lists: seq<Group>, n: nat)
    requires n <= |lists|
    ensures forall l :: l in OnMesh(store, mesh, lists, n) <==> l in lists[..n] && MeshOf(store, l) == mesh
  {
    if n > 0 {
      OnMeshMembers(store, mesh, lists, n - 1);
      assert lists[..n] == lists[..n - 1] + [lists[n - 1]];
    }
  }

  lemma {:induction false} RepresentativeOnMesh(store: Store, mesh: int, lists: seq<Group>, kept: seq<Group>, root: int)
    requires store.Valid() && RootLists(store, lists) && Disjoint(lists) && LiveIn(store, mesh, root)
    requires kept == OnMesh(store, mesh, lists, |lists|)
    ensures Representative(kept, root, 0) == Representative(lists, root, 0)
  {
    OnMeshMembers(store, mesh, lists, |lists|);
    assert lists[..|lists|] == lists;
    RepresentativeIs(lists, root, 0);
    RepresentativeIs(kept, root, 0);
    if j :| 0 <= j < |lists| && root in lists[j] {
      assert RootList(store, lists[j]) && lists[j] in lists;
      var k :| 0 <= k < |kept| && kept[k] == lists[j];
      var l :| 0 <= l < |kept| && root in kept[l] && Representative(kept, root, 0) == kept[l][0];
      assert kept[l] in kept;
      var i :| 0 <= i < |lists| && lists[i] == kept[l];
      RepresentativeOfMember(lists, root, i);
    } else {
      forall k | 0 <= k < |kept| ensures root !in kept[k] {
        assert kept[k] in kept;
      }
    }
  }

  /** A live node's card is the same from the whole store and from its own mesh's live nodes. */
  lemma {:induction false} ActivityRootAgrees(store: Store, mesh: int, groups: seq<Group>, id: int)
    requires store.Valid() && AllEntriesOk(store, mesh, groups) && LiveIn(store, mesh, id)
    ensures ActivityRoot(Restrict(store, mesh), groups, id) == ActivityRoot(store, groups, id)
  {
    var lists := Resolve(store, groups);
    RootRestricted(store, mesh, id);
    store.RootIsStable(id);
    ResolveOnMesh(store, mesh, groups);
    ResolveGivesResolved(store, groups);
    RepresentativeOnMesh(store, mesh, lists, Resolve(Restrict(store, mesh), groups), store.Root(id));
  }
}
