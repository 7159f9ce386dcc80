/** Sidebar, grid and handover picker agree, and exactly when they agree whatever the hand-made groups. */
module SurfaceAgreement {
  import opened CircuitRoots
  import opened NodeGroups
  import opened NodeComponents
  import opened NodeResolution
  import opened NodeActivities
  import opened NodeClusters
  import opened NodeAgreement

  /** `nodes` lists exactly the mesh's live nodes, each once. */
  ghost predicate LiveNodes(store: Store, mesh: int, nodes: seq<Node>) {
    && DistinctIds(nodes)
    && forall n :: n in nodes <==> LiveIn(store, mesh, n.id) && store.index[n.id] == n
  }

  /** The index the sidebar builds from that list is the mesh's part of the store. */
  lemma {:induction false} SidebarStore(store: Store, mesh: int, nodes: seq<Node>)
    requires store.Valid() && LiveNodes(store, mesh, nodes)
    ensures StoreOf(nodes, store.owns) == Restrict(store, mesh)
  {
    var sidebar, part := StoreOf(nodes, store.owns).index, Restrict(store, mesh).index;
    forall id ensures id in sidebar <==> id in part {
      IndexOfDomain(nodes, |nodes|, id);
      if id in part {
        assert part[id] in nodes;
      }
    }
    forall id | id in sidebar ensures sidebar[id] == part[id] {
      IndexOfDomain(nodes, |nodes|, id);
    }
    assert sidebar == part;
  }

  /** The clusters' roots are exactly the grid's cards for the same nodes. */
  lemma {:induction false} ClustersMatchCards(store: Store, mesh: int, groups: seq<Group>, nodes: seq<Node>,
                                              clusters: seq<Cluster>, id: int)
    requires store.Valid() && AllEntriesOk(store, mesh, groups) && LiveNodes(store, mesh, nodes)
    requires IsClustering(StoreOf(nodes, store.owns), groups, nodes, clusters)
    ensures HasRoot(clusters, id) <==> HasId(GridCards(store, groups, nodes), id)
  {
    SidebarStore(store, mesh, nodes);
    GridCardsAre(store, groups, nodes);
    if k :| 0 <= k < |clusters| && clusters[k].root.id == id {
      var root := clusters[k].root;
      ActivityRootAgrees(store, mesh, groups, root.id);
      var j :| 0 <= j < |nodes| && nodes[j] == root;
      assert ActivityRoot(store, groups, nodes[j].id) == id;
    }
    if k :| 0 <= k < |nodes| && ActivityRoot(store, groups, nodes[k].id) == id {
      assert nodes[k] in nodes;
      ActivityRootAgrees(store, mesh, groups, nodes[k].id);
    }
  }

  /** A node's handover companions are the other members of its cluster. */
  lemma {:induction false} CompanionsMatchCluster(store: Store, mesh: int, groups: seq<Group>, nodes: seq<Node>,
                                                  clusters: seq<Cluster>, source: Node, same: seq<Node>, k: nat,
                                                  n: Node)
    requires store.Valid() && AllEntriesOk(store, mesh, groups) && LiveNodes(store, mesh, nodes)
    requires IsClustering(StoreOf(nodes, store.owns), groups, nodes, clusters)
    requires source in nodes && Bucket(store, groups, source, true, store.index.Keys, same)
    requires k < |clusters| && source in clusters[k].members
    ensures n in clusters[k].members <==> n == source || n in same
  {
    SidebarStore(store, mesh, nodes);
    ActivityRootAgrees(store, mesh, groups, source.id);
    if n in nodes {
      ActivityRootAgrees(store, mesh, groups, n.id);
    }
  }

  // ----- Whatever the groups -----

  /** Every live node of the mesh is on the same card from both views, for every list of groups. */
  ghost predicate AlwaysAgree(store: Store, mesh: int)
    requires store.Valid()
  {
    forall groups: seq<Group>, id: int :: LiveIn(store, mesh, id) ==>
      ActivityRoot(Restrict(store, mesh), groups, id) == ActivityRoot(store, groups, id)
  }

  /** An archived node of the mesh that still leads to a live root. */
  predicate Stray(store: Store, mesh: int, id: int)
    requires store.Valid()
  {
    id in store.index && store.index[id].archived && store.index[id].mesh == mesh && store.Live(store.Root(id))
  }

  /** Each such archived node leads to the one root all the mesh's live nodes share. */
  ghost predicate StraysHarmless(store: Store, mesh: int)
    requires store.Valid()
  {
    forall a: int, x: int :: Stray(store, mesh, a) && LiveIn(store, mesh, x) ==> store.Root(x) == store.Root(a)
  }

  /** With a single live circuit root in the mesh, no group can move a node off it. */
  lemma {:induction false} OneRootOneCard(store: Store, mesh: int, groups: seq<Group>, root: int, id: int)
    requires store.Valid() && LiveIn(store, mesh, id)
    requires forall x :: LiveIn(store, mesh, x) ==> store.Root(x) == root
    ensures ActivityRoot(store, groups, id) == root
  {
    var lists := Resolve(store, groups);
    ResolveGivesResolved(store, groups);
    store.RootIsStable(id);
    RepresentativeIs(lists, root, 0);
    forall k | 0 <= k < |lists| ensures root !in lists[k] {
      if root in lists[k] {
        AloneInList(store, mesh, lists[k], root);
      }
    }
  }

  lemma {:induction false} AloneInList(store: Store, mesh: int, ids: Group, root: int)
    requires store.Valid() && RootList(store, ids) && root in ids && LiveIn(store, mesh, root)
    requires forall x :: LiveIn(store, mesh, x) ==> store.Root(x) == root
    ensures |ids| == 1
  {
    forall k | 0 <= k < |ids| ensures ids[k] == root {
      assert ids[k] in ids;
    }
    assert ids[0] == ids[|ids| - 1];
  }

  lemma {:induction false} HarmlessAgrees(store: Store, mesh: int, groups: seq<Group>, id: int)
    requires store.Valid() && StraysHarmless(store, mesh) && LiveIn(store, mesh, id)
    ensures ActivityRoot(Restrict(store, mesh), groups, id) == ActivityRoot(store, groups, id)
  {
    if a :| Stray(store, mesh, a) {
      var root := store.Root(a);
      OneRootOneCard(store, mesh, groups, root, id);
      forall x | LiveIn(Restrict(store, mesh), mesh, x) ensures Restrict(store, mesh).Root(x) == root {
        RootRestricted(store, mesh, x);
      }
      OneRootOneCard(Restrict(store, mesh), mesh, groups, root, id);
    } else {
      forall k | 0 <= k < |groups| ensures EntriesOk(store, mesh, groups[k]) {
        forall x | x in groups[k] ensures !Stray(store, mesh, x) {
        }
      }
      ActivityRootAgrees(store, mesh, groups, id);
    }
  }

  /** Grouping such an archived node with another live root joins two cards in the store's view only. */
  lemma {:induction false} StrayDisagrees(store: Store, mesh: int, a: int, x: int)
    requires store.Valid() && Stray(store, mesh, a) && LiveIn(store, mesh, x) && store.Root(x) != store.Root(a)
    ensures !AlwaysAgree(store, mesh)
  {
    var r, q := store.Root(a), store.Root(x);
    var group := [a, q];
    store.RootIsStable(a);
    store.RootIsStable(x);
    // The whole store puts both roots on one card.
    assert store.Root(group[0]) == r && store.Root(group[1]) == q;
    assert GroupedBy(store, group, r, q);
    JoinedCards(store, group, r, q);
    // The mesh's live nodes alone give the group a single root.
    var part := Restrict(store, mesh);
    RootRestricted(store, mesh, a);
    RootRestricted(store, mesh, q);
    RootRestricted(store, mesh, r);
    assert part.Root(group[0]) == a && part.Root(group[1]) == q;
    forall y | RootIn(part, group, |group|, y) ensures y == q {
    }
    LoneRootCards(part, group, q, r);
    LoneRootCards(part, group, q, q);
    assert LiveIn(store, mesh, r) && LiveIn(store, mesh, q);
  }

  lemma {:induction false} JoinedCards(store: Store, group: Group, r: int, q: int)
    requires store.Valid() && GroupedBy(store, group, r, q) && r != q && store.Root(r) == r && store.Root(q) == q
    ensures ActivityRoot(store, [group], r) == ActivityRoot(store, [group], q)
  {
    var groups := [group];
    assert GroupedBy(store, groups[0], r, q);
    assert Grouped(store, groups, 1, r, q);
    assert Path(store, groups, [r, q], r, q);
    ResolvedAreComponents(store, groups, r, q);
    ResolveGivesResolved(store, groups);
    var lists := Resolve(store, groups);
    var k :| 0 <= k < |lists| && r in lists[k] && q in lists[k];
    RepresentativeOfMember(lists, r, k);
    RepresentativeOfMember(lists, q, k);
  }

  /** A group with one live root joins nothing. */
  lemma {:induction false} LoneRootCards(store: Store, group: Group, q: int, r: int)
    requires store.Valid() && store.Root(r) == r
    requires forall y :: RootIn(store, group, |group|, y) ==> y == q
    ensures ActivityRoot(store, [group], r) == r
  {
    var groups := [group];
    var lists := Resolve(store, groups);
    ResolveGivesResolved(store, groups);
    RepresentativeIs(lists, r, 0);
    if k :| 0 <= k < |lists| && r in lists[k] {
      var y := if lists[k][0] == r then lists[k][1] else lists[k][0];
      assert y in lists[k] && y != r;
      assert Together(lists, r, y);
      ResolvedAreComponents(store, groups, r, y);
      var ids :| Path(store, groups, ids, r, y);
      NoPath(store, group, q, ids, r, y);
    }
  }

  lemma {:induction false} NoPath(store: Store, group: Group, q: int, ids: Group, x: int, y: int)
    requires store.Valid() && Path(store, [group], ids, x, y)
    requires forall z :: RootIn(store, group, |group|, z) ==> z == q
    ensures x == y == q
  {
    assert Grouped(store, [group], 1, ids[0], ids[1]);
    assert Grouped(store, [group], 1, ids[|ids| - 2], ids[|ids| - 1]);
  }

  /** The two views agree for every list of groups exactly when no archived node leads to a live root
      while the mesh has a live node of another circuit. */
  lemma {:induction false} AgreementIsExact(store: Store, mesh: int)
    requires store.Valid()
    ensures AlwaysAgree(store, mesh) <==> StraysHarmless(store, mesh)
  {
    if StraysHarmless(store, mesh) {
      forall groups: seq<Group>, id: int | LiveIn(store, mesh, id)
        ensures ActivityRoot(Restrict(store, mesh), groups, id) == ActivityRoot(store, groups, id)
      {
        HarmlessAgrees(store, mesh, groups, id);
      }
    } else {
      var a, x :| Stray(store, mesh, a) && LiveIn(store, mesh, x) && store.Root(x) != store.Root(a);
      StrayDisagrees(store, mesh, a, x);
    }
  }
}
