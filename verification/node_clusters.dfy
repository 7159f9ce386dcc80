/** The sidebar's clusters and the handover picker, built from card membership. */
module NodeClusters {
  import opened Bytes
  import opened Sequences
  import opened CircuitRoots
  import opened NodeGroups
  import opened NodeResolution
  import opened NodeActivities

  /** The index of the first `n` nodes; a later node with the same id wins. */
  function IndexOf(nodes: seq<Node>, n: nat): (index: map<int, Node>)
    requires n <= |nodes|
    ensures forall id :: id in index ==> index[id].id == id
  {
    if n == 0 then map[] else IndexOf(nodes, n - 1)[nodes[n - 1].id := nodes[n - 1]]
  }

  function StoreOf(nodes: seq<Node>, owns: map<int, Option<int>>): (store: Store)
    ensures store.Valid()
  {
    Store(IndexOf(nodes, |nodes|), owns)
  }

  /** Of several nodes with one id the last is the one indexed. */
  lemma {:induction false} IndexOfLast(nodes: seq<Node>, n: nat, k: nat)
    requires k < n <= |nodes| && forall j :: k < j < n ==> nodes[j].id != nodes[k].id
    ensures nodes[k].id in IndexOf(nodes, n) && IndexOf(nodes, n)[nodes[k].id] == nodes[k]
    decreases n
  {
    if k < n - 1 {
      IndexOfLast(nodes, n - 1, k);
    }
  }

  lemma {:induction false} IndexOfDomain(nodes: seq<Node>, n: nat, id: int)
    requires n <= |nodes|
    ensures id in IndexOf(nodes, n) <==> exists k :: 0 <= k < n && nodes[k].id == id
    ensures id in IndexOf(nodes, n) ==> IndexOf(nodes, n)[id] in nodes
  {
    if n > 0 {
      IndexOfDomain(nodes, n - 1, id);
    }
  }

  lemma {:induction false} IndexOfDistinct(nodes: seq<Node>, k: nat)
    requires k < |nodes| && DistinctIds(nodes)
    ensures nodes[k].id in IndexOf(nodes, |nodes|) && IndexOf(nodes, |nodes|)[nodes[k].id] == nodes[k]
  {
    IndexOfDomain(nodes, |nodes|, nodes[k].id);
    var j :| 0 <= j < |nodes| && nodes[j] == IndexOf(nodes, |nodes|)[nodes[k].id];
  }

  method IndexAgentNodes(nodes: seq<Node>) returns (index: map<int, Node>)
    ensures index == IndexOf(nodes, |nodes|)
  {
    index := map[];
    for k := 0 to |nodes|
      invariant index == IndexOf(nodes, k)
    {
      index := index[nodes[k].id := nodes[k]];
    }
  }

  // ----- Card membership -----

  /** The live nodes among the first `n` that belong to card `root`, in list order. */
  function Members(store: Store, groups: seq<Group>, nodes: seq<Node>, n: nat, root: int): seq<int>
    requires store.Valid() && n <= |nodes|
  {
    if n == 0 then []
    else
      var before, node := Members(store, groups, nodes, n - 1, root), nodes[n - 1];
      if !node.archived && ActivityRoot(store, groups, node.id) == root then before + [node.id] else before
  }

  function Position(order: Group, x: int, from: nat): int
    requires from <= |order|
    decreases |order| - from
  {
    if from == |order| then -1 else if order[from] == x then from else Position(order, x, from + 1)
  }

  /** A hand-made card's order: by where the member's circuit root stands in the group, the root itself
      before the nodes it owns, then by id. */
  function TabOrder(store: Store, order: Group): (int, int) -> bool
    requires store.Valid()
  {
    (a: int, b: int) =>
      var p, q := Position(order, store.Root(a), 0), Position(order, store.Root(b), 0);
      p < q || (p == q &&
        ((a == store.Root(a) && b != store.Root(b)) || ((a == store.Root(a) <==> b == store.Root(b)) && a <= b)))
  }

  lemma {:induction false} TabOrderIsTotal(store: Store, order: Group)
    requires store.Valid()
    ensures TotalOrder(TabOrder(store, order))
  {
  }

  function FirstWith(lists: seq<Group>, x: int, from: nat): (r: Option<Group>)
    requires from <= |lists|
    ensures r.Some? <==> exists k :: from <= k < |lists| && x in lists[k]
    decreases |lists| - from
  {
    if from == |lists| then None else if x in lists[from] then Some(lists[from]) else FirstWith(lists, x, from + 1)
  }

  /** A card's members, in tab order when it was grouped by hand and in list order otherwise. */
  function CardMembers(store: Store, groups: seq<Group>, nodes: seq<Node>, root: int): seq<int>
    requires store.Valid()
  {
    var ids, order := Members(store, groups, nodes, |nodes|, root), FirstWith(Resolve(store, groups), root, 0);
    if order.Some? then SortBy(TabOrder(store, order.value), ids) else ids
  }

  function Recorded(members: map<int, seq<int>>, root: int): seq<int> {
    if root in members then members[root] else []
  }

  method ActivityMemberIds(nodes: seq<Node>, owns: map<int, Option<int>>, groups: seq<Group>)
    returns (members: map<int, seq<int>>)
    ensures var store := StoreOf(nodes, owns);
            && (forall root :: root in members <==> Members(store, groups, nodes, |nodes|, root) != [])
            && (forall root :: root in members ==> members[root] == CardMembers(store, groups, nodes, root))
  {
    var index := IndexAgentNodes(nodes);
    var store := Store(index, owns);
    var resolved := ResolveNodeGroups(store, groups);
    members := CollectMembers(store, groups, nodes, resolved);
    members := SortMembers(store, groups, nodes, resolved, members);
  }

  /** The first `n` nodes are filed under their cards. */
  ghost predicate Filed(store: Store, groups: seq<Group>, nodes: seq<Node>, n: nat, members: map<int, seq<int>>)
    requires store.Valid() && n <= |nodes|
  {
    && (forall root :: Recorded(members, root) == Members(store, groups, nodes, n, root))
    && (forall root :: root in members ==> members[root] != [])
  }

  /** The filing with one more node. */
  function FileOne(store: Store, groups: seq<Group>, node: Node, members: map<int, seq<int>>): map<int, seq<int>>
    requires store.Valid()
  {
    var root := ActivityRoot(store, groups, node.id);
    if node.archived then members else members[root := Recorded(members, root) + [node.id]]
  }

  lemma {:induction false} FileNext(store: Store, groups: seq<Group>, nodes: seq<Node>, n: nat,
                                    members: map<int, seq<int>>)
    requires store.Valid() && n < |nodes| && Filed(store, groups, nodes, n, members)
    ensures Filed(store, groups, nodes, n + 1, FileOne(store, groups, nodes[n], members))
  {
    var next := FileOne(store, groups, nodes[n], members);
    forall root ensures Recorded(next, root) == Members(store, groups, nodes, n + 1, root) {
      assert Recorded(members, root) == Members(store, groups, nodes, n, root);
    }
    forall root | root in next ensures next[root] != [] {
    }
  }

  /** The first loop: file each live node under its card. */
  method CollectMembers(store: Store, ghost groups: seq<Group>, nodes: seq<Node>, resolved: seq<Group>)
    returns (members: map<int, seq<int>>)
    requires store.Valid() && resolved == Resolve(store, groups)
    ensures forall root :: Recorded(members, root) == Members(store, groups, nodes, |nodes|, root)
    ensures forall root :: root in members ==> members[root] != []
  {
    members := map[];
    for k := 0 to |nodes|
      invariant Filed(store, groups, nodes, k, members)
    {
      FileNext(store, groups, nodes, k, members);
      if nodes[k].archived {
        continue;
      }
      var source := store.CircuitRootId(nodes[k].id);
      var root := Representative(resolved, source, 0);
      members := members[root := Recorded(members, root) + [nodes[k].id]];
    }
  }

  /** The next entry, in an order this model leaves open. */
  method AnyOf<T>(ids: set<T>) returns (id: T)
    requires ids != {}
    ensures id in ids
  {
    id :| id in ids;
  }

  /** The second loop: put hand-made cards in tab order, in whatever order the entries come. */
  method SortMembers(store: Store, ghost groups: seq<Group>, ghost nodes: seq<Node>, resolved: seq<Group>,
                     unsorted: map<int, seq<int>>)
    returns (members: map<int, seq<int>>)
    requires store.Valid() && resolved == Resolve(store, groups)
    requires forall root :: Recorded(unsorted, root) == Members(store, groups, nodes, |nodes|, root)
    ensures members.Keys == unsorted.Keys
    ensures forall root :: root in members ==> members[root] == CardMembers(store, groups, nodes, root)
  {
    members := unsorted;
    var left: set<int> := members.Keys;
    while left != {}
      invariant left <= members.Keys == unsorted.Keys
      invariant forall root :: root in left ==> members[root] == unsorted[root]
      invariant forall root :: root in members && root !in left ==>
        members[root] == CardMembers(store, groups, nodes, root)
      decreases left
    {
      var root := AnyOf(left);
      left := left - {root};
      var order := FirstWith(resolved, root, 0);
      if order.Some? {
        members := members[root := SortBy(TabOrder(store, order.value), members[root])];
      }
    }
  }

  // ----- Clusters -----

  datatype Cluster = Cluster(root: Node, members: seq<Node>, paired: bool, handGrouped: bool)

  predicate ClusterOrder(a: Cluster, b: Cluster) {
    PositionOrder(a.root, b.root)
  }

  /** A card of the sidebar: its root first, then exactly the other live nodes of that activity, each once,
      in the canonical order. */
  ghost predicate IsCluster(store: Store, groups: seq<Group>, nodes: seq<Node>, c: Cluster)
    requires store.Valid()
  {
    && c.root in nodes && !c.root.archived && ActivityRoot(store, groups, c.root.id) == c.root.id
    && c.members != [] && c.members[0] == c.root && DistinctIds(c.members)
    && ByPosition(c.members[1..])
    && (forall n :: n in c.members <==> n in nodes && !n.archived && ActivityRoot(store, groups, n.id) == c.root.id)
    && (c.paired <==> |c.members| > 1)
    && (c.handGrouped <==> exists k :: 0 <= k < |Resolve(store, groups)| && c.root.id in Resolve(store, groups)[k])
  }

  /** The other members' nodes, by the index; ids the index does not know are dropped. */
  function Others(index: map<int, Node>, ids: seq<int>, root: int, n: nat): seq<Node>
    requires n <= |ids|
  {
    if n == 0 then []
    else
      var before := Others(index, ids, root, n - 1);
      if ids[n - 1] != root && ids[n - 1] in index then before + [index[ids[n - 1]]] else before
  }

  /** The live nodes fall into the clusters, and the clusters stand in the order of their roots. */
  ghost predicate IsClustering(store: Store, groups: seq<Group>, nodes: seq<Node>, clusters: seq<Cluster>)
    requires store.Valid()
  {
    && (forall k :: 0 <= k < |clusters| ==> IsCluster(store, groups, nodes, clusters[k]))
    && (forall n :: n in nodes && !n.archived ==> HasRoot(clusters, ActivityRoot(store, groups, n.id)))
    && (forall j, k :: 0 <= j < k < |clusters| ==> clusters[j].root.id != clusters[k].root.id)
  }

  function RootNodes(clusters: seq<Cluster>): seq<Node> {
    seq(|clusters|, k requires 0 <= k < |clusters| => clusters[k].root)
  }

  predicate HasRoot(clusters: seq<Cluster>, root: int) {
    exists k :: 0 <= k < |clusters| && clusters[k].root.id == root
  }

  /** Clusters for exactly the filed roots that are no longer left to do, each once. */
  ghost predicate Built(store: Store, groups: seq<Group>, nodes: seq<Node>, members: map<int, seq<int>>, left: set<int>,
                        clusters: seq<Cluster>)
    requires store.Valid()
  {
    && (forall k :: 0 <= k < |clusters| ==> IsCluster(store, groups, nodes, clusters[k]))
    && (forall root :: HasRoot(clusters, root) <==> root in members && root !in left)
    && (forall j, k :: 0 <= j < k < |clusters| ==> clusters[j].root.id != clusters[k].root.id)
  }

  method ClusterActivityNodes(nodes: seq<Node>, owns: map<int, Option<int>>, manualGroups: seq<Group>)
    returns (clusters: seq<Cluster>)
    requires DistinctIds(nodes)
    ensures IsClustering(StoreOf(nodes, owns), manualGroups, nodes, clusters)
    ensures Sorted(ClusterOrder, clusters) && ByPosition(RootNodes(clusters))
  {
    if |nodes| == 0 {
      return [];
    }
    var index := IndexAgentNodes(nodes);
    var store := Store(index, owns);
    var resolved := ResolveNodeGroups(store, manualGroups);
    var membersByRoot := ActivityMemberIds(nodes, owns, manualGroups);
    clusters := [];
    var left: set<int> := membersByRoot.Keys;
    while left != {}
      invariant left <= membersByRoot.Keys
      invariant Built(store, manualGroups, nodes, membersByRoot, left, clusters)
      decreases left
    {
      var rootId := AnyOf(left);
      var c := BuildCluster(nodes, store, manualGroups, resolved, membersByRoot, rootId);
      BuiltOneMore(store, manualGroups, nodes, membersByRoot, left, clusters, c);
      left := left - {rootId};
      clusters := clusters + [c];
    }
    BuiltAll(store, manualGroups, nodes, membersByRoot, clusters);
    clusters := SortBy(ClusterOrder, clusters);
  }

  lemma {:induction false} BuiltOneMore(store: Store, groups: seq<Group>, nodes: seq<Node>,
                                        members: map<int, seq<int>>, left: set<int>,
                                        clusters: seq<Cluster>, c: Cluster)
    requires store.Valid() && Built(store, groups, nodes, members, left, clusters)
    requires IsCluster(store, groups, nodes, c) && c.root.id in left && left <= members.Keys
    ensures Built(store, groups, nodes, members, left - {c.root.id}, clusters + [c])
  {
    HasRootSnoc(clusters, c);
    assert !HasRoot(clusters, c.root.id);
    forall k | 0 <= k < |clusters| ensures clusters[k].root.id != c.root.id {
      assert HasRoot(clusters, clusters[k].root.id);
    }
  }

  lemma {:induction false} BuiltAll(store: Store, groups: seq<Group>, nodes: seq<Node>, members: map<int, seq<int>>,
                                    clusters: seq<Cluster>)
    requires store.Valid() && DistinctIds(nodes) && Built(store, groups, nodes, members, {}, clusters)
    requires forall root :: root in members <==> Members(store, groups, nodes, |nodes|, root) != []
    ensures IsClustering(store, groups, nodes, SortBy(ClusterOrder, clusters))
    ensures Sorted(ClusterOrder, SortBy(ClusterOrder, clusters))
  {
    EveryNodeFiled(store, groups, nodes);
    SortedClustering(store, groups, nodes, clusters);
  }

  /** One entry of the membership: its root is known, so no entry is ever skipped. */
  method BuildCluster(nodes: seq<Node>, store: Store, ghost groups: seq<Group>, resolved: seq<Group>,
                      membersByRoot: map<int, seq<int>>, rootId: int)
    returns (c: Cluster)
    requires DistinctIds(nodes) && store == StoreOf(nodes, store.owns) && resolved == Resolve(store, groups)
    requires rootId in membersByRoot && membersByRoot[rootId] == CardMembers(store, groups, nodes, rootId)
    requires Members(store, groups, nodes, |nodes|, rootId) != []
    ensures IsCluster(store, groups, nodes, c) && c.root.id == rootId
  {
    KnownRoot(store, groups, nodes, rootId);
    var root := store.index[rootId];
    var ids := membersByRoot[rootId];
    var rest := SortBy(PositionOrder, Others(store.index, ids, rootId, |ids|));
    var members := [root] + rest;
    c := Cluster(root, members, |members| > 1, FirstWith(resolved, root.id, 0).Some?);
    BuiltCluster(store, groups, nodes, rootId, c);
  }

  lemma {:induction false} EveryNodeFiled(store: Store, groups: seq<Group>, nodes: seq<Node>)
    requires store.Valid() && DistinctIds(nodes)
    ensures forall n :: n in nodes && !n.archived ==>
      Members(store, groups, nodes, |nodes|, ActivityRoot(store, groups, n.id)) != []
  {
    forall n | n in nodes && !n.archived
      ensures Members(store, groups, nodes, |nodes|, ActivityRoot(store, groups, n.id)) != []
    {
      var root := ActivityRoot(store, groups, n.id);
      MembersAre(store, groups, nodes, |nodes|, root);
      var k :| 0 <= k < |nodes| && nodes[k] == n;
      assert n.id in Members(store, groups, nodes, |nodes|, root);
    }
  }

  lemma {:induction false} HasRootSnoc(clusters: seq<Cluster>, c: Cluster)
    ensures forall root :: HasRoot(clusters + [c], root) <==> HasRoot(clusters, root) || root == c.root.id
  {
    var all := clusters + [c];
    forall root ensures HasRoot(all, root) <==> HasRoot(clusters, root) || root == c.root.id {
      assert all[|clusters|] == c;
      if k :| 0 <= k < |clusters| && clusters[k].root.id == root {
        assert all[k].root.id == root;
      }
    }
  }

  lemma {:induction false} MembersAre(store: Store, groups: seq<Group>, nodes: seq<Node>, n: nat, root: int)
    requires store.Valid() && n <= |nodes| && DistinctIds(nodes)
    ensures NoDup(Members(store, groups, nodes, n, root))
    ensures forall id :: id in Members(store, groups, nodes, n, root) <==>
      exists k :: 0 <= k < n && nodes[k].id == id && !nodes[k].archived && ActivityRoot(store, groups, id) == root
  {
    forall id ensures id in Members(store, groups, nodes, n, root) <==>
      exists k :: 0 <= k < n && nodes[k].id == id && !nodes[k].archived && ActivityRoot(store, groups, id) == root
    {
      MemberIs(store, groups, nodes, n, root, id);
    }
    MembersOnce(store, groups, nodes, n, root);
  }

  lemma {:induction false} MemberIs(store: Store, groups: seq<Group>, nodes: seq<Node>, n: nat, root: int, id: int)
    requires store.Valid() && n <= |nodes|
    ensures id in Members(store, groups, nodes, n, root) <==>
      exists k :: 0 <= k < n && nodes[k].id == id && !nodes[k].archived && ActivityRoot(store, groups, id) == root
  {
    if n > 0 {
      MemberIs(store, groups, nodes, n - 1, root, id);
    }
  }

  /** A card's members are filed in list order, and stay so unless it was grouped by hand. */
  lemma {:induction false} MembersInOrder(store: Store, groups: seq<Group>, nodes: seq<Node>, n: nat, root: int,
                                          i: nat, j: nat)
    requires store.Valid() && n <= |nodes| && i < j < |Members(store, groups, nodes, n, root)|
    ensures var ids := Members(store, groups, nodes, n, root);
            exists p, q :: 0 <= p < q < n && nodes[p].id == ids[i] && nodes[q].id == ids[j]
    ensures n == |nodes| && FirstWith(Resolve(store, groups), root, 0) == None ==>
              CardMembers(store, groups, nodes, root) == Members(store, groups, nodes, n, root)
    decreases n
  {
    var before := Members(store, groups, nodes, n - 1, root);
    if j < |before| {
      MembersInOrder(store, groups, nodes, n - 1, root, i, j);
    } else {
      MemberIs(store, groups, nodes, n - 1, root, before[i]);
      assert before[i] in before;
      var p :| 0 <= p < n - 1 && nodes[p].id == before[i];
      assert nodes[n - 1].id == Members(store, groups, nodes, n, root)[j];
    }
  }

  lemma {:induction false} MembersOnce(store: Store, groups: seq<Group>, nodes: seq<Node>, n: nat, root: int)
    requires store.Valid() && n <= |nodes| && DistinctIds(nodes)
    ensures NoDup(Members(store, groups, nodes, n, root))
  {
    if n > 0 {
      MembersOnce(store, groups, nodes, n - 1, root);
      MemberIs(store, groups, nodes, n - 1, root, nodes[n - 1].id);
    }
  }

  /** A card's members, whatever their order: each live node of the activity, once. */
  lemma {:induction false} CardMembersAre(store: Store, groups: seq<Group>, nodes: seq<Node>, root: int)
    requires store.Valid() && DistinctIds(nodes)
    ensures NoDup(CardMembers(store, groups, nodes, root))
    ensures forall id :: id in CardMembers(store, groups, nodes, root) <==>
      exists k :: 0 <= k < |nodes| && nodes[k].id == id && !nodes[k].archived && ActivityRoot(store, groups, id) == root
  {
    MembersAre(store, groups, nodes, |nodes|, root);
    var order := FirstWith(Resolve(store, groups), root, 0);
    if order.Some? {
      TabOrderIsTotal(store, order.value);
      SortByIsSort(TabOrder(store, order.value), Members(store, groups, nodes, |nodes|, root));
    }
  }

  /** A member of a hand-made card has its circuit root on the card's group. */
  lemma {:induction false} CircuitOnGroup(store: Store, groups: seq<Group>, root: int, id: int)
    requires store.Valid() && ActivityRoot(store, groups, id) == root
    requires FirstWith(Resolve(store, groups), root, 0).Some?
    ensures var order := FirstWith(Resolve(store, groups), root, 0).value;
            order != [] && order[0] == root && store.Root(id) in order && store.Root(root) == root
  {
    var lists := Resolve(store, groups);
    ResolveGivesResolved(store, groups);
    FirstWithIs(lists, root, 0);
    RepresentativeIs(lists, store.Root(id), 0);
    var k :| 0 <= k < |lists| && root in lists[k] && FirstWith(lists, root, 0) == Some(lists[k]);
    assert RootList(store, lists[k]);
    if j :| 0 <= j < |lists| && store.Root(id) in lists[j] && root == lists[j][0] {
      assert RootList(store, lists[j]) && root in lists[j];
      assert j < k ==> Overlaps(lists[j], lists[k]);
      assert k < j ==> Overlaps(lists[k], lists[j]);
    }
  }

  lemma {:induction false} FirstWithIs(lists: seq<Group>, x: int, from: nat)
    requires from <= |lists| && FirstWith(lists, x, from).Some?
    ensures exists k :: from <= k < |lists| && x in lists[k] && FirstWith(lists, x, from) == Some(lists[k])
    decreases |lists| - from
  {
    if x !in lists[from] {
      FirstWithIs(lists, x, from + 1);
    }
  }

  lemma {:induction false} PositionFinds(order: Group, x: int, from: nat)
    requires from <= |order| && x in order[from..]
    ensures from <= Position(order, x, from) < |order| && order[Position(order, x, from)] == x
    decreases |order| - from
  {
    if order[from] != x {
      assert order[from..] == [order[from]] + order[from + 1..];
      PositionFinds(order, x, from + 1);
    }
  }

  /** The tabs of a hand-made card stand circuit by circuit in the group's order, each circuit's root before
      the nodes it owns and those by id. */
  lemma {:induction false} TabsByCircuit(store: Store, groups: seq<Group>, nodes: seq<Node>, root: int, i: nat, j: nat)
    requires store.Valid() && DistinctIds(nodes) && FirstWith(Resolve(store, groups), root, 0).Some?
    requires i < j < |CardMembers(store, groups, nodes, root)|
    ensures var order, ids := FirstWith(Resolve(store, groups), root, 0).value, CardMembers(store, groups, nodes, root);
            var p, q := store.Root(ids[i]), store.Root(ids[j]);
            if p == q then ids[j] != q && (ids[i] == p || ids[i] < ids[j])
            else Position(order, p, 0) < Position(order, q, 0)
  {
    var order, ids := FirstWith(Resolve(store, groups), root, 0).value, CardMembers(store, groups, nodes, root);
    CardMembersAre(store, groups, nodes, root);
    TabsSorted(store, groups, nodes, root);
    assert ids[i] in ids && ids[j] in ids;
    CircuitOnGroup(store, groups, root, ids[i]);
    CircuitOnGroup(store, groups, root, ids[j]);
    assert order[0..] == order;
    PositionFinds(order, store.Root(ids[i]), 0);
    PositionFinds(order, store.Root(ids[j]), 0);
    assert TabOrder(store, order)(ids[i], ids[j]);
  }

  lemma {:induction false} TabsSorted(store: Store, groups: seq<Group>, nodes: seq<Node>, root: int)
    requires store.Valid() && FirstWith(Resolve(store, groups), root, 0).Some?
    ensures var order := FirstWith(Resolve(store, groups), root, 0).value;
            Sorted(TabOrder(store, order), CardMembers(store, groups, nodes, root))
  {
    var order := FirstWith(Resolve(store, groups), root, 0).value;
    TabOrderIsTotal(store, order);
    SortByIsSort(TabOrder(store, order), Members(store, groups, nodes, |nodes|, root));
  }

  /** The first tab of a hand-made card is the node that stands for it. */
  lemma {:induction false} RootTabIsFirst(store: Store, groups: seq<Group>, nodes: seq<Node>, root: int)
    requires DistinctIds(nodes) && store == StoreOf(nodes, store.owns)
    requires Members(store, groups, nodes, |nodes|, root) != [] && FirstWith(Resolve(store, groups), root, 0).Some?
    ensures CardMembers(store, groups, nodes, root)[..1] == [root]
  {
    var order, ids := FirstWith(Resolve(store, groups), root, 0).value, CardMembers(store, groups, nodes, root);
    KnownRoot(store, groups, nodes, root);
    CardMembersAre(store, groups, nodes, root);
    var at :| 0 <= at < |nodes| && nodes[at] == store.index[root];
    assert root in ids;
    var k :| 0 <= k < |ids| && ids[k] == root;
    CircuitOnGroup(store, groups, root, root);
    if k > 0 {
      TabsByCircuit(store, groups, nodes, root, 0, k);
      assert ids[0] in ids;
      CircuitOnGroup(store, groups, root, ids[0]);
      PositionFinds(order, store.Root(ids[0]), 0);
    }
  }

  lemma {:induction false} OthersAre(index: map<int, Node>, ids: seq<int>, root: int, n: nat)
    requires n <= |ids| && NoDup(ids) && forall id :: id in index ==> index[id].id == id
    ensures var others := Others(index, ids, root, n);
            && DistinctIds(others) && NoDup(others)
            && forall m :: m in others <==>
              exists k :: 0 <= k < n && ids[k] != root && ids[k] in index && index[ids[k]] == m
  {
    if n > 0 {
      OthersAre(index, ids, root, n - 1);
      var before, id := Others(index, ids, root, n - 1), ids[n - 1];
      forall k | 0 <= k < |before| && id in index ensures before[k].id != id {
        assert before[k] in before;
      }
    }
  }

  /** Every card's root is a live node of the list and belongs to its own card. */
  lemma {:induction false} KnownRoot(store: Store, groups: seq<Group>, nodes: seq<Node>, root: int)
    requires DistinctIds(nodes) && store == StoreOf(nodes, store.owns)
    requires Members(store, groups, nodes, |nodes|, root) != []
    ensures root in store.index && store.index[root] in nodes && !store.index[root].archived
    ensures ActivityRoot(store, groups, root) == root
  {
    MembersAre(store, groups, nodes, |nodes|, root);
    var first := Members(store, groups, nodes, |nodes|, root)[0];
    assert first in Members(store, groups, nodes, |nodes|, root);
    var k :| 0 <= k < |nodes| && nodes[k].id == first && !nodes[k].archived;
    IndexOfDistinct(nodes, k);
    ActivityRootIsStable(store, groups, first);
    IndexOfDomain(nodes, |nodes|, root);
  }

  /** The nodes of the list, by id. */
  lemma {:induction false} NodeOfId(store: Store, nodes: seq<Node>, n: Node)
    requires DistinctIds(nodes) && store == StoreOf(nodes, store.owns)
    ensures n in nodes <==> n.id in store.index && store.index[n.id] == n
  {
    IndexOfDomain(nodes, |nodes|, n.id);
    if n in nodes {
      var k :| 0 <= k < |nodes| && nodes[k] == n;
      IndexOfDistinct(nodes, k);
    }
  }

  lemma {:induction false} BuiltMembers(store: Store, groups: seq<Group>, nodes: seq<Node>, root: int, m: Node)
    requires DistinctIds(nodes) && store == StoreOf(nodes, store.owns)
    requires root in store.index && store.index[root] in nodes && !store.index[root].archived
    requires ActivityRoot(store, groups, root) == root
    ensures var ids := CardMembers(store, groups, nodes, root);
            (m == store.index[root] || m in Others(store.index, ids, root, |ids|)) <==>
            m in nodes && !m.archived && ActivityRoot(store, groups, m.id) == root
  {
    var ids := CardMembers(store, groups, nodes, root);
    CardMembersAre(store, groups, nodes, root);
    OthersAre(store.index, ids, root, |ids|);
    NodeOfId(store, nodes, m);
    if m in nodes && !m.archived && ActivityRoot(store, groups, m.id) == root {
      var k :| 0 <= k < |nodes| && nodes[k] == m;
      assert m.id in ids;
    }
    if m in Others(store.index, ids, root, |ids|) {
      var k :| 0 <= k < |ids| && ids[k] != root && ids[k] in store.index && store.index[ids[k]] == m;
      assert ids[k] in ids;
      var j :| 0 <= j < |nodes| && nodes[j].id == ids[k] && !nodes[j].archived;
      IndexOfDistinct(nodes, j);
    }
  }

  lemma {:induction false} BuiltCluster(store: Store, groups: seq<Group>, nodes: seq<Node>, root: int, c: Cluster)
    requires DistinctIds(nodes) && store == StoreOf(nodes, store.owns)
    requires root in store.index && store.index[root] in nodes && !store.index[root].archived
    requires ActivityRoot(store, groups, root) == root
    requires var ids := CardMembers(store, groups, nodes, root);
             var members := [store.index[root]] + SortBy(PositionOrder, Others(store.index, ids, root, |ids|));
             c == Cluster(store.index[root], members, |members| > 1, FirstWith(Resolve(store, groups), root, 0).Some?)
    ensures IsCluster(store, groups, nodes, c)
  {
    var ids := CardMembers(store, groups, nodes, root);
    var others := Others(store.index, ids, root, |ids|);
    var rest := SortBy(PositionOrder, others);
    CardMembersAre(store, groups, nodes, root);
    OthersAre(store.index, ids, root, |ids|);
    SortByIsSort(PositionOrder, others);
    DistinctIdsByValue(others, rest);
    SortedByPosition(rest);
    assert c.members[1..] == rest;
    forall n ensures n in c.members <==> n in nodes && !n.archived && ActivityRoot(store, groups, n.id) == root {
      BuiltMembers(store, groups, nodes, root, n);
    }
    forall k | 0 <= k < |rest| ensures rest[k].id != root {
      assert rest[k] in others;
    }
  }

  /** Sorting the clusters changes neither what they are nor which roots they have. */
  lemma {:induction false} SortedClustering(store: Store, groups: seq<Group>, nodes: seq<Node>, clusters: seq<Cluster>)
    requires store.Valid() && IsClustering(store, groups, nodes, clusters)
    ensures IsClustering(store, groups, nodes, SortBy(ClusterOrder, clusters))
    ensures Sorted(ClusterOrder, SortBy(ClusterOrder, clusters))
  {
    SortByIsSort(ClusterOrder, clusters);
    var sorted := SortBy(ClusterOrder, clusters);
    assert NoDup(clusters);
    forall k | 0 <= k < |sorted| ensures IsCluster(store, groups, nodes, sorted[k]) {
      assert sorted[k] in clusters;
    }
    forall root | HasRoot(clusters, root) ensures HasRoot(sorted, root) {
      var k :| 0 <= k < |clusters| && clusters[k].root.id == root;
      assert clusters[k] in sorted;
    }
    forall j, k | 0 <= j < k < |sorted| ensures sorted[j].root.id != sorted[k].root.id {
      assert sorted[j] in clusters && sorted[k] in clusters;
      var a :| 0 <= a < |clusters| && clusters[a] == sorted[j];
      var b :| 0 <= b < |clusters| && clusters[b] == sorted[k];
    }
  }

  predicate MemberAt(clusters: seq<Cluster>, k: int, j: int, node: Node) {
    0 <= k < |clusters| && 0 <= j < |clusters[k].members| && clusters[k].members[j] == node
  }

  /** The clusters partition the live nodes: each is a member of exactly one cluster, exactly once. */
  lemma {:induction false} ClustersPartition(store: Store, groups: seq<Group>, nodes: seq<Node>,
                                             clusters: seq<Cluster>, node: Node)
    requires store.Valid() && IsClustering(store, groups, nodes, clusters) && node in nodes && !node.archived
    ensures exists k, j :: MemberAt(clusters, k, j, node)
    ensures forall k, j, l, i :: MemberAt(clusters, k, j, node) && MemberAt(clusters, l, i, node) ==> k == l && j == i
  {
    assert HasRoot(clusters, ActivityRoot(store, groups, node.id));
    var c :| 0 <= c < |clusters| && clusters[c].root.id == ActivityRoot(store, groups, node.id);
    var at :| 0 <= at < |clusters[c].members| && clusters[c].members[at] == node;
    assert MemberAt(clusters, c, at, node);
    forall k, j | MemberAt(clusters, k, j, node) ensures k == c && j == at {
      assert node in clusters[k].members;
    }
  }
}
