/** Node Activities: the card each agent node belongs to, the sidebar's clusters, the grid's cards and the
    handover picker. */
module NodeActivities {
  import opened Sequences
  import opened CircuitRoots
  import opened NodeGroups
  import opened NodeComponents
  import opened NodeResolution

  /** The first id of the first list, from `from` on, that holds `root`; `root` itself when none does. */
  function Representative(lists: seq<Group>, root: int, from: nat): int
    requires from <= |lists|
    decreases |lists| - from
  {
    if from == |lists| then root
    else if root in lists[from] then lists[from][0]
    else Representative(lists, root, from + 1)
  }

  /** The card a node belongs to. */
  function ActivityRoot(store: Store, groups: seq<Group>, id: int): int
    requires store.Valid()
  {
    Representative(Resolve(store, groups), store.Root(id), 0)
  }

  lemma {:induction false} RepresentativeIs(lists: seq<Group>, root: int, from: nat)
    requires from <= |lists|
    ensures var r := Representative(lists, root, from);
            || (r == root && forall k :: from <= k < |lists| ==> root !in lists[k])
            || (exists k :: from <= k < |lists| && root in lists[k] && r == lists[k][0])
    decreases |lists| - from
  {
    if from < |lists| && root !in lists[from] {
      RepresentativeIs(lists, root, from + 1);
    }
  }

  /** With disjoint lists, every id of a list has that list's first id as representative. */
  lemma {:induction false} RepresentativeOfMember(lists: seq<Group>, x: int, k: nat)
    requires Disjoint(lists) && k < |lists| && x in lists[k]
    ensures Representative(lists, x, 0) == lists[k][0]
  {
    RepresentativeIs(lists, x, 0);
    forall j | 0 <= j < |lists| && x in lists[j] ensures j == k {
      assert Overlaps(lists[j], lists[k]) && Overlaps(lists[k], lists[j]);
    }
  }

  /** A card's root is its own card's root, of the same mesh, live when the node is; cycles of ownership
      links change none of this. */
  lemma {:induction false} ActivityRootIsStable(store: Store, groups: seq<Group>, id: int)
    requires store.Valid()
    ensures var r := ActivityRoot(store, groups, id);
            && ActivityRoot(store, groups, r) == r
            && (id in store.index ==> r in store.index && store.index[r].mesh == store.index[id].mesh)
            && (store.Live(id) ==> store.Live(r))
            && (id !in store.index ==> r == id)
  {
    var lists := Resolve(store, groups);
    var root, r := store.Root(id), ActivityRoot(store, groups, id);
    ResolveGivesResolved(store, groups);
    store.RootIsStable(id);
    RepresentativeIs(lists, root, 0);
    if k :| 0 <= k < |lists| && root in lists[k] && r == lists[k][0] {
      assert RootList(store, lists[k]);
      assert r in lists[k] && store.Root(r) == r && store.Root(root) == root;
      RepresentativeOfMember(lists, r, k);
    }
  }

  // ----- The grid's cards -----

  /** The card shown for a node: its activity root, or the node itself when the store does not know it. */
  function Card(store: Store, groups: seq<Group>, node: Node): Node
    requires store.Valid()
  {
    var root := ActivityRoot(store, groups, node.id);
    if root in store.index then store.index[root] else node
  }

  lemma {:induction false} CardId(store: Store, groups: seq<Group>, node: Node)
    requires store.Valid()
    ensures Card(store, groups, node).id == ActivityRoot(store, groups, node.id)
  {
    ActivityRootIsStable(store, groups, node.id);
  }

  predicate HasId(nodes: seq<Node>, id: int) {
    exists k :: 0 <= k < |nodes| && nodes[k].id == id
  }

  predicate DistinctIds(nodes: seq<Node>) {
    forall j, k :: 0 <= j < k < |nodes| ==> nodes[j].id != nodes[k].id
  }

  /** In ascending order of position, then of id. */
  predicate ByPosition(nodes: seq<Node>) {
    forall j, k :: 0 <= j < k < |nodes| ==>
      nodes[j].position < nodes[k].position || (nodes[j].position == nodes[k].position && nodes[j].id <= nodes[k].id)
  }

  lemma {:induction false} SortedByPosition(nodes: seq<Node>)
    requires Sorted(PositionOrder, nodes)
    ensures ByPosition(nodes)
  {
  }

  /** In ascending order of mesh, then of position, then of id. */
  predicate ByMeshAndPosition(nodes: seq<Node>) {
    forall j, k :: 0 <= j < k < |nodes| ==>
      || nodes[j].mesh < nodes[k].mesh
      || (nodes[j].mesh == nodes[k].mesh && nodes[j].position < nodes[k].position)
      || (nodes[j].mesh == nodes[k].mesh && nodes[j].position == nodes[k].position && nodes[j].id <= nodes[k].id)
  }

  predicate CardOrder(a: Node, b: Node) {
    a.mesh < b.mesh || (a.mesh == b.mesh && PositionOrder(a, b))
  }

  predicate PositionOrder(a: Node, b: Node) {
    a.position < b.position || (a.position == b.position && a.id <= b.id)
  }

  /** One card per activity, at the first visible node that belongs to it. */
  function FirstCards(store: Store, groups: seq<Group>, visible: seq<Node>, n: nat): seq<Node>
    requires store.Valid() && n <= |visible|
  {
    if n == 0 then []
    else
      var before := FirstCards(store, groups, visible, n - 1);
      if HasId(before, ActivityRoot(store, groups, visible[n - 1].id)) then before
      else before + [Card(store, groups, visible[n - 1])]
  }

  /** Cards keep that order unless there are hand-made groups, then the canonical one. */
  function GridCards(store: Store, groups: seq<Group>, visible: seq<Node>): seq<Node>
    requires store.Valid()
  {
    var cards := FirstCards(store, groups, visible, |visible|);
    if Resolve(store, groups) == [] then cards else SortBy(CardOrder, cards)
  }

  method GroupActivityNodes(visible: seq<Node>, store: Store, groups: seq<Group>) returns (cards: seq<Node>)
    requires store.Valid()
    ensures cards == GridCards(store, groups, visible)
  {
    var seen: set<int> := {};
    var resolved := ResolveNodeGroups(store, groups);
    cards := [];
    for k := 0 to |visible|
      invariant cards == FirstCards(store, groups, visible, k)
      invariant forall id :: id in seen <==> HasId(cards, id)
    {
      var source := store.CircuitRootId(visible[k].id);
      var root := Representative(resolved, source, 0);
      CardId(store, groups, visible[k]);
      if root in seen {
        continue;
      }
      HasIdSnoc(cards, Card(store, groups, visible[k]));
      seen := seen + {root};
      cards := cards + [if root in store.index then store.index[root] else visible[k]];
    }
    if resolved != [] {
      cards := SortBy(CardOrder, cards);
    }
  }

  lemma {:induction false} HasIdSnoc(nodes: seq<Node>, node: Node)
    ensures forall id :: HasId(nodes + [node], id) <==> HasId(nodes, id) || id == node.id
  {
    forall id ensures HasId(nodes + [node], id) <==> HasId(nodes, id) || id == node.id {
      var all := nodes + [node];
      assert all[|nodes|] == node;
      if k :| 0 <= k < |nodes| && nodes[k].id == id {
        assert all[k].id == id;
      }
    }
  }

  lemma {:induction false} FirstCardsAre(store: Store, groups: seq<Group>, visible: seq<Node>, n: nat)
    requires store.Valid() && n <= |visible|
    ensures var cards := FirstCards(store, groups, visible, n);
            && DistinctIds(cards)
            && forall id :: HasId(cards, id) <==>
              exists k :: 0 <= k < n && ActivityRoot(store, groups, visible[k].id) == id
  {
    if n > 0 {
      FirstCardsAre(store, groups, visible, n - 1);
      var before, node := FirstCards(store, groups, visible, n - 1), visible[n - 1];
      CardId(store, groups, node);
      HasIdSnoc(before, Card(store, groups, node));
      if !HasId(before, ActivityRoot(store, groups, node.id)) {
        forall k | 0 <= k < |before| ensures before[k].id != Card(store, groups, node).id {
        }
      }
    }
  }

  /** Among the first `n` nodes, one of activity `id` comes before every one of activity `later`. */
  ghost predicate AppearsBefore(store: Store, groups: seq<Group>, visible: seq<Node>, n: nat, id: int, later: int)
    requires store.Valid() && n <= |visible|
  {
    exists p :: 0 <= p < n && ActivityRoot(store, groups, visible[p].id) == id
      && forall q :: 0 <= q <= p ==> ActivityRoot(store, groups, visible[q].id) != later
  }

  lemma {:induction false} KnownBefore(store: Store, groups: seq<Group>, visible: seq<Node>, n: nat, id: int,
                                       later: int)
    requires store.Valid() && n <= |visible|
    requires HasId(FirstCards(store, groups, visible, n), id) && !HasId(FirstCards(store, groups, visible, n), later)
    ensures AppearsBefore(store, groups, visible, n, id, later)
  {
    FirstCardsAre(store, groups, visible, n);
  }

  /** Cards first come in the order their activities first appear: the node behind an earlier card precedes
      every node of a later one. */
  lemma {:induction false} CardsInOrder(store: Store, groups: seq<Group>, visible: seq<Node>, n: nat, j: nat, k: nat)
    requires store.Valid() && n <= |visible| && j < k < |FirstCards(store, groups, visible, n)|
    ensures var cards := FirstCards(store, groups, visible, n);
            AppearsBefore(store, groups, visible, n, cards[j].id, cards[k].id)
  {
    var before := FirstCards(store, groups, visible, n - 1);
    if k < |before| {
      CardsInOrder(store, groups, visible, n - 1, j, k);
      assert AppearsBefore(store, groups, visible, n - 1, before[j].id, before[k].id);
    } else {
      CardId(store, groups, visible[n - 1]);
      assert HasId(before, before[j].id);
      KnownBefore(store, groups, visible, n - 1, before[j].id, ActivityRoot(store, groups, visible[n - 1].id));
    }
  }

  /** The grid shows exactly one card for each activity some visible node belongs to, in the canonical
      (mesh, position, id) order whenever hand-made groups exist. */
  lemma {:induction false} GridCardsAre(store: Store, groups: seq<Group>, visible: seq<Node>)
    requires store.Valid()
    ensures var cards := GridCards(store, groups, visible);
            && DistinctIds(cards)
            && (forall id :: HasId(cards, id) <==>
                  exists k :: 0 <= k < |visible| && ActivityRoot(store, groups, visible[k].id) == id)
            && (Resolve(store, groups) != [] ==> Sorted(CardOrder, cards) && ByMeshAndPosition(cards))
            && (Resolve(store, groups) == [] ==> cards == FirstCards(store, groups, visible, |visible|))
  {
    var cards := FirstCards(store, groups, visible, |visible|);
    FirstCardsAre(store, groups, visible, |visible|);
    if Resolve(store, groups) != [] {
      SortByIsSort(CardOrder, cards);
      SortKeepsIds(CardOrder, cards);
    }
  }

  lemma {:induction false} SortKeepsIds(leq: (Node, Node) -> bool, nodes: seq<Node>)
    requires TotalOrder(leq) && DistinctIds(nodes)
    ensures DistinctIds(SortBy(leq, nodes))
    ensures forall id :: HasId(SortBy(leq, nodes), id) <==> HasId(nodes, id)
  {
    SortByIsSort(leq, nodes);
    var sorted := SortBy(leq, nodes);
    DistinctIdsByValue(nodes, sorted);
    forall id ensures HasId(sorted, id) <==> HasId(nodes, id) {
      if k :| 0 <= k < |nodes| && nodes[k].id == id {
        assert nodes[k] in sorted;
      }
      if k :| 0 <= k < |sorted| && sorted[k].id == id {
        assert sorted[k] in nodes;
      }
    }
  }

  lemma {:induction false} DistinctIdsByValue(nodes: seq<Node>, others: seq<Node>)
    requires DistinctIds(nodes) && NoDup(others) && forall n :: n in others ==> n in nodes
    ensures DistinctIds(others)
  {
    forall j, k | 0 <= j < k < |others| ensures others[j].id != others[k].id {
      assert others[j] in others && others[k] in others;
      var a :| 0 <= a < |nodes| && nodes[a] == others[j];
      var b :| 0 <= b < |nodes| && nodes[b] == others[k];
    }
  }
}
