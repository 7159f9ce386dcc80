/** Whether the sidebar gives each card the slot the grid gives it. */
module SurfaceOrder {
  import opened Bytes
  import opened CircuitRoots
  import opened NodeActivities
  import opened NodeAgreement
  import opened NodeClusters
  import opened NodeGroups
  import opened Sequences
  import opened SurfaceAgreement

  predicate Precedes(a: Node, b: Node) {
    a.id != b.id && PositionOrder(a, b)
  }

  predicate CardPrecedes(store: Store, groups: seq<Group>, a: Node, b: Node)
    requires store.Valid()
  {
    Precedes(Card(store, groups, a), Card(store, groups, b))
  }

  /** No node is listed before every node of an activity whose root stands before its own. */
  predicate RootsLead(store: Store, groups: seq<Group>, nodes: seq<Node>)
    requires store.Valid()
  {
    forall p, q ::
      0 <= p < |nodes| && 0 <= q < |nodes| && CardPrecedes(store, groups, nodes[q], nodes[p]) ==>
        Appears(store, groups, nodes, p, ActivityRoot(store, groups, nodes[q].id))
  }

  /** Some node of the activity is among the first `n`. */
  predicate Appears(store: Store, groups: seq<Group>, nodes: seq<Node>, n: nat, root: int)
    requires store.Valid() && n <= |nodes|
  {
    exists r :: 0 <= r < n && ActivityRoot(store, groups, nodes[r].id) == root
  }

  // ----- The cards of known nodes -----

  ghost predicate AllKnown(store: Store, nodes: seq<Node>) {
    forall n :: n in nodes ==> n.id in store.index
  }

  lemma {:induction false} CardsAreKnown(store: Store, groups: seq<Group>, nodes: seq<Node>, n: nat)
    requires store.Valid() && AllKnown(store, nodes) && n <= |nodes|
    ensures forall c :: c in FirstCards(store, groups, nodes, n) ==> c.id in store.index && c == store.index[c.id]
  {
    if n > 0 {
      CardsAreKnown(store, groups, nodes, n - 1);
      assert nodes[n - 1] in nodes;
      ActivityRootIsStable(store, groups, nodes[n - 1].id);
    }
  }

  /** Where the card of a listed node stands. */
  lemma {:induction false} CardAt(store: Store, groups: seq<Group>, nodes: seq<Node>, p: nat) returns (k: nat)
    requires store.Valid() && AllKnown(store, nodes) && p < |nodes|
    ensures var cards := FirstCards(store, groups, nodes, |nodes|);
            k < |cards| && cards[k] == Card(store, groups, nodes[p])
              && cards[k].id == ActivityRoot(store, groups, nodes[p].id)
  {
    var cards := FirstCards(store, groups, nodes, |nodes|);
    FirstCardsAre(store, groups, nodes, |nodes|);
    assert HasId(cards, ActivityRoot(store, groups, nodes[p].id));
    k :| 0 <= k < |cards| && cards[k].id == ActivityRoot(store, groups, nodes[p].id);
    CardsAreKnown(store, groups, nodes, |nodes|);
    assert cards[k] in cards && nodes[p] in nodes;
    ActivityRootIsStable(store, groups, nodes[p].id);
  }

  lemma {:induction false} SortedCardsLead(store: Store, groups: seq<Group>, nodes: seq<Node>, p: nat, q: nat)
    requires store.Valid() && AllKnown(store, nodes) && p < |nodes| && q < |nodes|
    requires Sorted(PositionOrder, FirstCards(store, groups, nodes, |nodes|))
    requires CardPrecedes(store, groups, nodes[q], nodes[p])
    ensures Appears(store, groups, nodes, p, ActivityRoot(store, groups, nodes[q].id))
  {
    var j := CardAt(store, groups, nodes, q);
    var k := CardAt(store, groups, nodes, p);
    CardsInOrder(store, groups, nodes, |nodes|, j, k);
  }

  lemma {:induction false} LeadingCardsSorted(store: Store, groups: seq<Group>, nodes: seq<Node>, j: nat, k: nat)
    requires store.Valid() && AllKnown(store, nodes) && RootsLead(store, groups, nodes)
    requires j < k < |FirstCards(store, groups, nodes, |nodes|)|
    ensures var cards := FirstCards(store, groups, nodes, |nodes|); PositionOrder(cards[j], cards[k])
  {
    var cards := FirstCards(store, groups, nodes, |nodes|);
    FirstCardsAre(store, groups, nodes, |nodes|);
    CardsInOrder(store, groups, nodes, |nodes|, j, k);
    var p :| 0 <= p < |nodes| && ActivityRoot(store, groups, nodes[p].id) == cards[j].id
      && forall r :: 0 <= r <= p ==> ActivityRoot(store, groups, nodes[r].id) != cards[k].id;
    assert HasId(cards, cards[k].id);
    var q :| 0 <= q < |nodes| && ActivityRoot(store, groups, nodes[q].id) == cards[k].id;
    var at := CardAt(store, groups, nodes, p);
    var to := CardAt(store, groups, nodes, q);
    assert at == j && to == k;
  }

  lemma {:induction false} CardsSortedExactly(store: Store, groups: seq<Group>, nodes: seq<Node>)
    requires store.Valid() && AllKnown(store, nodes)
    ensures Sorted(PositionOrder, FirstCards(store, groups, nodes, |nodes|)) <==> RootsLead(store, groups, nodes)
  {
    var cards := FirstCards(store, groups, nodes, |nodes|);
    if Sorted(PositionOrder, cards) {
      forall p, q | 0 <= p < |nodes| && 0 <= q < |nodes| && CardPrecedes(store, groups, nodes[q], nodes[p])
        ensures Appears(store, groups, nodes, p, ActivityRoot(store, groups, nodes[q].id))
      {
        SortedCardsLead(store, groups, nodes, p, q);
      }
    }
    if RootsLead(store, groups, nodes) {
      forall j, k | 0 <= j < k < |cards| ensures PositionOrder(cards[j], cards[k]) {
        LeadingCardsSorted(store, groups, nodes, j, k);
      }
    }
  }

  // ----- The two orders -----

  /** The grid's cards for one mesh's live nodes: such nodes themselves, in the canonical order when there are
      hand-made groups. */
  lemma {:induction false} CardsOfMesh(store: Store, mesh: int, groups: seq<Group>, nodes: seq<Node>)
    requires store.Valid() && LiveNodes(store, mesh, nodes)
    ensures var cards := GridCards(store, groups, nodes);
            && (forall c :: c in cards ==> c in nodes)
            && DistinctIds(cards)
            && (Resolve(store, groups) != [] ==> Sorted(PositionOrder, cards))
  {
    var cards := GridCards(store, groups, nodes);
    GridCardsAre(store, groups, nodes);
    forall c | c in cards ensures c in nodes {
      CardIsLive(store, mesh, groups, nodes, c);
    }
    if Resolve(store, groups) != [] {
      forall j, k | 0 <= j < k < |cards| ensures PositionOrder(cards[j], cards[k]) {
        assert cards[j] in cards && cards[k] in cards;
        assert CardOrder(cards[j], cards[k]);
      }
    }
  }

  lemma {:induction false} CardIsLive(store: Store, mesh: int, groups: seq<Group>, nodes: seq<Node>, c: Node)
    requires store.Valid() && LiveNodes(store, mesh, nodes) && c in GridCards(store, groups, nodes)
    ensures c in nodes
  {
    var first := FirstCards(store, groups, nodes, |nodes|);
    CardsAreKnown(store, groups, nodes, |nodes|);
    FirstCardsAre(store, groups, nodes, |nodes|);
    SortByIsSort(CardOrder, first);
    var k :| 0 <= k < |first| && first[k] == c;
    assert HasId(first, c.id);
    var p :| 0 <= p < |nodes| && ActivityRoot(store, groups, nodes[p].id) == c.id;
    assert nodes[p] in nodes;
    ActivityRootIsStable(store, groups, nodes[p].id);
  }

  /** The cluster roots are those same nodes, always in the canonical order. */
  lemma {:induction false} RootsOfMesh(store: Store, mesh: int, groups: seq<Group>, nodes: seq<Node>,
                                       clusters: seq<Cluster>)
    requires store.Valid() && AllEntriesOk(store, mesh, groups) && LiveNodes(store, mesh, nodes)
    requires IsClustering(StoreOf(nodes, store.owns), groups, nodes, clusters) && Sorted(ClusterOrder, clusters)
    ensures var roots, cards := RootNodes(clusters), GridCards(store, groups, nodes);
            && Sorted(PositionOrder, roots) && DistinctIds(roots)
            && forall n :: n in roots <==> n in cards
  {
    var roots, cards := RootNodes(clusters), GridCards(store, groups, nodes);
    CardsOfMesh(store, mesh, groups, nodes);
    forall j, k | 0 <= j < k < |roots| ensures PositionOrder(roots[j], roots[k]) && roots[j].id != roots[k].id {
      assert ClusterOrder(clusters[j], clusters[k]);
    }
    forall n ensures n in roots <==> n in cards {
      ClustersMatchCards(store, mesh, groups, nodes, clusters, n.id);
      if n in roots {
        var k :| 0 <= k < |clusters| && clusters[k].root == n;
        var j :| 0 <= j < |cards| && cards[j].id == n.id;
        assert cards[j] in cards;
      }
      if n in cards {
        var j :| 0 <= j < |cards| && cards[j] == n;
        assert HasId(cards, n.id);
        var k :| 0 <= k < |clusters| && clusters[k].root.id == n.id;
        assert roots[k] == clusters[k].root && clusters[k].root in nodes && roots[k] in roots;
      }
    }
  }

  /** Sidebar and grid show the same cards in the same order if and only if some hand-made group resolves, or no
      node is listed before every node of an activity whose root stands before its own. */
  lemma {:induction false} SlotsMatchExactly(store: Store, mesh: int, groups: seq<Group>, nodes: seq<Node>,
                                             clusters: seq<Cluster>)
    requires store.Valid() && AllEntriesOk(store, mesh, groups) && LiveNodes(store, mesh, nodes)
    requires IsClustering(StoreOf(nodes, store.owns), groups, nodes, clusters) && Sorted(ClusterOrder, clusters)
    ensures RootNodes(clusters) == GridCards(store, groups, nodes) <==>
      Resolve(store, groups) != [] || RootsLead(store, groups, nodes)
  {
    var roots, cards := RootNodes(clusters), GridCards(store, groups, nodes);
    CardsOfMesh(store, mesh, groups, nodes);
    RootsOfMesh(store, mesh, groups, nodes, clusters);
    CardsSortedExactly(store, groups, nodes);
    if Sorted(PositionOrder, cards) {
      SameSlots(roots, cards);
    }
  }

  lemma {:induction false} SameSlots(roots: seq<Node>, cards: seq<Node>)
    requires Sorted(PositionOrder, roots) && Sorted(PositionOrder, cards) && DistinctIds(roots) && DistinctIds(cards)
    requires forall n :: n in roots <==> n in cards
    ensures roots == cards
  {
    forall x, y | x in roots && y in roots && PositionOrder(x, y) && PositionOrder(y, x) ensures x == y {
      var j :| 0 <= j < |roots| && roots[j] == x;
      var k :| 0 <= k < |roots| && roots[k] == y;
    }
    SortedSame(PositionOrder, roots, cards);
  }

  // ----- Without groups the slots can differ -----

  const OWNER := Node(1, 0, 2, false)
  const OWNED := Node(2, 0, 0, false)
  const LONE := Node(3, 0, 1, false)

  function ExampleStore(): (store: Store)
    ensures store.Valid()
  {
    Store(map[1 := OWNER, 2 := OWNED, 3 := LONE], map[2 := Some(1)])
  }

  function ExampleNodes(): seq<Node> {
    [OWNED, LONE, OWNER]
  }

  /** Listed in canonical order, an owned node before its owner pulls their card to the front of the grid; the
      sidebar keeps it at the owner's own place, behind the third node. */
  lemma {:induction false} SlotsCanDiffer(clusters: seq<Cluster>)
    requires IsClustering(StoreOf(ExampleNodes(), ExampleStore().owns), [], ExampleNodes(), clusters)
    requires Sorted(ClusterOrder, clusters)
    ensures Sorted(PositionOrder, ExampleNodes()) && LiveNodes(ExampleStore(), 0, ExampleNodes())
    ensures RootNodes(clusters) != GridCards(ExampleStore(), [], ExampleNodes())
  {
    ExampleRoots();
    ExampleDoesNotLead();
    ExampleIsLive();
    SlotsMatchExactly(ExampleStore(), 0, [], ExampleNodes(), clusters);
  }

  lemma {:induction false} ExampleRoots()
    ensures var store := ExampleStore();
            Resolve(store, []) == [] && ActivityRoot(store, [], 2) == 1 && ActivityRoot(store, [], 3) == 3
  {
    var store := ExampleStore();
    assert store.Parent(OWNED) == Some(OWNER) && store.Parent(OWNER) == None && store.Parent(LONE) == None;
    assert store.Walk(2, OWNED, {}) == store.Walk(2, OWNER, {} + {2}) == 1;
    assert store.Walk(3, LONE, {}) == 3;
    assert Edges(store, [], 0) == [];
  }

  lemma {:induction false} ExampleDoesNotLead()
    ensures !RootsLead(ExampleStore(), [], ExampleNodes())
  {
    var store, nodes := ExampleStore(), ExampleNodes();
    ExampleRoots();
    assert Card(store, [], nodes[0]) == OWNER && Card(store, [], nodes[1]) == LONE;
    assert CardPrecedes(store, [], nodes[1], nodes[0]);
    assert !Appears(store, [], nodes, 0, ActivityRoot(store, [], nodes[1].id));
  }

  lemma {:induction false} ExampleIsLive()
    ensures Sorted(PositionOrder, ExampleNodes()) && LiveNodes(ExampleStore(), 0, ExampleNodes())
    ensures AllEntriesOk(ExampleStore(), 0, [])
  {
  }
}
