/** Hand-made node groups: resolving them to circuit roots and merging the ones that overlap. */
module NodeGroups {
  import opened Bytes
  import opened Sequences
  import opened CircuitRoots

  type Group = seq<int>

  predicate Overlaps(a: Group, b: Group) {
    exists x :: x in a && x in b
  }

  /** The lists that overlap `ids` (or, with `want` false, those that do not), in order, among the first `n`. */
  function Select(lists: seq<Group>, ids: Group, want: bool, n: nat): seq<Group>
    requires n <= |lists|
  {
    if n == 0 then []
    else
      var before := Select(lists, ids, want, n - 1);
      if Overlaps(lists[n - 1], ids) == want then before + [lists[n - 1]] else before
  }

  /** An insertion-ordered set: the first occurrence of each id among the first `n`. */
  function Dedup(s: Group, n: nat): (r: Group)
    requires n <= |s|
    ensures NoDup(r)
    ensures forall x :: x in r <==> x in s[..n]
  {
    if n == 0 then []
    else
      var before := Dedup(s, n - 1);
      assert s[..n] == s[..n - 1] + [s[n - 1]];
      if s[n - 1] in before then before else before + [s[n - 1]]
  }

  /** They stand in the order of their first occurrences: before an earlier id's place there is no later one. */
  lemma {:induction false} DedupOrder(s: Group, n: nat, j: nat, k: nat)
    requires n <= |s| && j < k < |Dedup(s, n)|
    ensures exists p :: 0 <= p < n && s[p] == Dedup(s, n)[j] && Dedup(s, n)[k] !in s[..p]
  {
    var before := Dedup(s, n - 1);
    if k < |before| {
      DedupOrder(s, n - 1, j, k);
    } else {
      assert before[j] in before;
      var p :| 0 <= p < n - 1 && s[p] == before[j];
      assert s[..p] <= s[..n - 1];
    }
  }

  /** Merge one more edge: everything it overlaps becomes one list at the end, the edge's new ids last. */
  function Merge(resolved: seq<Group>, ids: Group): seq<Group> {
    var all := Flatten(Select(resolved, ids, true, |resolved|)) + ids;
    Select(resolved, ids, false, |resolved|) + [Dedup(all, |all|)]
  }

  /** The first `n` edges merged. */
  function Merged(edges: seq<Group>, n: nat): seq<Group>
    requires n <= |edges|
  {
    if n == 0 then [] else Merge(Merged(edges, n - 1), edges[n - 1])
  }

  // ----- The edges: one list of live roots per group and mesh -----

  /** An insertion-ordered map from a mesh to the roots recorded under it. */
  datatype ByMesh = ByMesh(order: seq<int>, ids: map<int, Group>) {
    ghost predicate Ordered() {
      && NoDup(order)
      && (forall k :: 0 <= k < |order| ==> order[k] in ids)
      && (forall mesh :: mesh in ids ==> mesh in order)
    }

    /** `id` recorded under its mesh, once. */
    function Record(mesh: int, id: int): (r: ByMesh)
      requires Ordered()
      ensures r.Ordered() && order <= r.order && r.ids.Keys == ids.Keys + {mesh}
      ensures forall m :: m in ids && m != mesh ==> r.ids[m] == ids[m]
      ensures forall x :: x in r.ids[mesh] <==> x == id || (mesh in ids && x in ids[mesh])
      ensures mesh in ids ==> ids[mesh] <= r.ids[mesh]
    {
      if mesh !in ids then ByMesh(order + [mesh], ids[mesh := [id]])
      else if id in ids[mesh] then this
      else ByMesh(order, ids[mesh := ids[mesh] + [id]])
    }

    /** The first `n` values, in insertion order. */
    function Values(n: nat): (r: seq<Group>)
      requires Ordered() && n <= |order|
      ensures |r| == n && forall k :: 0 <= k < n ==> r[k] == ids[order[k]]
    {
      if n == 0 then [] else Values(n - 1) + [ids[order[n - 1]]]
    }
  }

  /** The live circuit roots of the first `n` entries of a group, by mesh. */
  function RootsByMesh(store: Store, group: Group, n: nat): (r: ByMesh)
    requires store.Valid() && n <= |group|
    ensures r.Ordered()
  {
    if n == 0 then ByMesh([], map[])
    else
      var before, root := RootsByMesh(store, group, n - 1), store.Root(group[n - 1]);
      if store.Live(root) then before.Record(store.index[root].mesh, root) else before
  }

  /** The edges of one group, by the map of its roots. */
  function EdgesOf(store: Store, group: Group): seq<Group>
    requires store.Valid()
  {
    var byMesh := RootsByMesh(store, group, |group|);
    byMesh.Values(|byMesh.order|)
  }

  /** The edges of the first `n` groups, in order. */
  function Edges(store: Store, groups: seq<Group>, n: nat): seq<Group>
    requires store.Valid() && n <= |groups|
  {
    if n == 0 then []
    else Edges(store, groups, n - 1) + EdgesOf(store, groups[n - 1])
  }

  /** The lists of more than one id, in order, among the first `n`. */
  function Plural(lists: seq<Group>, n: nat): seq<Group>
    requires n <= |lists|
  {
    if n == 0 then []
    else if |lists[n - 1]| > 1 then Plural(lists, n - 1) + [lists[n - 1]]
    else Plural(lists, n - 1)
  }

  function Resolve(store: Store, groups: seq<Group>): seq<Group>
    requires store.Valid()
  {
    var edges := Edges(store, groups, |groups|);
    var merged := Merged(edges, |edges|);
    Plural(merged, |merged|)
  }

  /** The outer loops: over groups, and over a group's entries. */
  method ResolveNodeGroups(store: Store, groups: seq<Group>) returns (r: seq<Group>)
    requires store.Valid()
    ensures r == Resolve(store, groups)
  {
    var resolved: seq<Group> := [];
    ghost var edges: seq<Group> := [];
    for g := 0 to |groups|
      invariant edges == Edges(store, groups, g)
      invariant resolved == Merged(edges, |edges|)
    {
      var byMesh := ByMesh([], map[]);
      for k := 0 to |groups[g]|
        invariant byMesh == RootsByMesh(store, groups[g], k)
      {
        var root := store.CircuitRootId(groups[g][k]);
        if root !in store.index || store.index[root].archived {
          continue;
        }
        byMesh := byMesh.Record(store.index[root].mesh, root);
      }
      resolved := MergeGroup(resolved, edges, byMesh);
      edges := edges + byMesh.Values(|byMesh.order|);
    }
    r := Plural(resolved, |resolved|);
  }

  /** The inner loop: one group's lists, mesh by mesh. */
  method MergeGroup(resolved: seq<Group>, ghost edges: seq<Group>, byMesh: ByMesh) returns (r: seq<Group>)
    requires byMesh.Ordered() && resolved == Merged(edges, |edges|)
    ensures var more := edges + byMesh.Values(|byMesh.order|); r == Merged(more, |more|)
  {
    r := resolved;
    ghost var done := edges;
    for k := 0 to |byMesh.order|
      invariant done == edges + byMesh.Values(k)
      invariant r == Merged(done, |done|)
    {
      var ids := byMesh.ids[byMesh.order[k]];
      MergedSnoc(done, ids);
      done := done + [ids];
      r := MergeEdge(r, ids);
    }
  }

  method MergeEdge(resolved: seq<Group>, ids: Group) returns (r: seq<Group>)
    ensures r == Merge(resolved, ids)
  {
    var overlaps := Select(resolved, ids, true, |resolved|);
    var all := Flatten(overlaps) + ids;
    r := Select(resolved, ids, false, |resolved|);
    r := r + [Dedup(all, |all|)];
  }

  lemma {:induction false} MergedSnoc(edges: seq<Group>, ids: Group)
    ensures Merged(edges + [ids], |edges| + 1) == Merge(Merged(edges, |edges|), ids)
  {
    MergedPrefix(edges + [ids], edges, |edges|);
  }

  lemma {:induction false} MergedPrefix(edges: seq<Group>, prefix: seq<Group>, n: nat)
    requires prefix <= edges && n <= |prefix|
    ensures Merged(edges, n) == Merged(prefix, n)
  {
    if n > 0 {
      MergedPrefix(edges, prefix, n - 1);
    }
  }
}
