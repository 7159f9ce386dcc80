/** What resolving hand-made groups means in terms of the store, and that resolving again changes nothing. */
module NodeResolution {
  import opened Bytes
  import opened Sequences
  import opened CircuitRoots
  import opened NodeGroups
  import opened NodeComponents

  /** `x` is the live circuit root of one of the first `n` entries of the group. */
  ghost predicate RootIn(store: Store, group: Group, n: nat, x: int)
    requires store.Valid() && n <= |group|
  {
    store.Live(x) && exists i :: 0 <= i < n && store.Root(group[i]) == x
  }

  /** The map holds exactly the live roots, each under its mesh, without repeats. */
  ghost predicate Sorts(store: Store, byMesh: ByMesh, group: Group, n: nat)
    requires store.Valid() && n <= |group|
  {
    && (forall mesh :: mesh in byMesh.ids ==> byMesh.ids[mesh] != [] && NoDup(byMesh.ids[mesh]))
    && (forall mesh, x :: mesh in byMesh.ids && x in byMesh.ids[mesh] ==>
          RootIn(store, group, n, x) && store.index[x].mesh == mesh)
    && (forall x :: RootIn(store, group, n, x) ==>
          store.index[x].mesh in byMesh.ids && x in byMesh.ids[store.index[x].mesh])
  }

  lemma {:induction false} RootsByMeshSorts(store: Store, group: Group, n: nat)
    requires store.Valid() && n <= |group|
    ensures Sorts(store, RootsByMesh(store, group, n), group, n)
  {
    if n > 0 {
      RootsByMeshSorts(store, group, n - 1);
      RecordSorts(store, RootsByMesh(store, group, n - 1), group, n);
    }
  }

  lemma {:induction false} RecordSorts(store: Store, before: ByMesh, group: Group, n: nat)
    requires store.Valid() && 0 < n <= |group| && before.Ordered() && Sorts(store, before, group, n - 1)
    ensures var root := store.Root(group[n - 1]);
            Sorts(store, if store.Live(root) then before.Record(store.index[root].mesh, root) else before, group, n)
  {
    RootInSnoc(store, group, n);
  }

  lemma {:induction false} RootInSnoc(store: Store, group: Group, n: nat)
    requires store.Valid() && 0 < n <= |group|
    ensures var root := store.Root(group[n - 1]);
            forall x :: RootIn(store, group, n, x) <==>
              RootIn(store, group, n - 1, x) || (x == root && store.Live(root))
  {
  }

  // ----- The edges -----

  /** A list of live circuit roots of one mesh, without repeats. */
  ghost predicate RootList(store: Store, ids: Group)
    requires store.Valid()
  {
    && ids != [] && NoDup(ids)
    && forall x :: x in ids ==> store.Live(x) && store.Root(x) == x && store.index[x].mesh == MeshOf(store, ids)
  }

  function MeshOf(store: Store, ids: Group): int {
    if ids != [] && ids[0] in store.index then store.index[ids[0]].mesh else 0
  }

  ghost predicate RootLists(store: Store, lists: seq<Group>)
    requires store.Valid()
  {
    forall k :: 0 <= k < |lists| ==> RootList(store, lists[k])
  }

  /** Both ids are live circuit roots of entries of one group, in one mesh. */
  ghost predicate Grouped(store: Store, groups: seq<Group>, n: nat, x: int, y: int)
    requires store.Valid() && n <= |groups|
  {
    exists g :: 0 <= g < n && GroupedBy(store, groups[g], x, y)
  }

  ghost predicate GroupedBy(store: Store, group: Group, x: int, y: int)
    requires store.Valid()
  {
    RootIn(store, group, |group|, x) && RootIn(store, group, |group|, y) && store.index[x].mesh == store.index[y].mesh
  }

  lemma {:induction false} ValueIsRootList(store: Store, byMesh: ByMesh, group: Group, mesh: int)
    requires store.Valid() && Sorts(store, byMesh, group, |group|) && mesh in byMesh.ids
    ensures RootList(store, byMesh.ids[mesh]) && MeshOf(store, byMesh.ids[mesh]) == mesh
  {
    var ids := byMesh.ids[mesh];
    forall x | x in ids ensures store.Live(x) && store.Root(x) == x && store.index[x].mesh == mesh {
      assert RootIn(store, group, |group|, x);
      var i :| 0 <= i < |group| && store.Root(group[i]) == x;
      store.RootIsStable(group[i]);
    }
    var first := ids[0];
    assert first in ids && store.Live(first) && store.Root(first) == first;
    assert MeshOf(store, ids) == mesh;
  }

  lemma {:induction false} ValuesTogether(store: Store, byMesh: ByMesh, group: Group, x: int, y: int)
    requires store.Valid() && byMesh.Ordered() && Sorts(store, byMesh, group, |group|)
    ensures Together(byMesh.Values(|byMesh.order|), x, y) <==> GroupedBy(store, group, x, y)
  {
    var lists := byMesh.Values(|byMesh.order|);
    if GroupedBy(store, group, x, y) {
      var mesh := store.index[x].mesh;
      assert mesh in byMesh.ids && x in byMesh.ids[mesh] && y in byMesh.ids[mesh];
      var k :| 0 <= k < |byMesh.order| && byMesh.order[k] == mesh;
      assert lists[k] == byMesh.ids[mesh];
    }
    if k :| 0 <= k < |lists| && x in lists[k] && y in lists[k] {
      var mesh := byMesh.order[k];
      assert mesh in byMesh.ids && lists[k] == byMesh.ids[mesh];
    }
  }

  lemma {:induction false} GroupEdges(store: Store, group: Group)
    requires store.Valid()
    ensures var byMesh := RootsByMesh(store, group, |group|);
            var lists := byMesh.Values(|byMesh.order|);
            RootLists(store, lists) && forall x, y :: Together(lists, x, y) <==> GroupedBy(store, group, x, y)
  {
    var byMesh := RootsByMesh(store, group, |group|);
    RootsByMeshSorts(store, group, |group|);
    var lists := byMesh.Values(|byMesh.order|);
    forall k | 0 <= k < |lists| ensures RootList(store, lists[k]) {
      ValueIsRootList(store, byMesh, group, byMesh.order[k]);
    }
    forall x, y ensures Together(lists, x, y) <==> GroupedBy(store, group, x, y) {
      ValuesTogether(store, byMesh, group, x, y);
    }
  }

  lemma {:induction false} EdgesAreGroups(store: Store, groups: seq<Group>, n: nat)
    requires store.Valid() && n <= |groups|
    ensures RootLists(store, Edges(store, groups, n))
    ensures forall x, y :: Together(Edges(store, groups, n), x, y) <==> Grouped(store, groups, n, x, y)
  {
    if n > 0 {
      EdgesAreGroups(store, groups, n - 1);
      GroupEdges(store, groups[n - 1]);
      var before := Edges(store, groups, n - 1);
      var byMesh := RootsByMesh(store, groups[n - 1], |groups[n - 1]|);
      var lists := byMesh.Values(|byMesh.order|);
      TogetherAppend(before, lists);
      forall x, y ensures Grouped(store, groups, n, x, y) <==>
        Grouped(store, groups, n - 1, x, y) || GroupedBy(store, groups[n - 1], x, y)
      {
      }
    }
  }

  lemma {:induction false} TogetherAppend(a: seq<Group>, b: seq<Group>)
    ensures forall x, y :: Together(a + b, x, y) <==> Together(a, x, y) || Together(b, x, y)
  {
    var all := a + b;
    forall x, y ensures Together(all, x, y) <==> Together(a, x, y) || Together(b, x, y) {
      if k :| 0 <= k < |a| && x in a[k] && y in a[k] {
        assert all[k] == a[k];
      }
      if k :| 0 <= k < |b| && x in b[k] && y in b[k] {
        assert all[|a| + k] == b[k];
      }
    }
  }

  // ----- The components, in terms of the store -----

  /** A chain of ids from `x` to `y`, each two neighbours live roots of one group in one mesh. */
  ghost predicate Path(store: Store, groups: seq<Group>, ids: Group, x: int, y: int)
    requires store.Valid()
  {
    && |ids| >= 2 && ids[0] == x && ids[|ids| - 1] == y
    && forall i :: 0 <= i < |ids| - 1 ==> Grouped(store, groups, |groups|, ids[i], ids[i + 1])
  }

  lemma {:induction false} ChainHasPath(store: Store, groups: seq<Group>, ks: seq<nat>, x: int, y: int)
    returns (ids: Group)
    requires store.Valid()
    requires var edges := Edges(store, groups, |groups|); Chain(edges, |edges|, ks, x, y)
    ensures Path(store, groups, ids, x, y)
    decreases |ks|
  {
    var edges := Edges(store, groups, |groups|);
    EdgesAreGroups(store, groups, |groups|);
    if |ks| == 1 {
      assert Together(edges, x, y);
      ids := [x, y];
    } else {
      var p :| p in edges[ks[0]] && p in edges[ks[1]];
      assert Together(edges, x, p);
      var rest := ks[1..];
      assert forall i :: 0 <= i < |rest| ==> rest[i] == ks[i + 1];
      var tail := ChainHasPath(store, groups, rest, p, y);
      ids := [x] + tail;
      assert forall i :: 0 < i < |ids| ==> ids[i] == tail[i - 1];
    }
  }

  lemma {:induction false} PathIsLinked(store: Store, groups: seq<Group>, ids: Group, x: int, y: int)
    requires store.Valid() && Path(store, groups, ids, x, y)
    ensures var edges := Edges(store, groups, |groups|); Linked(edges, |edges|, x, y)
    decreases |ids|
  {
    var edges := Edges(store, groups, |groups|);
    EdgesAreGroups(store, groups, |groups|);
    assert Grouped(store, groups, |groups|, ids[0], ids[1]);
    assert Together(edges, x, ids[1]);
    var k :| 0 <= k < |edges| && x in edges[k] && ids[1] in edges[k];
    LinkedByEdge(edges, |edges|, k, x, ids[1]);
    if |ids| > 2 {
      var rest := ids[1..];
      assert forall i :: 0 <= i < |rest| ==> rest[i] == ids[i + 1];
      PathIsLinked(store, groups, rest, ids[1], y);
      LinkedJoin(edges, |edges|, x, ids[1], y);
    }
  }

  lemma {:induction false} PluralKeeps(lists: seq<Group>, n: nat)
    requires n <= |lists|
    ensures forall l :: l in Plural(lists, n) <==> l in lists[..n] && |l| > 1
    ensures Tidy(lists) ==> Tidy(Plural(lists, n))
  {
    if n > 0 {
      PluralKeeps(lists, n - 1);
      assert lists[..n] == lists[..n - 1] + [lists[n - 1]];
      var before := Plural(lists, n - 1);
      forall j | 0 <= j < |before| && Tidy(lists) ensures !Overlaps(before[j], lists[n - 1]) {
        assert before[j] in before;
      }
    }
  }

  lemma {:induction false} PluralTogether(lists: seq<Group>, x: int, y: int)
    requires x != y
    ensures Together(Plural(lists, |lists|), x, y) <==> Together(lists, x, y)
  {
    var plural := Plural(lists, |lists|);
    PluralKeeps(lists, |lists|);
    assert lists[..|lists|] == lists;
    if k :| 0 <= k < |lists| && x in lists[k] && y in lists[k] {
      assert lists[k] in lists;
      var j :| 0 <= j < |plural| && plural[j] == lists[k];
    }
    if k :| 0 <= k < |plural| && x in plural[k] && y in plural[k] {
      assert plural[k] in plural;
      var j :| 0 <= j < |lists| && lists[j] == plural[k];
    }
  }

  /** Two distinct ids share a resolved group exactly when a chain of groups links them. */
  lemma {:induction false} ResolvedAreComponents(store: Store, groups: seq<Group>, x: int, y: int)
    requires store.Valid() && x != y
    ensures Together(Resolve(store, groups), x, y) <==> exists ids :: Path(store, groups, ids, x, y)
  {
    var edges := Edges(store, groups, |groups|);
    EdgesAreGroups(store, groups, |groups|);
    MergedIsComponents(edges, x, y);
    PluralTogether(Merged(edges, |edges|), x, y);
    if Linked(edges, |edges|, x, y) {
      var ks :| Chain(edges, |edges|, ks, x, y);
      var ids := ChainHasPath(store, groups, ks, x, y);
    }
    if ids :| Path(store, groups, ids, x, y) {
      PathIsLinked(store, groups, ids, x, y);
    }
  }

  // ----- What resolved lists look like, and resolving them again -----

  /** Pairwise disjoint, duplicate-free lists of at least two live circuit roots, each of one mesh. */
  ghost predicate Resolved(store: Store, lists: seq<Group>)
    requires store.Valid()
  {
    RootLists(store, lists) && Tidy(lists) && forall k :: 0 <= k < |lists| ==> |lists[k]| > 1
  }

  lemma {:induction false} MergeRootLists(store: Store, resolved: seq<Group>, ids: Group)
    requires store.Valid() && RootLists(store, resolved) && RootList(store, ids)
    ensures RootLists(store, Merge(resolved, ids))
  {
    var m := Merge(resolved, ids);
    var last := m[|m| - 1];
    MergedList(resolved, ids);
    SelectMembers(resolved, ids, false, |resolved|);
    forall k | 0 <= k < |m| - 1 ensures RootList(store, m[k]) {
      assert m[k] == m[..|m| - 1][k];
      assert m[..|m| - 1][k] in Select(resolved, ids, false, |resolved|);
    }
    AbsorbedRoots(store, resolved, ids, last);
  }

  lemma {:induction false} AbsorbedRoots(store: Store, resolved: seq<Group>, ids: Group, last: Group)
    requires store.Valid() && RootLists(store, resolved) && RootList(store, ids)
    requires NoDup(last) && forall x :: x in last <==> Absorbed(resolved, ids, x)
    ensures RootList(store, last)
  {
    forall x | x in last
      ensures store.Live(x) && store.Root(x) == x && store.index[x].mesh == MeshOf(store, ids)
    {
      if x !in ids {
        var k :| 0 <= k < |resolved| && Overlaps(resolved[k], ids) && x in resolved[k];
        assert RootList(store, resolved[k]);
        var p :| p in resolved[k] && p in ids;
      }
    }
    assert Absorbed(resolved, ids, ids[0]);
    assert ids[0] in last;
    var first := last[0];
    assert first in last && store.Live(first);
    assert MeshOf(store, last) == MeshOf(store, ids);
  }

  lemma {:induction false} MergedRootLists(store: Store, edges: seq<Group>, n: nat)
    requires store.Valid() && RootLists(store, edges) && n <= |edges|
    ensures RootLists(store, Merged(edges, n))
  {
    if n > 0 {
      MergedRootLists(store, edges, n - 1);
      MergeRootLists(store, Merged(edges, n - 1), edges[n - 1]);
    }
  }

  lemma {:induction false} ResolveGivesResolved(store: Store, groups: seq<Group>)
    requires store.Valid()
    ensures Resolved(store, Resolve(store, groups))
  {
    var edges := Edges(store, groups, |groups|);
    var merged := Merged(edges, |edges|);
    EdgesAreGroups(store, groups, |groups|);
    MergedRootLists(store, edges, |edges|);
    MergedTidy(edges, |edges|);
    PluralKeeps(merged, |merged|);
    var plural := Plural(merged, |merged|);
    assert merged[..|merged|] == merged;
    forall k | 0 <= k < |plural| ensures RootList(store, plural[k]) && |plural[k]| > 1 {
      assert plural[k] in plural;
      var j :| 0 <= j < |merged| && merged[j] == plural[k];
    }
  }

  /** One mesh's list of live roots comes back as that list. */
  function OneMesh(mesh: int, ids: Group): ByMesh {
    ByMesh([mesh], map[mesh := ids])
  }

  lemma {:induction false} RecordFirst(mesh: int, id: int)
    ensures ByMesh([], map[]).Record(mesh, id) == OneMesh(mesh, [id])
  {
  }

  lemma {:induction false} RecordNext(mesh: int, ids: Group, id: int)
    requires id !in ids
    ensures OneMesh(mesh, ids).Ordered() && OneMesh(mesh, ids).Record(mesh, id) == OneMesh(mesh, ids + [id])
  {
  }

  lemma {:induction false} LastIsNew(ids: Group, n: nat)
    requires NoDup(ids) && 0 < n <= |ids|
    ensures ids[n - 1] !in ids[..n - 1] && ids[..n] == ids[..n - 1] + [ids[n - 1]]
  {
  }

  lemma {:induction false} RootsOfRootList(store: Store, ids: Group, n: nat)
    requires store.Valid() && RootList(store, ids) && 0 < n <= |ids|
    ensures RootsByMesh(store, ids, n) == OneMesh(MeshOf(store, ids), ids[..n])
  {
    var x, before := ids[n - 1], ids[..n - 1];
    LastIsNew(ids, n);
    assert x in ids && store.Root(x) == x;
    if n == 1 {
      RecordFirst(MeshOf(store, ids), x);
      assert RootsByMesh(store, ids, 0) == ByMesh([], map[]);
      assert ids[..n] == [x];
    } else {
      RootsOfRootList(store, ids, n - 1);
      RecordNext(MeshOf(store, ids), before, x);
    }
  }

  lemma {:induction false} EdgeOfRootList(store: Store, ids: Group)
    requires store.Valid() && RootList(store, ids)
    ensures EdgesOf(store, ids) == [ids]
  {
    RootsOfRootList(store, ids, |ids|);
    assert ids[..|ids|] == ids;
    var mesh := MeshOf(store, ids);
    assert OneMesh(mesh, ids).Values(1) == OneMesh(mesh, ids).Values(0) + [ids];
  }

  lemma {:induction false} EdgesOfLists(store: Store, lists: seq<Group>, n: nat)
    requires store.Valid() && n <= |lists| && forall k :: 0 <= k < n ==> EdgesOf(store, lists[k]) == [lists[k]]
    ensures Edges(store, lists, n) == lists[..n]
  {
    if n > 0 {
      EdgesOfLists(store, lists, n - 1);
      assert lists[..n] == lists[..n - 1] + [lists[n - 1]];
    }
  }

  lemma {:induction false} EdgesOfResolved(store: Store, lists: seq<Group>)
    requires store.Valid() && RootLists(store, lists)
    ensures Edges(store, lists, |lists|) == lists
  {
    forall k | 0 <= k < |lists| ensures EdgesOf(store, lists[k]) == [lists[k]] {
      EdgeOfRootList(store, lists[k]);
    }
    EdgesOfLists(store, lists, |lists|);
    assert lists[..|lists|] == lists;
  }

  lemma {:induction false} SelectApart(lists: seq<Group>, ids: Group, n: nat)
    requires n <= |lists| && forall k :: 0 <= k < n ==> !Overlaps(lists[k], ids)
    ensures Select(lists, ids, true, n) == [] && Select(lists, ids, false, n) == lists[..n]
  {
    if n > 0 {
      SelectApart(lists, ids, n - 1);
      assert lists[..n] == lists[..n - 1] + [lists[n - 1]];
    }
  }

  lemma {:induction false} DedupNoDup(s: Group, n: nat)
    requires n <= |s| && NoDup(s)
    ensures Dedup(s, n) == s[..n]
  {
    if n > 0 {
      DedupNoDup(s, n - 1);
      assert s[..n] == s[..n - 1] + [s[n - 1]];
    }
  }

  /** The first list an edge overlaps keeps its ids, in order, at the head of the merged list: its first id
      stays the one that stands for the group. */
  lemma {:induction false} MergeKeepsFirst(resolved: seq<Group>, ids: Group, k: nat)
    requires k < |resolved| && NoDup(resolved[k]) && Overlaps(resolved[k], ids)
    requires forall j :: 0 <= j < k ==> !Overlaps(resolved[j], ids)
    ensures var m := Merge(resolved, ids); resolved[k] <= m[|m| - 1]
  {
    var over := Select(resolved, ids, true, |resolved|);
    SelectFirst(resolved, ids, k, |resolved|);
    FlattenHead(over);
    DedupKeepsHead(Flatten(over) + ids, resolved[k]);
  }

  lemma {:induction false} FlattenHead(lists: seq<Group>)
    requires lists != []
    ensures lists[0] <= Flatten(lists)
  {
    JoinedIsPrefix(lists, 1, |lists|);
    assert Joined(lists, 1) == Joined(lists, 0) + lists[0] == lists[0];
  }

  lemma {:induction false} DedupKeepsHead(s: Group, head: Group)
    requires head <= s && NoDup(head)
    ensures head <= Dedup(s, |s|)
  {
    DedupOfPrefix(s, head, |head|);
    DedupNoDup(head, |head|);
    assert head[..|head|] == head;
    DedupGrows(s, |head|, |s|);
  }

  lemma {:induction false} SelectFirst(lists: seq<Group>, ids: Group, k: nat, n: nat)
    requires k < n <= |lists| && Overlaps(lists[k], ids)
    requires forall j :: 0 <= j < k ==> !Overlaps(lists[j], ids)
    ensures var over := Select(lists, ids, true, n); over != [] && over[0] == lists[k]
  {
    if n > k + 1 {
      SelectFirst(lists, ids, k, n - 1);
    } else {
      SelectApart(lists, ids, k);
    }
  }

  lemma {:induction false} DedupOfPrefix(s: Group, prefix: Group, n: nat)
    requires prefix <= s && n <= |prefix|
    ensures Dedup(s, n) == Dedup(prefix, n)
  {
    if n > 0 {
      DedupOfPrefix(s, prefix, n - 1);
    }
  }

  lemma {:induction false} DedupGrows(s: Group, n: nat, m: nat)
    requires n <= m <= |s|
    ensures Dedup(s, n) <= Dedup(s, m)
    decreases m
  {
    if n < m {
      DedupGrows(s, n, m - 1);
    }
  }

  lemma {:induction false} MergeApart(before: seq<Group>, ids: Group)
    requires NoDup(ids) && forall k :: 0 <= k < |before| ==> !Overlaps(before[k], ids)
    ensures Merge(before, ids) == before + [ids]
  {
    SelectApart(before, ids, |before|);
    assert before[..|before|] == before;
    assert Flatten<int>([]) + ids == ids;
    DedupNoDup(ids, |ids|);
    assert ids[..|ids|] == ids;
  }

  lemma {:induction false} MergedOfTidy(lists: seq<Group>, n: nat)
    requires Tidy(lists) && n <= |lists|
    ensures Merged(lists, n) == lists[..n]
  {
    if n > 0 {
      MergedOfTidy(lists, n - 1);
      MergeApart(lists[..n - 1], lists[n - 1]);
      assert lists[..n] == lists[..n - 1] + [lists[n - 1]];
    }
  }

  lemma {:induction false} PluralOfPlural(lists: seq<Group>, n: nat)
    requires n <= |lists| && forall k :: 0 <= k < n ==> |lists[k]| > 1
    ensures Plural(lists, n) == lists[..n]
  {
    if n > 0 {
      PluralOfPlural(lists, n - 1);
      assert lists[..n] == lists[..n - 1] + [lists[n - 1]];
    }
  }

  /** Resolved groups resolve to themselves, in the same order and with the same representatives. */
  lemma {:induction false} ResolveIsIdempotent(store: Store, groups: seq<Group>)
    requires store.Valid()
    ensures Resolve(store, Resolve(store, groups)) == Resolve(store, groups)
  {
    ResolveGivesResolved(store, groups);
    var lists := Resolve(store, groups);
    assert lists[..|lists|] == lists;
    EdgesOfResolved(store, lists);
    MergedOfTidy(lists, |lists|);
    PluralOfPlural(lists, |lists|);
  }
}
