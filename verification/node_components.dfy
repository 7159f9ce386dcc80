/** Resolved groups are the connected components of the groups' live roots. */
module NodeComponents {
  import opened Bytes
  import opened Sequences
  import opened NodeGroups

  /** Both ids are on one list. */
  predicate Together(lists: seq<Group>, x: int, y: int) {
    exists k :: 0 <= k < |lists| && x in lists[k] && y in lists[k]
  }

  predicate Disjoint(lists: seq<Group>) {
    forall j, k :: 0 <= j < k < |lists| ==> !Overlaps(lists[j], lists[k])
  }

  predicate Tidy(lists: seq<Group>) {
    && Disjoint(lists)
    && forall k :: 0 <= k < |lists| ==> lists[k] != [] && NoDup(lists[k])
  }

  // ----- Selecting and flattening -----

  lemma {:induction false} SelectMembers(lists: seq<Group>, ids: Group, want: bool, n: nat)
    requires n <= |lists|
    ensures forall l :: l in Select(lists, ids, want, n) <==> l in lists[..n] && Overlaps(l, ids) == want
  {
    if n > 0 {
      SelectMembers(lists, ids, want, n - 1);
      assert lists[..n] == lists[..n - 1] + [lists[n - 1]];
    }
  }

  lemma {:induction false} SelectTidy(lists: seq<Group>, ids: Group, want: bool, n: nat)
    requires n <= |lists| && Tidy(lists)
    ensures Tidy(Select(lists, ids, want, n))
  {
    if n > 0 {
      SelectTidy(lists, ids, want, n - 1);
      SelectMembers(lists, ids, want, n - 1);
      var before := Select(lists, ids, want, n - 1);
      forall j | 0 <= j < |before| ensures !Overlaps(before[j], lists[n - 1]) {
        assert before[j] in before;
      }
    }
  }

  lemma {:induction false} FlattenMembers(lists: seq<Group>, n: nat)
    requires n <= |lists|
    ensures forall x :: x in Joined(lists, n) <==> exists k :: 0 <= k < n && x in lists[k]
  {
    if n > 0 {
      FlattenMembers(lists, n - 1);
    }
  }

  /** An id is on the merged list when it is on the edge or on a list the edge overlaps. */
  predicate Absorbed(resolved: seq<Group>, ids: Group, x: int) {
    x in ids || exists k :: 0 <= k < |resolved| && Overlaps(resolved[k], ids) && x in resolved[k]
  }

  lemma {:induction false} MergedList(resolved: seq<Group>, ids: Group)
    ensures var m := Merge(resolved, ids);
            && |m| > 0 && NoDup(m[|m| - 1])
            && (forall x :: x in m[|m| - 1] <==> Absorbed(resolved, ids, x))
            && m[..|m| - 1] == Select(resolved, ids, false, |resolved|)
  {
    var over := Select(resolved, ids, true, |resolved|);
    var all := Flatten(over) + ids;
    FlattenMembers(over, |over|);
    SelectMembers(resolved, ids, true, |resolved|);
    assert resolved[..|resolved|] == resolved && all[..|all|] == all;
    forall x
      ensures x in Flatten(over) <==> exists k :: 0 <= k < |resolved| && Overlaps(resolved[k], ids) && x in resolved[k]
    {
      if k :| 0 <= k < |resolved| && Overlaps(resolved[k], ids) && x in resolved[k] {
        assert resolved[k] in over;
      }
      if x in Flatten(over) {
        var j :| 0 <= j < |over| && x in over[j];
        assert over[j] in over;
      }
    }
  }

  lemma {:induction false} MergeTidy(resolved: seq<Group>, ids: Group)
    requires Tidy(resolved) && ids != []
    ensures Tidy(Merge(resolved, ids))
  {
    var m := Merge(resolved, ids);
    var rest := m[..|m| - 1];
    MergedList(resolved, ids);
    SelectTidy(resolved, ids, false, |resolved|);
    SelectMembers(resolved, ids, false, |resolved|);
    assert Absorbed(resolved, ids, ids[0]);
    forall j | 0 <= j < |rest| ensures !Overlaps(rest[j], m[|m| - 1]) {
      assert rest[j] in rest;
      KeptApart(resolved, ids, rest[j]);
    }
    assert forall k :: 0 <= k < |rest| ==> m[k] == rest[k];
  }

  lemma {:induction false} KeptApart(resolved: seq<Group>, ids: Group, kept: Group)
    requires Disjoint(resolved) && kept in resolved && !Overlaps(kept, ids)
    ensures forall x :: x in kept ==> !Absorbed(resolved, ids, x)
  {
    forall x | x in kept ensures !Absorbed(resolved, ids, x) {
      var j :| 0 <= j < |resolved| && resolved[j] == kept;
      forall k | 0 <= k < |resolved| && Overlaps(resolved[k], ids) ensures x !in resolved[k] {
        if x in resolved[k] {
          assert Overlaps(resolved[j], resolved[k]) && Overlaps(resolved[k], resolved[j]);
        }
      }
    }
  }

  /** Two ids are together after a merge when they were before, or both were absorbed. */
  lemma {:induction false} MergeTogether(resolved: seq<Group>, ids: Group, x: int, y: int)
    ensures Together(Merge(resolved, ids), x, y) <==>
      Together(resolved, x, y) || (Absorbed(resolved, ids, x) && Absorbed(resolved, ids, y))
  {
    var m := Merge(resolved, ids);
    var rest := m[..|m| - 1];
    MergedList(resolved, ids);
    SelectMembers(resolved, ids, false, |resolved|);
    if Together(m, x, y) {
      var k :| 0 <= k < |m| && x in m[k] && y in m[k];
      if k < |m| - 1 {
        assert m[k] == rest[k] && rest[k] in rest;
        var j :| 0 <= j < |resolved| && resolved[j] == rest[k];
      }
    }
    if Absorbed(resolved, ids, x) && Absorbed(resolved, ids, y) {
      assert x in m[|m| - 1] && y in m[|m| - 1];
    }
    if k :| 0 <= k < |resolved| && x in resolved[k] && y in resolved[k] {
      if Overlaps(resolved[k], ids) {
        assert Absorbed(resolved, ids, x) && Absorbed(resolved, ids, y);
      } else {
        assert resolved[k] in resolved[..|resolved|];
        var j :| 0 <= j < |rest| && rest[j] == resolved[k];
        assert m[j] == rest[j];
      }
    }
  }

  // ----- Chains of overlapping edges -----

  /** `x` is on the first of the edges `ks`, `y` on the last, and each overlaps the next. */
  ghost predicate Chain(edges: seq<Group>, n: nat, ks: seq<nat>, x: int, y: int)
    requires n <= |edges|
  {
    && ks != [] && (forall i :: 0 <= i < |ks| ==> ks[i] < n)
    && x in edges[ks[0]] && y in edges[ks[|ks| - 1]]
    && forall i :: 0 <= i < |ks| - 1 ==> Overlaps(edges[ks[i]], edges[ks[i + 1]])
  }

  ghost predicate Linked(edges: seq<Group>, n: nat, x: int, y: int)
    requires n <= |edges|
  {
    exists ks :: Chain(edges, n, ks, x, y)
  }

  lemma {:induction false} LinkedByEdge(edges: seq<Group>, n: nat, k: nat, x: int, y: int)
    requires k < n <= |edges| && x in edges[k] && y in edges[k]
    ensures Linked(edges, n, x, y)
  {
    assert Chain(edges, n, [k], x, y);
  }

  /** Chains that meet in an id join up. */
  lemma {:induction false} LinkedJoin(edges: seq<Group>, n: nat, x: int, y: int, z: int)
    requires n <= |edges| && Linked(edges, n, x, y) && Linked(edges, n, y, z)
    ensures Linked(edges, n, x, z)
  {
    var ks :| Chain(edges, n, ks, x, y);
    var ls :| Chain(edges, n, ls, y, z);
    var both := ks + ls;
    assert y in edges[ks[|ks| - 1]] && y in edges[ls[0]];
    assert Overlaps(edges[ks[|ks| - 1]], edges[ls[0]]);
    assert Chain(edges, n, both, x, z);
  }

  lemma {:induction false} LinkedMore(edges: seq<Group>, n: nat, m: nat, x: int, y: int)
    requires n <= m <= |edges| && Linked(edges, n, x, y)
    ensures Linked(edges, m, x, y)
  {
    var ks :| Chain(edges, n, ks, x, y);
    assert Chain(edges, m, ks, x, y);
  }

  /** An absorbed id is on the edge, or together with one that is. */
  lemma {:induction false} AbsorbedVia(resolved: seq<Group>, ids: Group, x: int) returns (p: int)
    requires Absorbed(resolved, ids, x)
    ensures p in ids && (x == p || (Together(resolved, x, p) && Together(resolved, p, x)))
  {
    if x in ids {
      return x;
    }
    var k :| 0 <= k < |resolved| && Overlaps(resolved[k], ids) && x in resolved[k];
    p :| p in resolved[k] && p in ids;
  }

  lemma {:induction false} TogetherIsLinked(edges: seq<Group>, n: nat, x: int, y: int)
    requires n <= |edges| && Together(Merged(edges, n), x, y)
    ensures Linked(edges, n, x, y)
    decreases n
  {
    var resolved := Merged(edges, n - 1);
    MergeTogether(resolved, edges[n - 1], x, y);
    if Together(resolved, x, y) {
      TogetherIsLinked(edges, n - 1, x, y);
      LinkedMore(edges, n - 1, n, x, y);
    } else {
      var p := AbsorbedVia(resolved, edges[n - 1], x);
      var q := AbsorbedVia(resolved, edges[n - 1], y);
      LinkedByEdge(edges, n, n - 1, p, q);
      if x != p {
        TogetherIsLinked(edges, n - 1, x, p);
        LinkedMore(edges, n - 1, n, x, p);
        LinkedJoin(edges, n, x, p, q);
      }
      if y != q {
        TogetherIsLinked(edges, n - 1, q, y);
        LinkedMore(edges, n - 1, n, q, y);
        LinkedJoin(edges, n, x, q, y);
      }
    }
  }

  /** Every edge merged so far lies on one list. */
  lemma {:induction false} EdgeTogether(edges: seq<Group>, n: nat, k: nat, x: int, y: int)
    requires k < n <= |edges| && x in edges[k] && y in edges[k]
    ensures Together(Merged(edges, n), x, y)
  {
    MergeTogether(Merged(edges, n - 1), edges[n - 1], x, y);
    if k < n - 1 {
      EdgeTogether(edges, n - 1, k, x, y);
    }
  }

  lemma {:induction false} MergedTidy(edges: seq<Group>, n: nat)
    requires n <= |edges| && forall k :: 0 <= k < n ==> edges[k] != []
    ensures Tidy(Merged(edges, n))
  {
    if n > 0 {
      MergedTidy(edges, n - 1);
      MergeTidy(Merged(edges, n - 1), edges[n - 1]);
    }
  }

  lemma {:induction false} ChainIsTogether(edges: seq<Group>, n: nat, ks: seq<nat>, x: int, y: int)
    requires n <= |edges| && (forall k :: 0 <= k < n ==> edges[k] != []) && Chain(edges, n, ks, x, y)
    ensures Together(Merged(edges, n), x, y)
    decreases |ks|
  {
    if |ks| == 1 {
      EdgeTogether(edges, n, ks[0], x, y);
    } else {
      var p :| p in edges[ks[0]] && p in edges[ks[1]];
      EdgeTogether(edges, n, ks[0], x, p);
      var rest := ks[1..];
      assert forall i :: 0 <= i < |rest| ==> rest[i] == ks[i + 1];
      ChainIsTogether(edges, n, rest, p, y);
      MergedTidy(edges, n);
    }
  }

  /** Merging computes connected components: two ids share a list exactly when a chain of overlapping
      edges links them. */
  lemma {:induction false} MergedIsComponents(edges: seq<Group>, x: int, y: int)
    requires forall k :: 0 <= k < |edges| ==> edges[k] != []
    ensures Together(Merged(edges, |edges|), x, y) <==> Linked(edges, |edges|, x, y)
    ensures Tidy(Merged(edges, |edges|))
  {
    MergedTidy(edges, |edges|);
    if Together(Merged(edges, |edges|), x, y) {
      TogetherIsLinked(edges, |edges|, x, y);
    }
    if ks :| Chain(edges, |edges|, ks, x, y) {
      ChainIsTogether(edges, |edges|, ks, x, y);
    }
  }
}
