/**
 * The tree the builders fill in and the formatters read (a nutree `Tree[Path]`),
 * as an arena of nodes numbered in the order they were added. Node `i` holds the
 * path `data[i]`, its parent `parent[i]` (`TopLevel` for a top-level node, whose
 * nutree `parent` is None) and its ordered children `kids[i]`; `roots` lists the
 * top-level nodes (nutree's `tree.children`) in order.
 */
module Forests {
  import opened Types
  import opened Paths

  const TopLevel: int := -1

  predicate Distinct(ids: seq<nat>)
  {
    forall a, b :: 0 <= a < b < |ids| ==> ids[a] != ids[b]
  }

  datatype Shape = Shape(data: seq<Path>, parent: seq<int>, kids: seq<seq<nat>>, roots: seq<nat>)
  {
    /** A forest: every node is listed exactly once, by its parent or among the
        top-level nodes, and a parent was always added before its children. */
    ghost predicate Valid()
    {
      && |parent| == |data| && |kids| == |data|
      && (forall i :: 0 <= i < |data| ==> TopLevel <= parent[i] < i)
      && (forall k :: 0 <= k < |roots| ==> roots[k] < |data| && parent[roots[k]] == TopLevel)
      && (forall i, k :: 0 <= i < |data| && 0 <= k < |kids[i]| ==> kids[i][k] < |data| && parent[kids[i][k]] == i)
      && Distinct(roots)
      && (forall i :: 0 <= i < |data| ==> Distinct(kids[i]))
      && (forall j :: 0 <= j < |data| && parent[j] == TopLevel ==> j in roots)
      && (forall j :: 0 <= j < |data| && parent[j] != TopLevel ==> j in kids[parent[j]])
    }

    /** No two siblings (nor two top-level nodes) hold equal data. */
    ghost predicate UniqueSiblings()
    {
      && (forall a, b :: 0 <= a < b < |roots| && roots[a] < |data| && roots[b] < |data| ==> data[roots[a]] != data[roots[b]])
      && (forall i, a, b :: 0 <= i < |kids| && 0 <= a < b < |kids[i]| && kids[i][a] < |data| && kids[i][b] < |data|
            ==> data[kids[i][a]] != data[kids[i][b]])
    }

    /** Every child's path is its parent's path with one more segment. */
    ghost predicate Coherent()
    {
      forall i, k :: 0 <= i < |kids| && i < |data| && 0 <= k < |kids[i]| && kids[i][k] < |data|
        ==> |data[kids[i][k]]| == |data[i]| + 1 && data[i] <= data[kids[i][k]]
    }
  }

  const Empty: Shape := Shape([], [], [], [])

  /** `s` grows into `t`: old nodes keep their data and parent, and every old
      list of children (and the top-level list) is a prefix of the new one. */
  ghost predicate Grown(s: Shape, t: Shape)
  {
    && s.data <= t.data && s.parent <= t.parent && s.roots <= t.roots && |s.kids| <= |t.kids|
    && forall i :: 0 <= i < |s.kids| ==> s.kids[i] <= t.kids[i]
  }

  lemma GrownTrans(s: Shape, t: Shape, u: Shape)
    requires Grown(s, t) && Grown(t, u)
    ensures Grown(s, u)
  {
    forall i | 0 <= i < |s.kids|
      ensures s.kids[i] <= u.kids[i]
    {
      assert s.kids[i] <= t.kids[i] && t.kids[i] <= u.kids[i];
    }
  }

  /** nutree's `tree.add(d)`: a new last top-level node. */
  function AppendTop(s: Shape, d: Path): (r: Shape)
    requires s.Valid()
    ensures r.Valid() && Grown(s, r)
    ensures r.data == s.data + [d] && r.roots == s.roots + [|s.data|] && r.kids[..|s.data|] == s.kids
    ensures r.kids[|s.data|] == [] && r.parent[|s.data|] == TopLevel
  {
    var r := Shape(s.data + [d], s.parent + [TopLevel], s.kids + [[]], s.roots + [|s.data|]);
    AppendTopValid(s, d, r);
    r
  }

  /** The conditions of `Valid` for the tree `AppendTop` builds. */
  lemma AppendTopValid(s: Shape, d: Path, r: Shape)
    requires s.Valid()
    requires r == Shape(s.data + [d], s.parent + [TopLevel], s.kids + [[]], s.roots + [|s.data|])
    ensures r.Valid()
  {
    var x := |s.data|;
    forall i | 0 <= i < |r.data|
      ensures TopLevel <= r.parent[i] < i && Distinct(r.kids[i])
    {
      if i < x {
        assert r.parent[i] == s.parent[i] && r.kids[i] == s.kids[i];
      }
    }
    forall i, k | 0 <= i < |r.data| && 0 <= k < |r.kids[i]|
      ensures r.kids[i][k] < |r.data| && r.parent[r.kids[i][k]] == i
    {
      assert i < x && r.kids[i] == s.kids[i];
      assert r.parent[s.kids[i][k]] == s.parent[s.kids[i][k]];
    }
    forall k | 0 <= k < |r.roots|
      ensures r.roots[k] < |r.data| && r.parent[r.roots[k]] == TopLevel
    {
      if k < |s.roots| {
        assert r.roots[k] == s.roots[k];
        assert r.parent[s.roots[k]] == s.parent[s.roots[k]];
      }
    }
    forall a, b | 0 <= a < b < |r.roots|
      ensures r.roots[a] != r.roots[b]
    {
      assert r.roots[a] == s.roots[a];
      if b < |s.roots| {
        assert r.roots[b] == s.roots[b];
      }
    }
    forall j | 0 <= j < |r.data| && r.parent[j] == TopLevel
      ensures j in r.roots
    {
      if j < x {
        assert r.parent[j] == s.parent[j] && j in s.roots;
      } else {
        assert r.roots[|s.roots|] == j;
      }
    }
    forall j | 0 <= j < |r.data| && r.parent[j] != TopLevel
      ensures j in r.kids[r.parent[j]]
    {
      assert j < x && r.parent[j] == s.parent[j];
      assert j in s.kids[s.parent[j]];
      assert r.kids[s.parent[j]] == s.kids[s.parent[j]];
    }
  }

  /** nutree's `node.add(d)` on node `p`: a new last child of `p`. */
  function AppendChild(s: Shape, p: nat, d: Path): (r: Shape)
    requires s.Valid() && p < |s.data|
    ensures r.Valid() && Grown(s, r)
    ensures r.data == s.data + [d] && r.roots == s.roots && r.kids[p] == s.kids[p] + [|s.data|]
    ensures r.parent[|s.data|] == p && r.kids[|s.data|] == []
    ensures forall i :: 0 <= i < |s.data| && i != p ==> r.kids[i] == s.kids[i]
  {
    var r := Shape(s.data + [d], s.parent + [p], s.kids[p := s.kids[p] + [|s.data|]] + [[]], s.roots);
    AppendChildValid(s, p, d, r);
    r
  }

  /** The conditions of `Valid` for the tree `AppendChild` builds. */
  lemma AppendChildValid(s: Shape, p: nat, d: Path, r: Shape)
    requires s.Valid() && p < |s.data|
    requires r == Shape(s.data + [d], s.parent + [p], s.kids[p := s.kids[p] + [|s.data|]] + [[]], s.roots)
    ensures r.Valid()
  {
    AppendChildKids(s, p, d, r);
    var x := |s.data|;
    forall j | 0 <= j < |r.data| && r.parent[j] != TopLevel
      ensures j in r.kids[r.parent[j]]
    {
      if j < x {
        assert j in s.kids[s.parent[j]];
        assert r.parent[j] == s.parent[j];
      } else {
        assert r.kids[p][|s.kids[p]|] == j;
      }
    }
  }

  /** The child lists of the tree `AppendChild` builds point back to their
      parent and hold no node twice. */
  lemma AppendChildKids(s: Shape, p: nat, d: Path, r: Shape)
    requires s.Valid() && p < |s.data|
    requires r == Shape(s.data + [d], s.parent + [p], s.kids[p := s.kids[p] + [|s.data|]] + [[]], s.roots)
    ensures forall i, k :: 0 <= i < |r.data| && 0 <= k < |r.kids[i]| ==> r.kids[i][k] < |r.data| && r.parent[r.kids[i][k]] == i
    ensures forall i :: 0 <= i < |r.data| ==> Distinct(r.kids[i])
  {
    var x := |s.data|;
    assert forall i :: 0 <= i < x && i != p ==> r.kids[i] == s.kids[i];
    assert r.kids[p] == s.kids[p] + [x] && r.kids[x] == [];
    forall i, k | 0 <= i < |r.data| && 0 <= k < |r.kids[i]|
      ensures r.kids[i][k] < |r.data| && r.parent[r.kids[i][k]] == i
    {
      if i == p && k == |s.kids[p]| {
        assert r.kids[i][k] == x;
      } else {
        assert i < x && r.kids[i][k] == s.kids[i][k];
      }
    }
    forall i | 0 <= i < |r.data|
      ensures Distinct(r.kids[i])
    {
      if i == p {
        forall a, b | 0 <= a < b < |r.kids[p]|
          ensures r.kids[p][a] != r.kids[p][b]
        {
          if b == |s.kids[p]| {
            assert r.kids[p][a] == s.kids[p][a] < x;
          }
        }
      }
    }
  }

  /** Adding a child whose data no sibling holds keeps sibling data unique. */
  lemma AppendChildUnique(s: Shape, p: nat, d: Path)
    requires s.Valid() && p < |s.data| && s.UniqueSiblings()
    requires forall k :: 0 <= k < |s.kids[p]| ==> s.data[s.kids[p][k]] != d
    ensures AppendChild(s, p, d).UniqueSiblings()
  {
    var r := AppendChild(s, p, d);
    var x := |s.data|;
    assert |r.kids| == x + 1;
    forall i, a, b | 0 <= i < |r.kids| && 0 <= a < b < |r.kids[i]| && r.kids[i][a] < |r.data| && r.kids[i][b] < |r.data|
      ensures r.data[r.kids[i][a]] != r.data[r.kids[i][b]]
    {
      if i == p {
        var ka := s.kids[p][a];
        assert r.kids[i][a] == ka && ka < x && r.data[ka] == s.data[ka];
        if b == |s.kids[p]| {
          assert r.kids[i][b] == x && r.data[x] == d;
        } else {
          var kb := s.kids[p][b];
          assert r.kids[i][b] == kb && kb < x && r.data[kb] == s.data[kb];
        }
      } else if i < x {
        var ka, kb := s.kids[i][a], s.kids[i][b];
        assert r.kids[i] == s.kids[i] && ka < x && kb < x;
        assert r.data[ka] == s.data[ka] && r.data[kb] == s.data[kb];
      }
    }
  }

  /** The first position in `ids` whose node holds `d`, or `|ids|` when there is none:
      `next((n for n in ids if n.data == d), None)`. */
  function FindFirst(s: Shape, ids: seq<nat>, d: Path): (k: nat)
    requires forall i :: 0 <= i < |ids| ==> ids[i] < |s.data|
    ensures k <= |ids|
    ensures k < |ids| ==> s.data[ids[k]] == d
    ensures forall j :: 0 <= j < k ==> s.data[ids[j]] != d
    decreases |ids|
  {
    if ids == [] then 0
    else if s.data[ids[0]] == d then 0
    else 1 + FindFirst(s, ids[1..], d)
  }

  /** A match found among `ids` is found at the same place among any list that
      extends `ids`, once the nodes have grown without changing their data. */
  lemma {:induction false} FindFirstStable(s: Shape, t: Shape, ids: seq<nat>, ids': seq<nat>, d: Path)
    requires forall i :: 0 <= i < |ids| ==> ids[i] < |s.data|
    requires forall i :: 0 <= i < |ids'| ==> ids'[i] < |t.data|
    requires ids <= ids' && s.data <= t.data
    requires FindFirst(s, ids, d) < |ids|
    ensures FindFirst(t, ids', d) == FindFirst(s, ids, d)
    decreases |ids|
  {
    if s.data[ids[0]] != d {
      assert t.data[ids'[0]] == s.data[ids[0]];
      FindFirstStable(s, t, ids[1..], ids'[1..], d);
    } else {
      assert t.data[ids'[0]] == s.data[ids[0]];
    }
  }

  /** A failed search fails alike once nodes were added without changing old data. */
  lemma {:induction false} FindFirstGrown(s: Shape, t: Shape, ids: seq<nat>, d: Path)
    requires forall i :: 0 <= i < |ids| ==> ids[i] < |s.data|
    requires s.data <= t.data
    ensures FindFirst(t, ids, d) == FindFirst(s, ids, d)
    decreases |ids|
  {
    if ids != [] {
      assert t.data[ids[0]] == s.data[ids[0]];
      FindFirstGrown(s, t, ids[1..], d);
    }
  }

  /** A search that fails over `ids` finds a node appended after them that holds `d`. */
  lemma {:induction false} FindFirstAppend(s: Shape, ids: seq<nat>, x: nat, d: Path)
    requires forall i :: 0 <= i < |ids| ==> ids[i] < |s.data|
    requires x < |s.data| && s.data[x] == d
    requires FindFirst(s, ids, d) == |ids|
    ensures FindFirst(s, ids + [x], d) == |ids|
    decreases |ids|
  {
    if ids != [] {
      assert (ids + [x])[1..] == ids[1..] + [x];
      FindFirstAppend(s, ids[1..], x, d);
    }
  }

  /** The number of ancestors of node `n` (nutree's top-level nodes have none). */
  function Depth(s: Shape, n: nat): (d: nat)
    requires s.Valid() && n < |s.data|
    decreases n
  {
    if s.parent[n] == TopLevel then 0 else 1 + Depth(s, s.parent[n])
  }

  /** The top-level node above (or at) node `n`. */
  function TopOf(s: Shape, n: nat): (t: nat)
    requires s.Valid() && n < |s.data|
    ensures t < |s.data| && s.parent[t] == TopLevel
    decreases n
  {
    if s.parent[n] == TopLevel then n else TopOf(s, s.parent[n])
  }

  /** In a coherent forest a node's path is its top-level node's path with one
      segment per level below it, so depth is the number of added segments. */
  lemma {:induction false} DepthCountsSegments(s: Shape, n: nat)
    requires s.Valid() && s.Coherent() && n < |s.data|
    ensures |s.data[n]| == |s.data[TopOf(s, n)]| + Depth(s, n)
    ensures s.data[TopOf(s, n)] <= s.data[n]
    decreases n
  {
    if s.parent[n] != TopLevel {
      var p := s.parent[n];
      DepthCountsSegments(s, p);
      var k :| 0 <= k < |s.kids[p]| && s.kids[p][k] == n;
      assert |s.data[n]| == |s.data[p]| + 1 && s.data[p] <= s.data[n];
    }
  }

  /** The nodes of the subtree at `n` in pre-order (node first, then each child's subtree in order). */
  function Preorder(s: Shape, n: nat): (r: seq<nat>)
    requires s.Valid() && n < |s.data|
    ensures |r| >= 1 && r[0] == n
    ensures forall i :: 0 <= i < |r| ==> r[i] < |s.data|
    decreases |s.data| - n, 0
  {
    [n] + PreorderAll(s, s.kids[n], n + 1)
  }

  /** The subtrees of the nodes `ids` in pre-order, one after another. */
  function PreorderAll(s: Shape, ids: seq<nat>, lo: nat): (r: seq<nat>)
    requires s.Valid() && lo <= |s.data|
    requires forall i :: 0 <= i < |ids| ==> lo <= ids[i] < |s.data|
    ensures |r| >= |ids|
    ensures forall i :: 0 <= i < |r| ==> r[i] < |s.data|
    decreases |s.data| - lo, |ids|
  {
    if ids == [] then [] else Preorder(s, ids[0]) + PreorderAll(s, ids[1..], lo)
  }

  /** Every node of the forest in pre-order, top-level node by top-level node. */
  function Nodes(s: Shape): (r: seq<nat>)
    requires s.Valid()
    ensures forall i :: 0 <= i < |r| ==> r[i] < |s.data|
  {
    PreorderAll(s, s.roots, 0)
  }

  /** A top-level node with a child contributes at least two nodes to the pre-order. */
  lemma PreorderOfParent(s: Shape, n: nat)
    requires s.Valid() && n < |s.data| && s.kids[n] != []
    ensures |Preorder(s, n)| >= 2
  {
  }

  /** `a` is `j` itself or one of its ancestors. */
  ghost predicate Above(s: Shape, a: nat, j: nat)
    requires s.Valid() && j < |s.data|
    decreases j
  {
    a == j || (s.parent[j] != TopLevel && Above(s, a, s.parent[j]))
  }

  /** An ancestor was added before its descendants. */
  lemma {:induction false} AboveOrder(s: Shape, a: nat, j: nat)
    requires s.Valid() && j < |s.data| && Above(s, a, j)
    ensures a <= j
    decreases j
  {
    if a != j {
      AboveOrder(s, a, s.parent[j]);
    }
  }

  /** Any two ancestors of a node lie on one chain: one is above the other. */
  lemma {:induction false} AboveChain(s: Shape, a: nat, b: nat, j: nat)
    requires s.Valid() && j < |s.data| && Above(s, a, j) && Above(s, b, j)
    ensures (b < |s.data| && Above(s, a, b)) || (a < |s.data| && Above(s, b, a))
    decreases j
  {
    if a != j && b != j {
      AboveChain(s, a, b, s.parent[j]);
    }
  }

  /** The top-level node of `j` is above it. */
  lemma {:induction false} TopAbove(s: Shape, j: nat)
    requires s.Valid() && j < |s.data|
    ensures Above(s, TopOf(s, j), j)
    decreases j
  {
    if s.parent[j] != TopLevel {
      TopAbove(s, s.parent[j]);
    }
  }

  /** Below `n`, the child of `n` on the way to `j`. */
  lemma {:induction false} ChildToward(s: Shape, n: nat, j: nat) returns (c: nat)
    requires s.Valid() && j < |s.data| && n != j && Above(s, n, j)
    ensures c < |s.data| && s.parent[c] == n && c in s.kids[n] && Above(s, c, j)
    decreases j
  {
    if s.parent[j] == n {
      c := j;
    } else {
      c := ChildToward(s, n, s.parent[j]);
    }
  }

  /** How many of the nodes `ids` are above `j`. */
  ghost function CountAbove(s: Shape, ids: seq<nat>, j: nat): nat
    requires s.Valid() && j < |s.data|
  {
    if ids == [] then 0 else (if Above(s, ids[0], j) then 1 else 0) + CountAbove(s, ids[1..], j)
  }

  /** In a list without repeats whose only node that can be above `j` is `a`,
      the count is one exactly when `a` is listed and above `j`. */
  lemma {:induction false} CountAboveAt(s: Shape, ids: seq<nat>, j: nat, a: nat)
    requires s.Valid() && j < |s.data| && Distinct(ids)
    requires forall k :: 0 <= k < |ids| && Above(s, ids[k], j) ==> ids[k] == a
    ensures CountAbove(s, ids, j) == if a in ids && Above(s, a, j) then 1 else 0
  {
    if ids != [] {
      var rest := ids[1..];
      assert Distinct(rest) by {
        forall x, y | 0 <= x < y < |rest|
          ensures rest[x] != rest[y]
        {
          assert rest[x] == ids[x + 1] && rest[y] == ids[y + 1];
        }
      }
      CountAboveAt(s, rest, j, a);
      if ids[0] == a {
        assert a !in rest by {
          forall k | 0 <= k < |rest|
            ensures rest[k] != a
          {
            assert rest[k] == ids[k + 1];
          }
        }
      }
      assert a in ids <==> ids[0] == a || a in rest;
    }
  }

  /** Exactly one child of `n` is above a strict descendant `j` of `n`, and
      none is above any other node; so `n` and its children together are
      above `j` once when `n` is, and otherwise not at all. */
  lemma KidsAbove(s: Shape, n: nat, j: nat)
    requires s.Valid() && n < |s.data| && j < |s.data|
    ensures CountAbove(s, s.kids[n], j) == if j != n && Above(s, n, j) then 1 else 0
    ensures (if j == n then 1 else 0) + CountAbove(s, s.kids[n], j) == if Above(s, n, j) then 1 else 0
  {
    var ks := s.kids[n];
    if j != n && Above(s, n, j) {
      var a := ChildToward(s, n, j);
      forall k | 0 <= k < |ks| && Above(s, ks[k], j)
        ensures ks[k] == a
      {
        var c := ks[k];
        assert s.parent[c] == n;
        AboveChain(s, c, a, j);
        if c != a {
          if Above(s, c, a) {
            AboveOrder(s, c, s.parent[a]);
          } else {
            AboveOrder(s, a, s.parent[c]);
          }
        }
      }
      CountAboveAt(s, ks, j, a);
    } else {
      forall k | 0 <= k < |ks|
        ensures ks[k] != n && !Above(s, ks[k], j)
      {
        var c := ks[k];
        assert s.parent[c] == n;
        if Above(s, c, j) {
          if j == n {
            AboveOrder(s, c, j);
          } else {
            assert Above(s, n, c);
            AboveTrans(s, n, c, j);
          }
        }
      }
      CountAboveAt(s, ks, j, n);
    }
  }

  /** Being above is transitive. */
  lemma {:induction false} AboveTrans(s: Shape, a: nat, b: nat, j: nat)
    requires s.Valid() && b < |s.data| && j < |s.data| && Above(s, a, b) && Above(s, b, j)
    ensures Above(s, a, j)
    decreases j
  {
    if b != j {
      AboveTrans(s, a, b, s.parent[j]);
    }
  }

  /** The subtree at `n` lists each node below (or at) `n` once and no other node. */
  lemma {:induction false} PreorderCount(s: Shape, n: nat, j: nat)
    requires s.Valid() && n < |s.data| && j < |s.data|
    ensures multiset(Preorder(s, n))[j] == if Above(s, n, j) then 1 else 0
    decreases |s.data| - n, 0
  {
    PreorderSplit(s, n, j);
    PreorderAllCount(s, s.kids[n], n + 1, j);
    KidsAbove(s, n, j);
  }

  /** The subtree at `n` is `n` followed by its children's subtrees, which were
      added after `n`. */
  lemma PreorderSplit(s: Shape, n: nat, j: nat)
    requires s.Valid() && n < |s.data|
    ensures forall i :: 0 <= i < |s.kids[n]| ==> n + 1 <= s.kids[n][i] < |s.data|
    ensures multiset(Preorder(s, n))[j] == (if j == n then 1 else 0) + multiset(PreorderAll(s, s.kids[n], n + 1))[j]
  {
    ConsCount(n, PreorderAll(s, s.kids[n], n + 1), j);
  }

  /** Putting `n` in front adds one occurrence of `n` and of no other value. */
  lemma ConsCount(n: nat, rest: seq<nat>, j: nat)
    ensures multiset([n] + rest)[j] == (if j == n then 1 else 0) + multiset(rest)[j]
  {
    assert multiset([n] + rest) == multiset{n} + multiset(rest);
  }

  /** The subtrees of `ids` list `j` once for each of `ids` above it. */
  lemma {:induction false} PreorderAllCount(s: Shape, ids: seq<nat>, lo: nat, j: nat)
    requires s.Valid() && lo <= |s.data| && j < |s.data|
    requires forall i :: 0 <= i < |ids| ==> lo <= ids[i] < |s.data|
    ensures multiset(PreorderAll(s, ids, lo))[j] == CountAbove(s, ids, j)
    decreases |s.data| - lo, |ids|
  {
    if ids != [] {
      PreorderCount(s, ids[0], j);
      PreorderAllCount(s, ids[1..], lo, j);
    }
  }

  /** Every node of a forest occurs exactly once in `Nodes`, so the rendering
      has one line per node. */
  lemma NodesOnce(s: Shape)
    requires s.Valid()
    ensures forall j :: 0 <= j < |s.data| ==> multiset(Nodes(s))[j] == 1
  {
    forall j | 0 <= j < |s.data|
      ensures multiset(Nodes(s))[j] == 1
    {
      PreorderAllCount(s, s.roots, 0, j);
      var a := TopOf(s, j);
      TopAbove(s, j);
      forall k | 0 <= k < |s.roots| && Above(s, s.roots[k], j)
        ensures s.roots[k] == a
      {
        AboveChain(s, s.roots[k], a, j);
      }
      CountAboveAt(s, s.roots, j, a);
    }
  }

  /** A nutree `Tree[Path]`; the four fields are updated in place as nodes are added. */
  class Tree {
    var data: seq<Path>
    var parent: seq<int>
    var kids: seq<seq<nat>>
    var roots: seq<nat>

    function Snapshot(): Shape
      reads this
    {
      Shape(data, parent, kids, roots)
    }

    ghost predicate Valid()
      reads this
    {
      Snapshot().Valid()
    }

    /** `Tree(title)`: a tree with no nodes. (The title is not modelled.) */
    constructor ()
      ensures Valid() && Snapshot() == Empty
    {
      data, parent, kids, roots := [], [], [], [];
    }

    /** `tree.add(d)`. */
    method Add(d: Path) returns (id: nat)
      requires Valid()
      modifies this
      ensures Valid()
      ensures id == |old(data)| && Snapshot() == AppendTop(old(Snapshot()), d)
    {
      id := |data|;
      data, parent, kids, roots := data + [d], parent + [TopLevel], kids + [[]], roots + [id];
    }

    /** `node.add(d)` on node `p`. */
    method AddChild(p: nat, d: Path) returns (id: nat)
      requires Valid() && p < |data|
      modifies this
      ensures Valid()
      ensures id == |old(data)| && Snapshot() == AppendChild(old(Snapshot()), p, d)
    {
      ghost var s := Snapshot();
      assert AppendChild(s, p, d).Valid();
      id := |data|;
      data, parent, kids := data + [d], parent + [p], kids[p := kids[p] + [id]] + [[]];
    }

    /** `tree.first_child()`. */
    method FirstChild() returns (r: Option<nat>)
      ensures r.None? <==> roots == []
      ensures r.Some? ==> r.value == roots[0]
    {
      r := if roots == [] then None else Some(roots[0]);
    }
  }
}
