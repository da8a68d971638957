/**
 * tree.py: inserting one path into the tree (`add_path_to_tree`) and the
 * argument list for `git ls-files` (`build_ls_files_args`).
 */
module TreeBuilder {
  import opened Paths
  import opened Forests

  /** One level of the walk, the body of the builders' loops: the first child of
      `n` holding `next` if there is one, and otherwise a new last child of `n`
      holding it. Returns the tree after the step and the child moved to. */
  function Step(s: Shape, n: nat, next: Path): (r: (Shape, nat))
    requires s.Valid() && n < |s.data|
    ensures r.0.Valid() && Grown(s, r.0) && n < r.1 < |r.0.data| && r.0.data[r.1] == next
    ensures |r.0.data| <= |s.data| + 1 && r.0.roots == s.roots
    ensures FindFirst(r.0, r.0.kids[n], next) < |r.0.kids[n]|
    ensures r.0.kids[n][FindFirst(r.0, r.0.kids[n], next)] == r.1
    ensures forall i :: 0 <= i < |s.data| && i != n ==> r.0.kids[i] == s.kids[i]
    ensures FindFirst(s, s.kids[n], next) < |s.kids[n]| ==> r.0 == s
    ensures FindFirst(s, s.kids[n], next) == |s.kids[n]| ==> |r.0.data| == |s.data| + 1
  {
    var j := FindFirst(s, s.kids[n], next);
    if j < |s.kids[n]| then (s, s.kids[n][j])
    else
      var s1 := AppendChild(s, n, next);
      FindFirstGrown(s, s1, s.kids[n], next);
      FindFirstAppend(s1, s.kids[n], |s.data|, next);
      (s1, |s.data|)
  }

  /** A step creates a child only when no sibling holds its path. */
  lemma StepUnique(s: Shape, n: nat, next: Path)
    requires s.Valid() && n < |s.data| && s.UniqueSiblings()
    ensures Step(s, n, next).0.UniqueSiblings()
  {
    if FindFirst(s, s.kids[n], next) == |s.kids[n]| {
      AppendChildUnique(s, n, next);
    }
  }

  /** A step from a node holding `base` adds a child holding `base` plus one segment. */
  lemma StepCoherent(s: Shape, n: nat, base: Path, part: Segment)
    requires s.Valid() && n < |s.data| && s.Coherent() && s.data[n] == base
    ensures Step(s, n, Child(base, part)).0.Coherent()
  {
  }

  /** The walk below cursor node `n`, whose path is `base`, over `parts`. */
  function Descend(s: Shape, n: nat, base: Path, parts: Path): (r: Shape)
    requires s.Valid() && n < |s.data|
    ensures r.Valid() && Grown(s, r) && r.roots == s.roots
    decreases |parts|
  {
    if parts == [] then s
    else
      var st := Step(s, n, Child(base, parts[0]));
      var r := Descend(st.0, st.1, Child(base, parts[0]), parts[1..]);
      GrownTrans(s, st.0, r);
      r
  }

  /** The nodes met by following, from `n`, the first child holding each
      extended path; it stops early at the first level where there is none. */
  function Walk(s: Shape, n: nat, base: Path, parts: Path): (w: seq<nat>)
    requires s.Valid() && n < |s.data|
    ensures 1 <= |w| <= |parts| + 1 && w[0] == n
    ensures forall k :: 0 <= k < |w| ==> w[k] < |s.data|
    decreases |parts|
  {
    if parts == [] then [n]
    else
      var next := Child(base, parts[0]);
      var j := FindFirst(s, s.kids[n], next);
      if j < |s.kids[n]| then [n] + Walk(s, s.kids[n][j], next, parts[1..]) else [n]
  }

  /** Every part is found: the whole of `base + parts` is in the subtree at `n`. */
  ghost predicate Present(s: Shape, n: nat, base: Path, parts: Path)
    requires s.Valid() && n < |s.data|
  {
    |Walk(s, n, base, parts)| == |parts| + 1
  }

  /** Link `k` of chain `w`: node k+1 is a child of node k and holds `base`
      extended by the first k+1 parts. */
  ghost predicate Link(s: Shape, w: seq<nat>, base: Path, parts: Path, k: nat)
  {
    k + 1 < |w| && w[k] < |s.kids| && w[k + 1] < |s.data| && k + 1 <= |parts|
    && w[k + 1] in s.kids[w[k]] && s.data[w[k + 1]] == base + parts[..k + 1]
  }

  /** Every link of chain `w` holds. */
  ghost predicate Chained(s: Shape, w: seq<nat>, base: Path, parts: Path)
  {
    forall k: nat :: k < |w| - 1 ==> Link(s, w, base, parts, k)
  }

  /** Along a walk, each node is a child of the one before and holds `base`
      extended by the parts walked so far. */
  lemma {:induction false} WalkChain(s: Shape, n: nat, base: Path, parts: Path)
    requires s.Valid() && n < |s.data|
    ensures Chained(s, Walk(s, n, base, parts), base, parts)
    decreases |parts|
  {
    if parts != [] {
      var next := Child(base, parts[0]);
      var j := FindFirst(s, s.kids[n], next);
      if j < |s.kids[n]| {
        var c := s.kids[n][j];
        WalkChain(s, c, next, parts[1..]);
        var w := Walk(s, n, base, parts);
        var w' := Walk(s, c, next, parts[1..]);
        assert w == [n] + w';
        forall k: nat | k < |w| - 1
          ensures Link(s, w, base, parts, k)
        {
          if k == 0 {
            assert w[1] == c && c in s.kids[n] && s.data[c] == next;
            assert parts[..1] == [parts[0]];
          } else {
            assert k - 1 < |w'| - 1;
            assert Link(s, w', next, parts[1..], k - 1);
            assert parts[..k + 1] == [parts[0]] + parts[1..][..k];
            assert next + parts[1..][..k] == base + parts[..k + 1];
          }
        }
      }
    }
  }

  /** After the walk, the whole of `base + parts` is present below `n`. */
  lemma {:induction false} DescendPresent(s: Shape, n: nat, base: Path, parts: Path)
    requires s.Valid() && n < |s.data|
    ensures Present(Descend(s, n, base, parts), n, base, parts)
    decreases |parts|
  {
    if parts != [] {
      var next := Child(base, parts[0]);
      var (s1, c) := Step(s, n, next);
      var r := Descend(s1, c, next, parts[1..]);
      DescendPresent(s1, c, next, parts[1..]);
      FindFirstStable(s1, r, s1.kids[n], r.kids[n], next);
      assert Walk(r, n, base, parts) == [n] + Walk(r, c, next, parts[1..]);
    }
  }

  /** Walking a path that is already present changes nothing. */
  lemma {:induction false} DescendPresentUnchanged(s: Shape, n: nat, base: Path, parts: Path)
    requires s.Valid() && n < |s.data| && Present(s, n, base, parts)
    ensures Descend(s, n, base, parts) == s
    decreases |parts|
  {
    if parts != [] {
      var next := Child(base, parts[0]);
      var j := FindFirst(s, s.kids[n], next);
      assert j < |s.kids[n]|;
      assert Step(s, n, next) == (s, s.kids[n][j]);
      DescendPresentUnchanged(s, s.kids[n][j], next, parts[1..]);
    }
  }

  /** The walk keeps sibling data unique. */
  lemma {:induction false} DescendUnique(s: Shape, n: nat, base: Path, parts: Path)
    requires s.Valid() && n < |s.data| && s.UniqueSiblings()
    ensures Descend(s, n, base, parts).UniqueSiblings()
    decreases |parts|
  {
    if parts != [] {
      var next := Child(base, parts[0]);
      StepUnique(s, n, next);
      var (s1, c) := Step(s, n, next);
      DescendUnique(s1, c, next, parts[1..]);
    }
  }

  /** The walk keeps every child's path one segment longer than its parent's,
      when it starts from a node that holds `base`. */
  lemma {:induction false} DescendCoherent(s: Shape, n: nat, base: Path, parts: Path)
    requires s.Valid() && n < |s.data| && s.Coherent() && s.data[n] == base
    ensures Descend(s, n, base, parts).Coherent()
    decreases |parts|
  {
    if parts != [] {
      var next := Child(base, parts[0]);
      StepCoherent(s, n, base, parts[0]);
      var (s1, c) := Step(s, n, next);
      DescendCoherent(s1, c, next, parts[1..]);
    }
  }

  /** The walk creates at most one node per part. */
  lemma {:induction false} DescendCount(s: Shape, n: nat, base: Path, parts: Path)
    requires s.Valid() && n < |s.data|
    ensures |Descend(s, n, base, parts).data| <= |s.data| + |parts|
    decreases |parts|
  {
    if parts != [] {
      var next := Child(base, parts[0]);
      var (s1, c) := Step(s, n, next);
      DescendCount(s1, c, next, parts[1..]);
    }
  }

  /** Only the nodes on the walk gain children; every other node keeps its list. */
  lemma {:induction false} DescendOffWalk(s: Shape, n: nat, base: Path, parts: Path, i: nat)
    requires s.Valid() && n < |s.data| && i < |s.data|
    requires i !in Walk(Descend(s, n, base, parts), n, base, parts)
    ensures Descend(s, n, base, parts).kids[i] == s.kids[i]
    decreases |parts|
  {
    if parts != [] {
      var next := Child(base, parts[0]);
      var (s1, c) := Step(s, n, next);
      var r := Descend(s1, c, next, parts[1..]);
      FindFirstStable(s1, r, s1.kids[n], r.kids[n], next);
      assert Walk(r, n, base, parts) == [n] + Walk(r, c, next, parts[1..]);
      DescendOffWalk(s1, c, next, parts[1..], i);
    }
  }

  /** What `add_path_to_tree` does: the new tree, and whether `relative_to` succeeded. */
  datatype Insertion = Insertion(shape: Shape, ok: bool)

  /** The position among the top-level nodes of the first one holding `root`. */
  function RootIndex(s: Shape, root: Path): (k: nat)
    requires s.Valid()
    ensures k <= |s.roots|
  {
    FindFirst(s, s.roots, root)
  }

  /** The tree once the root node is found or appended, and that node. */
  function WithRoot(s: Shape, root: Path): (r: (Shape, nat))
    requires s.Valid()
    ensures r.0.Valid() && Grown(s, r.0) && r.1 < |r.0.data| && r.0.data[r.1] == root
    ensures r.1 in r.0.roots
  {
    var k := RootIndex(s, root);
    if k < |s.roots| then (s, s.roots[k]) else (AppendTop(s, root), |s.data|)
  }

  /** tree.py's `add_path_to_tree`: find or append the top-level node for `root`,
      then, when `root` is a prefix of `path`, walk the remaining parts. */
  function InsertPath(s: Shape, path: Path, root: Path): (r: Insertion)
    requires s.Valid()
    ensures r.shape.Valid() && Grown(s, r.shape)
  {
    var found := WithRoot(s, root);
    if IsPrefix(root, path) then
      var r := Descend(found.0, found.1, root, path[|root|..]);
      GrownTrans(s, found.0, r);
      Insertion(r, true)
    else Insertion(found.0, false)
  }

  /** Existing nodes keep their paths, and new children go after the existing
      siblings, whose relative order is unchanged. */
  lemma InsertPathKeepsOrder(s: Shape, path: Path, root: Path)
    requires s.Valid()
    ensures var r := InsertPath(s, path, root).shape;
      && |s.data| <= |r.data| && r.data[..|s.data|] == s.data
      && forall i :: 0 <= i < |s.data| ==> s.kids[i] <= r.kids[i]
  {
    var r := InsertPath(s, path, root).shape;
    assert Grown(s, r);
    assert s.data <= r.data && |s.kids| == |s.data|;
  }

  /** The path is in the tree: below the first top-level node holding `root`,
      each part is found in turn. */
  ghost predicate Contains(s: Shape, path: Path, root: Path)
    requires s.Valid()
  {
    && IsPrefix(root, path)
    && RootIndex(s, root) < |s.roots|
    && Present(s, s.roots[RootIndex(s, root)], root, path[|root|..])
  }


  /** `relative_to` succeeds exactly when `root` is a prefix of `path`; otherwise only
      the root lookup has happened. */
  lemma InsertPathOk(s: Shape, path: Path, root: Path)
    requires s.Valid()
    ensures InsertPath(s, path, root).ok <==> IsPrefix(root, path)
    ensures !IsPrefix(root, path) ==> InsertPath(s, path, root).shape == WithRoot(s, root).0
  {
  }

  /** The top-level list is unchanged when a node holding `root` exists, and
      gains exactly one node holding `root` otherwise. */
  lemma InsertPathRoots(s: Shape, path: Path, root: Path)
    requires s.Valid()
    ensures var r := InsertPath(s, path, root).shape;
      && ((exists k :: 0 <= k < |s.roots| && s.data[s.roots[k]] == root) ==> r.roots == s.roots)
      && ((forall k :: 0 <= k < |s.roots| ==> s.data[s.roots[k]] != root) ==>
            r.roots == s.roots + [|s.data|] && r.data[|s.data|] == root)
  {
  }

  /** After a successful insertion the path is in the tree: a chain of nodes runs
      from the top-level node for `root`, each a child of the one before, the k-th
      holding `root` extended by the first k parts, and the last holding `path`. */
  lemma InsertPathChain(s: Shape, path: Path, root: Path)
    requires s.Valid() && IsPrefix(root, path)
    ensures var r := InsertPath(s, path, root).shape;
      && Contains(r, path, root)
      && var w := Walk(r, r.roots[RootIndex(r, root)], root, path[|root|..]);
         && |w| == |path| - |root| + 1
         && r.data[w[0]] == root
         && Chained(r, w, root, path[|root|..])
         && r.data[w[|w| - 1]] == path
  {
    var found := WithRoot(s, root);
    var r := InsertPath(s, path, root).shape;
    InsertPathDescends(s, path, root);
    RootIndexStable(s, found.0, r, root);
    DescendChain(found.0, found.1, root, path[|root|..]);
    ChainBelowRoot(found.1, r, path, root);
  }

  /** The chain facts, restated for the top-level node the root lookup finds. */
  lemma ChainBelowRoot(top: nat, r: Shape, path: Path, root: Path)
    requires r.Valid() && top < |r.data| && IsPrefix(root, path)
    requires RootIndex(r, root) < |r.roots| && r.roots[RootIndex(r, root)] == top
    requires var w := Walk(r, top, root, path[|root|..]);
      && |w| == |path[|root|..]| + 1 && r.data[w[0]] == root
      && Chained(r, w, root, path[|root|..]) && r.data[w[|w| - 1]] == root + path[|root|..]
    ensures Contains(r, path, root)
    ensures var w := Walk(r, r.roots[RootIndex(r, root)], root, path[|root|..]);
      && |w| == |path| - |root| + 1
      && r.data[w[0]] == root
      && Chained(r, w, root, path[|root|..])
      && r.data[w[|w| - 1]] == path
  {
    assert root + path[|root|..] == path;
  }

  /** A successful insertion is the walk from the node the root lookup gives. */
  lemma InsertPathDescends(s: Shape, path: Path, root: Path)
    requires s.Valid() && IsPrefix(root, path)
    ensures var found := WithRoot(s, root);
      InsertPath(s, path, root) == Insertion(Descend(found.0, found.1, root, path[|root|..]), true)
  {
  }

  /** The walk leaves a complete chain below `n`, ending at `base + parts`. */
  lemma DescendChain(s: Shape, n: nat, base: Path, parts: Path)
    requires s.Valid() && n < |s.data| && (parts == [] ==> s.data[n] == base)
    ensures var r := Descend(s, n, base, parts);
      var w := Walk(r, n, base, parts);
      && Present(r, n, base, parts) && |w| == |parts| + 1 && r.data[w[0]] == s.data[n]
      && Chained(r, w, base, parts) && r.data[w[|w| - 1]] == base + parts
  {
    var r := Descend(s, n, base, parts);
    DescendPresent(s, n, base, parts);
    WalkChain(r, n, base, parts);
    assert r.data[n] == s.data[n];
    ChainEnd(r, Walk(r, n, base, parts), base, parts);
  }

  /** A complete chain ends at a node holding `base + parts` (for no parts, the
      start must hold `base`). */
  lemma ChainEnd(s: Shape, w: seq<nat>, base: Path, parts: Path)
    requires |w| == |parts| + 1 && w[0] < |s.data| && Chained(s, w, base, parts)
    requires parts == [] ==> s.data[w[0]] == base
    ensures w[|w| - 1] < |s.data| && s.data[w[|w| - 1]] == base + parts
  {
    if parts != [] {
      assert Link(s, w, base, parts, |w| - 2);
      assert parts[..|parts|] == parts;
    }
  }

  /** The root lookup finds the same node in any tree grown from one where it succeeds. */
  lemma RootIndexStable(s: Shape, s1: Shape, r: Shape, root: Path)
    requires s.Valid() && s1 == WithRoot(s, root).0 && r.Valid() && Grown(s1, r)
    ensures RootIndex(r, root) < |r.roots| && r.roots[RootIndex(r, root)] == WithRoot(s, root).1
  {
    var k := RootIndex(s, root);
    if k < |s.roots| {
      FindFirstStable(s, r, s.roots, r.roots, root);
    } else {
      FindFirstGrown(s, s1, s.roots, root);
      FindFirstAppend(s1, s.roots, |s.data|, root);
      FindFirstStable(s1, r, s1.roots, r.roots, root);
    }
  }

  /** Inserting a path the tree already contains changes nothing. */
  lemma InsertPathPresent(s: Shape, path: Path, root: Path)
    requires s.Valid() && Contains(s, path, root)
    ensures InsertPath(s, path, root) == Insertion(s, true)
  {
    DescendPresentUnchanged(s, s.roots[RootIndex(s, root)], root, path[|root|..]);
  }

  /** Adding the same path twice gives the same tree as adding it once. */
  lemma InsertPathIdempotent(s: Shape, path: Path, root: Path)
    requires s.Valid()
    ensures var once := InsertPath(s, path, root);
      InsertPath(once.shape, path, root) == once
  {
    var once := InsertPath(s, path, root);
    if IsPrefix(root, path) {
      InsertPathChain(s, path, root);
      InsertPathPresent(once.shape, path, root);
    } else {
      var s1 := WithRoot(s, root).0;
      RootIndexStable(s, s1, s1, root);
    }
  }

  /** A node is created only for a part with no sibling holding its path, so
      sibling data stays unique. */
  lemma InsertPathUnique(s: Shape, path: Path, root: Path)
    requires s.Valid() && s.UniqueSiblings()
    ensures InsertPath(s, path, root).shape.UniqueSiblings()
  {
    var found := WithRoot(s, root);
    var s1, top := found.0, found.1;
    assert s1.UniqueSiblings();
    if IsPrefix(root, path) {
      DescendUnique(s1, top, root, path[|root|..]);
    }
  }

  /** Every child's path stays its parent's path plus one segment. */
  lemma InsertPathCoherent(s: Shape, path: Path, root: Path)
    requires s.Valid() && s.Coherent()
    ensures InsertPath(s, path, root).shape.Coherent()
  {
    var found := WithRoot(s, root);
    var s1, top := found.0, found.1;
    assert s1.Coherent();
    if IsPrefix(root, path) {
      DescendCoherent(s1, top, root, path[|root|..]);
    }
  }

  /** At most one node per part, plus possibly the root node, is created, and
      none when the path is already there. */
  lemma InsertPathCount(s: Shape, path: Path, root: Path)
    requires s.Valid()
    ensures var r := InsertPath(s, path, root);
      |r.shape.data| <= |s.data| + 1 + (if r.ok then |path| - |root| else 0)
  {
    var found := WithRoot(s, root);
    var s1, top := found.0, found.1;
    if IsPrefix(root, path) {
      DescendCount(s1, top, root, path[|root|..]);
    }
  }

  /** Nodes that were in the tree and are off the inserted chain keep their children. */
  lemma InsertPathOffChain(s: Shape, path: Path, root: Path, i: nat)
    requires s.Valid() && IsPrefix(root, path) && i < |s.data|
    requires var r := InsertPath(s, path, root).shape;
      RootIndex(r, root) < |r.roots| && i !in Walk(r, r.roots[RootIndex(r, root)], root, path[|root|..])
    ensures InsertPath(s, path, root).shape.kids[i] == s.kids[i]
  {
    var found := WithRoot(s, root);
    var s1, top := found.0, found.1;
    var r := Descend(s1, top, root, path[|root|..]);
    RootIndexStable(s, s1, r, root);
    DescendOffWalk(s1, top, root, path[|root|..], i);
  }

  /** tree.py's `add_path_to_tree(tree, path, root)`, on the tree in place. It
      returns false where `path.relative_to(root)` raises ValueError. */
  method AddPathToTree(t: Tree, path: Path, root: Path) returns (ok: bool)
    requires t.Valid()
    modifies t
    ensures t.Valid()
    ensures Insertion(t.Snapshot(), ok) == InsertPath(old(t.Snapshot()), path, root)
  {
    ghost var s0 := t.Snapshot();
    var k := FindFirst(t.Snapshot(), t.roots, root);
    var rootNode: nat;
    if k < |t.roots| {
      rootNode := t.roots[k];
    } else {
      rootNode := t.Add(root);
    }
    assert (t.Snapshot(), rootNode) == WithRoot(s0, root);
    if !IsPrefix(root, path) {
      return false;
    }
    DescendInPlace(t, rootNode, root, path[|root|..]);
    ok := true;
  }

  /** The loop shared by both builders: for each part, move the cursor to the
      first child holding the extended path, adding that child when there is
      none. The tree ends up exactly as `Descend` says. */
  method DescendInPlace(t: Tree, node: nat, base: Path, parts: Path)
    requires t.Valid() && node < |t.data|
    modifies t
    ensures t.Valid() && t.Snapshot() == Descend(old(t.Snapshot()), node, base, parts)
  {
    ghost var goal := Descend(t.Snapshot(), node, base, parts);
    var cursorNode: nat, cursorPath: Path := node, base;
    for i := 0 to |parts|
      invariant t.Valid() && cursorNode < |t.data|
      invariant Descend(t.Snapshot(), cursorNode, cursorPath, parts[i..]) == goal
    {
      ghost var before, from := t.Snapshot(), cursorNode;
      cursorPath := Child(cursorPath, parts[i]);
      var j := FindFirst(t.Snapshot(), t.kids[cursorNode], cursorPath);
      var child: nat;
      if j < |t.kids[cursorNode]| {
        child := t.kids[cursorNode][j];
      } else {
        child := t.AddChild(cursorNode, cursorPath);
      }
      cursorNode := child;
      assert (t.Snapshot(), cursorNode) == Step(before, from, cursorPath);
      assert parts[i..][1..] == parts[i + 1..];
    }
  }

  /** The `git ls-files` switches `build_ls_files_args` may pass. */
  const OthersSwitch := "--others"
  const StageSwitch := "--stage"
  const CachedSwitch := "--cached"
  const ExcludeStandardSwitch := "--exclude-standard"
  const RecurseSubmodulesSwitch := "--recurse-submodules"
  const ExcludePrefix := "--exclude="

  /** `[name]` when `on`, and nothing otherwise. */
  function Flag(on: bool, name: string): (r: seq<string>)
    ensures on ==> r == [name]
    ensures !on ==> r == []
  {
    if on then [name] else []
  }

  /** One `--exclude=<pattern>` argument per pattern, in iteration order. */
  function ExcludeArgs(patterns: seq<string>): (r: seq<string>)
    ensures |r| == |patterns|
    ensures forall i :: 0 <= i < |patterns| ==> r[i] == ExcludePrefix + patterns[i]
  {
    seq(|patterns|, i requires 0 <= i < |patterns| => ExcludePrefix + patterns[i])
  }

  /** Taking one more pattern adds its argument at the end. */
  lemma ExcludeArgsSnoc(patterns: seq<string>, i: nat)
    requires i < |patterns|
    ensures ExcludeArgs(patterns[..i + 1]) == ExcludeArgs(patterns[..i]) + [ExcludePrefix + patterns[i]]
  {
    assert patterns[..i + 1][..i] == patterns[..i];
  }

  /** The switches that come before the exclusions, in the order the source
      tests them. */
  function LeadingFlags(others: bool, stage: bool, cached: bool, excludeStandard: bool): (r: seq<string>)
    ensures |r| == (if others then 1 else 0) + (if stage then 1 else 0) + (if cached then 1 else 0)
      + (if excludeStandard then 1 else 0)
  {
    Flag(others, OthersSwitch) + Flag(stage, StageSwitch) + Flag(cached, CachedSwitch)
      + Flag(excludeStandard, ExcludeStandardSwitch)
  }

  /** The arguments after the exclusions: `--recurse-submodules` when untracked
      files are not listed, then the directory. */
  function Trailer(directory: Path, others: bool): (r: seq<string>)
    ensures |r| == (if others then 1 else 2) && r[|r| - 1] == PathString(directory)
    ensures !others ==> r[0] == RecurseSubmodulesSwitch
  {
    Flag(!others, RecurseSubmodulesSwitch) + [PathString(directory)]
  }

  /** The argument list `build_ls_files_args` returns: the chosen switches,
      the exclusions (given as a sequence in Python's iteration order), then
      the trailer. The directory is always last. */
  function LsFilesArgs(directory: Path, exclude: seq<string>, others: bool, stage: bool, cached: bool,
                       excludeStandard: bool): (r: seq<string>)
    ensures |r| == |LeadingFlags(others, stage, cached, excludeStandard)| + |exclude| + (if others then 1 else 2)
    ensures r[|r| - 1] == PathString(directory)
  {
    LeadingFlags(others, stage, cached, excludeStandard) + ExcludeArgs(exclude) + Trailer(directory, others)
  }

  /** The layout of the list: the chosen switches first, in the order the
      source tests them, then one argument per exclusion pattern in order, then
      `--recurse-submodules` exactly when untracked files are not listed, right
      before the directory. */
  lemma LsFilesArgsLayout(directory: Path, exclude: seq<string>, others: bool, stage: bool, cached: bool,
                          excludeStandard: bool)
    ensures var r := LsFilesArgs(directory, exclude, others, stage, cached, excludeStandard);
      var lead := |LeadingFlags(others, stage, cached, excludeStandard)|;
      && r[..lead] == LeadingFlags(others, stage, cached, excludeStandard)
      && (forall i :: 0 <= i < |exclude| ==> r[lead + i] == ExcludePrefix + exclude[i])
      && (!others ==> r[|r| - 2] == RecurseSubmodulesSwitch)
  {
    var lead, ex, tail := LeadingFlags(others, stage, cached, excludeStandard), ExcludeArgs(exclude),
      Trailer(directory, others);
    var r := lead + ex + tail;
    assert r == LsFilesArgs(directory, exclude, others, stage, cached, excludeStandard);
    assert r[..|lead|] == lead;
    assert forall i :: 0 <= i < |ex| ==> r[|lead| + i] == ex[i];
    assert !others ==> r[|r| - 2] == tail[0];
  }

  /** tree.py's `build_ls_files_args`, appending to a list. */
  method BuildLsFilesArgs(directory: Path, exclude: seq<string>, others: bool, stage: bool, cached: bool,
                          excludeStandard: bool) returns (lsFilesArgs: seq<string>)
    ensures lsFilesArgs == LsFilesArgs(directory, exclude, others, stage, cached, excludeStandard)
  {
    lsFilesArgs := [];
    if others {
      lsFilesArgs := lsFilesArgs + [OthersSwitch];
    }
    assert lsFilesArgs == Flag(others, OthersSwitch);
    if stage {
      lsFilesArgs := lsFilesArgs + [StageSwitch];
    }
    assert lsFilesArgs == Flag(others, OthersSwitch) + Flag(stage, StageSwitch);
    if cached {
      lsFilesArgs := lsFilesArgs + [CachedSwitch];
    }
    assert lsFilesArgs == Flag(others, OthersSwitch) + Flag(stage, StageSwitch) + Flag(cached, CachedSwitch);
    if excludeStandard {
      lsFilesArgs := lsFilesArgs + [ExcludeStandardSwitch];
    }
    ghost var flags := lsFilesArgs;
    assert flags == LeadingFlags(others, stage, cached, excludeStandard);
    for i := 0 to |exclude|
      invariant lsFilesArgs == flags + ExcludeArgs(exclude[..i])
    {
      lsFilesArgs := lsFilesArgs + [ExcludePrefix + exclude[i]];
      ExcludeArgsSnoc(exclude, i);
    }
    assert exclude[..|exclude|] == exclude;
    if !others {
      lsFilesArgs := lsFilesArgs + [RecurseSubmodulesSwitch];
    }
    assert lsFilesArgs == flags + ExcludeArgs(exclude) + Flag(!others, RecurseSubmodulesSwitch);
    lsFilesArgs := lsFilesArgs + [PathString(directory)];
    assert lsFilesArgs == flags + ExcludeArgs(exclude) + Trailer(directory, others);
  }

  /** No exclusion argument can be mistaken for one of the switches. */
  lemma ExcludeArgsAreNotFlags(patterns: seq<string>)
    ensures OthersSwitch !in ExcludeArgs(patterns) && StageSwitch !in ExcludeArgs(patterns)
    ensures CachedSwitch !in ExcludeArgs(patterns) && ExcludeStandardSwitch !in ExcludeArgs(patterns)
    ensures RecurseSubmodulesSwitch !in ExcludeArgs(patterns)
  {
    forall i | 0 <= i < |patterns|
      ensures ExcludeArgs(patterns)[i] != OthersSwitch && ExcludeArgs(patterns)[i] != StageSwitch
      ensures ExcludeArgs(patterns)[i] != CachedSwitch && ExcludeArgs(patterns)[i] != ExcludeStandardSwitch
      ensures ExcludeArgs(patterns)[i] != RecurseSubmodulesSwitch
    {
      var a := ExcludeArgs(patterns)[i];
      assert a[2] == 'e' && a[9] == '=';
    }
  }

  /** Each switch appears among the options exactly when it was asked for, and
      `--recurse-submodules` exactly when `--others` was not, so never both. */
  lemma LsFilesArgsFlags(directory: Path, exclude: seq<string>, others: bool, stage: bool, cached: bool,
                         excludeStandard: bool)
    ensures var r := LsFilesArgs(directory, exclude, others, stage, cached, excludeStandard);
      var options := r[..|r| - 1];
      && (OthersSwitch in options <==> others)
      && (StageSwitch in options <==> stage)
      && (CachedSwitch in options <==> cached)
      && (ExcludeStandardSwitch in options <==> excludeStandard)
      && (RecurseSubmodulesSwitch in options <==> !others)
  {
    var r := LsFilesArgs(directory, exclude, others, stage, cached, excludeStandard);
    var o, st, c, es := Flag(others, OthersSwitch), Flag(stage, StageSwitch), Flag(cached, CachedSwitch),
      Flag(excludeStandard, ExcludeStandardSwitch);
    var ex, rs := ExcludeArgs(exclude), Flag(!others, RecurseSubmodulesSwitch);
    assert r[..|r| - 1] == o + st + c + es + ex + rs;
    ExcludeArgsAreNotFlags(exclude);
    // The five switches differ in their third character.
    assert OthersSwitch[2] == 'o' && StageSwitch[2] == 's' && CachedSwitch[2] == 'c';
    assert ExcludeStandardSwitch[2] == 'e' && RecurseSubmodulesSwitch[2] == 'r';
    forall x | x in [OthersSwitch, StageSwitch, CachedSwitch, ExcludeStandardSwitch, RecurseSubmodulesSwitch]
      ensures x in r[..|r| - 1] <==> x in o || x in st || x in c || x in es || x in rs
    {
      assert x !in ex;
    }
  }
}
