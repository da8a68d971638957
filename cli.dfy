/**
 * _cli.py: the older builder (`add_path_to_tree`, which always descends from
 * the first top-level node) and the older YAML formatting (`indent_string` and
 * the `_get_prefix`/`_get_suffix`/`yaml_formatter` closures of
 * `generate_yaml_output`, with its empty-tree guard), related to tree.py's
 * and formatters.py's versions.
 */
module Cli {
  import opened Types
  import opened Strings
  import opened Paths
  import opened Forests
  import opened TreeBuilder
  import Formatters

  /** The tree once the node to descend from is chosen: the first top-level node,
      or a new top-level node holding `root` when there is none. */
  function FirstRoot(s: Shape, root: Path): (r: (Shape, nat))
    requires s.Valid()
    ensures r.0.Valid() && Grown(s, r.0) && r.1 < |r.0.data| && r.0.roots != [] && r.0.roots[0] == r.1
    ensures s.roots != [] ==> r.0 == s
    ensures s.roots == [] ==> r.0.data[r.1] == root && r.0.roots == [r.1]
  {
    if s.roots != [] then (s, s.roots[0]) else (AppendTop(s, root), |s.data|)
  }

  /** _cli.py's `add_path_to_tree`: `relative_to` first (raising before the tree
      is touched), nothing for an empty relative path, and otherwise the walk
      from the first top-level node. */
  function CliInsert(s: Shape, path: Path, root: Path): (r: Insertion)
    requires s.Valid()
    ensures r.shape.Valid() && Grown(s, r.shape)
  {
    if !IsPrefix(root, path) then Insertion(s, false)
    else if |path| == |root| then Insertion(s, true)
    else Insertion(CliWalk(s, root, path[|root|..]), true)
  }

  /** The walk over `parts` from the first top-level node, made first if need be. */
  function CliWalk(s: Shape, root: Path, parts: Path): (r: Shape)
    requires s.Valid()
    ensures r.Valid() && Grown(s, r)
  {
    var first := FirstRoot(s, root);
    GrownTrans(s, first.0, Descend(first.0, first.1, root, parts));
    Descend(first.0, first.1, root, parts)
  }

  /** Existing nodes keep their paths, and new children go after the existing
      siblings, whose relative order is unchanged. */
  lemma CliInsertKeepsOrder(s: Shape, path: Path, root: Path)
    requires s.Valid()
    ensures var r := CliInsert(s, path, root).shape;
      && |s.data| <= |r.data| && r.data[..|s.data|] == s.data
      && forall i :: 0 <= i < |s.data| ==> s.kids[i] <= r.kids[i]
  {
  }

  /** The path is in the tree below the first top-level node. */
  ghost predicate CliContains(s: Shape, path: Path, root: Path)
    requires s.Valid()
  {
    IsPrefix(root, path) && (|path| == |root| || (s.roots != [] && Present(s, s.roots[0], root, path[|root|..])))
  }

  /** When `root` is not a prefix of `path`, or the relative path has no parts,
      the tree is left exactly as it was. */
  lemma CliInsertUnchanged(s: Shape, path: Path, root: Path)
    requires s.Valid()
    ensures CliInsert(s, path, root).ok <==> IsPrefix(root, path)
    ensures !IsPrefix(root, path) || path == root ==> CliInsert(s, path, root).shape == s
  {
    if IsPrefix(root, path) && path == root {
      assert |path| == |root|;
    }
  }

  /** The top-level list changes only when it was empty, and then gains one
      node holding `root`; in every other case the walk starts from the first
      top-level node whatever it holds. */
  lemma CliInsertRoots(s: Shape, path: Path, root: Path)
    requires s.Valid()
    ensures var r := CliInsert(s, path, root).shape;
      && (s.roots != [] ==> r.roots == s.roots)
      && (s.roots == [] && IsPrefix(root, path) && path != root ==> r.roots == [|s.data|] && r.data[|s.data|] == root)
  {
    if IsPrefix(root, path) && path != root {
      assert |root| < |path|;
    }
  }

  /** After a successful insertion of a non-empty relative path there is a chain
      from the first top-level node whose k-th node (k >= 1) holds `root` joined
      with the first k parts, and whose last node holds `path` itself. */
  lemma CliInsertChain(s: Shape, path: Path, root: Path)
    requires s.Valid() && IsPrefix(root, path) && path != root
    ensures var r := CliInsert(s, path, root).shape;
      && r.roots != [] && CliContains(r, path, root)
      && var w := Walk(r, r.roots[0], root, path[|root|..]);
         && |w| == |path| - |root| + 1
         && Chained(r, w, root, path[|root|..])
         && r.data[w[|w| - 1]] == path
  {
    var parts := path[|root|..];
    var first := FirstRoot(s, root);
    CliInsertDescends(s, path, root);
    DescendChain(first.0, first.1, root, parts);
    CliChainBelowFirst(CliInsert(s, path, root).shape, path, root);
  }

  /** The chain facts, restated for the first top-level node. */
  lemma CliChainBelowFirst(r: Shape, path: Path, root: Path)
    requires r.Valid() && r.roots != [] && IsPrefix(root, path)
    requires var w := Walk(r, r.roots[0], root, path[|root|..]);
      && |w| == |path[|root|..]| + 1
      && Chained(r, w, root, path[|root|..]) && r.data[w[|w| - 1]] == root + path[|root|..]
    ensures CliContains(r, path, root)
    ensures var w := Walk(r, r.roots[0], root, path[|root|..]);
      && |w| == |path| - |root| + 1
      && Chained(r, w, root, path[|root|..])
      && r.data[w[|w| - 1]] == path
  {
    assert root + path[|root|..] == path;
  }

  /** With a non-empty relative path, the insertion is the walk from the first
      top-level node. */
  lemma CliInsertDescends(s: Shape, path: Path, root: Path)
    requires s.Valid() && IsPrefix(root, path) && path != root
    ensures |root| < |path|
    ensures var first := FirstRoot(s, root);
      CliInsert(s, path, root) == Insertion(Descend(first.0, first.1, root, path[|root|..]), true)
  {
  }

  /** Inserting a path the tree already contains creates no node. */
  lemma CliInsertPresent(s: Shape, path: Path, root: Path)
    requires s.Valid() && CliContains(s, path, root)
    ensures CliInsert(s, path, root) == Insertion(s, true)
  {
    if |root| < |path| {
      DescendPresentUnchanged(s, s.roots[0], root, path[|root|..]);
    }
  }

  /** Adding the same path twice gives the same tree as adding it once. */
  lemma CliInsertIdempotent(s: Shape, path: Path, root: Path)
    requires s.Valid()
    ensures var once := CliInsert(s, path, root);
      CliInsert(once.shape, path, root) == once
  {
    var once := CliInsert(s, path, root);
    if IsPrefix(root, path) && path != root {
      CliInsertChain(s, path, root);
      CliInsertPresent(once.shape, path, root);
    } else if IsPrefix(root, path) {
      assert |path| == |root|;
    }
  }

  /** Sibling data stays unique. */
  lemma CliInsertUnique(s: Shape, path: Path, root: Path)
    requires s.Valid() && s.UniqueSiblings()
    ensures CliInsert(s, path, root).shape.UniqueSiblings()
  {
    if IsPrefix(root, path) && |root| < |path| {
      var first := FirstRoot(s, root);
      CliInsertDescends(s, path, root);
      FirstRootUnique(s, root);
      DescendUnique(first.0, first.1, root, path[|root|..]);
    }
  }

  /** Choosing the first top-level node keeps sibling data unique: a root node
      is only made in a tree with no top-level node. */
  lemma FirstRootUnique(s: Shape, root: Path)
    requires s.Valid() && s.UniqueSiblings()
    ensures FirstRoot(s, root).0.UniqueSiblings()
  {
    if s.roots == [] {
      var r := AppendTop(s, root);
      assert r.roots == [|s.data|];
      assert forall i :: 0 <= i < |s.data| ==> r.kids[i] == s.kids[i];
    }
  }

  /** When the first top-level node holds `root` (or there is none yet), the
      two builders agree on every path with a non-empty relative part; they
      differ when the relative part is empty, where tree.py still creates the
      root node. */
  lemma BuildersAgree(s: Shape, path: Path, root: Path)
    requires s.Valid() && (s.roots == [] || s.data[s.roots[0]] == root)
    requires !IsPrefix(root, path) || path != root
    ensures s.roots != [] ==> CliInsert(s, path, root) == InsertPath(s, path, root)
    ensures s.roots == [] && IsPrefix(root, path) ==> CliInsert(s, path, root) == InsertPath(s, path, root)
  {
    if s.roots != [] {
      assert RootIndex(s, root) == 0;
    }
    assert WithRoot(s, root) == FirstRoot(s, root);
    if IsPrefix(root, path) {
      assert |root| < |path|;
    }
  }

  /** With a first top-level node that holds `root`, every child's path stays
      its parent's path plus one segment. */
  lemma CliInsertCoherent(s: Shape, path: Path, root: Path)
    requires s.Valid() && s.Coherent() && (s.roots == [] || s.data[s.roots[0]] == root)
    ensures CliInsert(s, path, root).shape.Coherent()
  {
    if IsPrefix(root, path) && |root| < |path| {
      var first := FirstRoot(s, root);
      DescendCoherent(first.0, first.1, root, path[|root|..]);
    }
  }

  /** _cli.py's `add_path_to_tree(tree, path, root_path)`, on the tree in place.
      It returns false where `path.relative_to(root_path)` raises ValueError. */
  method AddPathToTree(t: Tree, path: Path, rootPath: Path) returns (ok: bool)
    requires t.Valid()
    modifies t
    ensures t.Valid()
    ensures Insertion(t.Snapshot(), ok) == CliInsert(old(t.Snapshot()), path, rootPath)
  {
    ghost var s0 := t.Snapshot();
    if !IsPrefix(rootPath, path) {
      return false;
    }
    var parts := path[|rootPath|..];
    if |parts| == 0 {
      return true;
    }
    var first := t.FirstChild();
    var currentNode: nat;
    if first.None? {
      currentNode := t.Add(rootPath);
    } else {
      currentNode := first.value;
    }
    assert (t.Snapshot(), currentNode) == FirstRoot(s0, rootPath);
    DescendInPlace(t, currentNode, rootPath, parts);
    ok := true;
  }

  /** _cli.py's `indent_string`: the unit repeated `indent_count` times, then the
      string, so that a count of 0 leaves the string unchanged. */
  function IndentString(str: string, count: int, width: int, kind: IndentType): (r: string)
    ensures count <= 0 ==> r == str
    ensures EndsWith(r, str)
  {
    Repeat(Formatters.IndentUnit(width, kind), count) + str
  }

  /** The two `indent_string` versions agree on every count except 0, where
      formatters.py's drops the string and _cli.py's keeps it. */
  lemma IndentStringsAgree(str: string, count: int, width: int, kind: IndentType)
    ensures count != 0 ==> IndentString(str, count, width, kind) == Formatters.IndentString(str, count, width, kind)
    ensures count == 0 ==> IndentString(str, count, width, kind) == str && Formatters.IndentString(str, count, width, kind) == ""
  {
  }

  /** The parents yielded by `_iter_parent`, nearest first. */
  function Ancestors(s: Shape, n: nat): (r: seq<nat>)
    requires s.Valid() && n < |s.data|
    ensures forall i :: 0 <= i < |r| ==> r[i] < n
    decreases n
  {
    if s.parent[n] == TopLevel then [] else [s.parent[n]] + Ancestors(s, s.parent[n])
  }

  /** Counting the yielded parents gives the node's depth, and they form its
      parent chain: each is the parent of the one before. */
  lemma {:induction false} AncestorsCount(s: Shape, n: nat)
    requires s.Valid() && n < |s.data|
    ensures |Ancestors(s, n)| == Depth(s, n)
    ensures Ancestors(s, n) != [] ==> Ancestors(s, n)[0] == s.parent[n]
    ensures forall i :: 0 < i < |Ancestors(s, n)| ==> Ancestors(s, n)[i] == s.parent[Ancestors(s, n)[i - 1]]
    decreases n
  {
    if s.parent[n] != TopLevel {
      AncestorsCount(s, s.parent[n]);
    }
  }

  /** `_get_prefix`: nothing for a parentless node, otherwise `indent_string("- ", depth)`. */
  function GetPrefix(s: Shape, n: nat, width: int, kind: IndentType): (r: string)
    requires s.Valid() && n < |s.data|
    ensures s.parent[n] == TopLevel ==> r == ""
    ensures s.parent[n] != TopLevel ==> EndsWith(r, "- ")
  {
    if s.parent[n] == TopLevel then ""
    else IndentString("- ", |Ancestors(s, n)|, width, kind)
  }

  /** `_get_prefix` gives the same prefix as formatters.py's `get_prefix`, for every node. */
  lemma PrefixesAgree(s: Shape, n: nat, width: int, kind: IndentType)
    requires s.Valid() && n < |s.data|
    ensures GetPrefix(s, n, width, kind) == Formatters.GetPrefix(s, n, width, kind)
  {
    AncestorsCount(s, n);
  }

  /** _cli.py's `path_node_formatter`: the last segment of the absolute path,
      with "/" for directories. */
  function PathNodeFormatter(s: Shape, n: nat, cwd: Path, isDir: Path -> bool): (r: string)
    requires n < |s.data|
    ensures EndsWith(r, "/") <==> isDir(s.data[n])
  {
    var name := Name(Absolute(cwd, s.data[n]));
    assert name != "" ==> name[|name| - 1] in name;
    if isDir(s.data[n]) then name + "/" else name
  }

  /** The two `path_node_formatter` versions give the same label: the last
      segment of the absolute path is the path's own last one whenever it has one. */
  lemma NodeFormattersAgree(s: Shape, n: nat, cwd: Path, isDir: Path -> bool)
    requires n < |s.data|
    ensures PathNodeFormatter(s, n, cwd, isDir) == Formatters.PathNodeFormatter(s, n, cwd, isDir)
  {
    assert Absolute(cwd, s.data[n]) == cwd + s.data[n];
    if s.data[n] == [] {
      assert cwd + s.data[n] == cwd;
    }
  }

  /** The `yaml_formatter` closure of `generate_yaml_output`. */
  function YamlFormatter(s: Shape, n: nat, cwd: Path, isDir: Path -> bool): (r: string)
    requires s.Valid() && n < |s.data|
    ensures StartsWith(r, GetPrefix(s, n, Formatters.DefaultWidth, Formatters.DefaultIndent))
    ensures isDir(s.data[n]) ==> EndsWith(r, "/:")
  {
    GetPrefix(s, n, Formatters.DefaultWidth, Formatters.DefaultIndent)
      + PathNodeFormatter(s, n, cwd, isDir) + Formatters.GetSuffix(s, n, isDir)
  }

  /** The closure formats every node exactly as formatters.py's `yaml_formatter`. */
  lemma YamlFormattersAgree(s: Shape, n: nat, cwd: Path, isDir: Path -> bool)
    requires s.Valid() && n < |s.data|
    ensures YamlFormatter(s, n, cwd, isDir) == Formatters.YamlFormatter(s, n, cwd, isDir)
  {
    PrefixesAgree(s, n, Formatters.DefaultWidth, Formatters.DefaultIndent);
    NodeFormattersAgree(s, n, cwd, isDir);
  }

  /** The guard of _cli.py's `generate_yaml_output`: no first top-level node, or one without children. */
  predicate NothingToRender(s: Shape)
    requires s.Valid()
  {
    s.roots == [] || s.kids[s.roots[0]] == []
  }

  /** _cli.py's `generate_yaml_output`: the empty string under the guard, and
      otherwise one line per node in pre-order (nutree's "list" style), joined by newlines. */
  function GenerateYamlOutput(s: Shape, cwd: Path, isDir: Path -> bool): (r: string)
    requires s.Valid()
    ensures r == "" <==> NothingToRender(s)
  {
    if NothingToRender(s) then ""
    else
      var ids := Nodes(s);
      var lines := seq(|ids|, i requires 0 <= i < |ids| => YamlFormatter(s, ids[i], cwd, isDir));
      PreorderOfParent(s, s.roots[0]);
      assert |ids| >= |Preorder(s, s.roots[0])|;
      JoinNonEmpty("\n", lines);
      Join("\n", lines)
  }

  /** Past the guard, the older rendering is formatters.py's rendering. */
  lemma YamlOutputsAgree(s: Shape, cwd: Path, isDir: Path -> bool)
    requires s.Valid() && !NothingToRender(s)
    ensures GenerateYamlOutput(s, cwd, isDir) == Formatters.GenerateYamlOutput(s, cwd, isDir)
  {
    var ids := Nodes(s);
    forall i | 0 <= i < |ids|
      ensures YamlFormatter(s, ids[i], cwd, isDir) == Formatters.YamlFormatter(s, ids[i], cwd, isDir)
    {
      YamlFormattersAgree(s, ids[i], cwd, isDir);
    }
    assert seq(|ids|, i requires 0 <= i < |ids| => YamlFormatter(s, ids[i], cwd, isDir))
        == Formatters.YamlLines(s, ids, cwd, isDir);
  }
}
