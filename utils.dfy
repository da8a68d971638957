/**
 * utils.py: `empty_list_if_none`, `resolve_repo_paths` and the output
 * format dispatch `generate_output_content`.
 */
module Utils {
  import opened Types
  import opened Strings
  import opened Paths
  import opened Forests
  import Formatters

  /** `value or []`: an absent list (and, being falsy, an empty one) gives `[]`. */
  function EmptyListIfNone<T>(value: Option<seq<T>>): (r: seq<T>)
    ensures value.None? ==> r == []
    ensures value.Some? ==> r == value.value
  {
    match value
    case None => []
    case Some(items) => if |items| == 0 then [] else items
  }

  /** One repository path made relative to `root`: the stripped form when
      `relative_to` succeeds, and the path unchanged when it raises. */
  function Resolve(p: Path, root: Path): (r: Path)
    ensures IsPrefix(root, p) ==> root + r == p
    ensures !IsPrefix(root, p) ==> r == p
  {
    match RelativeTo(p, root)
    case Some(rel) => rel
    case None => p
  }

  /** The set of resolved forms of `ps`, adding them one element at a time. */
  function Image(ps: seq<Path>, root: Path): set<Path>
    decreases |ps|
  {
    if ps == [] then {} else Image(ps[..|ps| - 1], root) + {Resolve(ps[|ps| - 1], root)}
  }

  /** A path is in the image exactly when some input resolves to it. */
  lemma {:induction false} ImageMembers(ps: seq<Path>, root: Path, q: Path)
    ensures q in Image(ps, root) <==> exists i :: 0 <= i < |ps| && Resolve(ps[i], root) == q
    decreases |ps|
  {
    if ps != [] {
      var init := ps[..|ps| - 1];
      ImageMembers(init, root, q);
      if q in Image(init, root) {
        var i :| 0 <= i < |init| && Resolve(init[i], root) == q;
        assert ps[i] == init[i];
      }
      if i :| 0 <= i < |ps| && Resolve(ps[i], root) == q {
        if i < |init| {
          assert init[i] == ps[i];
        }
      }
    }
  }

  /** The image has no more elements than there are inputs. */
  lemma {:induction false} ImageSize(ps: seq<Path>, root: Path)
    ensures |Image(ps, root)| <= |ps|
    decreases |ps|
  {
    if ps != [] {
      ImageSize(ps[..|ps| - 1], root);
    }
  }

  /** What `resolve_repo_paths` returns: `{root}` for no paths, otherwise the
      set of resolved paths. */
  function ResolvedPaths(repoPaths: seq<Path>, root: Path): (r: set<Path>)
  {
    if repoPaths == [] then {root} else Image(repoPaths, root)
  }

  /** `{root}` for no input; otherwise exactly the resolved forms of the inputs:
      the stripped form of each path under `root`, and every other path itself. */
  lemma ResolvedPathsMembers(repoPaths: seq<Path>, root: Path, q: Path)
    ensures repoPaths == [] ==> ResolvedPaths(repoPaths, root) == {root}
    ensures repoPaths != [] ==>
      (q in ResolvedPaths(repoPaths, root) <==> exists i :: 0 <= i < |repoPaths| && Resolve(repoPaths[i], root) == q)
  {
    ImageMembers(repoPaths, root, q);
  }

  /** For non-empty input the result has between 1 and `|repoPaths|` elements. */
  lemma ResolvedPathsSize(repoPaths: seq<Path>, root: Path)
    requires repoPaths != []
    ensures 1 <= |ResolvedPaths(repoPaths, root)| <= |repoPaths|
  {
    ImageSize(repoPaths, root);
    ImageMembers(repoPaths, root, Resolve(repoPaths[0], root));
  }

  /** utils.py's `resolve_repo_paths`, adding each resolved path to a set. */
  method ResolveRepoPaths(repoPaths: seq<Path>, rootNode: Path) returns (r: set<Path>)
    ensures r == ResolvedPaths(repoPaths, rootNode)
  {
    if repoPaths == [] {
      return {rootNode};
    }
    r := {};
    for i := 0 to |repoPaths|
      invariant r == Image(repoPaths[..i], rootNode)
    {
      var pathObj := repoPaths[i];
      var rel := RelativeTo(pathObj, rootNode);
      if rel.Some? {
        r := r + {rel.value};
      } else {
        r := r + {pathObj};
      }
      assert repoPaths[..i + 1][..i] == repoPaths[..i];
    }
    assert repoPaths[..|repoPaths|] == repoPaths;
  }

  /** `repr` of a plain string: the string between single quotes. */
  function Quoted(item: string): (r: string)
    ensures |r| == |item| + 2 && r[0] == '\'' && r[|r| - 1] == '\'' && r[1..|r| - 1] == item
  {
    "'" + item + "'"
  }

  /** The quoted options in the given order. */
  function QuotedAll(items: seq<string>): (r: seq<string>)
    ensures |r| == |items| && forall i :: 0 <= i < |items| ==> r[i] == Quoted(items[i])
  {
    seq(|items|, i requires 0 <= i < |items| => Quoted(items[i]))
  }

  /** `str(s)` of a Python set of flag strings, listing them in the given order. */
  function SetRepr(items: seq<string>): (r: string)
    ensures items == [] ==> r == "set()"
    ensures items != [] ==> StartsWith(r, "{") && EndsWith(r, "}")
    ensures |items| == 1 ==> r == "{'" + items[0] + "'}"
  {
    if items == [] then "set()"
    else "{" + Join(", ", QuotedAll(items)) + "}"
  }

  /** Every option appears, quoted, between the braces; `k` is where option `i` starts. */
  lemma SetReprLists(items: seq<string>, i: nat) returns (k: nat)
    requires i < |items|
    ensures 1 <= k && k + |Quoted(items[i])| < |SetRepr(items)|
    ensures SetRepr(items)[k..k + |Quoted(items[i])|] == Quoted(items[i])
  {
    var inner := Join(", ", QuotedAll(items));
    var at := JoinContains(", ", QuotedAll(items), i);
    k := 1 + at;
    assert SetRepr(items) == "{" + inner + "}";
    MiddleSlice("{", inner, "}", at, |Quoted(items[i])|);
  }

  const NothingFoundLead: string := "# Nothing found that matched the specified options: "

  /** The comment emitted instead of an empty YAML document. */
  function NothingFound(options: seq<string>): (r: string)
    ensures |r| > |NothingFoundLead| && StartsWith(r, NothingFoundLead) && EndsWith(r, "\n")
    ensures r[|NothingFoundLead|..|r| - 1] == SetRepr(options)
  {
    NothingFoundLead + SetRepr(options) + "\n"
  }

  /** utils.py's `generate_output_content`. The tree-format text comes from
      nutree's "lines32" rendering, which this model takes as given. */
  function GenerateOutputContent(s: Shape, format: OutputFormat, options: seq<string>, cwd: Path,
                                 isDir: Path -> bool, treeText: string): (r: string)
    requires s.Valid()
    ensures format == TreeFormat ==> r == treeText
    ensures format == Yaml ==> r != ""
    ensures format == Yaml && Formatters.GenerateYamlOutput(s, cwd, isDir) != "" ==> r == Formatters.GenerateYamlOutput(s, cwd, isDir)
    ensures format == Yaml && Formatters.GenerateYamlOutput(s, cwd, isDir) == "" ==> r == NothingFound(options)
  {
    if format == Yaml then
      var yamlContent := Formatters.GenerateYamlOutput(s, cwd, isDir);
      if yamlContent != "" then yamlContent else NothingFound(options)
    else treeText
  }

  /** A tree with no nodes yields the "nothing found" comment in YAML format. */
  lemma OutputOfEmptyTree(s: Shape, options: seq<string>, cwd: Path, isDir: Path -> bool, treeText: string)
    requires s.Valid() && s.roots == []
    ensures GenerateOutputContent(s, Yaml, options, cwd, isDir, treeText) == NothingFound(options)
  {
  }

  /** A tree whose first top-level node has children yields its YAML rendering. */
  lemma OutputOfFilledTree(s: Shape, options: seq<string>, cwd: Path, isDir: Path -> bool, treeText: string)
    requires s.Valid() && s.roots != [] && s.kids[s.roots[0]] != []
    ensures GenerateOutputContent(s, Yaml, options, cwd, isDir, treeText) == Formatters.GenerateYamlOutput(s, cwd, isDir)
  {
  }
}
