# git-tree-project-structure-to-yaml, modelled in Dafny

The tool lists a Git repository's files (`git ls-files`). It builds a tree of
paths from them (a nutree `Tree[Path]`) and renders that tree either as
indented YAML-like lines or as a box-drawn "tree" listing. This project models
the core of that pipeline:

- **Tree building** (`tree.py`, and the older copy in `_cli.py`). `add_path_to_tree` inserts one path.
  - `tree.py` finds or creates the top-level node for the root, then finds or creates one node per path part.
  - `_cli.py` always descends from the first top-level node instead.
- **The `git ls-files` argument list** (`build_ls_files_args`). `_cli.py:156-178` builds the same list inline, so one model covers both.
- **Formatting** (`formatters.py`, and the closures in `_cli.py`'s `generate_yaml_output`). This covers indentation, node depth, the directory suffix, the node label, the YAML line for a node, and the YAML text of the whole tree.
- **Utilities** (`utils.py`). `empty_list_if_none`, `resolve_repo_paths` and the output-format dispatch `generate_output_content`.

## Structure

- `types.dfy`: the `IndentType` and `OutputFormat` enums and `Option`.
- `strings.dfy`: Python's `str * n` (`Repeat`), `sep.join` (`Join`), and suffix and prefix tests.
- `paths.dfy` models a path as a sequence of segments:
  - a segment is non-empty and has no `/`;
  - `/` appends a segment;
  - `relative_to` strips a prefix and returns `None` where Python raises `ValueError`.
- `forests.dfy` models the nutree tree as an arena of nodes numbered in creation order.
  - `Shape` is the tree as a value: node data, parent, children and top-level list.
  - `Tree` is the class whose fields `tree.add` and `node.add` update in place.
  - It also defines depth, pre-order, and the first-match search that `next(...)` and list comprehensions perform.
- `tree_builder.dfy`: tree.py.
  - `AddPathToTree` works on the `Tree` object. Its contract says the resulting tree and flag are exactly `InsertPath`.
  - `DescendInPlace` is the per-part loop, which both builders run. It is proved equal to `Descend`.
  - `InsertPath` is a pure function built from `Step` and `Descend`, one level of the walk at a time. The lemmas about it carry the properties.
  - `BuildLsFilesArgs` is the append loop, proved equal to `LsFilesArgs`.
- `formatters.dfy`: formatters.py. `NodeDepth` is the `while` loop, proved equal to `Depth`.
- `cli.dfy`: the older versions in `_cli.py`, each with a lemma saying where it agrees with formatters.py and tree.py, and where it differs.
- `utils.dfy`: utils.py. `ResolveRepoPaths` is the loop, proved equal to `ResolvedPaths`.

Operating-system facts are parameters:
- `isDir: Path -> bool` stands for `Path.is_dir()`;
- `cwd` stands for the working directory that `absolute()` prepends;
- `treeText` stands for nutree's "lines32" rendering.

## Model

| member | source | states |
|---|---|---|
| Paths.Child | src/git_tree_project_structure_to_yaml/tree.py:55 | `root / part` is `root` followed by exactly one more segment |
| Paths.RelativeTo | src/git_tree_project_structure_to_yaml/tree.py:54 | succeeds exactly when `root` is a leading part of `path`, and then `root` joined with the result is `path` |
| Paths.Name | src/git_tree_project_structure_to_yaml/_cli.py:67 | `.name` is the last segment, and empty exactly for a path with no segments |
| Paths.Absolute | src/git_tree_project_structure_to_yaml/_cli.py:67 | `absolute()` is the working directory's segments followed by the path's own segments |
| Paths.PathString | src/git_tree_project_structure_to_yaml/tree.py:91 | `str(directory)` is never empty; it is "." for no segments and the segment itself for one |
| Paths.PathStringChild | src/git_tree_project_structure_to_yaml/tree.py:91 | `str(p / part)` of a path with segments is `str(p)`, a "/" and the new segment, so nested directories are rendered segment by segment |
| Strings.RepeatLength | src/git_tree_project_structure_to_yaml/formatters.py:51 | `u * n` has `n * len(u)` characters, and none when `n <= 0` |
| Strings.RepeatUniform | src/git_tree_project_structure_to_yaml/formatters.py:51 | repeating a one-character string gives only that character |
| Strings.JoinNonEmpty | src/git_tree_project_structure_to_yaml/formatters.py:153 | joining two or more lines with a newline never gives the empty string |
| Strings.JoinSnoc | src/git_tree_project_structure_to_yaml/tree.py:91 | joining one more item appends the separator and that item |
| Strings.JoinContains | src/git_tree_project_structure_to_yaml/utils.py:81 | every item occurs, unchanged, inside the joined text |
| Forests.AppendTop | src/git_tree_project_structure_to_yaml/tree.py:49 | `tree.add` appends one new last top-level node; existing nodes, parents and child lists are untouched |
| Forests.AppendChild | src/git_tree_project_structure_to_yaml/tree.py:58 | `node.add` appends one new last child to that node only; the top-level list and every other child list are untouched |
| Forests.AppendChildUnique | src/git_tree_project_structure_to_yaml/tree.py:56-58 | adding a child whose path no sibling holds keeps sibling paths distinct |
| Forests.FindFirst | src/git_tree_project_structure_to_yaml/tree.py:56 | the generator search returns the first child whose data equals the target, and no earlier child matches |
| Forests.DepthCountsSegments | src/git_tree_project_structure_to_yaml/formatters.py:54-71 | when each child's path is its parent's plus one segment, a node's depth is its number of segments beyond its top-level node's path |
| Forests.PreorderOfParent | src/git_tree_project_structure_to_yaml/formatters.py:153 | a node with a child contributes at least two nodes to the pre-order listing |
| Forests.PreorderCount | src/git_tree_project_structure_to_yaml/formatters.py:153 | the pre-order listing of a subtree holds each node of the subtree once and no other node |
| Forests.KidsAbove | src/git_tree_project_structure_to_yaml/formatters.py:153 | a node below `n` lies below exactly one child of `n`; no other node lies below any child of `n` |
| Forests.NodesOnce | src/git_tree_project_structure_to_yaml/formatters.py:153 | the listing of the whole tree holds every node exactly once, so the rendering has one line per node |
| Forests.Tree.constructor | src/git_tree_project_structure_to_yaml/_cli.py:150 | a new tree has no nodes |
| Forests.Tree.Add | src/git_tree_project_structure_to_yaml/tree.py:49 | updates the tree in place to exactly `AppendTop` of the old tree and returns the new node |
| Forests.Tree.AddChild | src/git_tree_project_structure_to_yaml/tree.py:58 | updates the tree in place to exactly `AppendChild` of the old tree and returns the new node |
| Forests.Tree.FirstChild | src/git_tree_project_structure_to_yaml/_cli.py:92 | `first_child()` is absent exactly when there is no top-level node, and otherwise is the first one |
| TreeBuilder.Step | src/git_tree_project_structure_to_yaml/tree.py:55-59 | one loop iteration: afterwards the first child of the cursor holding the next path exists and is the new cursor; when a child already holds it the tree is unchanged, and otherwise exactly one node is added, only to the cursor |
| TreeBuilder.Descend | src/git_tree_project_structure_to_yaml/tree.py:54-59 | the walk over the parts keeps the tree well formed, only grows it and never changes the top-level list |
| TreeBuilder.WithRoot | src/git_tree_project_structure_to_yaml/tree.py:47-49 | after the root lookup, a top-level node holding `root` exists |
| TreeBuilder.InsertPath | src/git_tree_project_structure_to_yaml/tree.py:39-59 | inserting keeps the tree well formed and only grows it |
| TreeBuilder.InsertPathDescends | src/git_tree_project_structure_to_yaml/tree.py:47-59 | when `root` is a prefix, the insertion is the walk over the relative parts from the node the root lookup gives |
| TreeBuilder.InsertPathKeepsOrder | src/git_tree_project_structure_to_yaml/tree.py:58 | existing nodes keep their paths, and every existing child list is a prefix of the new one, so new children come after existing siblings |
| TreeBuilder.InsertPathOk | src/git_tree_project_structure_to_yaml/tree.py:54 | `relative_to` succeeds exactly when `root` is a prefix of `path`; on failure only the root lookup has happened |
| TreeBuilder.InsertPathRoots | src/git_tree_project_structure_to_yaml/tree.py:47-49 | if a top-level node holds `root` the top-level list is unchanged; otherwise exactly one node holding `root` is appended |
| TreeBuilder.InsertPathChain | src/git_tree_project_structure_to_yaml/tree.py:51-59 | afterwards a chain runs from the top-level node for `root`, each node a child of the one before; the k-th holds `root` plus the first k parts, and the last holds `path` |
| TreeBuilder.InsertPathPresent | src/git_tree_project_structure_to_yaml/tree.py:40-46 | inserting a path that is already present creates no node and changes nothing |
| TreeBuilder.InsertPathIdempotent | src/git_tree_project_structure_to_yaml/tree.py:40-46 | inserting the same path twice gives the same tree as inserting it once |
| TreeBuilder.InsertPathUnique | src/git_tree_project_structure_to_yaml/tree.py:56-58 | if no two siblings held equal paths before, none do after |
| TreeBuilder.InsertPathCoherent | src/git_tree_project_structure_to_yaml/tree.py:55-58 | if each child's path was its parent's plus one segment, that stays true |
| TreeBuilder.InsertPathCount | src/git_tree_project_structure_to_yaml/tree.py:47-59 | at most one node per part, plus possibly the root node, is created |
| TreeBuilder.InsertPathOffChain | src/git_tree_project_structure_to_yaml/tree.py:51-59 | existing nodes off the inserted chain keep their children |
| TreeBuilder.DescendInPlace | src/git_tree_project_structure_to_yaml/tree.py:51-59 | the cursor loop leaves the tree exactly as the walk `Descend` says |
| TreeBuilder.AddPathToTree | src/git_tree_project_structure_to_yaml/tree.py:39-59 | the in-place loop leaves the tree, and reports success, exactly as `InsertPath` says |
| TreeBuilder.ExcludeArgs | src/git_tree_project_structure_to_yaml/tree.py:87-88 | one `--exclude=<pattern>` argument per pattern, in order |
| TreeBuilder.LsFilesArgs | src/git_tree_project_structure_to_yaml/tree.py:78-92 | one argument per chosen switch, one per exclusion, one more when untracked files are not listed, and the directory as the last argument |
| TreeBuilder.LsFilesArgsLayout | src/git_tree_project_structure_to_yaml/tree.py:79-91 | the chosen switches come first, in the order `--others`, `--stage`, `--cached`, `--exclude-standard`; the exclusions follow in order; `--recurse-submodules`, when untracked files are not listed, comes right before the directory |
| TreeBuilder.Trailer | src/git_tree_project_structure_to_yaml/tree.py:89-91 | after the exclusions: `--recurse-submodules` exactly when `others` is off, then the directory |
| TreeBuilder.BuildLsFilesArgs | src/git_tree_project_structure_to_yaml/tree.py:78-92 | the append sequence returns exactly `LsFilesArgs` |
| TreeBuilder.ExcludeArgsAreNotFlags | src/git_tree_project_structure_to_yaml/tree.py:87-88 | no exclusion argument equals any of the five switches |
| TreeBuilder.LsFilesArgsFlags | src/git_tree_project_structure_to_yaml/tree.py:79-90 | each of `--others`, `--stage`, `--cached` and `--exclude-standard` is among the options exactly when its flag is set; `--recurse-submodules` is there exactly when `others` is not, so never both |
| Formatters.IndentUnitLayout | src/git_tree_project_structure_to_yaml/formatters.py:50 | the unit is `indent_width` spaces (none when the width is not positive) or one tab |
| Formatters.IndentString | src/git_tree_project_structure_to_yaml/formatters.py:31-51 | a count of 0 gives the empty string, dropping the string; any other count ends with the string |
| Formatters.IndentStringLayout | src/git_tree_project_structure_to_yaml/formatters.py:50-51 | for a count n > 0 the result is `n * width` spaces (or n tabs) followed by the string |
| Formatters.IndentStringNegative | src/git_tree_project_structure_to_yaml/formatters.py:51 | a negative count gives the string without indentation |
| Formatters.NodeDepth | src/git_tree_project_structure_to_yaml/formatters.py:54-71 | the parent-climbing loop returns the node's depth |
| Formatters.DepthStep | src/git_tree_project_structure_to_yaml/formatters.py:66-71 | depth is 0 exactly for a parentless node, and one more than the parent's otherwise |
| Formatters.GetSuffix | src/git_tree_project_structure_to_yaml/formatters.py:74-85 | `":"` exactly for a directory, `""` exactly for a file |
| Formatters.DisplayName | src/git_tree_project_structure_to_yaml/formatters.py:25 | the path's last segment; only a path with no segments falls back to the absolute path's name |
| Formatters.PathNodeFormatter | src/git_tree_project_structure_to_yaml/formatters.py:12-28 | the display name, followed by one `/` exactly when the node is a directory |
| Formatters.GetPrefix | src/git_tree_project_structure_to_yaml/formatters.py:88-103 | `""` at depth 0; at depth d > 0, d indentation units followed by `"- "` |
| Formatters.PrefixDeeper | src/git_tree_project_structure_to_yaml/formatters.py:88-103 | with a non-empty unit, a child's prefix is strictly longer than its parent's |
| Formatters.YamlFormatter | src/git_tree_project_structure_to_yaml/formatters.py:106-121 | the line is exactly the prefix, then the display name, then `"/:"` for a directory and nothing for a file; so it ends in `"/:"` exactly for a directory |
| Formatters.GenerateYamlOutput | src/git_tree_project_structure_to_yaml/formatters.py:140-153 | a tree with no nodes renders as the empty string; a tree whose first top-level node has a child renders as at least two lines, so never as the empty string |
| Cli.FirstRoot | src/git_tree_project_structure_to_yaml/_cli.py:92-95 | the walk starts at the first top-level node; a root node is created only in a tree with none |
| Cli.CliInsert | src/git_tree_project_structure_to_yaml/_cli.py:84-106 | inserting keeps the tree well formed and only grows it |
| Cli.CliInsertDescends | src/git_tree_project_structure_to_yaml/_cli.py:86-106 | with a non-empty relative path, the insertion is the walk from the first top-level node |
| Cli.CliInsertKeepsOrder | src/git_tree_project_structure_to_yaml/_cli.py:104 | existing nodes keep their paths, and new children come after existing siblings |
| Cli.CliInsertUnchanged | src/git_tree_project_structure_to_yaml/_cli.py:86-89 | `relative_to` succeeds exactly for a prefix; on failure, or with no parts, the tree is left exactly as it was |
| Cli.CliInsertRoots | src/git_tree_project_structure_to_yaml/_cli.py:92-95 | the top-level list changes only when it was empty, and then gains one node holding the root |
| Cli.CliInsertChain | src/git_tree_project_structure_to_yaml/_cli.py:96-106 | after inserting a path with parts, a chain from the first top-level node ends at a node holding the path itself |
| Cli.CliInsertPresent | src/git_tree_project_structure_to_yaml/_cli.py:102-104 | re-inserting a path that is present creates no node |
| Cli.CliInsertIdempotent | src/git_tree_project_structure_to_yaml/_cli.py:99-104 | inserting the same path twice gives the same tree as inserting it once |
| Cli.CliInsertUnique | src/git_tree_project_structure_to_yaml/_cli.py:103-104 | sibling paths stay pairwise distinct |
| Cli.CliInsertCoherent | src/git_tree_project_structure_to_yaml/_cli.py:99-106 | when the first top-level node holds the root, each child's path stays its parent's plus one segment |
| Cli.FirstRootUnique | src/git_tree_project_structure_to_yaml/_cli.py:92-95 | choosing or creating the first top-level node keeps sibling paths distinct |
| Cli.BuildersAgree | src/git_tree_project_structure_to_yaml/_cli.py:84-106 | when the first top-level node holds the root (or none exists), the older builder matches tree.py's on every path with parts |
| Cli.AddPathToTree | src/git_tree_project_structure_to_yaml/_cli.py:84-106 | the in-place update, with its loop run by `TreeBuilder.DescendInPlace`, leaves the tree, and reports success, exactly as `CliInsert` says |
| Cli.IndentString | src/git_tree_project_structure_to_yaml/_cli.py:207-209 | a count of 0 or less returns the string unchanged; the result always ends with the string |
| Cli.IndentStringsAgree | src/git_tree_project_structure_to_yaml/_cli.py:207-209 | the two `indent_string` versions agree on every count except 0, where only this one keeps the string |
| Cli.Ancestors | src/git_tree_project_structure_to_yaml/_cli.py:234-237 | every yielded parent is an earlier node |
| Cli.AncestorsCount | src/git_tree_project_structure_to_yaml/_cli.py:234-240 | `_iter_parent` yields exactly depth-many nodes, forming the parent chain from the node upward |
| Cli.GetPrefix | src/git_tree_project_structure_to_yaml/_cli.py:230-241 | `""` for a parentless node; otherwise it ends in `"- "` |
| Cli.PrefixesAgree | src/git_tree_project_structure_to_yaml/_cli.py:230-241 | `_get_prefix` equals formatters.py's `get_prefix` for every node, so it inherits its layout and its deeper-is-longer property |
| Cli.PathNodeFormatter | src/git_tree_project_structure_to_yaml/_cli.py:56-70 | the label ends in `/` exactly for a directory |
| Cli.NodeFormattersAgree | src/git_tree_project_structure_to_yaml/_cli.py:66-70 | the older label, the absolute path's name, equals formatters.py's label |
| Cli.YamlFormatter | src/git_tree_project_structure_to_yaml/_cli.py:244-252 | the closure's line starts with `_get_prefix`'s prefix and ends in `"/:"` for a directory; its full text is given by `YamlFormattersAgree` |
| Cli.YamlFormattersAgree | src/git_tree_project_structure_to_yaml/_cli.py:244-252 | the `yaml_formatter` closure formats every node as formatters.py's `yaml_formatter` does |
| Cli.GenerateYamlOutput | src/git_tree_project_structure_to_yaml/_cli.py:211-263 | the result is empty exactly when there is no first top-level node or it has no children |
| Cli.YamlOutputsAgree | src/git_tree_project_structure_to_yaml/_cli.py:254-263 | past the guard, the older rendering equals formatters.py's |
| Utils.EmptyListIfNone | src/git_tree_project_structure_to_yaml/utils.py:19-31 | `None` gives `[]`, and a list is returned as it is |
| Utils.Resolve | src/git_tree_project_structure_to_yaml/utils.py:52-59 | a path under the root gives its stripped form; any other path is kept unchanged |
| Utils.ImageMembers | src/git_tree_project_structure_to_yaml/utils.py:48-60 | a path is in the set exactly when some input resolves to it |
| Utils.ResolvedPathsMembers | src/git_tree_project_structure_to_yaml/utils.py:34-60 | no input gives exactly `{root_node}`; otherwise the result holds exactly the resolved inputs |
| Utils.ResolvedPathsSize | src/git_tree_project_structure_to_yaml/utils.py:44-60 | for non-empty input, the result has between 1 and `len(repo_paths)` elements |
| Utils.ResolveRepoPaths | src/git_tree_project_structure_to_yaml/utils.py:34-60 | the loop that adds to a set returns exactly `ResolvedPaths` |
| Utils.SetRepr | src/git_tree_project_structure_to_yaml/utils.py:81 | `set()` for no options; otherwise a brace-delimited listing, and for one option exactly `{'option'}` |
| Utils.SetReprLists | src/git_tree_project_structure_to_yaml/utils.py:81 | every option appears in the rendering, between single quotes, inside the braces |
| Utils.Quoted | src/git_tree_project_structure_to_yaml/utils.py:81 | `repr` of a plain string is the string between two single quotes |
| Utils.NothingFound | src/git_tree_project_structure_to_yaml/utils.py:81 | the fixed lead-in, then the options' rendering, then a newline |
| Utils.GenerateOutputContent | src/git_tree_project_structure_to_yaml/utils.py:63-82 | the "tree" format returns the tree rendering; YAML returns the YAML text when it is non-empty and the "nothing found" comment otherwise, so never the empty string |
| Utils.OutputOfEmptyTree | src/git_tree_project_structure_to_yaml/utils.py:76-81 | a tree with no nodes gives the "nothing found" comment in YAML format |
| Utils.OutputOfFilledTree | src/git_tree_project_structure_to_yaml/utils.py:76-79 | a tree whose first top-level node has a child gives its YAML text unchanged |

## Left out

- Git and filesystem access:
  - left out: `git_lsfiles_to_path_list`, `build_tree_from_git`'s repository handling, `validators.py`, `Path.resolve()`;
  - `Path.is_dir()` is the parameter `isDir`;
  - `absolute()` is the working directory `cwd` with the path appended, so the name of the filesystem root is not modelled.
- Paths have no anchor: a `Path` is only its segments, and the model does not tell `/repo` from `repo`. Three results follow. They apply whenever the source passes absolute paths, which is the usual case: with no repository paths, the directory passed on is the absolute `root_node`.
- Paths.PathString: gives the segments joined by "/" without the leading "/" of an absolute path, so `str(Path("/repo"))` is modelled as "repo".
- Paths.Absolute: always prepends `cwd`, while `absolute()` returns an already absolute path unchanged.
- Paths.RelativeTo: strips a leading run of segments even when one path is absolute and the other relative, where `relative_to` raises `ValueError`.
- nutree's `format(style="lines32")` box-drawing rendering (`generate_tree_structure`) belongs to a library that is not part of this model. Its text is the `treeText` parameter of `GenerateOutputContent`.
- nutree's `format(style="list")` is assumed to emit one line per node, in pre-order, joined by newlines. That library is not part of this model, so this is an assumption, not a proof. What is proved is the listing's side of it: `Forests.NodesOnce` shows that the pre-order listing holds every node of the tree exactly once.
- The tree's title (`Tree(f"# Directory Tree for ...")`) is not modelled. `format` is always called with `title=False`.
- Python set iteration order (`exclude`, `options_set`) is taken as the order of a sequence argument.
- Utils.SetRepr: quotes every option with single quotes, as `repr` does for plain strings, but does not model `repr`'s escaping of quotes and special characters.
- The Typer CLI (`main`), logging, and writing to files and stdout are left out. They parse arguments and perform output.
- The `with tree:` context manager is left out. It has no effect on the tree's contents.
- Node truthiness (`while current_parent`, `if not current_node`) is taken to mean "is not `None`". nutree's `Node` class is not part of this model.
- `_get_suffix` in `_cli.py` is the same expression as formatters.py's `get_suffix`, and the model uses `Formatters.GetSuffix` for both.
- `_cli.py`'s copy of `empty_list_if_none` (`value if value is not None else []`) and utils.py's (`value or []`) return equal values, so it is not modelled twice. For an empty list, `or` returns a new list rather than the caller's own, and the model does not tell the two apart, since it has no list identity.
