/**
 * formatters.py: the one-line-per-node YAML formatting (`indent_string`,
 * `node_depth`, `get_suffix`, `get_prefix`, `path_node_formatter`,
 * `yaml_formatter`) and the YAML rendering of a whole tree.
 */
module Formatters {
  import opened Types
  import opened Strings
  import opened Paths
  import opened Forests

  /** The defaults of `indent_width` and `indent_type`. */
  const DefaultWidth: int := 2
  const DefaultIndent: IndentType := Spaces

  /** One indentation unit: `" " * indent_width` for spaces, `"\t"` for tabs. */
  function IndentUnit(width: int, kind: IndentType): string
  {
    if kind == Spaces then Repeat(" ", width) else "\t"
  }

  /** The character an indentation is made of. */
  function IndentChar(kind: IndentType): char
  {
    if kind == Spaces then ' ' else '\t'
  }

  /** The length of one indentation unit. */
  function UnitWidth(width: int, kind: IndentType): nat
  {
    if kind == Tabs then 1 else if width <= 0 then 0 else width
  }

  lemma IndentUnitLayout(width: int, kind: IndentType)
    ensures |IndentUnit(width, kind)| == UnitWidth(width, kind)
    ensures forall i :: 0 <= i < |IndentUnit(width, kind)| ==> IndentUnit(width, kind)[i] == IndentChar(kind)
  {
    if kind == Spaces {
      RepeatLength(" ", width);
      RepeatUniform(" ", width, ' ');
    }
  }

  /** formatters.py's `indent_string`: `indent_count` units followed by the
      string, except that a count of 0 gives the empty string. */
  function IndentString(str: string, count: int, width: int, kind: IndentType): (r: string)
    ensures count == 0 ==> r == ""
    ensures count != 0 ==> EndsWith(r, str)
  {
    if count == 0 then "" else Repeat(IndentUnit(width, kind), count) + str
  }

  /** For a positive count the result is `count * unit width` indentation
      characters followed by the string itself. */
  lemma IndentStringLayout(str: string, count: int, width: int, kind: IndentType)
    requires count > 0
    ensures var r := IndentString(str, count, width, kind);
      && |r| == count * UnitWidth(width, kind) + |str|
      && (forall i :: 0 <= i < |r| - |str| ==> r[i] == IndentChar(kind))
      && r[|r| - |str|..] == str
  {
    var u := IndentUnit(width, kind);
    IndentUnitLayout(width, kind);
    RepeatLength(u, count);
    RepeatUniform(u, count, IndentChar(kind));
  }

  /** A negative count repeats the unit a negative number of times, which is
      the empty string, so the string comes back unchanged. */
  lemma IndentStringNegative(str: string, count: int, width: int, kind: IndentType)
    requires count < 0
    ensures IndentString(str, count, width, kind) == str
  {
  }

  /** formatters.py's `node_depth`: climbs the parent chain, counting the steps. */
  method NodeDepth(s: Shape, n: nat) returns (d: nat)
    requires s.Valid() && n < |s.data|
    ensures d == Depth(s, n)
  {
    d := 0;
    var current: int := s.parent[n];
    while current != TopLevel
      invariant TopLevel <= current < |s.data|
      invariant current == TopLevel ==> d == Depth(s, n)
      invariant current != TopLevel ==> d + 1 + Depth(s, current) == Depth(s, n)
      decreases current
    {
      current := s.parent[current];
      d := d + 1;
    }
  }

  /** A top-level node has depth 0 and a child is one deeper than its parent. */
  lemma DepthStep(s: Shape, n: nat)
    requires s.Valid() && n < |s.data|
    ensures Depth(s, n) == 0 <==> s.parent[n] == TopLevel
    ensures s.parent[n] != TopLevel ==> Depth(s, n) == Depth(s, s.parent[n]) + 1
  {
  }

  /** `get_suffix`: ":" for a directory and "" for a file. */
  function GetSuffix(s: Shape, n: nat, isDir: Path -> bool): (r: string)
    requires n < |s.data|
    ensures r == ":" <==> isDir(s.data[n])
    ensures r == "" <==> !isDir(s.data[n])
  {
    if isDir(s.data[n]) then ":" else ""
  }

  /** The name a node is shown by: its path's last segment, or, for a path with
      no segments, the last segment of its absolute form. */
  function DisplayName(p: Path, cwd: Path): (r: string)
    ensures '/' !in r
    ensures p != [] ==> r == p[|p| - 1]
    ensures p == [] ==> r == Name(cwd)
  {
    if Name(p) == "" then Name(Absolute(cwd, p)) else Name(p)
  }

  /** `path_node_formatter`: the display name, with "/" appended exactly for directories. */
  function PathNodeFormatter(s: Shape, n: nat, cwd: Path, isDir: Path -> bool): (r: string)
    requires n < |s.data|
    ensures var name := DisplayName(s.data[n], cwd);
      && |r| == |name| + (if isDir(s.data[n]) then 1 else 0)
      && r[..|name|] == name
    ensures EndsWith(r, "/") <==> isDir(s.data[n])
  {
    var name := DisplayName(s.data[n], cwd);
    if isDir(s.data[n]) then name + "/"
    else
      assert name != [] ==> name[|name| - 1] in name;
      name
  }

  /** `get_prefix`: `indent_string("- ", depth)`, so nothing at depth 0 and
      `depth` indentation units followed by "- " below. */
  function GetPrefix(s: Shape, n: nat, width: int, kind: IndentType): (r: string)
    requires s.Valid() && n < |s.data|
    ensures Depth(s, n) == 0 ==> r == ""
    ensures Depth(s, n) > 0 ==>
      && |r| == Depth(s, n) * UnitWidth(width, kind) + 2
      && (forall i :: 0 <= i < |r| - 2 ==> r[i] == IndentChar(kind))
      && EndsWith(r, "- ")
  {
    var d := Depth(s, n);
    if d > 0 then IndentStringLayout("- ", d, width, kind); IndentString("- ", d, width, kind)
    else IndentString("- ", d, width, kind)
  }

  /** A child's prefix is longer than its parent's: at depth 0 the prefix is
      empty, and every level below adds one non-empty indentation unit. */
  lemma PrefixDeeper(s: Shape, n: nat, width: int, kind: IndentType)
    requires s.Valid() && n < |s.data| && s.parent[n] != TopLevel
    requires UnitWidth(width, kind) >= 1
    ensures |GetPrefix(s, n, width, kind)| > |GetPrefix(s, s.parent[n], width, kind)|
  {
    var p := s.parent[n];
    var u := UnitWidth(width, kind);
    if Depth(s, p) > 0 {
      assert Depth(s, n) * u == Depth(s, p) * u + u;
    }
  }

  /** `yaml_formatter`: prefix (default indentation), display name, suffix. */
  function YamlFormatter(s: Shape, n: nat, cwd: Path, isDir: Path -> bool): (r: string)
    requires s.Valid() && n < |s.data|
    ensures StartsWith(r, GetPrefix(s, n, DefaultWidth, DefaultIndent))
    ensures EndsWith(r, "/:") <==> isDir(s.data[n])
    ensures !isDir(s.data[n]) ==> EndsWith(r, DisplayName(s.data[n], cwd))
    ensures r == GetPrefix(s, n, DefaultWidth, DefaultIndent) + DisplayName(s.data[n], cwd)
      + (if isDir(s.data[n]) then "/:" else "")
  {
    var prefix := GetPrefix(s, n, DefaultWidth, DefaultIndent);
    var name := PathNodeFormatter(s, n, cwd, isDir);
    var suffix := GetSuffix(s, n, isDir);
    if isDir(s.data[n]) then prefix + name + suffix
    else
      assert name + suffix == DisplayName(s.data[n], cwd);
      assert prefix == "" || EndsWith(prefix, "- ");
      FileLineEnd(prefix, name + suffix);
      assert prefix + name + suffix == prefix + (name + suffix);
      prefix + name + suffix
  }

  /** A line whose prefix is empty or ends in "- ", followed by a text with no
      "/", does not end in "/:". */
  lemma FileLineEnd(prefix: string, text: string)
    requires prefix == "" || EndsWith(prefix, "- ")
    requires '/' !in text
    ensures !EndsWith(prefix + text, "/:")
  {
    var r := prefix + text;
    if |r| >= 2 {
      if |text| >= 2 {
        assert r[|r| - 2] == text[|text| - 2];
      } else if |text| == 1 {
        assert r[|r| - 2] == prefix[|prefix| - 1] == ' ';
      } else {
        assert r[|r| - 1] == prefix[|prefix| - 1] == ' ';
      }
    }
  }

  /** The YAML lines for the nodes `ids`, one per node, in order. */
  function YamlLines(s: Shape, ids: seq<nat>, cwd: Path, isDir: Path -> bool): (r: seq<string>)
    requires s.Valid() && forall i :: 0 <= i < |ids| ==> ids[i] < |s.data|
    ensures |r| == |ids|
  {
    seq(|ids|, i requires 0 <= i < |ids| => YamlFormatter(s, ids[i], cwd, isDir))
  }

  /** formatters.py's `generate_yaml_output`, taking nutree's "list" style to
      give one `yaml_formatter` line per node, in pre-order, joined by newlines.
      A forest with no nodes renders as "", and one whose first top-level node
      has a child renders as at least two lines, so never as "". */
  function GenerateYamlOutput(s: Shape, cwd: Path, isDir: Path -> bool): (r: string)
    requires s.Valid()
    ensures s.roots == [] ==> r == ""
    ensures s.roots != [] && s.kids[s.roots[0]] != [] ==> |YamlLines(s, Nodes(s), cwd, isDir)| >= 2 && r != ""
  {
    var lines := YamlLines(s, Nodes(s), cwd, isDir);
    if s.roots != [] && s.kids[s.roots[0]] != [] then
      PreorderOfParent(s, s.roots[0]);
      assert |Nodes(s)| >= |Preorder(s, s.roots[0])|;
      JoinNonEmpty("\n", lines);
      Join("\n", lines)
    else
      Join("\n", lines)
  }
}
