/** The file-tree utilities: pruning a tree by a path predicate, listing its
    paths in pre-order, rendering it as indented text, and the default
    "substantive source file" predicate. */
module FileStructure {
  import opened Collections
  import opened Strings
  import opened NodePath

  /** A directory snapshot; a node without children is a file (or an empty directory). */
  datatype FileTree = FileTree(name: string, children: seq<FileTree>)

  /** The number of nodes of a tree. */
  function Size(t: FileTree): nat
    decreases t
  {
    1 + SizeOf(t.children)
  }

  function SizeOf(cs: seq<FileTree>): nat
    decreases cs
  {
    if cs == [] then 0 else Size(cs[0]) + SizeOf(cs[1..])
  }

  // ---------------------------------------------------------------------
  // filterFileTree
  // ---------------------------------------------------------------------

  /** `filterFileTree(t, filter, basePath)`: None stands for `null`. */
  function FilterFileTree(t: FileTree, filter: string -> bool, ops: PathApi, basePath: string): Option<FileTree>
    decreases t
  {
    var currentPath := ops.join(basePath, t.name);
    if |t.children| == 0 then
      if filter(currentPath) then Some(t) else None
    else
      var filteredChildren := FilterChildren(t.children, filter, ops, currentPath);
      if |filteredChildren| > 0 || filter(currentPath) then Some(FileTree(t.name, filteredChildren))
      else None
  }

  /** The surviving children, in their original order. */
  function FilterChildren(cs: seq<FileTree>, filter: string -> bool, ops: PathApi, basePath: string): seq<FileTree>
    decreases cs
  {
    if cs == [] then []
    else
      (match FilterFileTree(cs[0], filter, ops, basePath)
       case None => []
       case Some(c) => [c])
      + FilterChildren(cs[1..], filter, ops, basePath)
  }

  // ---------------------------------------------------------------------
  // getAllFiles
  // ---------------------------------------------------------------------

  /** The default filter of `getAllFiles`. */
  const AnyFile: string -> bool := (_: string) => true

  /** `getAllFiles(t, filter, basePath)`: the joined path of every node the
      filter accepts, parents before their descendants. */
  function GetAllFiles(t: FileTree, filter: string -> bool, ops: PathApi, basePath: string): (r: seq<string>)
    ensures filter(ops.join(basePath, t.name)) ==> |r| > 0 && r[0] == ops.join(basePath, t.name)
    decreases t
  {
    var curPath := ops.join(basePath, t.name);
    (if filter(curPath) then [curPath] else []) + GetAllFilesOf(t.children, filter, ops, curPath)
  }

  /** `children.flatMap(child => getAllFiles(child, filter, basePath))` */
  function GetAllFilesOf(cs: seq<FileTree>, filter: string -> bool, ops: PathApi, basePath: string): seq<string>
    decreases cs
  {
    if cs == [] then [] else GetAllFiles(cs[0], filter, ops, basePath) + GetAllFilesOf(cs[1..], filter, ops, basePath)
  }

  /** The listing of a possibly pruned tree. */
  function FilesOf(o: Option<FileTree>, filter: string -> bool, ops: PathApi, basePath: string): seq<string> {
    match o
    case None => []
    case Some(t) => GetAllFiles(t, filter, ops, basePath)
  }

  /** With the default filter every node is listed, one path per node. */
  lemma {:induction false} GetAllFilesCountsNodes(t: FileTree, ops: PathApi, basePath: string)
    ensures |GetAllFiles(t, AnyFile, ops, basePath)| == Size(t)
    decreases t
  {
    GetAllFilesOfCountsNodes(t.children, ops, ops.join(basePath, t.name));
  }

  lemma {:induction false} GetAllFilesOfCountsNodes(cs: seq<FileTree>, ops: PathApi, basePath: string)
    ensures |GetAllFilesOf(cs, AnyFile, ops, basePath)| == SizeOf(cs)
    decreases cs
  {
    if cs != [] {
      GetAllFilesCountsNodes(cs[0], ops, basePath);
      GetAllFilesOfCountsNodes(cs[1..], ops, basePath);
    }
  }

  /** A filtered listing is the full pre-order listing with the rejected
      paths left out, in the same order. */
  lemma {:induction false} GetAllFilesSelects(t: FileTree, filter: string -> bool, ops: PathApi, basePath: string)
    ensures GetAllFiles(t, filter, ops, basePath) == FilterSeq(GetAllFiles(t, AnyFile, ops, basePath), filter)
    decreases t
  {
    var cur := ops.join(basePath, t.name);
    GetAllFilesOfSelects(t.children, filter, ops, cur);
    FilterSeqAppend([cur], GetAllFilesOf(t.children, AnyFile, ops, cur), filter);
    assert FilterSeq([cur], filter) == (if filter(cur) then [cur] else []) by {
      assert [cur][..0] == [];
    }
  }

  lemma {:induction false} GetAllFilesOfSelects(cs: seq<FileTree>, filter: string -> bool, ops: PathApi, basePath: string)
    ensures GetAllFilesOf(cs, filter, ops, basePath) == FilterSeq(GetAllFilesOf(cs, AnyFile, ops, basePath), filter)
    decreases cs
  {
    if cs != [] {
      GetAllFilesSelects(cs[0], filter, ops, basePath);
      GetAllFilesOfSelects(cs[1..], filter, ops, basePath);
      FilterSeqAppend(GetAllFiles(cs[0], AnyFile, ops, basePath), GetAllFilesOf(cs[1..], AnyFile, ops, basePath), filter);
    }
  }

  // ---------------------------------------------------------------------
  // Properties of filterFileTree
  // ---------------------------------------------------------------------

  /** Pruning loses no accepted path: the accepted paths of the pruned tree
      are exactly those of the original, in the same order. So a node is
      kept iff some node of its subtree is accepted. */
  lemma {:induction false} FilterKeepsAcceptedPaths(t: FileTree, filter: string -> bool, ops: PathApi, basePath: string)
    ensures FilesOf(FilterFileTree(t, filter, ops, basePath), filter, ops, basePath) == GetAllFiles(t, filter, ops, basePath)
    ensures FilterFileTree(t, filter, ops, basePath).Some? <==> GetAllFiles(t, filter, ops, basePath) != []
    decreases t
  {
    var cur := ops.join(basePath, t.name);
    if |t.children| > 0 {
      FilterChildrenKeepsAcceptedPaths(t.children, filter, ops, cur);
    }
  }

  lemma {:induction false} FilterChildrenKeepsAcceptedPaths(cs: seq<FileTree>, filter: string -> bool, ops: PathApi, basePath: string)
    ensures GetAllFilesOf(FilterChildren(cs, filter, ops, basePath), filter, ops, basePath) == GetAllFilesOf(cs, filter, ops, basePath)
    ensures FilterChildren(cs, filter, ops, basePath) != [] <==> GetAllFilesOf(cs, filter, ops, basePath) != []
    decreases cs
  {
    if cs != [] {
      FilterKeepsAcceptedPaths(cs[0], filter, ops, basePath);
      FilterChildrenKeepsAcceptedPaths(cs[1..], filter, ops, basePath);
      var rest := FilterChildren(cs[1..], filter, ops, basePath);
      match FilterFileTree(cs[0], filter, ops, basePath)
      case None =>
        assert FilterChildren(cs, filter, ops, basePath) == rest;
      case Some(c) =>
        assert ([c] + rest)[0] == c && ([c] + rest)[1..] == rest;
    }
  }

  /** Pruning only removes nodes: every path of the pruned tree (under any
      listing filter) is a path of the original tree. */
  lemma {:induction false} FilterOnlyRemoves(t: FileTree, filter: string -> bool, listing: string -> bool, ops: PathApi, basePath: string)
    ensures forall x :: x in FilesOf(FilterFileTree(t, filter, ops, basePath), listing, ops, basePath) ==> x in GetAllFiles(t, listing, ops, basePath)
    decreases t
  {
    var cur := ops.join(basePath, t.name);
    if |t.children| > 0 {
      FilterChildrenOnlyRemoves(t.children, filter, listing, ops, cur);
    }
  }

  lemma {:induction false} FilterChildrenOnlyRemoves(cs: seq<FileTree>, filter: string -> bool, listing: string -> bool, ops: PathApi, basePath: string)
    ensures forall x :: x in GetAllFilesOf(FilterChildren(cs, filter, ops, basePath), listing, ops, basePath) ==> x in GetAllFilesOf(cs, listing, ops, basePath)
    decreases cs
  {
    if cs != [] {
      FilterOnlyRemoves(cs[0], filter, listing, ops, basePath);
      FilterChildrenOnlyRemoves(cs[1..], filter, listing, ops, basePath);
      var rest := FilterChildren(cs[1..], filter, ops, basePath);
      match FilterFileTree(cs[0], filter, ops, basePath)
      case None =>
        assert FilterChildren(cs, filter, ops, basePath) == rest;
      case Some(c) =>
        assert ([c] + rest)[0] == c && ([c] + rest)[1..] == rest;
    }
  }

  /** Filtering a pruned tree again with the same predicate changes nothing. */
  lemma {:induction false} FilterIdempotent(t: FileTree, filter: string -> bool, ops: PathApi, basePath: string)
    ensures match FilterFileTree(t, filter, ops, basePath)
            case None => true
            case Some(r) => FilterFileTree(r, filter, ops, basePath) == Some(r)
    decreases t
  {
    var cur := ops.join(basePath, t.name);
    if |t.children| > 0 {
      FilterChildrenIdempotent(t.children, filter, ops, cur);
    }
  }

  lemma {:induction false} FilterChildrenIdempotent(cs: seq<FileTree>, filter: string -> bool, ops: PathApi, basePath: string)
    ensures FilterChildren(FilterChildren(cs, filter, ops, basePath), filter, ops, basePath) == FilterChildren(cs, filter, ops, basePath)
    decreases cs
  {
    if cs != [] {
      FilterIdempotent(cs[0], filter, ops, basePath);
      FilterChildrenIdempotent(cs[1..], filter, ops, basePath);
      var rest := FilterChildren(cs[1..], filter, ops, basePath);
      match FilterFileTree(cs[0], filter, ops, basePath)
      case None =>
        assert FilterChildren(cs, filter, ops, basePath) == rest;
      case Some(c) =>
        assert ([c] + rest)[0] == c && ([c] + rest)[1..] == rest;
    }
  }

  // ---------------------------------------------------------------------
  // renderFileTree
  // ---------------------------------------------------------------------

  /** `renderFileTree(t)` */
  function RenderFileTree(t: FileTree): string {
    RenderTree(t, "")
  }

  /** `renderTree(tree, indent)` */
  function RenderTree(t: FileTree, indent: string): string
    decreases t
  {
    indent + t.name + "\n" + JoinWith(RenderChildren(t.children, indent + "  "), "\n")
  }

  /** `children.map(child => renderTree(child, indent))` */
  function RenderChildren(cs: seq<FileTree>, indent: string): (r: seq<string>)
    ensures |r| == |cs|
    decreases cs
  {
    if cs == [] then [] else [RenderTree(cs[0], indent)] + RenderChildren(cs[1..], indent)
  }

  /** Lines joined so that each one is followed by a newline. */
  function Unlines(lines: seq<string>): string
    decreases |lines|
  {
    if lines == [] then "" else lines[0] + "\n" + Unlines(lines[1..])
  }

  /** The lines of the listing: one line per node, holding its name at two
      spaces of indent per depth, and an empty line between any two siblings. */
  function ListingLines(t: FileTree, indent: string): seq<string>
    decreases t
  {
    [indent + t.name] + SiblingLines(t.children, indent + "  ", true)
  }

  function SiblingLines(cs: seq<FileTree>, indent: string, first: bool): seq<string>
    decreases cs
  {
    if cs == [] then []
    else (if first then [] else [""]) + ListingLines(cs[0], indent) + SiblingLines(cs[1..], indent, false)
  }

  lemma {:induction false} UnlinesAppend(a: seq<string>, b: seq<string>)
    ensures Unlines(a + b) == Unlines(a) + Unlines(b)
    decreases |a|
  {
    if a == [] {
      assert a + b == b;
    } else {
      assert (a + b)[0] == a[0] && (a + b)[1..] == a[1..] + b;
      UnlinesAppend(a[1..], b);
    }
  }

  /** The rendered text is exactly the listing's lines, each ending in a
      newline: so siblings are separated by an empty line. */
  lemma {:induction false} RenderIsListing(t: FileTree, indent: string)
    ensures RenderTree(t, indent) == Unlines(ListingLines(t, indent))
    decreases t
  {
    var header := indent + t.name;
    RenderSiblingsIsListing(t.children, indent + "  ");
    UnlinesAppend([header], SiblingLines(t.children, indent + "  ", true));
    assert Unlines([header]) == header + "\n" by {
      assert [header][1..] == [];
    }
  }

  lemma {:induction false} RenderSiblingsIsListing(cs: seq<FileTree>, indent: string)
    ensures JoinWith(RenderChildren(cs, indent), "\n") == Unlines(SiblingLines(cs, indent, true))
    ensures cs != [] ==> "\n" + JoinWith(RenderChildren(cs, indent), "\n") == Unlines(SiblingLines(cs, indent, false))
    decreases cs
  {
    if cs != [] {
      RenderIsListing(cs[0], indent);
      RenderSiblingsIsListing(cs[1..], indent);
      var here := ListingLines(cs[0], indent);
      var rest := SiblingLines(cs[1..], indent, false);
      UnlinesAppend(here, rest);
      UnlinesAppend([""], here + rest);
      assert Unlines([""]) == "\n" by {
        assert [""][1..] == [];
      }
      assert SiblingLines(cs, indent, true) == here + rest;
      assert SiblingLines(cs, indent, false) == [""] + (here + rest);
      var rs := RenderChildren(cs, indent);
      if |cs| == 1 {
        assert rest == [];
        assert Unlines(rest) == "";
      } else {
        assert rs[1..] == RenderChildren(cs[1..], indent);
      }
    }
  }

  // ---------------------------------------------------------------------
  // isSubstantiveJsOrTsFile
  // ---------------------------------------------------------------------

  const ForbiddenFiles: seq<string> := [
    "vite.config.ts",
    "tailwind.config.ts",
    "postcss.config.ts",
    "postcss.config.js",
    "eslintrc.js",
    "eslintrc.d.ts",
    "eslintrc.d.tsx",
    "eslint.config.js",
    "eslint.config.ts"
  ]

  const ForbiddenDirectories: seq<string> := [
    "node_modules",
    "dist",
    "build",
    "public",
    "scripts",
    "tests",
    "test",
    "docs"
  ]

  /** The loop over the forbidden directory words: some word occurs in `file`. */
  predicate IncludesAny(file: string, words: seq<string>)
    decreases |words|
  {
    |words| > 0 && (Includes(file, words[0]) || IncludesAny(file, words[1..]))
  }

  predicate HasJsOrTsExtension(file: string) {
    EndsWith(file, ".ts") || EndsWith(file, ".tsx") || EndsWith(file, ".js") || EndsWith(file, ".jsx")
  }

  /** `isSubstantiveJsOrTsFile(file)` */
  predicate IsSubstantiveJsOrTsFile(file: string) {
    if file in ForbiddenFiles then false
    else if IncludesAny(file, ForbiddenDirectories) then false
    else HasJsOrTsExtension(file)
  }

  lemma {:induction false} IncludesAnyIffOccurs(file: string, words: seq<string>)
    ensures IncludesAny(file, words) <==> exists k, i :: 0 <= k < |words| && OccursAt(file, words[k], i)
    decreases |words|
  {
    if |words| > 0 {
      IncludesIffOccurs(file, words[0]);
      IncludesAnyIffOccurs(file, words[1..]);
      if exists k, i :: 0 <= k < |words| && OccursAt(file, words[k], i) {
        var k, i :| 0 <= k < |words| && OccursAt(file, words[k], i);
        if k > 0 {
          assert OccursAt(file, words[1..][k - 1], i);
        }
      }
      if IncludesAny(file, words[1..]) {
        var k, i :| 0 <= k < |words[1..]| && OccursAt(file, words[1..][k], i);
        assert OccursAt(file, words[k + 1], i);
      }
    }
  }

  /** A path is substantive iff it is not one of the forbidden file names
      (compared as a whole), no forbidden directory word occurs anywhere in
      it (as a substring, not as a path segment), and it has a JavaScript or
      TypeScript extension. */
  lemma SubstantiveIff(file: string)
    ensures IsSubstantiveJsOrTsFile(file) <==>
      && file !in ForbiddenFiles
      && (forall k, i :: 0 <= k < |ForbiddenDirectories| ==> !OccursAt(file, ForbiddenDirectories[k], i))
      && HasJsOrTsExtension(file)
  {
    IncludesAnyIffOccurs(file, ForbiddenDirectories);
  }

  /** "dist" matches inside a file name: `distance.ts` is rejected. */
  lemma DistanceIsNotSubstantive()
    ensures !IsSubstantiveJsOrTsFile("distance.ts")
  {
    assert OccursAt("distance.ts", ForbiddenDirectories[1], 0);
    IncludesAnyIffOccurs("distance.ts", ForbiddenDirectories);
  }
}
