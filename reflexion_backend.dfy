/** Reflexion-model differencing: deriving a module graph from a file
    dependency map and a module partition, and comparing two module graphs;
    plus the coverage/repair loop that asks a language model to name modules. */
module ReflexionBackend {
  import opened Collections
  import opened Strings
  import opened NodePath
  import opened BackendTypes
  import opened FileStructure

  type Edge = (ModuleName, ModuleName)

  // =====================================================================
  // createModuleGraph: the file -> module reverse index
  // =====================================================================

  /** The reverse index after assigning every file of `files` to `name`. */
  function AssignFiles(index: map<FilePathStr, ModuleName>, files: seq<FilePathStr>, name: ModuleName): (r: map<FilePathStr, ModuleName>)
    ensures forall f :: f in r <==> f in index || f in files
    ensures forall f :: f in files ==> r[f] == name
    ensures forall f :: f in index && f !in files ==> r[f] == index[f]
    decreases |files|
  {
    if files == [] then index
    else
      assert files == files[..|files| - 1] + [files[|files| - 1]];
      AssignFiles(index, files[..|files| - 1], name)[files[|files| - 1] := name]
  }

  /** The reverse index the first loop builds from `moduleMapping`. */
  function ReverseIndex(mapping: seq<(ModuleName, seq<FilePathStr>)>): map<FilePathStr, ModuleName>
    decreases |mapping|
  {
    if mapping == [] then map[]
    else AssignFiles(ReverseIndex(mapping[..|mapping| - 1]), mapping[|mapping| - 1].1, mapping[|mapping| - 1].0)
  }

  /** A file listed under several modules belongs, in the index, to the last
      of them in iteration order; a file listed nowhere has no module. */
  lemma {:induction false} ReverseIndexLastWins(mapping: seq<(ModuleName, seq<FilePathStr>)>, f: FilePathStr)
    ensures f in ReverseIndex(mapping) <==> exists i :: 0 <= i < |mapping| && f in mapping[i].1
    ensures forall i :: 0 <= i < |mapping| && f in mapping[i].1 && (forall j :: i < j < |mapping| ==> f !in mapping[j].1)
                        ==> ReverseIndex(mapping)[f] == mapping[i].0
    decreases |mapping|
  {
    if mapping != [] {
      var n := |mapping| - 1;
      var p := mapping[..n];
      ReverseIndexLastWins(p, f);
      assert forall i :: 0 <= i < n ==> p[i] == mapping[i];
      if f in mapping[n].1 {
        assert exists i :: 0 <= i < |mapping| && f in mapping[i].1;
      }
    }
  }

  // =====================================================================
  // createModuleGraph: the edges it projects, in discovery order
  // =====================================================================

  /** `path.resolve(path.dirname(filePath), dependency)` */
  function ResolveDependency(ops: PathApi, file: FilePathStr, dependency: string): FilePathStr {
    ops.resolve([ops.dirname(file), dependency])
  }

  /** The module edge one dependency of `file` (in module `source`) yields:
      its resolved path must have a non-empty module other than `source`. */
  function DependencyEdge(index: map<FilePathStr, ModuleName>, ops: PathApi, source: ModuleName, file: FilePathStr, dependency: string): seq<Edge> {
    var resolvedPath := ResolveDependency(ops, file, dependency);
    if resolvedPath in index && index[resolvedPath] != "" && index[resolvedPath] != source
    then [(source, index[resolvedPath])]
    else []
  }

  function DependencyEdges(index: map<FilePathStr, ModuleName>, ops: PathApi, source: ModuleName, file: FilePathStr, deps: seq<string>): seq<Edge>
    decreases |deps|
  {
    if deps == [] then []
    else DependencyEdges(index, ops, source, file, deps[..|deps| - 1]) + DependencyEdge(index, ops, source, file, deps[|deps| - 1])
  }

  /** The edges one file contributes: none when it has no (or an empty) module name. */
  function FileEdges(index: map<FilePathStr, ModuleName>, ops: PathApi, file: FilePathStr, deps: seq<string>): seq<Edge> {
    if file in index && index[file] != "" then DependencyEdges(index, ops, index[file], file, deps) else []
  }

  /** Every edge the second loop tries to add, in the order it meets them. */
  function CandidateEdges(index: map<FilePathStr, ModuleName>, ops: PathApi, entries: seq<(FilePathStr, seq<string>)>): seq<Edge>
    decreases |entries|
  {
    if entries == [] then []
    else CandidateEdges(index, ops, entries[..|entries| - 1]) + FileEdges(index, ops, entries[|entries| - 1].0, entries[|entries| - 1].1)
  }

  /** The reason an edge S -> T is derived: a file of module S has a
      dependency whose resolved path belongs to module T, both names are
      non-empty and they differ. */
  predicate EdgeWitness(index: map<FilePathStr, ModuleName>, ops: PathApi, file: FilePathStr, dependency: string, s: ModuleName, t: ModuleName) {
    && file in index && index[file] == s && s != ""
    && ResolveDependency(ops, file, dependency) in index
    && index[ResolveDependency(ops, file, dependency)] == t && t != "" && t != s
  }

  /** Some dependency of `file` witnesses S -> T. */
  predicate FileWitness(index: map<FilePathStr, ModuleName>, ops: PathApi, file: FilePathStr, deps: seq<string>, s: ModuleName, t: ModuleName) {
    exists j :: 0 <= j < |deps| && EdgeWitness(index, ops, file, deps[j], s, t)
  }

  predicate Witnessed(index: map<FilePathStr, ModuleName>, ops: PathApi, entries: seq<(FilePathStr, seq<string>)>, s: ModuleName, t: ModuleName) {
    exists i :: 0 <= i < |entries| && FileWitness(index, ops, entries[i].0, entries[i].1, s, t)
  }

  lemma {:induction false} DependencyEdgesMember(index: map<FilePathStr, ModuleName>, ops: PathApi, source: ModuleName, file: FilePathStr, deps: seq<string>, e: Edge)
    requires file in index && index[file] == source && source != ""
    ensures e in DependencyEdges(index, ops, source, file, deps) <==> FileWitness(index, ops, file, deps, e.0, e.1)
    decreases |deps|
  {
    if deps != [] {
      var n := |deps| - 1;
      var p := deps[..n];
      DependencyEdgesMember(index, ops, source, file, p, e);
      if FileWitness(index, ops, file, p, e.0, e.1) {
        var j :| 0 <= j < |p| && EdgeWitness(index, ops, file, p[j], e.0, e.1);
        assert p[j] == deps[j];
      }
      if FileWitness(index, ops, file, deps, e.0, e.1) {
        var j :| 0 <= j < |deps| && EdgeWitness(index, ops, file, deps[j], e.0, e.1);
        if j < n {
          assert p[j] == deps[j];
          assert FileWitness(index, ops, file, p, e.0, e.1);
        } else {
          assert e in DependencyEdge(index, ops, source, file, deps[n]);
        }
      }
    }
  }

  /** The edges one file contributes are the ones its dependencies witness. */
  lemma FileEdgesMember(index: map<FilePathStr, ModuleName>, ops: PathApi, file: FilePathStr, deps: seq<string>, e: Edge)
    ensures e in FileEdges(index, ops, file, deps) <==> FileWitness(index, ops, file, deps, e.0, e.1)
  {
    if file in index && index[file] != "" {
      DependencyEdgesMember(index, ops, index[file], file, deps, e);
    }
  }

  /** The candidate edges are exactly the witnessed ones. */
  lemma {:induction false} CandidateEdgesWitnessed(index: map<FilePathStr, ModuleName>, ops: PathApi, entries: seq<(FilePathStr, seq<string>)>, e: Edge)
    ensures e in CandidateEdges(index, ops, entries) <==> Witnessed(index, ops, entries, e.0, e.1)
    decreases |entries|
  {
    if entries != [] {
      var n := |entries| - 1;
      var p := entries[..n];
      CandidateEdgesWitnessed(index, ops, p, e);
      FileEdgesMember(index, ops, entries[n].0, entries[n].1, e);
      WitnessedSnoc(index, ops, entries, e.0, e.1);
    }
  }

  lemma WitnessedSnoc(index: map<FilePathStr, ModuleName>, ops: PathApi, entries: seq<(FilePathStr, seq<string>)>, s: ModuleName, t: ModuleName)
    requires entries != []
    ensures var n := |entries| - 1;
      Witnessed(index, ops, entries, s, t) <==> Witnessed(index, ops, entries[..n], s, t) || FileWitness(index, ops, entries[n].0, entries[n].1, s, t)
  {
    var n := |entries| - 1;
    var p := entries[..n];
    if Witnessed(index, ops, p, s, t) {
      var i :| 0 <= i < |p| && FileWitness(index, ops, p[i].0, p[i].1, s, t);
      assert p[i] == entries[i];
    }
    if Witnessed(index, ops, entries, s, t) {
      var i :| 0 <= i < |entries| && FileWitness(index, ops, entries[i].0, entries[i].1, s, t);
      if i < n {
        assert p[i] == entries[i];
      }
    }
  }

  // =====================================================================
  // createModuleGraph: inserting the edges
  // =====================================================================

  /** One step of the second loop: create the source's list on its first
      edge, and append the target unless it is already listed. */
  function AddEdge(g: ModuleGraph, e: Edge): ModuleGraph {
    match Lookup(g, e.0)
    case None => Put(g, e.0, [e.1])
    case Some(ts) => if e.1 in ts then g else Put(g, e.0, ts + [e.1])
  }

  function AddEdges(g: ModuleGraph, es: seq<Edge>): ModuleGraph
    decreases |es|
  {
    if es == [] then g else AddEdge(AddEdges(g, es[..|es| - 1]), es[|es| - 1])
  }

  /** The module graph `createModuleGraph(fileDependencyMap, modulesDefinition)` returns. */
  function ModuleGraphOf(fdm: FileDependencyMap, defs: ModulesDefinition, ops: PathApi): ModuleGraph {
    AddEdges([], CandidateEdges(ReverseIndex(defs.moduleMapping), ops, fdm.dependencies))
  }

  /** The targets of the edges leaving `s`, in order, repetitions kept. */
  function TargetsOf(es: seq<Edge>, s: ModuleName): seq<ModuleName>
    decreases |es|
  {
    if es == [] then []
    else TargetsOf(es[..|es| - 1], s) + (if es[|es| - 1].0 == s then [es[|es| - 1].1] else [])
  }

  lemma {:induction false} TargetsOfMember(es: seq<Edge>, s: ModuleName, t: ModuleName)
    ensures t in TargetsOf(es, s) <==> (s, t) in es
    ensures TargetsOf(es, s) == [] <==> s !in Keys(es)
    decreases |es|
  {
    if es != [] {
      var n := |es| - 1;
      TargetsOfMember(es[..n], s, t);
      assert es == es[..n] + [es[n]];
      KeysSnoc(es);
    }
  }

  /** One insertion appends the source as a key when it is new, and otherwise keeps the keys. */
  lemma AddEdgeKeys(g: ModuleGraph, e: Edge)
    ensures Keys(AddEdge(g, e)) == if e.0 in Keys(g) then Keys(g) else Keys(g) + [e.0]
  {
  }

  /** One insertion changes only the source's list. */
  lemma AddEdgeLookup(g: ModuleGraph, e: Edge, s: ModuleName)
    ensures Lookup(AddEdge(g, e), s) ==
              if s != e.0 then Lookup(g, s)
              else match Lookup(g, s)
                   case None => Some([e.1])
                   case Some(ts) => Some(if e.1 in ts then ts else ts + [e.1])
  {
  }

  /** Inserting edges into an empty graph gives one key per source module,
      in order of its first edge. */
  lemma {:induction false} AddEdgesKeys(es: seq<Edge>)
    ensures Keys(AddEdges([], es)) == Dedup(Keys(es))
    decreases |es|
  {
    if es != [] {
      var n := |es| - 1;
      var p, e := es[..n], es[n];
      AddEdgesKeys(p);
      KeysSnoc(es);
      AddEdgeKeysDedup(AddEdges([], p), e, Keys(p));
    }
  }

  lemma AddEdgeKeysDedup(g: ModuleGraph, e: Edge, sources: seq<ModuleName>)
    requires Keys(g) == Dedup(sources)
    ensures Keys(AddEdge(g, e)) == Dedup(sources + [e.0])
  {
    AddEdgeKeys(g, e);
    DedupSnoc(sources, e.0);
    DedupMember(sources, e.0);
  }

  /** ... and for each of them the distinct targets in order of first discovery. */
  lemma {:induction false} AddEdgesLookup(es: seq<Edge>, s: ModuleName)
    ensures Lookup(AddEdges([], es), s) == if s in Keys(es) then Some(Dedup(TargetsOf(es, s))) else None
    decreases |es|
  {
    if es != [] {
      var n := |es| - 1;
      var p, e := es[..n], es[n];
      AddEdgesLookup(p, s);
      var g := AddEdges([], p);
      assert AddEdges([], es) == AddEdge(g, e);
      AddEdgeLookup(g, e, s);
      assert TargetsOf(es, s) == TargetsOf(p, s) + (if e.0 == s then [e.1] else []);
      assert s in Keys(es) <==> s in Keys(p) || s == e.0 by {
        KeysSnoc(es);
      }
      if s == e.0 {
        AddEdgeWithinSource(p, e);
        assert Lookup(AddEdges([], es), s) == Some(Dedup(TargetsOf(es, s)));
      } else {
        assert TargetsOf(es, s) == TargetsOf(p, s);
        assert Lookup(AddEdges([], es), s) == Lookup(g, s);
      }
    }
  }

  lemma AddEdgeWithinSource(p: seq<Edge>, e: Edge)
    requires Lookup(AddEdges([], p), e.0) == if e.0 in Keys(p) then Some(Dedup(TargetsOf(p, e.0))) else None
    ensures (match Lookup(AddEdges([], p), e.0)
             case None => Some([e.1])
             case Some(ts) => Some(if e.1 in ts then ts else ts + [e.1]))
            == Some(Dedup(TargetsOf(p, e.0) + [e.1]))
  {
    var t := TargetsOf(p, e.0);
    TargetsOfMember(p, e.0, e.1);
    DedupSnoc(t, e.1);
    DedupMember(t, e.1);
    if e.0 !in Keys(p) {
      assert t == [];
      assert Dedup([] + [e.1]) == [e.1];
    }
  }

  /** Both halves together. */
  lemma AddEdgesFromEmpty(es: seq<Edge>)
    ensures Keys(AddEdges([], es)) == Dedup(Keys(es))
    ensures forall s :: Lookup(AddEdges([], es), s) == if s in Keys(es) then Some(Dedup(TargetsOf(es, s))) else None
  {
    AddEdgesKeys(es);
    forall s ensures Lookup(AddEdges([], es), s) == if s in Keys(es) then Some(Dedup(TargetsOf(es, s))) else None {
      AddEdgesLookup(es, s);
    }
  }

  /** No module is listed as a dependency of itself. */
  predicate NoSelfLoops(g: ModuleGraph) {
    forall i :: 0 <= i < |g| ==> g[i].0 !in g[i].1
  }

  /** No module lists a dependency twice. */
  predicate DistinctTargets(g: ModuleGraph) {
    forall i :: 0 <= i < |g| ==> Distinct(g[i].1)
  }

  /** `graph[from]?.includes(to) || false` */
  predicate HasEdge(g: seq<(ModuleName, seq<ModuleName>)>, from: ModuleName, to: ModuleName) {
    match Lookup(g, from)
    case Some(ts) => to in ts
    case None => false
  }

  lemma CandidatesIrreflexive(index: map<FilePathStr, ModuleName>, ops: PathApi, entries: seq<(FilePathStr, seq<string>)>, e: Edge)
    ensures e in CandidateEdges(index, ops, entries) ==> e.0 != e.1 && e.0 != "" && e.1 != ""
  {
    CandidateEdgesWitnessed(index, ops, entries, e);
  }

  /** The entries of the graph built from candidate edges `es`. */
  lemma {:induction false} GraphEntry(index: map<FilePathStr, ModuleName>, ops: PathApi, entries: seq<(FilePathStr, seq<string>)>, i: int)
    requires 0 <= i < |AddEdges([], CandidateEdges(index, ops, entries))|
    ensures var g := AddEdges([], CandidateEdges(index, ops, entries));
            var es := CandidateEdges(index, ops, entries);
            g[i].0 !in g[i].1 && g[i].1 != [] && g[i].1 == Dedup(TargetsOf(es, g[i].0))
  {
    var es := CandidateEdges(index, ops, entries);
    var g := AddEdges([], es);
    var s := g[i].0;
    LookupAt(g, i);
    AddEdgesLookup(es, s);
    assert s in Keys(es);
    var ts := TargetsOf(es, s);
    TargetsOfMember(es, s, s);
    CandidatesIrreflexive(index, ops, entries, (s, s));
    DedupMember(ts, s);
    DedupMember(ts, ts[0]);
  }

  /** The edges of the graph built from candidate edges are the witnessed ones. */
  lemma GraphHasEdge(index: map<FilePathStr, ModuleName>, ops: PathApi, entries: seq<(FilePathStr, seq<string>)>, s: ModuleName, t: ModuleName)
    ensures HasEdge(AddEdges([], CandidateEdges(index, ops, entries)), s, t) <==> Witnessed(index, ops, entries, s, t)
  {
    var es := CandidateEdges(index, ops, entries);
    AddEdgesLookup(es, s);
    CandidateEdgesWitnessed(index, ops, entries, (s, t));
    TargetsOfMember(es, s, t);
    DedupMember(TargetsOf(es, s), t);
  }

  /** What the derived module graph is: no self-loops, no repeated target,
      a key only for a module with at least one edge (in order of its first
      edge), each target list in order of first discovery, and an edge S -> T
      exactly when some file of S has a dependency resolving into T. */
  lemma ModuleGraphOfSpec(fdm: FileDependencyMap, defs: ModulesDefinition, ops: PathApi)
    ensures var g := ModuleGraphOf(fdm, defs, ops);
            var index := ReverseIndex(defs.moduleMapping);
            var es := CandidateEdges(index, ops, fdm.dependencies);
            && NoSelfLoops(g)
            && DistinctTargets(g)
            && Keys(g) == Dedup(Keys(es))
            && (forall i :: 0 <= i < |g| ==> g[i].1 != [] && g[i].1 == Dedup(TargetsOf(es, g[i].0)))
            && (forall s, t :: HasEdge(g, s, t) <==> Witnessed(index, ops, fdm.dependencies, s, t))
  {
    var index := ReverseIndex(defs.moduleMapping);
    var g := ModuleGraphOf(fdm, defs, ops);
    AddEdgesKeys(CandidateEdges(index, ops, fdm.dependencies));
    forall i | 0 <= i < |g|
      ensures g[i].0 !in g[i].1 && g[i].1 != [] && g[i].1 == Dedup(TargetsOf(CandidateEdges(index, ops, fdm.dependencies), g[i].0))
    {
      GraphEntry(index, ops, fdm.dependencies, i);
    }
    forall s, t ensures HasEdge(g, s, t) <==> Witnessed(index, ops, fdm.dependencies, s, t) {
      GraphHasEdge(index, ops, fdm.dependencies, s, t);
    }
  }

  /** The properties of `ModuleGraphOfSpec` that `createModuleGraph` promises. */
  lemma ModuleGraphProperties(g: ModuleGraph, fdm: FileDependencyMap, defs: ModulesDefinition, ops: PathApi)
    requires g == ModuleGraphOf(fdm, defs, ops)
    ensures NoSelfLoops(g) && DistinctTargets(g)
    ensures forall s, t :: HasEdge(g, s, t) <==> Witnessed(ReverseIndex(defs.moduleMapping), ops, fdm.dependencies, s, t)
  {
    ModuleGraphOfSpec(fdm, defs, ops);
  }

  /** The first loop of `createModuleGraph`: every file to its module. */
  method BuildFileToModuleMap(mapping: seq<(ModuleName, seq<FilePathStr>)>) returns (fileToModuleMap: map<FilePathStr, ModuleName>)
    ensures fileToModuleMap == ReverseIndex(mapping)
  {
    fileToModuleMap := map[];
    var m := 0;
    while m < |mapping|
      invariant 0 <= m <= |mapping|
      invariant fileToModuleMap == ReverseIndex(mapping[..m])
    {
      var (moduleName, filePaths) := mapping[m];
      var k := 0;
      while k < |filePaths|
        invariant 0 <= k <= |filePaths|
        invariant fileToModuleMap == AssignFiles(ReverseIndex(mapping[..m]), filePaths[..k], moduleName)
      {
        assert filePaths[..k + 1][..k] == filePaths[..k];
        fileToModuleMap := fileToModuleMap[filePaths[k] := moduleName];
        k := k + 1;
      }
      assert filePaths[..k] == filePaths;
      assert mapping[..m + 1][..m] == mapping[..m];
      m := m + 1;
    }
    assert mapping[..m] == mapping;
  }

  /** The body of the innermost `if`: create the source's list if it is
      missing, then push the target unless it is already there. */
  method InsertEdge(moduleGraph: ModuleGraph, sourceModule: ModuleName, targetModule: ModuleName) returns (graph: ModuleGraph)
    ensures graph == AddEdge(moduleGraph, (sourceModule, targetModule))
  {
    graph := moduleGraph;
    if Lookup(graph, sourceModule).None? {
      graph := Put(graph, sourceModule, []);
    }
    ghost var created := graph;
    assert Keys(created) == Keys(AddEdge(moduleGraph, (sourceModule, targetModule)));
    var targets := Lookup(graph, sourceModule).value;
    if targetModule !in targets {
      graph := Put(graph, sourceModule, targets + [targetModule]);
    }
    var e := (sourceModule, targetModule);
    forall k ensures Lookup(graph, k) == Lookup(AddEdge(moduleGraph, e), k) {
      AddEdgeLookup(moduleGraph, e, k);
      if k != sourceModule {
        assert Lookup(graph, k) == Lookup(created, k) == Lookup(moduleGraph, k);
      } else if Lookup(moduleGraph, k).None? {
        assert targets + [targetModule] == [targetModule];
      }
    }
    DictExtensionality(graph, AddEdge(moduleGraph, e));
  }

  /** The inner loop of `createModuleGraph` over the dependencies of one file. */
  method AddFileDependencies(moduleGraph: ModuleGraph, fileToModuleMap: map<FilePathStr, ModuleName>, ops: PathApi,
                             sourceModule: ModuleName, filePath: FilePathStr, dependencies: seq<string>)
    returns (graph: ModuleGraph)
    ensures graph == AddEdges(moduleGraph, DependencyEdges(fileToModuleMap, ops, sourceModule, filePath, dependencies))
  {
    graph := moduleGraph;
    var j := 0;
    while j < |dependencies|
      invariant 0 <= j <= |dependencies|
      invariant graph == AddEdges(moduleGraph, DependencyEdges(fileToModuleMap, ops, sourceModule, filePath, dependencies[..j]))
    {
      assert dependencies[..j + 1][..j] == dependencies[..j];
      ghost var before := DependencyEdges(fileToModuleMap, ops, sourceModule, filePath, dependencies[..j]);
      var resolvedPath := ops.resolve([ops.dirname(filePath), dependencies[j]]);
      if resolvedPath in fileToModuleMap && fileToModuleMap[resolvedPath] != "" && fileToModuleMap[resolvedPath] != sourceModule {
        var targetModule := fileToModuleMap[resolvedPath];
        graph := InsertEdge(graph, sourceModule, targetModule);
        assert (before + [(sourceModule, targetModule)])[..|before|] == before;
      } else {
        assert before + [] == before;
      }
      j := j + 1;
    }
    assert dependencies[..j] == dependencies;
  }

  lemma {:induction false} AddEdgesAppend(g: ModuleGraph, a: seq<Edge>, b: seq<Edge>)
    ensures AddEdges(g, a + b) == AddEdges(AddEdges(g, a), b)
    decreases |b|
  {
    if b == [] {
      assert a + b == a;
    } else {
      assert (a + b)[..|a + b| - 1] == a + b[..|b| - 1];
      AddEdgesAppend(g, a, b[..|b| - 1]);
    }
  }

  /** `createModuleGraph(fileDependencyMap, modulesDefinition)` */
  method CreateModuleGraph(fdm: FileDependencyMap, defs: ModulesDefinition, ops: PathApi) returns (moduleGraph: ModuleGraph)
    ensures moduleGraph == ModuleGraphOf(fdm, defs, ops)
    ensures NoSelfLoops(moduleGraph) && DistinctTargets(moduleGraph)
    ensures forall s, t :: HasEdge(moduleGraph, s, t) <==> Witnessed(ReverseIndex(defs.moduleMapping), ops, fdm.dependencies, s, t)
  {
    var fileToModuleMap := BuildFileToModuleMap(defs.moduleMapping);
    moduleGraph := ProjectDependencies(fileToModuleMap, ops, fdm.dependencies);
    ModuleGraphProperties(moduleGraph, fdm, defs, ops);
  }

  /** The second loop of `createModuleGraph`: the edges of every file, in order. */
  method ProjectDependencies(fileToModuleMap: map<FilePathStr, ModuleName>, ops: PathApi, entries: seq<(FilePathStr, seq<string>)>)
    returns (moduleGraph: ModuleGraph)
    ensures moduleGraph == AddEdges([], CandidateEdges(fileToModuleMap, ops, entries))
  {
    moduleGraph := [];
    ghost var done: seq<Edge> := [];
    var i := 0;
    while i < |entries|
      invariant 0 <= i <= |entries|
      invariant done == CandidateEdges(fileToModuleMap, ops, entries[..i])
      invariant moduleGraph == AddEdges([], done)
    {
      var (filePath, dependencies) := entries[i];
      CandidateEdgesSnoc(fileToModuleMap, ops, entries, i);
      AddEdgesAppend([], done, FileEdges(fileToModuleMap, ops, filePath, dependencies));
      moduleGraph := AddFileEdges(moduleGraph, fileToModuleMap, ops, filePath, dependencies);
      done := done + FileEdges(fileToModuleMap, ops, filePath, dependencies);
      i := i + 1;
    }
    assert entries[..i] == entries;
  }

  lemma CandidateEdgesSnoc(index: map<FilePathStr, ModuleName>, ops: PathApi, entries: seq<(FilePathStr, seq<string>)>, i: int)
    requires 0 <= i < |entries|
    ensures CandidateEdges(index, ops, entries[..i + 1]) == CandidateEdges(index, ops, entries[..i]) + FileEdges(index, ops, entries[i].0, entries[i].1)
  {
    assert entries[..i + 1][..i] == entries[..i];
  }

  /** The body of the outer loop of `createModuleGraph` for one file. */
  method AddFileEdges(moduleGraph: ModuleGraph, fileToModuleMap: map<FilePathStr, ModuleName>, ops: PathApi,
                      filePath: FilePathStr, dependencies: seq<string>)
    returns (graph: ModuleGraph)
    ensures graph == AddEdges(moduleGraph, FileEdges(fileToModuleMap, ops, filePath, dependencies))
  {
    graph := moduleGraph;
    if filePath in fileToModuleMap && fileToModuleMap[filePath] != "" {
      var sourceModule := fileToModuleMap[filePath];
      graph := AddFileDependencies(graph, fileToModuleMap, ops, sourceModule, filePath, dependencies);
    }
  }

  /** A dependency inside one module derives no edge, and no key: the graph
      is `{}`, not `{core: []}`. */
  lemma SameModuleDependencyYieldsEmptyGraph(ops: PathApi, a: FilePathStr, b: FilePathStr, d: string, m: ModuleName)
    requires a != b && ResolveDependency(ops, a, d) == b
    ensures ModuleGraphOf(FileDependencyMap([(a, [d]), (b, [])]), ModulesDefinition([(m, [a, b])]), ops) == []
  {
    var mapping := [(m, [a, b])];
    ReverseIndexLastWins(mapping, a);
    ReverseIndexLastWins(mapping, b);
    assert a in mapping[0].1 && b in mapping[0].1;
    var index := ReverseIndex(mapping);
    SingleDependencyEdges(index, ops, a, d);
    var entries := [(a, [d]), (b, [])];
    assert entries[..1] == [(a, [d])];
    assert CandidateEdges(index, ops, entries[..1]) == [];
    assert CandidateEdges(index, ops, entries) == [];
  }

  /** A dependency across two modules derives exactly that edge. */
  lemma CrossModuleDependencyYieldsEdge(ops: PathApi, a: FilePathStr, b: FilePathStr, d: string, m1: ModuleName, m2: ModuleName)
    requires a != b && m1 != m2 && m1 != "" && m2 != ""
    requires ResolveDependency(ops, a, d) == b
    ensures ModuleGraphOf(FileDependencyMap([(a, [d])]), ModulesDefinition([(m1, [a]), (m2, [b])]), ops) == [(m1, [m2])]
  {
    var index := ReverseIndex([(m1, [a]), (m2, [b])]);
    TwoModuleIndex(a, b, m1, m2);
    SingleDependencyEdges(index, ops, a, d);
    assert CandidateEdges(index, ops, [(a, [d])]) == [(m1, m2)];
    assert AddEdges([], [(m1, m2)]) == AddEdge([], (m1, m2));
  }

  lemma TwoModuleIndex(a: FilePathStr, b: FilePathStr, m1: ModuleName, m2: ModuleName)
    requires a != b
    ensures var index := ReverseIndex([(m1, [a]), (m2, [b])]);
      a in index && b in index && index[a] == m1 && index[b] == m2
  {
    var mapping := [(m1, [a]), (m2, [b])];
    ReverseIndexLastWins(mapping, a);
    ReverseIndexLastWins(mapping, b);
    assert a in mapping[0].1 && b in mapping[1].1 && a !in mapping[1].1;
  }

  /** The edges of a one-file, one-dependency map. */
  lemma SingleDependencyEdges(index: map<FilePathStr, ModuleName>, ops: PathApi, a: FilePathStr, d: string)
    ensures CandidateEdges(index, ops, [(a, [d])]) == FileEdges(index, ops, a, [d])
    ensures a in index && index[a] != "" ==> FileEdges(index, ops, a, [d]) == DependencyEdge(index, ops, index[a], a, d)
  {
    assert [(a, [d])][..0] == [];
    assert [d][..0] == [];
    if a in index && index[a] != "" {
      assert DependencyEdges(index, ops, index[a], a, [d]) == DependencyEdges(index, ops, index[a], a, []) + DependencyEdge(index, ops, index[a], a, d);
    }
  }

  // =====================================================================
  // compareModuleGraphs
  // =====================================================================

  /** The edges of a graph in `Object.entries` order: source by source, and
      each source's targets in list order. */
  function EdgeList(g: seq<(ModuleName, seq<ModuleName>)>): seq<Edge>
    decreases |g|
  {
    if g == [] then [] else EdgeList(g[..|g| - 1]) + Pairs(g[|g| - 1].0, g[|g| - 1].1)
  }

  function Pairs(s: ModuleName, ts: seq<ModuleName>): (r: seq<Edge>)
    ensures |r| == |ts|
    ensures forall k :: 0 <= k < |ts| ==> r[k] == (s, ts[k])
  {
    seq(|ts|, k requires 0 <= k < |ts| => (s, ts[k]))
  }

  /** The edges of `es` that `g` does not have, in order. */
  function MissingEdges(es: seq<Edge>, g: seq<(ModuleName, seq<ModuleName>)>): seq<Edge>
    decreases |es|
  {
    if es == [] then []
    else MissingEdges(es[..|es| - 1], g) + (if HasEdge(g, es[|es| - 1].0, es[|es| - 1].1) then [] else [es[|es| - 1]])
  }

  datatype GraphDiff = GraphDiff(addedEdges: seq<Edge>, removedEdges: seq<Edge>)

  /** What `compareModuleGraphs(graph1, graph2)` returns. */
  function GraphDifference(graph1: ModuleGraph, graph2: ModuleGraph): GraphDiff {
    GraphDiff(MissingEdges(EdgeList(graph2), graph1), MissingEdges(EdgeList(graph1), graph2))
  }

  lemma {:induction false} MissingEdgesMember(es: seq<Edge>, g: seq<(ModuleName, seq<ModuleName>)>, e: Edge)
    ensures e in MissingEdges(es, g) <==> e in es && !HasEdge(g, e.0, e.1)
    decreases |es|
  {
    if es != [] {
      MissingEdgesMember(es[..|es| - 1], g, e);
      assert es == es[..|es| - 1] + [es[|es| - 1]];
    }
  }

  lemma {:induction false} EdgeListMember(g: seq<(ModuleName, seq<ModuleName>)>, s: ModuleName, t: ModuleName)
    ensures (s, t) in EdgeList(g) <==> exists i :: 0 <= i < |g| && g[i].0 == s && t in g[i].1
    decreases |g|
  {
    if g != [] {
      var n := |g| - 1;
      EdgeListMember(g[..n], s, t);
      assert forall i :: 0 <= i < n ==> g[..n][i] == g[i];
      if g[n].0 == s && t in g[n].1 {
        var k :| 0 <= k < |g[n].1| && g[n].1[k] == t;
        assert Pairs(g[n].0, g[n].1)[k] == (s, t);
      }
    }
  }

  /** In a graph (distinct keys) the edge list holds exactly the edges `hasEdge` sees. */
  lemma EdgeListHasEdge(g: ModuleGraph, s: ModuleName, t: ModuleName)
    ensures (s, t) in EdgeList(g) <==> HasEdge(g, s, t)
  {
    EdgeListMember(g, s, t);
    if exists i :: 0 <= i < |g| && g[i].0 == s && t in g[i].1 {
      var i :| 0 <= i < |g| && g[i].0 == s && t in g[i].1;
      LookupAt(g, i);
    } else if Lookup(g, s).Some? {
      LookupFound(g, s);
    }
  }

  /** `removedEdges` holds the edges of graph1 that graph2 lacks and
      `addedEdges` those of graph2 that graph1 lacks. */
  lemma GraphDifferenceMembers(graph1: ModuleGraph, graph2: ModuleGraph, s: ModuleName, t: ModuleName)
    ensures (s, t) in GraphDifference(graph1, graph2).removedEdges <==> HasEdge(graph1, s, t) && !HasEdge(graph2, s, t)
    ensures (s, t) in GraphDifference(graph1, graph2).addedEdges <==> HasEdge(graph2, s, t) && !HasEdge(graph1, s, t)
  {
    MissingEdgesMember(EdgeList(graph1), graph2, (s, t));
    MissingEdgesMember(EdgeList(graph2), graph1, (s, t));
    EdgeListHasEdge(graph1, s, t);
    EdgeListHasEdge(graph2, s, t);
  }

  /** Comparing a graph with itself finds nothing. */
  lemma GraphDifferenceWithItself(g: ModuleGraph)
    ensures GraphDifference(g, g) == GraphDiff([], [])
  {
    var d := MissingEdges(EdgeList(g), g);
    if d != [] {
      var e := d[0];
      MissingEdgesMember(EdgeList(g), g, e);
      EdgeListHasEdge(g, e.0, e.1);
    }
  }

  /** Swapping the graphs swaps the two lists. */
  lemma GraphDifferenceSwapped(a: ModuleGraph, b: ModuleGraph)
    ensures GraphDifference(a, b).addedEdges == GraphDifference(b, a).removedEdges
    ensures GraphDifference(a, b).removedEdges == GraphDifference(b, a).addedEdges
  {
  }

  /** X -> Y replaced by X -> Z is one removed and one added edge. */
  lemma ReplacedTargetDifference()
    ensures GraphDifference([("X", ["Y"])], [("X", ["Z"])]) == GraphDiff([("X", "Z")], [("X", "Y")])
  {
    assert EdgeList([("X", ["Y"])]) == [("X", "Y")] by {
      assert [("X", ["Y"])][..0] == [];
    }
    assert EdgeList([("X", ["Z"])]) == [("X", "Z")] by {
      assert [("X", ["Z"])][..0] == [];
    }
    assert [("X", "Y")][..0] == [];
    assert [("X", "Z")][..0] == [];
  }

  /** `compareModuleGraphs(graph1, graph2)` */
  method CompareModuleGraphs(graph1: ModuleGraph, graph2: ModuleGraph) returns (diff: GraphDiff)
    ensures diff == GraphDifference(graph1, graph2)
    ensures forall s, t :: (s, t) in diff.removedEdges <==> HasEdge(graph1, s, t) && !HasEdge(graph2, s, t)
    ensures forall s, t :: (s, t) in diff.addedEdges <==> HasEdge(graph2, s, t) && !HasEdge(graph1, s, t)
  {
    var removedEdges := MissingEdgesLoop(graph1, graph2);
    var addedEdges := MissingEdgesLoop(graph2, graph1);
    diff := GraphDiff(addedEdges, removedEdges);
    forall s, t ensures ((s, t) in diff.removedEdges <==> HasEdge(graph1, s, t) && !HasEdge(graph2, s, t))
                     && ((s, t) in diff.addedEdges <==> HasEdge(graph2, s, t) && !HasEdge(graph1, s, t)) {
      GraphDifferenceMembers(graph1, graph2, s, t);
    }
  }

  /** One of the two loops of `compareModuleGraphs`: every edge of `from`
      that `other` lacks, in iteration order. */
  method MissingEdgesLoop(from: ModuleGraph, other: ModuleGraph) returns (missing: seq<Edge>)
    ensures missing == MissingEdges(EdgeList(from), other)
  {
    missing := [];
    var i := 0;
    while i < |from|
      invariant 0 <= i <= |from|
      invariant missing == MissingEdges(EdgeList(from[..i]), other)
    {
      var (fromModule, toModules) := from[i];
      assert from[..i + 1][..i] == from[..i];
      ghost var done := EdgeList(from[..i]);
      assert done + Pairs(fromModule, toModules[..0]) == done;
      var k := 0;
      while k < |toModules|
        invariant 0 <= k <= |toModules|
        invariant missing == MissingEdges(done + Pairs(fromModule, toModules[..k]), other)
      {
        var e := (fromModule, toModules[k]);
        assert done + Pairs(fromModule, toModules[..k + 1]) == (done + Pairs(fromModule, toModules[..k])) + [e];
        if !HasEdge(other, fromModule, toModules[k]) {
          missing := missing + [e];
        }
        k := k + 1;
      }
      assert toModules[..k] == toModules;
      i := i + 1;
    }
    assert from[..i] == from;
  }

  // =====================================================================
  // generateModuleNames: the coverage/repair loop
  // =====================================================================

  datatype NamedModule = NamedModule(name: string, files: seq<string>)

  /** `{modules: [{name, files}]}` */
  datatype ModuleNamesResult = ModuleNamesResult(modules: seq<NamedModule>)

  /** What one model call is asked: the initial naming prompt (readme and
      rendered tree), or a correction (the current modules and the unseen
      files joined by newlines). */
  datatype NamingRequest =
    | NameModules(readme: string, fileTree: string)
    | CorrectModules(modules: ModuleNamesResult, unseenFiles: string)

  /** The end of the loop: the final modules, the validated runner giving up
      (its exception propagates), or the "Could not find modules for N files" error. */
  datatype NamingOutcome =
    | Named(result: ModuleNamesResult)
    | RunnerFailed
    | Incomplete(unseenCount: nat)

  /** A language-model oracle: the validated result of call number `k` made
      with a request, or None when the validated runner gives up. */
  type NamingOracle = (nat, NamingRequest) -> Option<ModuleNamesResult>

  const RetryCount: nat := 3

  /** The filter `getAllFiles` is given: `.ts` or `.tsx` endings. */
  predicate IsTsOrTsx(file: string) {
    EndsWith(file, ".ts") || EndsWith(file, ".tsx")
  }

  /** The eligible files: every `.ts`/`.tsx` path of the (unfiltered) tree. */
  function AllTsFiles(tree: FileTree, ops: PathApi): seq<string> {
    GetAllFiles(tree, IsTsOrTsx, ops, "")
  }

  predicate Assigned(output: ModuleNamesResult, file: string) {
    exists m :: 0 <= m < |output.modules| && file in output.modules[m].files
  }

  function NotAssigned(output: ModuleNamesResult): string -> bool {
    f => !Assigned(output, f)
  }

  /** The unseen-file set after the deletions, in insertion order. */
  function UnseenFiles(allTsFiles: seq<string>, output: ModuleNamesResult): seq<string> {
    FilterSeq(Dedup(allTsFiles), NotAssigned(output))
  }

  /** The rounds of the loop from round `i` on, `unseen` being the set the
      previous round computed and `requests` the calls made so far. */
  function NamingRounds(allTsFiles: seq<string>, llm: NamingOracle, i: nat, output: ModuleNamesResult,
                        unseen: seq<string>, requests: seq<NamingRequest>): (NamingOutcome, seq<NamingRequest>)
    requires i <= RetryCount
    decreases RetryCount - i
  {
    if i == RetryCount then
      (if |unseen| > 0 then Incomplete(|unseen|) else Named(output), requests)
    else
      var u := UnseenFiles(allTsFiles, output);
      if |u| == 0 then (Named(output), requests)
      else
        var request := CorrectModules(output, JoinWith(u, "\n"));
        match llm(|requests|, request)
        case None => (RunnerFailed, requests + [request])
        case Some(next) => NamingRounds(allTsFiles, llm, i + 1, next, u, requests + [request])
  }

  /** The outcome of `generateModuleNames` and the model calls it makes. */
  function ModuleNaming(tree: FileTree, readme: string, ops: PathApi, llm: NamingOracle): (NamingOutcome, seq<NamingRequest>) {
    var first := NameModules(readme, RenderFileTree(tree));
    match llm(0, first)
    case None => (RunnerFailed, [first])
    case Some(output) => NamingRounds(AllTsFiles(tree, ops), llm, 0, output, [], [first])
  }

  /** The result of the `k`-th call of a run. */
  function Response(llm: NamingOracle, requests: seq<NamingRequest>, k: nat): Option<ModuleNamesResult>
    requires k < |requests|
  {
    llm(k, requests[k])
  }

  /** The trace invariant of the rounds: each correction is built from the
      previous call's result alone (the whole partition is replaced, never
      merged) and from the files it leaves unseen. */
  predicate WellChained(allTsFiles: seq<string>, llm: NamingOracle, requests: seq<NamingRequest>) {
    forall k :: 0 < k < |requests| ==> ChainedAt(allTsFiles, llm, k, requests[k - 1], requests[k])
  }

  /** Request `k` is the correction of the answer to request `k - 1`. */
  predicate ChainedAt(allTsFiles: seq<string>, llm: NamingOracle, k: nat, before: NamingRequest, after: NamingRequest)
    requires 0 < k
  {
    llm(k - 1, before).Some? &&
    var prev := llm(k - 1, before).value;
    UnseenFiles(allTsFiles, prev) != [] &&
    after == CorrectModules(prev, JoinWith(UnseenFiles(allTsFiles, prev), "\n"))
  }

  /** What a finished run of the rounds guarantees about its outcome and its calls. */
  predicate RunFacts(allTsFiles: seq<string>, llm: NamingOracle, outcome: NamingOutcome, reqs: seq<NamingRequest>) {
    && 1 <= |reqs| <= RetryCount + 1
    && WellChained(allTsFiles, llm, reqs)
    && (outcome.RunnerFailed? <==> Response(llm, reqs, |reqs| - 1).None?)
    && (outcome.Named? ==> Response(llm, reqs, |reqs| - 1) == Some(outcome.result)
                           && UnseenFiles(allTsFiles, outcome.result) == [])
    && (outcome.Incomplete? ==>
          && |reqs| == RetryCount + 1
          && outcome.unseenCount == |UnseenFiles(allTsFiles, Response(llm, reqs, RetryCount - 1).value)|
          && outcome.unseenCount > 0)
    && (outcome.Incomplete? <==> |reqs| == RetryCount + 1 && Response(llm, reqs, RetryCount).Some?)
  }

  /** A correction built from the last result keeps the trace well chained. */
  lemma WellChainedSnoc(allTsFiles: seq<string>, llm: NamingOracle, requests: seq<NamingRequest>, prev: ModuleNamesResult)
    requires |requests| > 0 && WellChained(allTsFiles, llm, requests)
    requires Response(llm, requests, |requests| - 1) == Some(prev)
    requires UnseenFiles(allTsFiles, prev) != []
    ensures WellChained(allTsFiles, llm, requests + [CorrectModules(prev, JoinWith(UnseenFiles(allTsFiles, prev), "\n"))])
  {
    var r := requests + [CorrectModules(prev, JoinWith(UnseenFiles(allTsFiles, prev), "\n"))];
    forall k | 0 < k < |r| ensures ChainedAt(allTsFiles, llm, k, r[k - 1], r[k]) {
      if k < |requests| {
        assert r[k - 1] == requests[k - 1] && r[k] == requests[k];
      } else {
        assert r[k - 1] == requests[k - 1];
      }
    }
  }

  /** A run that extends the calls `requests` already made and keeps `RunFacts`. */
  predicate Extends(allTsFiles: seq<string>, llm: NamingOracle, requests: seq<NamingRequest>, run: (NamingOutcome, seq<NamingRequest>)) {
    && |requests| <= |run.1|
    && run.1[..|requests|] == requests
    && RunFacts(allTsFiles, llm, run.0, run.1)
  }

  /** The rounds stop without a call: the loop is over or the files are covered. */
  lemma RoundsStop(allTsFiles: seq<string>, llm: NamingOracle, i: nat, output: ModuleNamesResult,
                   unseen: seq<string>, requests: seq<NamingRequest>)
    requires i <= RetryCount
    requires |requests| == i + 1
    requires Response(llm, requests, i) == Some(output)
    requires WellChained(allTsFiles, llm, requests)
    requires i > 0 ==> unseen == UnseenFiles(allTsFiles, Response(llm, requests, i - 1).value) && unseen != []
    requires i == RetryCount || UnseenFiles(allTsFiles, output) == []
    ensures Extends(allTsFiles, llm, requests, NamingRounds(allTsFiles, llm, i, output, unseen, requests))
  {
    assert requests[..|requests|] == requests;
  }

  /** One correction round followed by the remaining rounds. */
  lemma {:induction false} NamingRoundsSpec(allTsFiles: seq<string>, llm: NamingOracle, i: nat, output: ModuleNamesResult,
                                            unseen: seq<string>, requests: seq<NamingRequest>)
    requires i <= RetryCount
    requires |requests| == i + 1
    requires Response(llm, requests, i) == Some(output)
    requires WellChained(allTsFiles, llm, requests)
    requires i > 0 ==> unseen == UnseenFiles(allTsFiles, Response(llm, requests, i - 1).value) && unseen != []
    ensures Extends(allTsFiles, llm, requests, NamingRounds(allTsFiles, llm, i, output, unseen, requests))
    decreases RetryCount - i
  {
    var u := UnseenFiles(allTsFiles, output);
    if i == RetryCount || u == [] {
      RoundsStop(allTsFiles, llm, i, output, unseen, requests);
    } else {
      var request := CorrectModules(output, JoinWith(u, "\n"));
      var requests' := requests + [request];
      WellChainedSnoc(allTsFiles, llm, requests, output);
      var response := llm(|requests|, request);
      if response.None? {
        RoundsFailed(allTsFiles, llm, requests, request);
      } else {
        assert requests'[i] == requests[i];
        NamingRoundsSpec(allTsFiles, llm, i + 1, response.value, u, requests');
        ExtendsPrefix(allTsFiles, llm, requests, request, NamingRounds(allTsFiles, llm, i + 1, response.value, u, requests'));
      }
    }
  }

  /** The rounds stop on a call the validated runner gives up on. */
  lemma RoundsFailed(allTsFiles: seq<string>, llm: NamingOracle, requests: seq<NamingRequest>, request: NamingRequest)
    requires 1 <= |requests| <= RetryCount
    requires WellChained(allTsFiles, llm, requests + [request])
    requires llm(|requests|, request).None?
    ensures Extends(allTsFiles, llm, requests, (RunnerFailed, requests + [request]))
  {
    assert (requests + [request])[..|requests|] == requests;
  }

  lemma ExtendsPrefix(allTsFiles: seq<string>, llm: NamingOracle, requests: seq<NamingRequest>, request: NamingRequest,
                      run: (NamingOutcome, seq<NamingRequest>))
    requires Extends(allTsFiles, llm, requests + [request], run)
    ensures Extends(allTsFiles, llm, requests, run)
  {
    assert run.1[..|requests|] == run.1[..|requests| + 1][..|requests|];
    assert (requests + [request])[..|requests|] == requests;
  }

  /** The loop makes at most 1 + 3 calls; each correction is built from the
      last result alone; a returned partition is the last result and covers
      every eligible file; the error is raised exactly when all 4 calls are
      made and the last one returns, whatever that last correction says,
      with the count the second-to-last result left unseen. */
  lemma ModuleNamingSpec(tree: FileTree, readme: string, ops: PathApi, llm: NamingOracle)
    ensures var (outcome, reqs) := ModuleNaming(tree, readme, ops, llm);
            var all := AllTsFiles(tree, ops);
            && 1 <= |reqs| <= RetryCount + 1
            && reqs[0] == NameModules(readme, RenderFileTree(tree))
            && WellChained(all, llm, reqs)
            && (outcome.RunnerFailed? <==> Response(llm, reqs, |reqs| - 1).None?)
            && (outcome.Named? ==> Response(llm, reqs, |reqs| - 1) == Some(outcome.result)
                                   && UnseenFiles(all, outcome.result) == [])
            && (outcome.Incomplete? ==>
                  && |reqs| == RetryCount + 1
                  && outcome.unseenCount == |UnseenFiles(all, Response(llm, reqs, RetryCount - 1).value)|
                  && outcome.unseenCount > 0)
            && (outcome.Incomplete? <==> |reqs| == RetryCount + 1 && Response(llm, reqs, RetryCount).Some?)
  {
    var first := NameModules(readme, RenderFileTree(tree));
    match llm(0, first)
    case None =>
    case Some(output) =>
      NamingRoundsSpec(AllTsFiles(tree, ops), llm, 0, output, [], [first]);
      var (outcome, reqs) := ModuleNaming(tree, readme, ops, llm);
      assert Extends(AllTsFiles(tree, ops), llm, [first], (outcome, reqs));
      assert reqs[0] == reqs[..1][0];
  }

  /** `set.delete(x)` on the sequence of a set's elements. */
  function Remove(s: seq<string>, x: string): seq<string> {
    FilterSeq(s, Differs(x))
  }

  function Differs(x: string): string -> bool {
    y => y != x
  }

  /** `f` was deleted before file `k` of module `m`. */
  predicate AssignedBefore(output: ModuleNamesResult, m: nat, k: nat, f: string) {
    || (exists m' :: 0 <= m' < m && m' < |output.modules| && f in output.modules[m'].files)
    || (m < |output.modules| && exists j :: 0 <= j < k && j < |output.modules[m].files| && output.modules[m].files[j] == f)
  }

  function NotAssignedBefore(output: ModuleNamesResult, m: nat, k: nat): string -> bool {
    f => !AssignedBefore(output, m, k, f)
  }

  lemma {:induction false} RemoveFilterStep(all: seq<string>, p: string -> bool, q: string -> bool, x: string)
    requires forall f :: q(f) <==> p(f) && f != x
    ensures Remove(FilterSeq(all, p), x) == FilterSeq(all, q)
    decreases |all|
  {
    if all != [] {
      var n := |all| - 1;
      RemoveFilterStep(all[..n], p, q, x);
      var fp := FilterSeq(all[..n], p);
      if p(all[n]) {
        assert FilterSeq(all, p) == fp + [all[n]];
        assert (fp + [all[n]])[..|fp|] == fp;
      } else {
        assert FilterSeq(all, p) == fp;
      }
    }
  }

  /** Deleting file `k` of module `m` from the set. */
  lemma RemoveNextFile(all: seq<string>, output: ModuleNamesResult, m: nat, k: nat)
    requires m < |output.modules| && k < |output.modules[m].files|
    ensures Remove(FilterSeq(all, NotAssignedBefore(output, m, k)), output.modules[m].files[k])
            == FilterSeq(all, NotAssignedBefore(output, m, k + 1))
  {
    var x := output.modules[m].files[k];
    forall f ensures NotAssignedBefore(output, m, k + 1)(f) <==> NotAssignedBefore(output, m, k)(f) && f != x {
      if f == x {
        assert AssignedBefore(output, m, k + 1, f);
      }
    }
    RemoveFilterStep(all, NotAssignedBefore(output, m, k), NotAssignedBefore(output, m, k + 1), x);
  }

  lemma NextModule(all: seq<string>, output: ModuleNamesResult, m: nat)
    requires m < |output.modules|
    ensures FilterSeq(all, NotAssignedBefore(output, m, |output.modules[m].files|))
            == FilterSeq(all, NotAssignedBefore(output, m + 1, 0))
  {
    forall f ensures NotAssignedBefore(output, m, |output.modules[m].files|)(f) == NotAssignedBefore(output, m + 1, 0)(f) {
      if f in output.modules[m].files {
        var j :| 0 <= j < |output.modules[m].files| && output.modules[m].files[j] == f;
        assert AssignedBefore(output, m, |output.modules[m].files|, f);
        assert AssignedBefore(output, m + 1, 0, f);
      }
    }
    FilterSeqCongruent(all, NotAssignedBefore(output, m, |output.modules[m].files|), NotAssignedBefore(output, m + 1, 0));
  }

  lemma AllModules(all: seq<string>, output: ModuleNamesResult)
    ensures FilterSeq(all, NotAssignedBefore(output, |output.modules|, 0)) == FilterSeq(all, NotAssigned(output))
  {
    FilterSeqCongruent(all, NotAssignedBefore(output, |output.modules|, 0), NotAssigned(output));
  }

  /** `unseen` is what is left of the set once every file listed before
      module `m` has been deleted. */
  ghost predicate UnseenBeforeModule(all: seq<string>, output: ModuleNamesResult, m: nat, unseen: seq<string>) {
    unseen == FilterSeq(all, NotAssignedBefore(output, m, 0))
  }

  lemma UnseenBeforeFirstModule(all: seq<string>, output: ModuleNamesResult)
    ensures UnseenBeforeModule(all, output, 0, all)
  {
    FilterSeqAll(all, NotAssignedBefore(output, 0, 0));
  }

  /** The unseen-file set of the loop body: `new Set(allTsFiles)`, then a
      `delete` for every file of every module. */
  method ComputeUnseenFiles(allTsFiles: seq<string>, output: ModuleNamesResult) returns (unseenFiles: seq<string>)
    ensures unseenFiles == UnseenFiles(allTsFiles, output)
  {
    unseenFiles := DeleteAssignedFiles(Dedup(allTsFiles), output);
  }

  /** The deletions from the set of elements `all`, module by module. */
  method DeleteAssignedFiles(all: seq<string>, output: ModuleNamesResult) returns (unseenFiles: seq<string>)
    ensures unseenFiles == FilterSeq(all, NotAssigned(output))
  {
    unseenFiles := all;
    UnseenBeforeFirstModule(all, output);
    var m := 0;
    while m < |output.modules|
      invariant 0 <= m <= |output.modules|
      invariant UnseenBeforeModule(all, output, m, unseenFiles)
    {
      unseenFiles := DeleteModuleFiles(unseenFiles, all, output, m);
      m := m + 1;
    }
    AllModules(all, output);
  }

  /** The deletions for the files of module `m`. */
  method DeleteModuleFiles(unseen: seq<string>, ghost all: seq<string>, output: ModuleNamesResult, m: nat) returns (unseenFiles: seq<string>)
    requires m < |output.modules|
    requires UnseenBeforeModule(all, output, m, unseen)
    ensures UnseenBeforeModule(all, output, m + 1, unseenFiles)
  {
    unseenFiles := unseen;
    var files := output.modules[m].files;
    var k := 0;
    while k < |files|
      invariant 0 <= k <= |files|
      invariant unseenFiles == FilterSeq(all, NotAssignedBefore(output, m, k))
    {
      RemoveNextFile(all, output, m, k);
      unseenFiles := Remove(unseenFiles, files[k]);
      k := k + 1;
    }
    NextModule(all, output, m);
  }

  /** The loop of `generateModuleNames`, with the tree, the readme and the
      model's answers given. */
  method GenerateModuleNames(tree: FileTree, readme: string, ops: PathApi, llm: NamingOracle)
    returns (outcome: NamingOutcome, requests: seq<NamingRequest>)
    ensures (outcome, requests) == ModuleNaming(tree, readme, ops, llm)
    ensures 1 <= |requests| <= RetryCount + 1
    ensures outcome.Named? ==> UnseenFiles(AllTsFiles(tree, ops), outcome.result) == []
  {
    ModuleNamingBounds(tree, readme, ops, llm);
    var first := NameModules(readme, RenderFileTree(tree));
    requests := [first];
    var response := llm(0, first);
    if response.None? {
      outcome := RunnerFailed;
      return;
    }
    var allTsFiles := AllTsFiles(tree, ops);
    outcome, requests := CorrectionLoop(allTsFiles, llm, response.value, requests);
  }

  /** The `for` loop of `generateModuleNames`, from the first answer on. */
  method CorrectionLoop(allTsFiles: seq<string>, llm: NamingOracle, first: ModuleNamesResult, firstCalls: seq<NamingRequest>)
    returns (outcome: NamingOutcome, requests: seq<NamingRequest>)
    ensures (outcome, requests) == NamingRounds(allTsFiles, llm, 0, first, [], firstCalls)
  {
    ghost var run := NamingRounds(allTsFiles, llm, 0, first, [], firstCalls);
    requests := firstCalls;
    var output := first;
    var unseenFiles: seq<string> := [];
    var response;
    var i := 0;
    while i < RetryCount
      invariant 0 <= i <= RetryCount
      invariant NamingRounds(allTsFiles, llm, i, output, unseenFiles, requests) == run
    {
      var calls;
      unseenFiles, response, calls := CorrectionRound(allTsFiles, llm, output, requests);
      if |unseenFiles| == 0 {
        break;
      }
      requests := calls;
      if response.None? {
        outcome := RunnerFailed;
        return;
      }
      output := response.value;
      i := i + 1;
    }
    if |unseenFiles| > 0 {
      outcome := Incomplete(|unseenFiles|);
    } else {
      outcome := Named(output);
    }
  }

  /** The body of the loop: the unseen set of the current answer and, when
      it is not empty, the correction call made with it and its response. */
  method CorrectionRound(allTsFiles: seq<string>, llm: NamingOracle, output: ModuleNamesResult, requests: seq<NamingRequest>)
    returns (unseenFiles: seq<string>, response: Option<ModuleNamesResult>, calls: seq<NamingRequest>)
    ensures unseenFiles == UnseenFiles(allTsFiles, output)
    ensures |unseenFiles| == 0 ==> calls == requests
    ensures |unseenFiles| > 0 ==>
              && calls == requests + [CorrectModules(output, JoinWith(unseenFiles, "\n"))]
              && response == llm(|requests|, CorrectModules(output, JoinWith(unseenFiles, "\n")))
  {
    unseenFiles := ComputeUnseenFiles(allTsFiles, output);
    calls := requests;
    response := None;
    if |unseenFiles| > 0 {
      var request := CorrectModules(output, JoinWith(unseenFiles, "\n"));
      response := llm(|requests|, request);
      calls := requests + [request];
    }
  }

  /** The two facts about a run that `GenerateModuleNames` promises besides
      being that run. */
  lemma ModuleNamingBounds(tree: FileTree, readme: string, ops: PathApi, llm: NamingOracle)
    ensures var (outcome, reqs) := ModuleNaming(tree, readme, ops, llm);
            && 1 <= |reqs| <= RetryCount + 1
            && (outcome.Named? ==> UnseenFiles(AllTsFiles(tree, ops), outcome.result) == [])
  {
    ModuleNamingSpec(tree, readme, ops, llm);
  }

  // The loop leaves after its third correction without looking at the
  // answer to it: the error is decided by the set computed from the answer
  // before. `ModuleNaming` models that; `ModuleNamingRechecked` looks again.

  /** The rounds with the unseen set computed afresh from every answer,
      the last one included. */
  function NamingRoundsRechecked(allTsFiles: seq<string>, llm: NamingOracle, i: nat, output: ModuleNamesResult,
                                 requests: seq<NamingRequest>): (NamingOutcome, seq<NamingRequest>)
    requires i <= RetryCount
    decreases RetryCount - i
  {
    var u := UnseenFiles(allTsFiles, output);
    if |u| == 0 then (Named(output), requests)
    else if i == RetryCount then (Incomplete(|u|), requests)
    else
      var request := CorrectModules(output, JoinWith(u, "\n"));
      match llm(|requests|, request)
      case None => (RunnerFailed, requests + [request])
      case Some(next) => NamingRoundsRechecked(allTsFiles, llm, i + 1, next, requests + [request])
  }

  function ModuleNamingRechecked(tree: FileTree, readme: string, ops: PathApi, llm: NamingOracle): (NamingOutcome, seq<NamingRequest>) {
    var first := NameModules(readme, RenderFileTree(tree));
    match llm(0, first)
    case None => (RunnerFailed, [first])
    case Some(output) => NamingRoundsRechecked(AllTsFiles(tree, ops), llm, 0, output, [first])
  }

  /** What the rechecked rounds guarantee: a run that does not fail ends
      with the last answer, which is accepted exactly when it leaves no
      file unseen, and the error counts the files that answer leaves out. */
  predicate RecheckedFacts(allTsFiles: seq<string>, llm: NamingOracle, outcome: NamingOutcome, reqs: seq<NamingRequest>) {
    && 1 <= |reqs| <= RetryCount + 1
    && (outcome.RunnerFailed? <==> Response(llm, reqs, |reqs| - 1).None?)
    && (!outcome.RunnerFailed? ==>
          var last := Response(llm, reqs, |reqs| - 1).value;
          && (outcome.Named? <==> UnseenFiles(allTsFiles, last) == [])
          && (outcome.Named? ==> outcome.result == last)
          && (outcome.Incomplete? ==> outcome.unseenCount == |UnseenFiles(allTsFiles, last)|))
  }

  lemma {:induction false} NamingRoundsRecheckedSpec(allTsFiles: seq<string>, llm: NamingOracle, i: nat, output: ModuleNamesResult,
                                                     requests: seq<NamingRequest>)
    requires i <= RetryCount
    requires |requests| == i + 1
    requires Response(llm, requests, i) == Some(output)
    ensures var (outcome, reqs) := NamingRoundsRechecked(allTsFiles, llm, i, output, requests);
            RecheckedFacts(allTsFiles, llm, outcome, reqs)
    decreases RetryCount - i
  {
    var u := UnseenFiles(allTsFiles, output);
    if |u| > 0 && i < RetryCount {
      var request := CorrectModules(output, JoinWith(u, "\n"));
      var r := requests + [request];
      assert Response(llm, r, |requests|) == llm(|requests|, request);
      match llm(|requests|, request)
      case None =>
      case Some(next) =>
        NamingRoundsRecheckedSpec(allTsFiles, llm, i + 1, next, r);
    }
  }

  /** The corrected loop accepts exactly the runs whose last answer covers
      every file, and names the files that answer leaves out otherwise. */
  lemma ModuleNamingRecheckedSpec(tree: FileTree, readme: string, ops: PathApi, llm: NamingOracle)
    ensures var (outcome, reqs) := ModuleNamingRechecked(tree, readme, ops, llm);
            && reqs[0] == NameModules(readme, RenderFileTree(tree))
            && RecheckedFacts(AllTsFiles(tree, ops), llm, outcome, reqs)
  {
    var first := NameModules(readme, RenderFileTree(tree));
    match llm(0, first)
    case None =>
    case Some(output) =>
      NamingRoundsRecheckedSpec(AllTsFiles(tree, ops), llm, 0, output, [first]);
      RecheckedKeepsPrefix(AllTsFiles(tree, ops), llm, 0, output, [first]);
  }

  lemma {:induction false} RecheckedKeepsPrefix(allTsFiles: seq<string>, llm: NamingOracle, i: nat, output: ModuleNamesResult,
                                                requests: seq<NamingRequest>)
    requires i <= RetryCount
    ensures var reqs := NamingRoundsRechecked(allTsFiles, llm, i, output, requests).1;
            |requests| <= |reqs| && reqs[..|requests|] == requests
    decreases RetryCount - i
  {
    var u := UnseenFiles(allTsFiles, output);
    if |u| > 0 && i < RetryCount {
      var request := CorrectModules(output, JoinWith(u, "\n"));
      var r := requests + [request];
      match llm(|requests|, request)
      case None =>
        assert r[..|requests|] == requests;
      case Some(next) =>
        RecheckedKeepsPrefix(allTsFiles, llm, i + 1, next, r);
        var reqs := NamingRoundsRechecked(allTsFiles, llm, i + 1, next, r).1;
        assert reqs[..|requests|] == reqs[..|r|][..|requests|];
    }
  }

  /** Where the loop as written ends without its error, the rechecked loop
      ends the same way. */
  lemma {:induction false} RecheckedAgreesUnlessIncomplete(allTsFiles: seq<string>, llm: NamingOracle, i: nat, output: ModuleNamesResult,
                                                           unseen: seq<string>, requests: seq<NamingRequest>)
    requires i <= RetryCount
    requires i > 0 ==> |unseen| > 0
    ensures !NamingRounds(allTsFiles, llm, i, output, unseen, requests).0.Incomplete? ==>
              NamingRoundsRechecked(allTsFiles, llm, i, output, requests) == NamingRounds(allTsFiles, llm, i, output, unseen, requests)
    decreases RetryCount - i
  {
    var u := UnseenFiles(allTsFiles, output);
    if i < RetryCount && |u| > 0 {
      var request := CorrectModules(output, JoinWith(u, "\n"));
      match llm(|requests|, request)
      case None =>
      case Some(next) =>
        RecheckedAgreesUnlessIncomplete(allTsFiles, llm, i + 1, next, u, requests + [request]);
    }
  }

  lemma ModuleNamingRecheckedAgrees(tree: FileTree, readme: string, ops: PathApi, llm: NamingOracle)
    ensures !ModuleNaming(tree, readme, ops, llm).0.Incomplete? ==>
              ModuleNamingRechecked(tree, readme, ops, llm) == ModuleNaming(tree, readme, ops, llm)
  {
    var first := NameModules(readme, RenderFileTree(tree));
    match llm(0, first)
    case None =>
    case Some(output) =>
      RecheckedAgreesUnlessIncomplete(AllTsFiles(tree, ops), llm, 0, output, [], [first]);
  }

  /** Answers that leave files unseen up to and including the second
      correction, then an answer that covers every file: the loop as written
      reports the files the second correction left out, the rechecked loop
      returns the covering answer. */
  lemma StaleUnseenCheckRejectsCoveringAnswer(tree: FileTree, readme: string, ops: PathApi, llm: NamingOracle,
                                              partial: ModuleNamesResult, covering: ModuleNamesResult)
    requires forall k: nat, r: NamingRequest :: k < RetryCount ==> llm(k, r) == Some(partial)
    requires forall r: NamingRequest :: llm(RetryCount, r) == Some(covering)
    requires UnseenFiles(AllTsFiles(tree, ops), partial) != []
    requires UnseenFiles(AllTsFiles(tree, ops), covering) == []
    ensures ModuleNaming(tree, readme, ops, llm).0 == Incomplete(|UnseenFiles(AllTsFiles(tree, ops), partial)|)
    ensures ModuleNamingRechecked(tree, readme, ops, llm).0 == Named(covering)
  {
    var all := AllTsFiles(tree, ops);
    var u := UnseenFiles(all, partial);
    var first := NameModules(readme, RenderFileTree(tree));
    var c := CorrectModules(partial, JoinWith(u, "\n"));
    var r1, r2, r3 := [first, c], [first, c, c], [first, c, c, c];
    assert llm(0, first) == Some(partial) && llm(1, c) == Some(partial) && llm(2, c) == Some(partial);
    assert llm(3, c) == Some(covering);
    assert [first] + [c] == r1 && r1 + [c] == r2 && r2 + [c] == r3;
    assert NamingRounds(all, llm, 2, partial, u, r2) == NamingRounds(all, llm, 3, covering, u, r3);
    assert NamingRounds(all, llm, 1, partial, u, r1) == NamingRounds(all, llm, 2, partial, u, r2);
    assert NamingRounds(all, llm, 0, partial, [], [first]) == NamingRounds(all, llm, 1, partial, u, r1);
    assert NamingRoundsRechecked(all, llm, 2, partial, r2) == NamingRoundsRechecked(all, llm, 3, covering, r3);
    assert NamingRoundsRechecked(all, llm, 1, partial, r1) == NamingRoundsRechecked(all, llm, 2, partial, r2);
    assert NamingRoundsRechecked(all, llm, 0, partial, [first]) == NamingRoundsRechecked(all, llm, 1, partial, r1);
  }

  /** Such answers exist: the tree `getFileTree` builds for a repository
      `repo` whose only file is `a.ts` (a root named after the repository,
      with one child), an answer with no modules, and an answer assigning
      that file to one module. It needs only that the repository's own path
      is not a TypeScript file and the file's path is. */
  lemma OneFileRepositoryMeetsStaleCheck(ops: PathApi, repo: string)
    requires !IsTsOrTsx(ops.join("", repo))
    requires IsTsOrTsx(ops.join(ops.join("", repo), "a.ts"))
    ensures var f := ops.join(ops.join("", repo), "a.ts");
            && AllTsFiles(FileTree(repo, [FileTree("a.ts", [])]), ops) == [f]
            && UnseenFiles([f], ModuleNamesResult([])) == [f]
            && UnseenFiles([f], ModuleNamesResult([NamedModule("core", [f])])) == []
  {
    OneFileListing(ops, repo);
    OneFileUnseen(ops.join(ops.join("", repo), "a.ts"));
  }

  /** The listing of a root with one TypeScript child is the child's path. */
  lemma OneFileListing(ops: PathApi, repo: string)
    requires !IsTsOrTsx(ops.join("", repo))
    requires IsTsOrTsx(ops.join(ops.join("", repo), "a.ts"))
    ensures AllTsFiles(FileTree(repo, [FileTree("a.ts", [])]), ops) == [ops.join(ops.join("", repo), "a.ts")]
  {
    var leaf := FileTree("a.ts", []);
    assert GetAllFilesOf([leaf], IsTsOrTsx, ops, ops.join("", repo)) == [ops.join(ops.join("", repo), "a.ts")];
  }

  /** One eligible file is unseen by the empty answer and covered by an
      answer that lists it. */
  lemma OneFileUnseen(f: string)
    ensures UnseenFiles([f], ModuleNamesResult([])) == [f]
    ensures UnseenFiles([f], ModuleNamesResult([NamedModule("core", [f])])) == []
  {
    var s := [f];
    var covering := ModuleNamesResult([NamedModule("core", [f])]);
    DedupOfDistinct(s);
    FilterSeqAll(s, NotAssigned(ModuleNamesResult([])));
    assert Assigned(covering, s[0]) by {
      assert s[0] in covering.modules[0].files;
    }
  }

  /** With Node's `path.join`, which gives "repo" and "repo/a.ts" here, a
      repository named `repo` meets both requirements. */
  lemma RepoNamedRepoIsEligible(ops: PathApi)
    requires ops.join("", "repo") == "repo" && ops.join("repo", "a.ts") == "repo/a.ts"
    ensures !IsTsOrTsx(ops.join("", "repo")) && IsTsOrTsx(ops.join(ops.join("", "repo"), "a.ts"))
  {
    assert "repo/a.ts"[|"repo/a.ts"| - 3..] == ".ts";
    assert "repo"[|"repo"| - 3..] != ".ts" && "repo"[|"repo"| - 4..] != ".tsx";
  }


}
