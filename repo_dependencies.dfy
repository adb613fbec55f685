/** The file dependency map of a repository: for every source file, the
    repository-relative paths of the modules its import declarations name. */
module RepoDependencies {
  import opened Collections
  import opened NodePath
  import opened BackendTypes

  /** A parsed source file: its absolute path and the module specifier of
      each import declaration, in declaration order. */
  datatype SourceFile = SourceFile(path: string, specifiers: seq<string>)

  /** The key of a source file: its path relative to the repository root. */
  function FileKey(ops: PathApi, directoryPath: string, file: SourceFile): string {
    ops.relative(directoryPath, file.path)
  }

  /** The stored form of a specifier: joined to the importing file's
      directory, resolved, and made relative to the repository root. Bare
      package names are treated like relative paths. */
  function ResolvedSpecifier(ops: PathApi, directoryPath: string, sourceFilePath: string, specifier: string): string {
    ops.relative(directoryPath, ops.resolve([ops.join(ops.dirname(sourceFilePath), specifier)]))
  }

  /** One import declaration: an empty specifier, or one whose own text is
      already in the list, adds nothing; any other adds its resolved path. */
  function AddSpecifier(ops: PathApi, directoryPath: string, sourceFilePath: string, list: seq<string>, specifier: string): seq<string> {
    if specifier != "" && specifier !in list then list + [ResolvedSpecifier(ops, directoryPath, sourceFilePath, specifier)]
    else list
  }

  /** The list stored for one file after its first `specs` import declarations. */
  function FileDependencyList(ops: PathApi, directoryPath: string, sourceFilePath: string, specs: seq<string>): seq<string>
    decreases |specs|
  {
    if specs == [] then []
    else AddSpecifier(ops, directoryPath, sourceFilePath, FileDependencyList(ops, directoryPath, sourceFilePath, specs[..|specs| - 1]), specs[|specs| - 1])
  }

  /** The entry one source file leaves in the dictionary. */
  function FileEntry(ops: PathApi, directoryPath: string, file: SourceFile): (string, seq<string>) {
    (FileKey(ops, directoryPath, file), FileDependencyList(ops, directoryPath, file.path, file.specifiers))
  }

  function FileEntries(ops: PathApi, directoryPath: string, files: seq<SourceFile>): (r: seq<(string, seq<string>)>)
    ensures |r| == |files|
    ensures forall i :: 0 <= i < |files| ==> r[i] == FileEntry(ops, directoryPath, files[i])
  {
    seq(|files|, i requires 0 <= i < |files| => FileEntry(ops, directoryPath, files[i]))
  }

  /** The dictionary after the source files: each file's key is set in turn
      (in place when the key exists) to that file's list. */
  function DependenciesOf(ops: PathApi, directoryPath: string, files: seq<SourceFile>): Dict<seq<string>> {
    PutAll(FileEntries(ops, directoryPath, files))
  }

  /** `getFileDependencies(directoryPath)` over the parsed source files. */
  function FileDependenciesOf(ops: PathApi, directoryPath: string, files: seq<SourceFile>): FileDependencyMap {
    FileDependencyMap(DependenciesOf(ops, directoryPath, files))
  }

  function FileKeys(ops: PathApi, directoryPath: string, files: seq<SourceFile>): (r: seq<string>)
    ensures |r| == |files|
    ensures forall i :: 0 <= i < |files| ==> r[i] == FileKey(ops, directoryPath, files[i])
  {
    seq(|files|, i requires 0 <= i < |files| => FileKey(ops, directoryPath, files[i]))
  }

  /** Every source file has a key, even one without imports, and there is
      no other key, in order of first appearance. */
  lemma DependenciesOfKeys(ops: PathApi, directoryPath: string, files: seq<SourceFile>)
    ensures Keys(DependenciesOf(ops, directoryPath, files)) == Dedup(FileKeys(ops, directoryPath, files))
  {
    PutAllKeys(FileEntries(ops, directoryPath, files));
    assert Keys(FileEntries(ops, directoryPath, files)) == FileKeys(ops, directoryPath, files);
  }

  /** A key holds the list of the last file with that key. */
  lemma DependenciesOfLookup(ops: PathApi, directoryPath: string, files: seq<SourceFile>, i: nat)
    requires i < |files|
    requires forall j :: i < j < |files| ==> FileKey(ops, directoryPath, files[j]) != FileKey(ops, directoryPath, files[i])
    ensures Lookup(DependenciesOf(ops, directoryPath, files), FileKey(ops, directoryPath, files[i]))
            == Some(FileDependencyList(ops, directoryPath, files[i].path, files[i].specifiers))
  {
    PutAllLookup(FileEntries(ops, directoryPath, files), i);
  }

  /** With distinct keys, every file's key holds its own list. */
  lemma DistinctKeysHoldOwnLists(ops: PathApi, directoryPath: string, files: seq<SourceFile>, i: nat)
    requires i < |files|
    requires Distinct(FileKeys(ops, directoryPath, files))
    ensures Lookup(FileDependenciesOf(ops, directoryPath, files).dependencies, FileKey(ops, directoryPath, files[i]))
            == Some(FileDependencyList(ops, directoryPath, files[i].path, files[i].specifiers))
  {
    forall j | i < j < |files| ensures FileKeys(ops, directoryPath, files)[j] != FileKeys(ops, directoryPath, files)[i] {
      DistinctAt(FileKeys(ops, directoryPath, files), i, j);
    }
    DependenciesOfLookup(ops, directoryPath, files, i);
  }

  /** `a` is `b` with some elements left out, order kept. */
  predicate Subsequence(a: seq<string>, b: seq<string>)
    decreases |b|
  {
    if a == [] then true
    else if b == [] then false
    else if a[|a| - 1] == b[|b| - 1] then Subsequence(a[..|a| - 1], b[..|b| - 1])
    else Subsequence(a, b[..|b| - 1])
  }

  /** The resolved paths of the non-empty specifiers, in declaration order. */
  function ResolvedNonEmpty(ops: PathApi, directoryPath: string, sourceFilePath: string, specs: seq<string>): seq<string>
    decreases |specs|
  {
    if specs == [] then []
    else ResolvedNonEmpty(ops, directoryPath, sourceFilePath, specs[..|specs| - 1])
         + (if specs[|specs| - 1] != "" then [ResolvedSpecifier(ops, directoryPath, sourceFilePath, specs[|specs| - 1])] else [])
  }

  /** Appending to the longer sequence keeps a subsequence a subsequence. */
  lemma {:induction false} SubsequenceWeaken(a: seq<string>, b: seq<string>, x: string)
    requires Subsequence(a, b)
    ensures Subsequence(a, b + [x])
    decreases |b|, 1
  {
    assert (b + [x])[..|b|] == b;
    if a != [] && a[|a| - 1] == x {
      SubsequenceDropLast(a, b);
    }
  }

  /** Dropping the last element of a subsequence keeps it a subsequence. */
  lemma {:induction false} SubsequenceDropLast(a: seq<string>, b: seq<string>)
    requires a != [] && Subsequence(a, b)
    ensures Subsequence(a[..|a| - 1], b)
    decreases |b|, 0
  {
    var b' := b[..|b| - 1];
    assert b == b' + [b[|b| - 1]];
    if a[|a| - 1] == b[|b| - 1] {
      SubsequenceWeaken(a[..|a| - 1], b', b[|b| - 1]);
    } else {
      SubsequenceDropLast(a, b');
      SubsequenceWeaken(a[..|a| - 1], b', b[|b| - 1]);
    }
  }

  /** Dependencies are stored in declaration order, resolved, and only for
      non-empty specifiers: the stored list is a subsequence of the resolved
      non-empty specifiers, so it is never longer than the declarations. */
  lemma {:induction false} StoredInDeclarationOrder(ops: PathApi, directoryPath: string, sourceFilePath: string, specs: seq<string>)
    ensures Subsequence(FileDependencyList(ops, directoryPath, sourceFilePath, specs), ResolvedNonEmpty(ops, directoryPath, sourceFilePath, specs))
    ensures |FileDependencyList(ops, directoryPath, sourceFilePath, specs)| <= |specs|
    decreases |specs|
  {
    if specs != [] {
      var n := |specs| - 1;
      StoredInDeclarationOrder(ops, directoryPath, sourceFilePath, specs[..n]);
      var acc := FileDependencyList(ops, directoryPath, sourceFilePath, specs[..n]);
      var res := ResolvedNonEmpty(ops, directoryPath, sourceFilePath, specs[..n]);
      if specs[n] != "" {
        var x := ResolvedSpecifier(ops, directoryPath, sourceFilePath, specs[n]);
        assert ResolvedNonEmpty(ops, directoryPath, sourceFilePath, specs) == res + [x];
        if specs[n] !in acc {
          assert FileDependencyList(ops, directoryPath, sourceFilePath, specs) == acc + [x];
          assert (acc + [x])[..|acc|] == acc;
          assert (res + [x])[..|res|] == res;
          assert Subsequence(acc + [x], res + [x]);
        } else {
          SubsequenceWeaken(acc, res, x);
        }
      } else {
        assert ResolvedNonEmpty(ops, directoryPath, sourceFilePath, specs) == res + [] == res;
      }
    }
  }

  /** Import declarations whose specifiers are all empty store nothing. */
  lemma {:induction false} EmptySpecifiersStoreNothing(ops: PathApi, directoryPath: string, sourceFilePath: string, specs: seq<string>)
    requires forall j :: 0 <= j < |specs| ==> specs[j] == ""
    ensures FileDependencyList(ops, directoryPath, sourceFilePath, specs) == []
    decreases |specs|
  {
    if specs != [] {
      EmptySpecifiersStoreNothing(ops, directoryPath, sourceFilePath, specs[..|specs| - 1]);
    }
  }

  /** When every specifier is its own stored form, the raw-text check does
      deduplicate: the stored list has no repetition. */
  lemma {:induction false} IdentityResolutionDeduplicates(ops: PathApi, directoryPath: string, sourceFilePath: string, specs: seq<string>)
    requires forall j :: 0 <= j < |specs| ==> ResolvedSpecifier(ops, directoryPath, sourceFilePath, specs[j]) == specs[j]
    ensures Distinct(FileDependencyList(ops, directoryPath, sourceFilePath, specs))
    decreases |specs|
  {
    if specs != [] {
      var n := |specs| - 1;
      var acc := FileDependencyList(ops, directoryPath, sourceFilePath, specs[..n]);
      IdentityResolutionDeduplicates(ops, directoryPath, sourceFilePath, specs[..n]);
      if specs[n] != "" && specs[n] !in acc {
        DistinctSnoc(acc, specs[n]);
      }
    }
  }

  /** The check compares the raw specifier with stored resolved paths, so a
      repeated `./x` whose stored form differs from `./x` is stored twice. */
  lemma RepeatedImportStoredTwice(ops: PathApi, directoryPath: string, sourceFilePath: string)
    requires ResolvedSpecifier(ops, directoryPath, sourceFilePath, "./x") != "./x"
    ensures var r := ResolvedSpecifier(ops, directoryPath, sourceFilePath, "./x");
            FileDependencyList(ops, directoryPath, sourceFilePath, ["./x", "./x"]) == [r, r]
            && !Distinct(FileDependencyList(ops, directoryPath, sourceFilePath, ["./x", "./x"]))
  {
    assert ["./x", "./x"][..1] == ["./x"];
    assert ["./x"][..0] == [];
    var r := ResolvedSpecifier(ops, directoryPath, sourceFilePath, "./x");
    assert At([r, r], 0) == At([r, r], 1);
  }

  /** The list the duplicate check evidently intends: a specifier is added
      unless its resolved path is already stored. */
  function DistinctDependencyList(ops: PathApi, directoryPath: string, sourceFilePath: string, specs: seq<string>): seq<string>
    decreases |specs|
  {
    if specs == [] then []
    else
      var acc := DistinctDependencyList(ops, directoryPath, sourceFilePath, specs[..|specs| - 1]);
      var spec := specs[|specs| - 1];
      var resolved := ResolvedSpecifier(ops, directoryPath, sourceFilePath, spec);
      if spec != "" && resolved !in acc then acc + [resolved] else acc
  }

  /** The intended list stores every resolved non-empty specifier exactly
      once, in order of first declaration. */
  lemma {:induction false} DistinctDependencyListSpec(ops: PathApi, directoryPath: string, sourceFilePath: string, specs: seq<string>)
    ensures DistinctDependencyList(ops, directoryPath, sourceFilePath, specs) == Dedup(ResolvedNonEmpty(ops, directoryPath, sourceFilePath, specs))
    ensures Distinct(DistinctDependencyList(ops, directoryPath, sourceFilePath, specs))
    decreases |specs|
  {
    if specs != [] {
      var n := |specs| - 1;
      DistinctDependencyListSpec(ops, directoryPath, sourceFilePath, specs[..n]);
      var res := ResolvedNonEmpty(ops, directoryPath, sourceFilePath, specs[..n]);
      if specs[n] != "" {
        var x := ResolvedSpecifier(ops, directoryPath, sourceFilePath, specs[n]);
        DedupSnoc(res, x);
        DedupMember(res, x);
      } else {
        assert res + [] == res;
      }
    }
  }

  /** `getFileDependencies(directoryPath)`, with the parsed files given. */
  method GetFileDependencies(directoryPath: string, sourceFiles: seq<SourceFile>, ops: PathApi) returns (fdm: FileDependencyMap)
    ensures fdm == FileDependenciesOf(ops, directoryPath, sourceFiles)
    ensures Keys(fdm.dependencies) == Dedup(FileKeys(ops, directoryPath, sourceFiles))
  {
    var dependencies: Dict<seq<string>> := [];
    var i := 0;
    while i < |sourceFiles|
      invariant 0 <= i <= |sourceFiles|
      invariant dependencies == DependenciesOf(ops, directoryPath, sourceFiles[..i])
    {
      var sourceFile := sourceFiles[i];
      var sourceFilePath := sourceFile.path;
      var filePath := ops.relative(directoryPath, sourceFilePath);
      ghost var before := dependencies;
      dependencies := Put(dependencies, filePath, []);
      var list := CollectDependencies(directoryPath, sourceFilePath, sourceFile.specifiers, ops);
      dependencies := Put(dependencies, filePath, list);
      PutTwice(before, filePath, [], list);
      DependenciesOfStep(ops, directoryPath, sourceFiles, i);
      i := i + 1;
    }
    assert sourceFiles[..i] == sourceFiles;
    fdm := FileDependencyMap(dependencies);
    DependenciesOfKeys(ops, directoryPath, sourceFiles);
  }

  lemma DependenciesOfStep(ops: PathApi, directoryPath: string, files: seq<SourceFile>, i: nat)
    requires i < |files|
    ensures DependenciesOf(ops, directoryPath, files[..i + 1])
            == Put(DependenciesOf(ops, directoryPath, files[..i]), FileKey(ops, directoryPath, files[i]),
                   FileDependencyList(ops, directoryPath, files[i].path, files[i].specifiers))
  {
    var e := FileEntries(ops, directoryPath, files[..i + 1]);
    assert e[..i] == FileEntries(ops, directoryPath, files[..i]);
  }

  /** The inner `forEach` over one file's import declarations. */
  method CollectDependencies(directoryPath: string, sourceFilePath: string, specifiers: seq<string>, ops: PathApi) returns (list: seq<string>)
    ensures list == FileDependencyList(ops, directoryPath, sourceFilePath, specifiers)
    ensures |list| <= |specifiers|
  {
    list := [];
    var j := 0;
    while j < |specifiers|
      invariant 0 <= j <= |specifiers|
      invariant list == FileDependencyList(ops, directoryPath, sourceFilePath, specifiers[..j])
    {
      var moduleSpecifier := specifiers[j];
      if moduleSpecifier != "" && moduleSpecifier !in list {
        var resolvedPath := ops.resolve([ops.join(ops.dirname(sourceFilePath), moduleSpecifier)]);
        var relativePath := ops.relative(directoryPath, resolvedPath);
        list := list + [relativePath];
      }
      assert specifiers[..j + 1][..j] == specifiers[..j];
      j := j + 1;
    }
    assert specifiers[..j] == specifiers;
    StoredInDeclarationOrder(ops, directoryPath, sourceFilePath, specifiers);
  }
}
