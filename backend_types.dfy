/** The data shapes of the reflexion-model backend. */
module BackendTypes {
  import opened Collections

  type ModuleName = string
  type FilePathStr = string

  /** File (relative to the repository root) to the dependency paths found in it. */
  datatype FileDependencyMap = FileDependencyMap(dependencies: Dict<seq<string>>)

  /** Module name to the files that belong to it. */
  datatype ModulesDefinition = ModulesDefinition(moduleMapping: Dict<seq<FilePathStr>>)

  /** Module name to the modules it depends on. */
  type ModuleGraph = Dict<seq<ModuleName>>

  /** An asserted architecture: a module graph with the partition it is about. */
  datatype ReflexionModel = ReflexionModel(moduleGraph: ModuleGraph, modulesDefinition: ModulesDefinition)
}
