/** The functions of Node's `path` module that the core calls. Their
    normalisation rules and their dependence on the working directory are
    not modelled: every model takes them as parameters. */
module NodePath {

  datatype PathApi = PathApi(
    /** `path.dirname(p)` */
    dirname: string -> string,
    /** `path.join(a, b)` */
    join: (string, string) -> string,
    /** `path.resolve(...segments)` */
    resolve: seq<string> -> string,
    /** `path.relative(from, to)` */
    relative: (string, string) -> string)
}
