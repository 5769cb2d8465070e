/**
  The global scope a generated script runs in: a fixed set of library
  bindings and `result = None`, with the file context laid over them.
 */
module Scope {
  import opened Values
  import opened Namespaces

  /** The names the scope binds before the file context is applied, in the
      order the scope literal lists them. */
  const BaseNames: seq<string> :=
    ["pd", "np", "plt", "sns", "duckdb", "requests", "BeautifulSoup", "io", "base64", "re", "result"]

  /** The objects bound to `BaseNames`: the libraries, and None for `result`. */
  const BaseBinding: map<string, Value> := map[
    "pd" := Library("pandas"),
    "np" := Library("numpy"),
    "plt" := Library("matplotlib.pyplot"),
    "sns" := Library("seaborn"),
    "duckdb" := Library("duckdb"),
    "requests" := Library("requests"),
    "BeautifulSoup" := Library("bs4.BeautifulSoup"),
    "io" := Library("io"),
    "base64" := Library("base64"),
    "re" := Library("re"),
    "result" := NoneV
  ]

  function BaseScope(): (s: Namespace)
    ensures WellFormed(s)
    ensures s.order == BaseNames && s.binding == BaseBinding
  {
    Namespace(BaseNames, BaseBinding)
  }

  /** `_create_execution_scope(file_context)`: every file variable is bound as
      in the file context, shadowing a library of the same name; every other
      base name keeps its library; `result` is None unless a file is named
      so; the base names come first in the order. */
  function ExecutionScope(fileContext: Namespace): (s: Namespace)
    requires WellFormed(fileContext)
    ensures WellFormed(s)
    ensures forall k :: k in s.binding <==> k in BaseBinding || k in fileContext.binding
    ensures forall k :: k in fileContext.binding ==> s.binding[k] == fileContext.binding[k]
    ensures forall k :: k in BaseBinding && k !in fileContext.binding ==> s.binding[k] == BaseBinding[k]
    ensures Get(s, "result") == if "result" in fileContext.binding then fileContext.binding["result"] else NoneV
    ensures |BaseNames| <= |s.order| && s.order[..|BaseNames|] == BaseNames
  {
    Update(BaseScope(), fileContext)
  }

  /** The scope is built as the source builds it: the literal first, then
      `scope.update(file_context)`. */
  method CreateExecutionScope(fileContext: Namespace) returns (scope: Namespace)
    requires WellFormed(fileContext)
    ensures scope == ExecutionScope(fileContext)
  {
    scope := BaseScope();
    scope := Update(scope, fileContext);
  }
}
