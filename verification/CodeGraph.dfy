/** The code graph's nodes and edges (internal/graph/node.go, internal/graph/edge.go), as
    the analyses read them: AllNodes and AllEdges hand out lists in arbitrary order. */
module CodeGraph {
  import opened Reachability

  datatype NodeKind =
    | FileNode | PackageNode | FunctionNode | MethodNode | TypeNode
    | InterfaceNode | VariableNode | ImportNode | ContractNode | OtherNode(name: string)

  datatype EdgeKind =
    | Imports | Defines | Calls | Instantiates | Implements | Extends
    | References | MemberOf | Provides | Consumes | Matches | OtherEdge(name: string)

  datatype Node = Node(
    id: Id,
    kind: NodeKind,
    name: string,
    qualName: string,
    filePath: string,
    startLine: int,
    endLine: int,
    language: string,
    repoPrefix: string,
    meta: map<string, string>)

  datatype Edge = Edge(
    from: Id,
    to: Id,
    kind: EdgeKind,
    filePath: string,
    line: int,
    confidence: real,
    origin: string,
    crossRepo: bool,
    meta: map<string, string>)

  /** File and import nodes are bookkeeping; every other node is a symbol. */
  predicate IsSymbol(n: Node)
  {
    n.kind != FileNode && n.kind != ImportNode
  }

  /** The edges along which cycles are looked for. */
  predicate IsDependency(k: EdgeKind)
  {
    k == Imports || k == Calls
  }

  ghost function DependencyArcs(edges: seq<Edge>): Arcs
  {
    set e | e in edges && (e.kind == Imports || e.kind == Calls) :: (e.from, e.to)
  }

  /** An edge of which only the ends and the kind matter. */
  function PlainEdge(from: Id, to: Id, kind: EdgeKind): Edge
  {
    Edge(from, to, kind, "main.go", 1, 1.0, "", false, map[])
  }
}
