/** The conversion between the saved form of a command (the DTO written to the JSON
    document) and the node the provider keeps (src/mappers/terminal-node.ts). */
module NodeMapper {
  import opened Common
  import opened CommandTree

  /** `TerminalNodeDTO` (src/dto/terminal-node.ts:4-13), without its `iconPath`. */
  datatype Dto = Dto(
    name: string,
    cType: CommandType,
    children: DtoList,
    key: Key,
    command: Option<string>,
    variables: Option<seq<string>>,
    isGroup: Option<bool>)

  /** The DTO's `children`: `undefined`, or an array. */
  datatype DtoList = NoDtos | Dtos(items: seq<Dto>)

  /** `mapTerminalNode`: a node with the DTO's fields and its children mapped in turn; run
      state and terminal are not part of a node and so are never read from a document
      (src/mappers/terminal-node.ts:5-20). */
  function MapTerminalNode(d: Dto): (n: Node)
    ensures n.key == d.key && n.name == d.name && n.cType == d.cType
    ensures n.command == d.command && n.variables == d.variables && n.isGroup == d.isGroup
    ensures n.children.NoChildren? <==> d.children.NoDtos?
    ensures d.children.Dtos? ==> |Kids(n)| == |d.children.items|
    decreases d
  {
    Node(d.key, d.name, d.cType, d.isGroup, d.command, d.variables,
      match d.children
      case NoDtos => NoChildren
      case Dtos(items) => Children(MapTerminalNodes(items)))
  }

  /** `mapTerminalNodes`: one node per DTO, in order (src/mappers/terminal-node.ts:22-27). */
  function MapTerminalNodes(ds: seq<Dto>): (ns: seq<Node>)
    ensures |ns| == |ds|
    ensures forall i :: 0 <= i < |ds| ==> ns[i].key == ds[i].key && ns[i].name == ds[i].name
    decreases ds
  {
    seq(|ds|, i requires 0 <= i < |ds| => MapTerminalNode(ds[i]))
  }

  /** `mapTerminalNodeToDTO`: the node's saved fields, children mapped in turn
      (src/mappers/terminal-node.ts:29-42). */
  function MapTerminalNodeToDTO(n: Node): (d: Dto)
    ensures d.key == n.key && d.name == n.name && d.cType == n.cType
    ensures d.command == n.command && d.variables == n.variables && d.isGroup == n.isGroup
    ensures d.children.NoDtos? <==> n.children.NoChildren?
    ensures n.children.Children? ==> |d.children.items| == |Kids(n)|
    decreases n
  {
    Dto(n.name, n.cType,
      match n.children
      case NoChildren => NoDtos
      case Children(c) => Dtos(MapTerminalNodeToDTOs(c)),
      n.key, n.command, n.variables, n.isGroup)
  }

  /** `mapTerminalNodeToDTOs`: one DTO per node, in order (src/mappers/terminal-node.ts:44-46). */
  function MapTerminalNodeToDTOs(ns: seq<Node>): (ds: seq<Dto>)
    ensures |ds| == |ns|
    ensures forall i :: 0 <= i < |ns| ==> ds[i].key == ns[i].key && ds[i].name == ns[i].name
    decreases ns
  {
    seq(|ns|, i requires 0 <= i < |ns| => MapTerminalNodeToDTO(ns[i]))
  }

  /** Saving a node and reading it back gives the same node, children and all. */
  lemma {:induction false} NodeRoundTrip(n: Node)
    ensures MapTerminalNode(MapTerminalNodeToDTO(n)) == n
    decreases n
  {
    match n.children
    case NoChildren =>
    case Children(c) => ForestRoundTrip(c);
  }

  lemma {:induction false} ForestRoundTrip(ns: seq<Node>)
    ensures MapTerminalNodes(MapTerminalNodeToDTOs(ns)) == ns
    decreases ns
  {
    var back := MapTerminalNodes(MapTerminalNodeToDTOs(ns));
    forall i | 0 <= i < |ns| ensures back[i] == ns[i] {
      NodeRoundTrip(ns[i]);
    }
  }

  /** Reading a document and saving it again gives the same document. */
  lemma {:induction false} DtoRoundTrip(d: Dto)
    ensures MapTerminalNodeToDTO(MapTerminalNode(d)) == d
    decreases d
  {
    match d.children
    case NoDtos =>
    case Dtos(items) => DocumentRoundTrip(items);
  }

  lemma {:induction false} DocumentRoundTrip(ds: seq<Dto>)
    ensures MapTerminalNodeToDTOs(MapTerminalNodes(ds)) == ds
    decreases ds
  {
    var back := MapTerminalNodeToDTOs(MapTerminalNodes(ds));
    forall i | 0 <= i < |ds| ensures back[i] == ds[i] {
      DtoRoundTrip(ds[i]);
    }
  }
}
