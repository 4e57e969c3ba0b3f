/**
 * The scene-graph nodes the importer builds, the failures that abort an
 * import, and the shape of the node table (the arena that `nodeList` is).
 */
module SceneGraph {
  import opened Wrappers

  /** A material parameter: 1..4 floats (kept as their token text) or 1..4 int32 values. */
  datatype ParamValue = FloatValue(texts: seq<string>) | IntValue(ints: seq<int>)

  /** The element type of an array bound into the binary file. */
  datatype ArrayShape = Vec3f | Vec2f | Vec4i

  /** A zero-copy view: `num` elements of shape `shape` starting `ofs` bytes into the binary file. */
  datatype Binding = Binding(ofs: nat, num: nat, shape: ArrayShape)

  /**
   * The node kinds the importer creates. References to other nodes are
   * node-table indices. `uses` counts the refInc calls a Material received.
   */
  datatype Node =
    | Material(name: Option<string>, params: map<string, ParamValue>, uses: nat)
    | Transform(child: Option<nat>, matrix: seq<string>)
    | Mesh(vertex: Option<Binding>, normal: Option<Binding>, texcoord: Option<Binding>,
           triangle: Option<Binding>, materials: seq<nat>)
    | Group(children: seq<nat>)

  /** A node-table entry; None is the NULL placeholder. */
  type Entry = Option<Node>

  /** The World: the nodes pushed into world->node, and the node table they live in. */
  datatype World = World(node: seq<Option<nat>>, table: seq<Entry>)

  /** Everything that aborts an import. No partial World is produced. */
  datatype Failure =
    | NotRivlFormat                   // the document is not one BGFscene element
    | NotBgfScene(name: string)       // the root element has another name
    | EmptyModel                      // the root element has no children
    | UnknownParamType(tag: string)   // a Material param with a type outside the eight tags
    | MissingParamToken(name: string) // a param body with fewer tokens than its type needs
    | BadTransformMatrix(numRead: int)// sscanf did not read twelve numbers
    | IndexOutOfRange(index: nat)     // a reference beyond the end of the node table
    | NullTransformChild(index: nat)  // a Transform child that is a NULL entry
    | MissingOffset(child: string)    // a Mesh array child without `ofs`
    | MissingCount(child: string)     // a Mesh array child without `num`
    | NotAMaterial(index: nat)        // a materiallist index that is not a Material
    | UnknownMeshChild(name: string)  // a Mesh child element of an unknown kind

  datatype Kind = NoNode | MaterialKind | TransformKind | MeshKind | GroupKind

  function KindOf(e: Entry): Kind
  {
    match e
    case None => NoNode
    case Some(Material(_, _, _)) => MaterialKind
    case Some(Transform(_, _)) => TransformKind
    case Some(Mesh(_, _, _, _, _)) => MeshKind
    case Some(Group(_)) => GroupKind
  }

  predicate IsMaterialAt(t: seq<Entry>, i: nat)
  {
    i < |t| && KindOf(t[i]) == MaterialKind
  }

  /** Index `i` holds a node rather than a NULL placeholder. */
  predicate IsNodeAt(t: seq<Entry>, i: nat)
  {
    i < |t| && t[i].Some?
  }

  /** The indices an entry refers to: a Transform's child, a Mesh's materials, a Group's children. */
  function Refs(e: Entry): seq<nat>
  {
    match e
    case Some(Transform(c, _)) => if c.Some? then [c.value] else []
    case Some(Mesh(_, _, _, _, ms)) => ms
    case Some(Group(cs)) => cs
    case _ => []
  }

  /** An entry with its use count erased: what stays fixed once its declaration is done. */
  function Frozen(e: Entry): (f: Entry)
    ensures KindOf(f) == KindOf(e) && Refs(f) == Refs(e)
  {
    match e
    case Some(Material(n, ps, _)) => Some(Material(n, ps, 0))
    case _ => e
  }

  /** The use count of a Material entry; 0 for everything else. */
  function UsesOf(e: Entry): nat
  {
    match e
    case Some(Material(_, _, u)) => u
    case _ => 0
  }

  /**
   * `t2` extends `t1`, and every entry of `t1` is unchanged in `t2` apart
   * from Material use counts, which only grow.
   */
  predicate Extends(t1: seq<Entry>, t2: seq<Entry>)
  {
    |t1| <= |t2| &&
    forall i :: 0 <= i < |t1| ==> Frozen(t2[i]) == Frozen(t1[i]) && UsesOf(t1[i]) <= UsesOf(t2[i])
  }

  /**
   * The arena invariant at entry `i`: its references point backward (to an
   * earlier entry or, for Transforms and Groups, to the entry itself), a
   * Transform's child is never a NULL entry, and a Mesh's materials are Materials.
   */
  predicate EntryOk(t: seq<Entry>, i: nat)
    requires i < |t|
  {
    (forall j :: 0 <= j < |Refs(t[i])| ==> Refs(t[i])[j] <= i) &&
    (KindOf(t[i]) == TransformKind && t[i].value.child.Some? ==> IsNodeAt(t, t[i].value.child.value)) &&
    (KindOf(t[i]) == MeshKind ==> forall j :: 0 <= j < |t[i].value.materials| ==> IsMaterialAt(t, t[i].value.materials[j]))
  }

  /** The arena invariant of the whole node table. */
  predicate WellFormed(t: seq<Entry>)
  {
    forall i :: 0 <= i < |t| ==> EntryOk(t, i)
  }
}
