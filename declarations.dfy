/**
 * The declaration-order scene builder, parseBGFscene, as functions over the
 * node table. Each builder takes the table as it stands before the
 * declaration and yields the table after it, or the failure that aborts the
 * import. The class in module Importer runs the same steps with loops and is
 * proved to agree with these functions; module Properties proves what the
 * importer promises about them.
 */
module Declarations {
  import opened Wrappers
  import opened Xml
  import opened CText
  import opened SceneGraph

  // ---------------------------------------------------------------------
  // Typed parameter decoding (one `param` child of a Material)
  // ---------------------------------------------------------------------

  datatype NumberKind = FloatKind | IntKind

  /** The `type` values a param may carry. */
  const ParamTags: set<string> := {"float", "float2", "float3", "float4", "int", "int2", "int3", "int4"}

  /** The eight accepted type tags, with the number of tokens each reads. */
  function TagArity(tag: string): (r: Option<(NumberKind, nat)>)
    ensures r.Some? <==> tag in ParamTags
    ensures r.Some? ==> 1 <= r.value.1 <= 4
  {
    if tag == "float" then Some((FloatKind, 1))
    else if tag == "float2" then Some((FloatKind, 2))
    else if tag == "float3" then Some((FloatKind, 3))
    else if tag == "float4" then Some((FloatKind, 4))
    else if tag == "int" then Some((IntKind, 1))
    else if tag == "int2" then Some((IntKind, 2))
    else if tag == "int3" then Some((IntKind, 3))
    else if tag == "int4" then Some((IntKind, 4))
    else None
  }

  /** An `int` parameter whose name contains `map_` names a texture slot, which is not supported. */
  predicate IsTextureSlot(name: string, tag: string)
  {
    tag == "int" && HasSubstring(name, "map_")
  }

  /** The first `n` tokens read with atol and truncated to int32. */
  function IntsOf(toks: seq<string>, n: nat): (xs: seq<int>)
    requires n <= |toks|
    ensures |xs| == n
    ensures forall k :: 0 <= k < n ==> xs[k] == ToInt32(Atoi(toks[k]))
  {
    seq(n, k requires 0 <= k < n => ToInt32(Atoi(toks[k])))
  }

  /**
   * The value one `param` element stores under its name: None for a texture
   * slot (a warning only), a failure for an unknown tag or for a body with
   * fewer tokens than the tag reads (atof/atol would be handed NULL).
   */
  function DecodeParam(name: string, tag: string, content: string): (r: Result<Option<ParamValue>, Failure>)
    ensures r.Ok? && r.value.None? ==> IsTextureSlot(name, tag)
    ensures r.Ok? && r.value.Some? ==>
              match r.value.value
              case FloatValue(xs) => TagArity(tag) == Some((FloatKind, |xs|))
              case IntValue(xs) => TagArity(tag) == Some((IntKind, |xs|))
  {
    match TagArity(tag)
    case None => Err(UnknownParamType(tag))
    case Some((kind, n)) =>
      if IsTextureSlot(name, tag) then Ok(None)
      else
        var toks := Tokens(content);
        if |toks| < n then Err(MissingParamToken(name))
        else if kind == FloatKind then Ok(Some(FloatValue(toks[..n])))
        else Ok(Some(IntValue(IntsOf(toks, n))))
  }

  // ---------------------------------------------------------------------
  // Material
  // ---------------------------------------------------------------------

  /** The `name` and `type` attributes of a `param` child; an absent one reads as the empty string. */
  function ParamName(c: Element): string
  {
    ValueOr(c.props, "name", "")
  }

  function ParamType(c: Element): string
  {
    ValueOr(c.props, "type", "")
  }

  /** What one `param` child stores. */
  function Param(c: Element): Result<Option<ParamValue>, Failure>
  {
    DecodeParam(ParamName(c), ParamType(c), c.content)
  }

  /** The parameter map after the Material's children from `i` on; children other than `param` are skipped. */
  function MaterialParams(params: map<string, ParamValue>, cs: seq<Element>, i: nat)
    : (r: Result<map<string, ParamValue>, Failure>)
    requires i <= |cs|
    ensures r.Ok? ==> params.Keys <= r.value.Keys
    decreases |cs| - i
  {
    if i == |cs| then Ok(params)
    else if cs[i].name == "param" then
      var decoded :- Param(cs[i]);
      MaterialParams(if decoded.Some? then params[ParamName(cs[i]) := decoded.value] else params, cs, i + 1)
    else
      MaterialParams(params, cs, i + 1)
  }

  /** A Material declaration pushes one unused Material named by its `name` attribute. */
  function MaterialDecl(t: seq<Entry>, e: Element): (r: Result<seq<Entry>, Failure>)
    ensures r.Ok? ==> |r.value| == |t| + 1 && r.value[..|t|] == t && IsMaterialAt(r.value, |t|) &&
                      r.value[|t|].value.uses == 0 && r.value[|t|].value.name == LastValue(e.props, "name") &&
                      MaterialParams(map[], e.child, 0) == Ok(r.value[|t|].value.params)
  {
    var params :- MaterialParams(map[], e.child, 0);
    Ok(t + [Some(Material(LastValue(e.props, "name"), params, 0))])
  }

  // ---------------------------------------------------------------------
  // Transform
  // ---------------------------------------------------------------------

  /** `size_t id = atoi(text)`: a node-table index read from text. */
  function IndexOf(text: string): (r: nat)
    ensures r <= SizeMax
    ensures 0 <= Atoi(text) <= SizeMax ==> r == Atoi(text)
    ensures -SizeModulus <= Atoi(text) < 0 ==> r == Atoi(text) + SizeModulus
  {
    var v := Atoi(text);
    AsSizeRange(v);
    if -SizeModulus <= v < 0 then AsSizeOfNegative(v); AsSize(v) else AsSize(v)
  }

  /**
   * The Transform's child after its attributes from `i` on: every `child`
   * attribute is looked up and must name a non-NULL entry; the last one wins.
   */
  function TransformChild(t: seq<Entry>, props: seq<Prop>, i: nat, child: Option<nat>)
    : (r: Result<Option<nat>, Failure>)
    requires i <= |props|
    requires child.Some? ==> IsNodeAt(t, child.value)
    ensures r.Ok? && r.value.Some? ==> IsNodeAt(t, r.value.value)
    decreases |props| - i
  {
    if i == |props| then Ok(child)
    else if props[i].name == "child" then
      var id := IndexOf(props[i].value);
      if id >= |t| then Err(IndexOutOfRange(id))
      else if t[id].None? then Err(NullTransformChild(id))
      else TransformChild(t, props, i + 1, Some(id))
    else
      TransformChild(t, props, i + 1, child)
  }

  /** A token on which a `%f` conversion makes progress. */
  predicate StartsFloat(w: string)
  {
    (|w| >= 1 && IsDigit(w[0])) ||
    (|w| >= 2 && (w[0] == '+' || w[0] == '-' || w[0] == '.') && IsDigit(w[1])) ||
    (|w| >= 3 && (w[0] == '+' || w[0] == '-') && w[1] == '.' && IsDigit(w[2]))
  }

  /** How many tokens from the start are numbers. */
  function LeadingFloats(toks: seq<string>): (n: nat)
    ensures n <= |toks|
    ensures forall k :: 0 <= k < n ==> StartsFloat(toks[k])
    ensures n < |toks| ==> !StartsFloat(toks[n])
  {
    if toks == [] || !StartsFloat(toks[0]) then 0 else 1 + LeadingFloats(toks[1..])
  }

  const MatrixSize: nat := 12

  /**
   * What `sscanf(content, "%f %f %f\n..." )` with twelve conversions returns:
   * EOF (-1) on a body with no token, otherwise the number of leading numbers,
   * at most twelve.
   */
  function ScanCount(content: string): (n: int)
    ensures -1 <= n <= MatrixSize as int
    ensures n == -1 <==> Tokens(content) == []
    ensures n == MatrixSize as int ==> |Tokens(content)| >= MatrixSize
  {
    var toks := Tokens(content);
    if toks == [] then -1
    else if LeadingFloats(toks) >= MatrixSize then MatrixSize
    else LeadingFloats(toks)
  }

  /**
   * A Transform declaration pushes one Transform holding the first twelve
   * tokens of its body; its child, if any, names a non-NULL entry, possibly itself.
   */
  function TransformDecl(t: seq<Entry>, e: Element): (r: Result<seq<Entry>, Failure>)
    ensures r.Ok? ==> ScanCount(e.content) == MatrixSize as int &&
                      |r.value| == |t| + 1 && r.value[..|t|] == t && KindOf(r.value[|t|]) == TransformKind &&
                      r.value[|t|].value.matrix == Tokens(e.content)[..MatrixSize] &&
                      (r.value[|t|].value.child.Some? ==> IsNodeAt(r.value, r.value[|t|].value.child.value))
  {
    var t1 := t + [Some(Transform(None, []))];
    var child :- TransformChild(t1, e.props, 0, None);
    var numRead := ScanCount(e.content);
    if numRead != MatrixSize as int then Err(BadTransformMatrix(numRead))
    else Ok(t + [Some(Transform(child, Tokens(e.content)[..MatrixSize]))])
  }

  // ---------------------------------------------------------------------
  // Mesh
  // ---------------------------------------------------------------------

  /** `size_t x = -1; ... x = atol(value)` for the last attribute named `key`. */
  function ArrayAttr(props: seq<Prop>, key: string): (r: nat)
    ensures r <= SizeMax
    ensures LastValue(props, key).None? ==> r == SizeMax
    ensures LastValue(props, key).Some? ==> r == AsSize(Atoi(LastValue(props, key).value))
  {
    match LastValue(props, key)
    case None => SizeMax
    case Some(v) => AsSize(Atoi(v))
  }

  /** The binding a vertex/normal/texcoord/prim child asks for; both attributes are asserted set. */
  function ArrayBinding(c: Element, shape: ArrayShape): (r: Result<Binding, Failure>)
    ensures r.Ok? ==> r.value.ofs < SizeMax && r.value.num < SizeMax && r.value.shape == shape
  {
    var ofs := ArrayAttr(c.props, "ofs");
    var num := ArrayAttr(c.props, "num");
    if ofs == SizeMax then Err(MissingOffset(c.name))
    else if num == SizeMax then Err(MissingCount(c.name))
    else Ok(Binding(ofs, num, shape))
  }

  /** refInc on the Material at `id`: its use count goes up by one and nothing else changes. */
  function RefInc(t: seq<Entry>, id: nat): (r: seq<Entry>)
    requires IsMaterialAt(t, id)
    ensures |r| == |t| && IsMaterialAt(r, id)
    ensures r[id].value.uses == t[id].value.uses + 1
    ensures r[id].value.name == t[id].value.name && r[id].value.params == t[id].value.params
    ensures r[..id] == t[..id] && r[id + 1..] == t[id + 1..]
  {
    var m := t[id].value;
    t[id := Some(Material(m.name, m.params, m.uses + 1))]
  }

  /**
   * A materiallist body from token `i` on: each token is resolved, must be a
   * Material, gets one refInc, and is appended to the mesh's material list.
   */
  function BindMaterials(t: seq<Entry>, mats: seq<nat>, toks: seq<string>, i: nat)
    : (r: Result<(seq<Entry>, seq<nat>), Failure>)
    requires i <= |toks|
    ensures r.Ok? ==> |r.value.0| == |t|
    decreases |toks| - i
  {
    if i == |toks| then Ok((t, mats))
    else
      var id := IndexOf(toks[i]);
      if id >= |t| then Err(IndexOutOfRange(id))
      else if !IsMaterialAt(t, id) then Err(NotAMaterial(id))
      else BindMaterials(RefInc(t, id), mats + [id], toks, i + 1)
  }

  const EmptyMesh: Node := Mesh(None, None, None, None, [])

  /** One child element of a Mesh, dispatched on its name. */
  function MeshChild(t: seq<Entry>, m: Node, c: Element): (r: Result<(seq<Entry>, Node), Failure>)
    requires m.Mesh?
    ensures r.Ok? ==> r.value.1.Mesh? && |r.value.0| == |t|
  {
    if c.name == "text" then Ok((t, m))
    else if c.name == "vertex" then
      var b :- ArrayBinding(c, Vec3f);
      Ok((t, m.(vertex := Some(b))))
    else if c.name == "normal" then
      var b :- ArrayBinding(c, Vec3f);
      Ok((t, m.(normal := Some(b))))
    else if c.name == "texcoord" then
      var b :- ArrayBinding(c, Vec2f);
      Ok((t, m.(texcoord := Some(b))))
    else if c.name == "prim" then
      var b :- ArrayBinding(c, Vec4i);
      Ok((t, m.(triangle := Some(b))))
    else if c.name == "materiallist" then
      var bound :- BindMaterials(t, m.materials, Tokens(c.content), 0);
      Ok((bound.0, m.(materials := bound.1)))
    else
      Err(UnknownMeshChild(c.name))
  }

  /** The mesh and the table after the Mesh's children from `i` on. */
  function MeshChildren(t: seq<Entry>, m: Node, cs: seq<Element>, i: nat)
    : (r: Result<(seq<Entry>, Node), Failure>)
    requires m.Mesh? && i <= |cs|
    ensures r.Ok? ==> r.value.1.Mesh? && |r.value.0| == |t|
    decreases |cs| - i
  {
    if i == |cs| then Ok((t, m))
    else
      var next :- MeshChild(t, m, cs[i]);
      MeshChildren(next.0, next.1, cs, i + 1)
  }

  /** A Mesh declaration pushes one Mesh; its material lists refInc earlier entries. */
  function MeshDecl(t: seq<Entry>, e: Element): (r: Result<seq<Entry>, Failure>)
    ensures r.Ok? ==> |r.value| == |t| + 1 && KindOf(r.value[|t|]) == MeshKind
  {
    var t1 := t + [Some(EmptyMesh)];
    var built :- MeshChildren(t1, EmptyMesh, e.child, 0);
    Ok(built.0[|t| := Some(built.1)])
  }

  // ---------------------------------------------------------------------
  // Group
  // ---------------------------------------------------------------------

  /** The Group's child list after tokens from `i` on; a NULL entry is accepted as a child. */
  function GroupChildren(t: seq<Entry>, toks: seq<string>, i: nat, kids: seq<nat>)
    : (r: Result<seq<nat>, Failure>)
    requires i <= |toks|
    ensures r.Ok? ==> |r.value| == |kids| + |toks| - i
    decreases |toks| - i
  {
    if i == |toks| then Ok(kids)
    else
      var id := IndexOf(toks[i]);
      if id >= |t| then Err(IndexOutOfRange(id))
      else GroupChildren(t, toks, i + 1, kids + [id])
  }

  /** A Group declaration pushes one Group with one child per token of its body. */
  function GroupDecl(t: seq<Entry>, e: Element): (r: Result<seq<Entry>, Failure>)
    ensures r.Ok? ==> |r.value| == |t| + 1 && r.value[..|t|] == t && KindOf(r.value[|t|]) == GroupKind &&
                      |r.value[|t|].value.children| == |Tokens(e.content)|
  {
    var t1 := t + [Some(Group([]))];
    if e.content == "" then Ok(t1)
    else
      var kids :- GroupChildren(t1, Tokens(e.content), 0, []);
      Ok(t + [Some(Group(kids))])
  }

  // ---------------------------------------------------------------------
  // Dispatch and the declaration loop
  // ---------------------------------------------------------------------

  /** The running state of the loop: the node table and `lastNode`. */
  datatype State = State(table: seq<Entry>, last: Option<nat>)

  /** Declarations that become the running root. */
  predicate IsRootName(name: string)
  {
    name == "Mesh" || name == "Group"
  }

  /** The number of table entries a list of declarations adds: one per non-`text` element. */
  function EntryCount(es: seq<Element>): nat
  {
    if es == [] then 0 else (if es[0].name == "text" then 0 else 1) + EntryCount(es[1..])
  }

  /** One top-level declaration, dispatched on its element name. */
  function Declare(st: State, e: Element): (r: Result<State, Failure>)
    ensures r.Ok? ==> |r.value.table| == |st.table| + EntryCount([e])
  {
    assert [e][1..] == [];
    if e.name == "text" then Ok(st)
    else if e.name == "Texture2D" then Ok(State(st.table + [None], st.last))
    else if e.name == "Material" then
      var t :- MaterialDecl(st.table, e);
      Ok(State(t, st.last))
    else if e.name == "Transform" then
      var t :- TransformDecl(st.table, e);
      Ok(State(t, st.last))
    else if e.name == "Mesh" then
      var t :- MeshDecl(st.table, e);
      Ok(State(t, Some(|st.table|)))
    else if e.name == "Group" then
      var t :- GroupDecl(st.table, e);
      Ok(State(t, Some(|st.table|)))
    else
      Ok(State(st.table + [None], st.last))
  }

  /** The loop over the root's children from `i` on. */
  function DeclareFrom(st: State, es: seq<Element>, i: nat): (r: Result<State, Failure>)
    requires i <= |es|
    ensures r.Ok? ==> |r.value.table| == |st.table| + EntryCount(es[i..])
    decreases |es| - i
  {
    if i == |es| then Ok(st)
    else
      var st1 :- Declare(st, es[i]);
      var r := DeclareFrom(st1, es, i + 1);
      assert es[i..] == [es[i]] + es[i + 1..];
      EntryCountAppend([es[i]], es[i + 1..]);
      r
  }

  lemma {:induction false} EntryCountAppend(a: seq<Element>, b: seq<Element>)
    ensures EntryCount(a + b) == EntryCount(a) + EntryCount(b)
  {
    if a == [] {
      assert a + b == b;
    } else {
      assert (a + b)[1..] == a[1..] + b;
      EntryCountAppend(a[1..], b);
    }
  }

  /** parseBGFscene: the root checks, then the declarations in order, starting from table `t`. */
  function SceneDecl(t: seq<Entry>, root: Element): (r: Result<State, Failure>)
    ensures r.Ok? ==> root.name == "BGFscene" && root.child != [] && |r.value.table| == |t| + EntryCount(root.child)
  {
    if root.name != "BGFscene" then Err(NotBgfScene(root.name))
    else if root.child == [] then Err(EmptyModel)
    else
      assert root.child[0..] == root.child;
      DeclareFrom(State(t, None), root.child, 0)
  }

  /** The document check of importRIVL, then parseBGFscene on a table that already holds `t`. */
  function ImportOnTable(t: seq<Entry>, doc: Doc): (r: Result<World, Failure>)
    ensures r.Ok? ==> |doc.child| == 1 && doc.child[0].name == "BGFscene" && |r.value.node| == 1 &&
                      |r.value.table| == |t| + EntryCount(doc.child[0].child)
  {
    if |doc.child| != 1 || doc.child[0].name != "BGFscene" then Err(NotRivlFormat)
    else
      var st :- SceneDecl(t, doc.child[0]);
      Ok(World([st.last], st.table))
  }

  /** An import with a node table of its own: the table holds the document's entries and nothing else. */
  function Import(doc: Doc): (r: Result<World, Failure>)
    ensures r.Ok? ==> |doc.child| == 1 && |r.value.node| == 1 && |r.value.table| == EntryCount(doc.child[0].child)
  {
    ImportOnTable([], doc)
  }
}
