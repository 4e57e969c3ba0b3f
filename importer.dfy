/**
 * parseBGFscene and importRIVL as the source runs them: index-driven loops
 * over the element tree that append to the node table, reassign `lastNode`,
 * and fill in each node as its children are read. The node table (the global
 * `nodeList` of the source) is a field of an explicit ImportContext. Every
 * method is proved to agree with its specification function in module
 * Declarations.
 */
module Importer {
  import opened Wrappers
  import opened Xml
  import opened CText
  import opened SceneGraph
  import opened Declarations
  import opened Growth

  /**
   * A builder's outcome agrees with its specification: on success the table
   * is the specified one, on failure the failure is the specified one (what
   * the table then holds is stated separately, by Extends).
   */
  predicate Agrees(spec: Result<seq<Entry>, Failure>, fail: Option<Failure>, table: seq<Entry>)
  {
    match spec
    case Ok(t) => fail == None && table == t
    case Err(f) => fail == Some(f)
  }

  /**
   * The `param` decoder: tokenize the body, then one branch per type tag,
   * each reading as many tokens as the tag needs.
   */
  method ParseParam(name: string, tag: string, content: string) returns (r: Result<Option<ParamValue>, Failure>)
    ensures r == DecodeParam(name, tag, content)
  {
    var toks := Tokenize(content);
    var n: nat;
    var isInt: bool;
    if tag == "float" {
      n, isInt := 1, false;
    } else if tag == "float2" {
      n, isInt := 2, false;
    } else if tag == "float3" {
      n, isInt := 3, false;
    } else if tag == "float4" {
      n, isInt := 4, false;
    } else if tag == "int" {
      if HasSubstring(name, "map_") {
        // a texture slot: warned about, not stored
        return Ok(None);
      }
      n, isInt := 1, true;
    } else if tag == "int2" {
      n, isInt := 2, true;
    } else if tag == "int3" {
      n, isInt := 3, true;
    } else if tag == "int4" {
      n, isInt := 4, true;
    } else {
      return Err(UnknownParamType(tag));
    }
    if |toks| < n {
      return Err(MissingParamToken(name));
    }
    if isInt {
      var xs: seq<int> := [];
      for k := 0 to n
        invariant xs == IntsOf(toks, k)
      {
        xs := xs + [ToInt32(Atoi(toks[k]))];
      }
      r := Ok(Some(IntValue(xs)));
    } else {
      r := Ok(Some(FloatValue(toks[..n])));
    }
  }

  /**
   * The attribute loop of a vertex/normal/texcoord/prim child: both values
   * start at size_t(-1), each `ofs`/`num` attribute overwrites its value,
   * and both are asserted to have been set.
   */
  method ScanBinding(c: Element, shape: ArrayShape) returns (r: Result<Binding, Failure>)
    ensures r == ArrayBinding(c, shape)
  {
    var ofs, num := SizeMax, SizeMax;
    for i := 0 to |c.props|
      invariant ofs == ArrayAttr(c.props[..i], "ofs")
      invariant num == ArrayAttr(c.props[..i], "num")
    {
      ScanBindingStep(c.props, i);
      var p := c.props[i];
      if p.name == "ofs" {
        ofs := AsSize(Atoi(p.value));
      } else if p.name == "num" {
        num := AsSize(Atoi(p.value));
      }
    }
    assert c.props[..|c.props|] == c.props;
    if ofs == SizeMax {
      return Err(MissingOffset(c.name));
    }
    if num == SizeMax {
      return Err(MissingCount(c.name));
    }
    r := Ok(Binding(ofs, num, shape));
  }

  /** One attribute of the scan: it updates the value of its own name only. */
  lemma ScanBindingStep(props: seq<Prop>, i: nat)
    requires i < |props|
    ensures ArrayAttr(props[..i + 1], "ofs") ==
            if props[i].name == "ofs" then AsSize(Atoi(props[i].value)) else ArrayAttr(props[..i], "ofs")
    ensures ArrayAttr(props[..i + 1], "num") ==
            if props[i].name == "num" then AsSize(Atoi(props[i].value)) else ArrayAttr(props[..i], "num")
  {
    assert props[..i + 1] == props[..i] + [props[i]];
    LastValueAppend(props[..i], props[i], "ofs");
    LastValueAppend(props[..i], props[i], "num");
  }

  /**
   * The explicit import context: the node table that the source keeps in the
   * global `nodeList`. Every method only extends the table, on its failure
   * paths too: what was pushed before a failure stays in the table.
   */
  class ImportContext {
    var table: seq<Entry>

    constructor ()
      ensures table == []
    {
      table := [];
    }

    /** `nodeList.push_back(e)`: the entry gets the next index. */
    method Append(e: Entry) returns (index: nat)
      modifies this
      ensures table == old(table) + [e]
      ensures index == |old(table)|
      ensures Extends(old(table), table)
    {
      index := |table|;
      ExtendsAppend(table, e);
      table := table + [e];
    }

    method DeclareMaterial(e: Element) returns (fail: Option<Failure>)
      modifies this
      ensures Agrees(MaterialDecl(old(table), e), fail, table)
      ensures Extends(old(table), table)
    {
      var blank := Some(Material(None, map[], 0));
      var index := Append(blank);
      // the `type` attribute is read into a local the source never uses
      var name := ScanProp(e.props, "name");
      var params: map<string, ParamValue> := map[];
      for i := 0 to |e.child|
        invariant table == old(table) + [blank]
        invariant MaterialParams(map[], e.child, 0) == MaterialParams(params, e.child, i)
      {
        var c := e.child[i];
        if c.name == "param" {
          var childName := ScanProp(c.props, "name");
          var childType := ScanProp(c.props, "type");
          var pname := if childName.Some? then childName.value else "";
          var ptype := if childType.Some? then childType.value else "";
          var decoded := ParseParam(pname, ptype, c.content);
          if decoded.Err? {
            assert MaterialDecl(old(table), e) == Err(decoded.failure);
            return Some(decoded.failure);
          }
          if decoded.value.Some? {
            params := params[pname := decoded.value.value];
          }
        }
        // a `textures` child only draws a warning; other children are skipped
      }
      ExtendsUpdateBeyond(old(table), table, index, Some(Material(name, params, 0)));
      table := table[index := Some(Material(name, params, 0))];
      assert MaterialDecl(old(table), e) == Ok(old(table) + [Some(Material(name, params, 0))]);
      fail := None;
    }

    method DeclareTransform(e: Element) returns (fail: Option<Failure>)
      modifies this
      ensures Agrees(TransformDecl(old(table), e), fail, table)
      ensures Extends(old(table), table)
    {
      var blank := Some(Transform(None, []));
      var index := Append(blank);
      var child: Option<nat> := None;
      for i := 0 to |e.props|
        invariant table == old(table) + [blank]
        invariant child.Some? ==> IsNodeAt(table, child.value)
        invariant TransformChild(table, e.props, 0, None) == TransformChild(table, e.props, i, child)
      {
        if e.props[i].name == "child" {
          var id := IndexOf(e.props[i].value);
          if id >= |table| {
            return Some(IndexOutOfRange(id));
          }
          if table[id].None? {
            return Some(NullTransformChild(id));
          }
          child := Some(id);
        }
      }
      var numRead := ScanCount(e.content);
      if numRead != MatrixSize as int {
        return Some(BadTransformMatrix(numRead));
      }
      var toks := Tokenize(e.content);
      ExtendsUpdateBeyond(old(table), table, index, Some(Transform(child, toks[..MatrixSize])));
      table := table[index := Some(Transform(child, toks[..MatrixSize]))];
      fail := None;
    }

    /**
     * A materiallist body: for each token, resolve it, require a Material,
     * refInc it and append it to the mesh's list.
     */
    method BindMaterialList(content: string, mats0: seq<nat>) returns (mats: seq<nat>, fail: Option<Failure>)
      modifies this
      ensures match BindMaterials(old(table), mats0, Tokens(content), 0)
              case Ok(res) => fail == None && table == res.0 && mats == res.1
              case Err(f) => fail == Some(f)
      ensures Extends(old(table), table)
    {
      var toks := Tokenize(content);
      mats := mats0;
      for i := 0 to |toks|
        invariant BindMaterials(old(table), mats0, toks, 0) == BindMaterials(table, mats, toks, i)
        invariant Extends(old(table), table)
      {
        var id := IndexOf(toks[i]);
        if id >= |table| {
          return mats, Some(IndexOutOfRange(id));
        }
        if !IsMaterialAt(table, id) {
          return mats, Some(NotAMaterial(id));
        }
        ExtendsRefInc(table, id);
        ExtendsTrans(old(table), table, RefInc(table, id));
        table := RefInc(table, id);
        mats := mats + [id];
      }
      fail := None;
    }

    /** One child element of a Mesh: an array binding, a material list, `text`, or a failure. */
    method DeclareMeshChild(c: Element, mesh: Node) returns (next: Node, fail: Option<Failure>)
      requires mesh.Mesh?
      modifies this
      ensures match MeshChild(old(table), mesh, c)
              case Ok(res) => fail == None && table == res.0 && next == res.1
              case Err(f) => fail == Some(f)
      ensures Extends(old(table), table)
    {
      next := mesh;
      fail := None;
      if c.name == "text" {
      } else if c.name == "vertex" {
        var b := ScanBinding(c, Vec3f);
        if b.Err? {
          return mesh, Some(b.failure);
        }
        next := mesh.(vertex := Some(b.value));
      } else if c.name == "normal" {
        var b := ScanBinding(c, Vec3f);
        if b.Err? {
          return mesh, Some(b.failure);
        }
        next := mesh.(normal := Some(b.value));
      } else if c.name == "texcoord" {
        var b := ScanBinding(c, Vec2f);
        if b.Err? {
          return mesh, Some(b.failure);
        }
        next := mesh.(texcoord := Some(b.value));
      } else if c.name == "prim" {
        var b := ScanBinding(c, Vec4i);
        if b.Err? {
          return mesh, Some(b.failure);
        }
        next := mesh.(triangle := Some(b.value));
      } else if c.name == "materiallist" {
        var mats, f := BindMaterialList(c.content, mesh.materials);
        if f.Some? {
          return mesh, f;
        }
        next := mesh.(materials := mats);
      } else {
        fail := Some(UnknownMeshChild(c.name));
      }
    }

    method DeclareMesh(e: Element) returns (fail: Option<Failure>)
      modifies this
      ensures Agrees(MeshDecl(old(table), e), fail, table)
      ensures Extends(old(table), table)
    {
      var index := Append(Some(EmptyMesh));
      var mesh := EmptyMesh;
      for i := 0 to |e.child|
        invariant mesh.Mesh? && |table| == index + 1
        invariant Extends(old(table), table)
        invariant MeshChildren(old(table) + [Some(EmptyMesh)], EmptyMesh, e.child, 0)
                  == MeshChildren(table, mesh, e.child, i)
      {
        ghost var before := table;
        var next, f := DeclareMeshChild(e.child[i], mesh);
        ExtendsTrans(old(table), before, table);
        if f.Some? {
          return f;
        }
        mesh := next;
      }
      ExtendsUpdateBeyond(old(table), table, index, Some(mesh));
      table := table[index := Some(mesh)];
      fail := None;
    }

    method DeclareGroup(e: Element) returns (fail: Option<Failure>)
      modifies this
      ensures Agrees(GroupDecl(old(table), e), fail, table)
      ensures Extends(old(table), table)
    {
      var blank := Some(Group([]));
      var index := Append(blank);
      if e.content == "" {
        // an empty group
        return None;
      }
      var toks := Tokenize(e.content);
      var kids: seq<nat> := [];
      for i := 0 to |toks|
        invariant table == old(table) + [blank]
        invariant GroupChildren(table, toks, 0, []) == GroupChildren(table, toks, i, kids)
      {
        var id := IndexOf(toks[i]);
        if id >= |table| {
          return Some(IndexOutOfRange(id));
        }
        // a NULL entry is accepted as a child
        kids := kids + [id];
      }
      ExtendsUpdateBeyond(old(table), table, index, Some(Group(kids)));
      table := table[index := Some(Group(kids))];
      fail := None;
    }

    /** parseBGFscene: returns `lastNode`, the index of the last Mesh or Group declared. */
    method ParseBgfScene(root: Element) returns (r: Result<Option<nat>, Failure>)
      modifies this
      ensures match SceneDecl(old(table), root)
              case Ok(st) => r == Ok(st.last) && table == st.table
              case Err(f) => r == Err(f)
      ensures Extends(old(table), table)
    {
      if root.name != "BGFscene" {
        return Err(NotBgfScene(root.name));
      }
      if root.child == [] {
        return Err(EmptyModel);
      }
      var lastNode: Option<nat> := None;
      for i := 0 to |root.child|
        invariant DeclareFrom(State(old(table), None), root.child, 0)
                  == DeclareFrom(State(table, lastNode), root.child, i)
        invariant Extends(old(table), table)
      {
        ghost var before := table;
        var node := root.child[i];
        var fail: Option<Failure> := None;
        var index := |table|;
        if node.name == "text" {
        } else if node.name == "Texture2D" {
          // textures are not implemented: a NULL placeholder keeps the indices aligned
          index := Append(None);
        } else if node.name == "Material" {
          fail := DeclareMaterial(node);
        } else if node.name == "Transform" {
          fail := DeclareTransform(node);
        } else if node.name == "Mesh" {
          fail := DeclareMesh(node);
          if fail == None {
            lastNode := Some(index);
          }
        } else if node.name == "Group" {
          fail := DeclareGroup(node);
          if fail == None {
            lastNode := Some(index);
          }
        } else {
          // an unknown declaration: a NULL placeholder, no failure
          index := Append(None);
        }
        ExtendsTrans(old(table), before, table);
        if fail.Some? {
          return Err(fail.value);
        }
      }
      r := Ok(lastNode);
    }

    /**
     * importRIVL after the binary file is mapped: check the document shape,
     * then run parseBGFscene on this context's table and hand back the World.
     */
    method ImportRivl(doc: Doc) returns (r: Result<World, Failure>)
      modifies this
      ensures r == ImportOnTable(old(table), doc)
      ensures r.Ok? ==> table == r.value.table
      ensures Extends(old(table), table)
    {
      if |doc.child| != 1 || doc.child[0].name != "BGFscene" {
        return Err(NotRivlFormat);
      }
      var last := ParseBgfScene(doc.child[0]);
      if last.Err? {
        return Err(last.failure);
      }
      r := Ok(World([last.value], table));
    }
  }

  /** An import on a context of its own, so that indices in the file are indices in its table. */
  method ImportFresh(doc: Doc) returns (r: Result<World, Failure>)
    ensures r == Import(doc)
  {
    var context := new ImportContext();
    r := context.ImportRivl(doc);
  }
}
