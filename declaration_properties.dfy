/**
 * What each kind of declaration promises: how a Material's parameters are
 * decoded and stored, how a Transform resolves its child and reads its
 * matrix, how a Mesh binds its arrays, and how a Group collects its children.
 */
module DeclarationProperties {
  import opened Wrappers
  import opened Xml
  import opened CText
  import opened SceneGraph
  import opened Declarations
  import opened Properties

  // ---------------------------------------------------------------------
  // Material parameters
  // ---------------------------------------------------------------------

  /** Only a type outside the eight tags fails with UnknownParamType. */
  lemma UnknownTagFails(name: string, tag: string, content: string)
    ensures DecodeParam(name, tag, content) == Err(UnknownParamType(tag)) <==> TagArity(tag).None?
  {
  }

  lemma AllWords(ts: seq<string>, extra: seq<string>)
    requires forall k :: 0 <= k < |ts| ==> IsWord(ts[k])
    requires forall k :: 0 <= k < |extra| ==> IsWord(extra[k])
    ensures forall k :: 0 <= k < |ts + extra| ==> IsWord((ts + extra)[k])
  {
    forall k | 0 <= k < |ts + extra|
      ensures IsWord((ts + extra)[k])
    {
      if k < |ts| {
        assert (ts + extra)[k] == ts[k];
      } else {
        assert (ts + extra)[k] == extra[k - |ts|];
      }
    }
  }

  /** A parameter reads the first tokens its type asks for; whatever follows them is ignored. */
  lemma ExtraTokensIgnored(name: string, tag: string, ts: seq<string>, extra: seq<string>)
    requires TagArity(tag).Some? && |ts| == TagArity(tag).value.1
    requires forall k :: 0 <= k < |ts| ==> IsWord(ts[k])
    requires forall k :: 0 <= k < |extra| ==> IsWord(extra[k])
    ensures DecodeParam(name, tag, Join(ts + extra)) == DecodeParam(name, tag, Join(ts))
  {
    AllWords(ts, extra);
    TokensOfJoin(ts);
    TokensOfJoin(ts + extra);
    var n := |ts|;
    assert (ts + extra)[..n] == ts == ts[..n];
    assert IntsOf(ts + extra, n) == IntsOf(ts, n);
  }

  /**
   * A stored parameter holds the first tokens of its body, in order: their
   * text for a float tag, their atol value truncated to int32 for an int tag.
   */
  lemma DecodeParamReadsTokens(name: string, tag: string, content: string)
    requires DecodeParam(name, tag, content).Ok? && DecodeParam(name, tag, content).value.Some?
    ensures var toks := Tokens(content);
            match DecodeParam(name, tag, content).value.value
            case FloatValue(xs) => |xs| <= |toks| && xs == toks[..|xs|]
            case IntValue(xs) => |xs| <= |toks| && forall k :: 0 <= k < |xs| ==> xs[k] == ToInt32(Atoi(toks[k]))
  {
  }

  /** A float tag over words stores exactly the words it reads, whatever follows them. */
  lemma DecodeFloatWords(name: string, tag: string, ts: seq<string>, extra: seq<string>)
    requires TagArity(tag) == Some((FloatKind, |ts|))
    requires forall k :: 0 <= k < |ts| ==> IsWord(ts[k])
    requires forall k :: 0 <= k < |extra| ==> IsWord(extra[k])
    ensures DecodeParam(name, tag, Join(ts + extra)) == Ok(Some(FloatValue(ts)))
  {
    ExtraTokensIgnored(name, tag, ts, extra);
    TokensOfJoin(ts);
    assert ts[..|ts|] == ts;
  }

  /** An int tag over words stores the int32 value of each word it reads, whatever follows them. */
  lemma DecodeIntWords(name: string, tag: string, ts: seq<string>, extra: seq<string>)
    requires TagArity(tag) == Some((IntKind, |ts|)) && !IsTextureSlot(name, tag)
    requires forall k :: 0 <= k < |ts| ==> IsWord(ts[k])
    requires forall k :: 0 <= k < |extra| ==> IsWord(extra[k])
    ensures DecodeParam(name, tag, Join(ts + extra)) ==
            Ok(Some(IntValue(seq(|ts|, k requires 0 <= k < |ts| => ToInt32(Atoi(ts[k]))))))
  {
    ExtraTokensIgnored(name, tag, ts, extra);
    TokensOfJoin(ts);
  }

  /** A body with fewer tokens than the type reads is an error (atof/atol would be handed NULL). */
  lemma TooFewTokensFail(name: string, tag: string, content: string)
    requires TagArity(tag).Some? && |Tokens(content)| < TagArity(tag).value.1
    requires !IsTextureSlot(name, tag)
    ensures DecodeParam(name, tag, content) == Err(MissingParamToken(name))
  {
  }

  /** An `int` parameter with `map_` in its name is a texture slot: nothing is stored, whatever its body. */
  lemma TextureSlotSkipped(name: string, content: string)
    requires HasSubstring(name, "map_")
    ensures DecodeParam(name, "int", content) == Ok(None)
  {
  }

  lemma MapPrefix(name: string)
    requires |name| >= 4 && name[..4] == "map_"
    ensures HasSubstring(name, "map_")
  {
    assert OccursAt(name, "map_", 0);
  }

  lemma ThreeTokens()
    ensures Tokens("1.0 2.0 3.0") == ["1.0", "2.0", "3.0"]
  {
    var ts := ["1.0", "2.0", "3.0"];
    assert Join(ts) == "1.0 2.0 3.0";
    assert IsWord(ts[0]) && IsWord(ts[1]) && IsWord(ts[2]);
    TokensOfJoin(ts);
  }

  /** `float3` reads three tokens, kept in order. */
  lemma Float3Example()
    ensures DecodeParam("Kd", "float3", "1.0 2.0 3.0") == Ok(Some(FloatValue(["1.0", "2.0", "3.0"])))
  {
    ThreeTokens();
    assert ["1.0", "2.0", "3.0"][..3] == ["1.0", "2.0", "3.0"];
  }

  lemma OneToken(w: string)
    requires IsWord(w)
    ensures Tokens(w) == [w]
  {
    assert Join([w]) == w;
    TokensOfJoin([w]);
  }

  /** `int` reads one token with atol; a name without `map_` is an ordinary parameter. */
  lemma IntExample()
    ensures DecodeParam("illum", "int", "7") == Ok(Some(IntValue([7])))
  {
    OneToken("7");
    AtoiOfDecimal(7);
    assert Decimal(7) == "7";
    assert !OccursAt("illum", "map_", 0) by { assert "illum"[0] != "map_"[0]; }
    assert !OccursAt("illum", "map_", 1) by { assert "illum"[1] != "map_"[0]; }
    assert !HasSubstring("illum", "map_");
    assert IntsOf(["7"], 1) == [7];
  }

  /** A texture slot is skipped even with an empty body; `int2` does not look for `map_`. */
  lemma TextureSlotExamples()
    ensures DecodeParam("map_Kd", "int", "") == Ok(None)
    ensures DecodeParam("map_Kd", "int2", "3 4") == Ok(Some(IntValue([3, 4])))
  {
    MapPrefix("map_Kd");
    assert Join(["3", "4"]) == "3 4";
    assert IsWord("3") && IsWord("4");
    TokensOfJoin(["3", "4"]);
    AtoiOfDecimal(3);
    AtoiOfDecimal(4);
    assert Decimal(3) == "3" && Decimal(4) == "4";
    assert IntsOf(["3", "4"], 2) == [3, 4];
  }

  /** The value a child stores under `x`, if it stores one. */
  function Setting(c: Element, x: string): Option<ParamValue>
  {
    if c.name == "param" && ParamName(c) == x && Param(c).Ok? && Param(c).value.Some?
    then Some(Param(c).value.value) else None
  }

  /** The value the last child from `i` on that stores under `x` stores there. */
  function LastSetting(cs: seq<Element>, i: nat, x: string): Option<ParamValue>
    requires i <= |cs|
    decreases |cs| - i
  {
    if i == |cs| then None
    else match LastSetting(cs, i + 1, x)
      case Some(v) => Some(v)
      case None => Setting(cs[i], x)
  }

  /** A Material's children decode without error exactly when each of its `param` children does. */
  lemma {:induction false} MaterialParamsOk(ps: map<string, ParamValue>, cs: seq<Element>, i: nat)
    requires i <= |cs|
    ensures MaterialParams(ps, cs, i).Ok? <==>
            forall k :: i <= k < |cs| && cs[k].name == "param" ==> Param(cs[k]).Ok?
    decreases |cs| - i
  {
    if i < |cs| {
      var c := cs[i];
      if c.name != "param" {
        MaterialParamsOk(ps, cs, i + 1);
      } else if Param(c).Ok? {
        var d := Param(c).value;
        MaterialParamsOk(if d.Some? then ps[ParamName(c) := d.value] else ps, cs, i + 1);
      }
    }
  }

  /**
   * setParam overwrites: after the children, a name holds the value of the
   * last `param` child that stores under it, or what it held before.
   */
  /**
   * The Material a declaration pushes holds, under each name, the value of
   * the last param child that stores that name, and no other names.
   */
  lemma MaterialDeclParams(t: seq<Entry>, e: Element)
    requires MaterialDecl(t, e).Ok?
    ensures var ps := MaterialDecl(t, e).value[|t|].value.params;
            forall x :: (x in ps <==> LastSetting(e.child, 0, x).Some?) &&
                        (x in ps ==> ps[x] == LastSetting(e.child, 0, x).value)
  {
    MaterialParamsLastWins(map[], e.child, 0);
  }

  lemma {:induction false} MaterialParamsLastWins(ps: map<string, ParamValue>, cs: seq<Element>, i: nat)
    requires i <= |cs| && MaterialParams(ps, cs, i).Ok?
    ensures var r := MaterialParams(ps, cs, i).value;
            forall x :: (x in r <==> x in ps || LastSetting(cs, i, x).Some?) &&
                        (x in r ==> r[x] == if LastSetting(cs, i, x).Some? then LastSetting(cs, i, x).value else ps[x])
    decreases |cs| - i
  {
    if i < |cs| {
      var c := cs[i];
      var ps1 := if c.name == "param" && Param(c).value.Some? then ps[ParamName(c) := Param(c).value.value] else ps;
      assert MaterialParams(ps, cs, i) == MaterialParams(ps1, cs, i + 1);
      MaterialParamsLastWins(ps1, cs, i + 1);
      forall x
        ensures x in ps1 <==> x in ps || Setting(c, x).Some?
        ensures x in ps1 ==> ps1[x] == if Setting(c, x).Some? then Setting(c, x).value else ps[x]
      {
      }
    }
  }

  // ---------------------------------------------------------------------
  // Transform
  // ---------------------------------------------------------------------

  /** A Transform's child attributes resolve exactly when each names a non-NULL entry. */
  lemma {:induction false} TransformChildOk(t: seq<Entry>, props: seq<Prop>, i: nat, child: Option<nat>)
    requires i <= |props| && (child.Some? ==> IsNodeAt(t, child.value))
    ensures TransformChild(t, props, i, child).Ok? <==>
            forall k :: i <= k < |props| && props[k].name == "child" ==> IsNodeAt(t, IndexOf(props[k].value))
    decreases |props| - i
  {
    if i < |props| {
      if props[i].name == "child" {
        var id := IndexOf(props[i].value);
        if IsNodeAt(t, id) {
          TransformChildOk(t, props, i + 1, Some(id));
        }
      } else {
        TransformChildOk(t, props, i + 1, child);
      }
    }
  }

  /** The last child attribute wins; with none, the child stays what it was. */
  lemma {:induction false} TransformChildLast(t: seq<Entry>, props: seq<Prop>, i: nat, child: Option<nat>)
    requires i <= |props| && (child.Some? ==> IsNodeAt(t, child.value))
    requires TransformChild(t, props, i, child).Ok?
    ensures TransformChild(t, props, i, child).value ==
            match LastValue(props[i..], "child")
            case None => child
            case Some(v) => Some(IndexOf(v))
    decreases |props| - i
  {
    if i == |props| {
      assert props[i..] == [];
    } else {
      assert props[i..][1..] == props[i + 1..];
      LastValueCons(props[i..], "child");
      if props[i].name == "child" {
        TransformChildLast(t, props, i + 1, Some(IndexOf(props[i].value)));
      } else {
        TransformChildLast(t, props, i + 1, child);
      }
    }
  }

  /** The Transform entry a declaration leaves when its child attributes resolve. */
  function TransformEntry(t: seq<Entry>, e: Element): Entry
    requires TransformDecl(t, e).Ok?
  {
    assert |TransformDecl(t, e).value| == |t| + 1;
    TransformDecl(t, e).value[|t|]
  }

  /**
   * Once the child resolves, a Transform is accepted exactly when its body
   * starts with twelve numbers (more are accepted and ignored), and it keeps
   * those twelve as its matrix.
   */
  lemma TransformMatrix(t: seq<Entry>, e: Element)
    requires TransformChild(t + [Some(Transform(None, []))], e.props, 0, None).Ok?
    ensures TransformDecl(t, e).Ok? <==> LeadingFloats(Tokens(e.content)) >= MatrixSize
    ensures TransformDecl(t, e).Ok? ==>
            var m := TransformEntry(t, e).value.matrix;
            |m| == MatrixSize && m == Tokens(e.content)[..MatrixSize] &&
            forall k :: 0 <= k < MatrixSize ==> StartsFloat(m[k])
  {
  }

  /** A Transform with an empty body fails the sscanf check with EOF. */
  lemma EmptyTransformBody(t: seq<Entry>, props: seq<Prop>)
    requires TransformChild(t + [Some(Transform(None, []))], props, 0, None).Ok?
    ensures TransformDecl(t, Element("Transform", props, "", [])) == Err(BadTransformMatrix(-1))
  {
    NoTokens("");
  }

  /** A Transform whose child attribute is its own index resolves to itself. */
  lemma TransformSelfChild(t: seq<Entry>, e: Element)
    requires |t| <= SizeMax && e.props == [Prop("child", Decimal(|t|))]
    requires LeadingFloats(Tokens(e.content)) >= MatrixSize
    ensures TransformDecl(t, e).Ok? && TransformEntry(t, e).value.child == Some(|t|)
  {
    KnownIndices(|t|);
    var t1 := t + [Some(Transform(None, []))];
    assert TransformChild(t1, e.props, 1, Some(|t|)) == Ok(Some(|t|));
    assert TransformChild(t1, e.props, 0, None) == Ok(Some(|t|));
  }

  // ---------------------------------------------------------------------
  // Mesh
  // ---------------------------------------------------------------------

  /** The child element names a Mesh accepts. */
  predicate IsMeshChildName(n: string)
  {
    n == "text" || n == "vertex" || n == "normal" || n == "texcoord" || n == "prim" || n == "materiallist"
  }

  /** A Mesh with a child of any other name fails. */
  lemma {:induction false} MeshChildNames(t: seq<Entry>, m: Node, cs: seq<Element>, i: nat)
    requires m.Mesh? && i <= |cs| && MeshChildren(t, m, cs, i).Ok?
    ensures forall k :: i <= k < |cs| ==> IsMeshChildName(cs[k].name)
    decreases |cs| - i
  {
    if i < |cs| {
      var next := MeshChild(t, m, cs[i]).value;
      MeshChildNames(next.0, next.1, cs, i + 1);
    }
  }

  /** An array child without an `ofs` attribute, or without a `num`, fails. */
  lemma MissingArrayAttribute(c: Element, shape: ArrayShape)
    ensures LastValue(c.props, "ofs").None? ==> ArrayBinding(c, shape) == Err(MissingOffset(c.name))
    ensures (LastValue(c.props, "ofs").Some? && ArrayAttr(c.props, "ofs") != SizeMax &&
             LastValue(c.props, "num").None?) ==> ArrayBinding(c, shape) == Err(MissingCount(c.name))
  {
  }

  /** An array child binds the offset and count its last `ofs` and `num` attributes give. */
  lemma ArrayAttributesBound(c: Element, shape: ArrayShape, ofs: nat, num: nat)
    requires ofs < SizeMax && num < SizeMax
    requires LastValue(c.props, "ofs") == Some(Decimal(ofs)) && LastValue(c.props, "num") == Some(Decimal(num))
    ensures ArrayBinding(c, shape) == Ok(Binding(ofs, num, shape))
  {
    AtoiOfDecimal(ofs);
    AtoiOfDecimal(num);
    AsSizeRange(ofs);
    AsSizeRange(num);
    assert ArrayAttr(c.props, "ofs") == ofs;
    assert ArrayAttr(c.props, "num") == num;
  }

  /** `ofs="-1"` reads as size_t(-1), the value meaning "not set", so the child fails as if it had none. */
  lemma MinusOneOffset(num: string)
    ensures ArrayBinding(Element("vertex", [Prop("ofs", "-1"), Prop("num", num)], "", []), Vec3f) ==
            Err(MissingOffset("vertex"))
  {
    var props := [Prop("ofs", "-1"), Prop("num", num)];
    assert "num" != "ofs" by { assert "num"[0] != "ofs"[0]; }
    LastValueAppend([Prop("ofs", "-1")], Prop("num", num), "ofs");
    LastValueAppend([], Prop("ofs", "-1"), "ofs");
    assert [Prop("ofs", "-1")] + [Prop("num", num)] == props;
    assert [] + [Prop("ofs", "-1")] == [Prop("ofs", "-1")];
    AtoiOfNegDecimal(1);
    assert Decimal(1) == "1";
    AsSizeOfNegative(-1);
  }

  /** The Mesh children that bind an array into the binary file. */
  predicate IsArrayChildName(name: string)
  {
    name == "vertex" || name == "normal" || name == "texcoord" || name == "prim"
  }

  /** The element shape a child of this name binds: 3 floats, 2 floats for texcoord, 4 ints for prim. */
  function ShapeOf(name: string): ArrayShape
  {
    if name == "texcoord" then Vec2f else if name == "prim" then Vec4i else Vec3f
  }

  /** The array field of the Mesh a child of this name fills in; `prim` fills in the triangles. */
  function Slot(m: Node, name: string): Option<Binding>
    requires m.Mesh?
  {
    if name == "vertex" then m.vertex
    else if name == "normal" then m.normal
    else if name == "texcoord" then m.texcoord
    else m.triangle
  }

  /** The position of the last child named `name` at or after `i`. */
  function LastNamedFrom(cs: seq<Element>, i: nat, name: string): (r: Option<nat>)
    requires i <= |cs|
    ensures r.Some? ==> i <= r.value < |cs| && cs[r.value].name == name &&
                        forall j :: r.value < j < |cs| ==> cs[j].name != name
    ensures r.None? ==> forall j :: i <= j < |cs| ==> cs[j].name != name
    decreases |cs| - i
  {
    if i == |cs| then None
    else match LastNamedFrom(cs, i + 1, name)
      case Some(k) => Some(k)
      case None => if cs[i].name == name then Some(i) else None
  }

  /** The indices listed by every materiallist child from `i` on, in document order. */
  function MaterialListsFrom(cs: seq<Element>, i: nat): seq<nat>
    requires i <= |cs|
    decreases |cs| - i
  {
    if i == |cs| then []
    else (if cs[i].name == "materiallist" then Indices(Tokens(cs[i].content)) else []) + MaterialListsFrom(cs, i + 1)
  }

  /** One Mesh child sets the array field of its own name and leaves the other array fields alone. */
  lemma MeshChildContents(t: seq<Entry>, m: Node, c: Element, name: string)
    requires m.Mesh? && MeshChild(t, m, c).Ok? && IsArrayChildName(name)
    ensures var n := MeshChild(t, m, c).value.1;
            (c.name == name ==> ArrayBinding(c, ShapeOf(name)).Ok? &&
                                Slot(n, name) == Some(ArrayBinding(c, ShapeOf(name)).value)) &&
            (c.name != name ==> Slot(n, name) == Slot(m, name))
  {
  }

  /** One Mesh child: a materiallist appends the indices it lists, any other child leaves the list alone. */
  lemma MeshChildMaterialList(t: seq<Entry>, m: Node, c: Element)
    requires m.Mesh? && MeshChild(t, m, c).Ok?
    ensures MeshChild(t, m, c).value.1.materials ==
            m.materials + (if c.name == "materiallist" then Indices(Tokens(c.content)) else [])
  {
    if c.name == "materiallist" {
      var toks := Tokens(c.content);
      MaterialListOrder(t, m.materials, toks, 0);
      assert toks[0..] == toks;
    } else {
      assert m.materials + [] == m.materials;
    }
  }

  /** Unfolds one child of the Mesh loop. */
  lemma MeshChildrenStep(t: seq<Entry>, m: Node, cs: seq<Element>, i: nat)
    requires m.Mesh? && i < |cs| && MeshChildren(t, m, cs, i).Ok?
    ensures MeshChild(t, m, cs[i]).Ok?
    ensures var next := MeshChild(t, m, cs[i]).value;
            MeshChildren(next.0, next.1, cs, i + 1) == MeshChildren(t, m, cs, i)
  {
  }

  /** The Mesh children from `i` on: the last child of a name decides the array field of that name. */
  lemma {:induction false} MeshChildrenSlot(t: seq<Entry>, m: Node, cs: seq<Element>, i: nat, name: string)
    requires m.Mesh? && i <= |cs| && MeshChildren(t, m, cs, i).Ok? && IsArrayChildName(name)
    ensures var n := MeshChildren(t, m, cs, i).value.1;
            match LastNamedFrom(cs, i, name)
            case None => Slot(n, name) == Slot(m, name)
            case Some(k) => ArrayBinding(cs[k], ShapeOf(name)).Ok? &&
                            Slot(n, name) == Some(ArrayBinding(cs[k], ShapeOf(name)).value)
    decreases |cs| - i
  {
    if i < |cs| {
      MeshChildrenStep(t, m, cs, i);
      var next := MeshChild(t, m, cs[i]).value;
      MeshChildContents(t, m, cs[i], name);
      MeshChildrenSlot(next.0, next.1, cs, i + 1, name);
    }
  }

  /** One materiallist child appends its indices ahead of those of the later children. */
  lemma MaterialListsStep(cs: seq<Element>, i: nat, pre: seq<nat>, mid: seq<nat>)
    requires i < |cs|
    requires mid == pre + (if cs[i].name == "materiallist" then Indices(Tokens(cs[i].content)) else [])
    ensures mid + MaterialListsFrom(cs, i + 1) == pre + MaterialListsFrom(cs, i)
  {
    var rest := MaterialListsFrom(cs, i + 1);
    if cs[i].name == "materiallist" {
      var own := Indices(Tokens(cs[i].content));
      assert MaterialListsFrom(cs, i) == own + rest;
      assert (pre + own) + rest == pre + (own + rest);
    } else {
      assert MaterialListsFrom(cs, i) == [] + rest;
      assert pre + [] == pre && [] + rest == rest;
    }
  }

  /** The Mesh children from `i` on: the material list gains every materiallist's indices, in order. */
  lemma {:induction false} MeshChildrenMaterialLists(t: seq<Entry>, m: Node, cs: seq<Element>, i: nat)
    requires m.Mesh? && i <= |cs| && MeshChildren(t, m, cs, i).Ok?
    ensures MeshChildren(t, m, cs, i).value.1.materials == m.materials + MaterialListsFrom(cs, i)
    decreases |cs| - i
  {
    if i == |cs| {
      assert m.materials + [] == m.materials;
    } else {
      MeshChildrenStep(t, m, cs, i);
      var next := MeshChild(t, m, cs[i]).value;
      MeshChildrenMaterialLists(next.0, next.1, cs, i + 1);
      MeshChildMaterialList(t, m, cs[i]);
      MaterialListsStep(cs, i, m.materials, next.1.materials);
    }
  }

  /**
   * The entry a Mesh declaration leaves: each array field holds the binding
   * of the last child of that name, or none without one, and the material
   * list holds the indices of every materiallist child, in document order.
   */
  lemma MeshDeclEntry(t: seq<Entry>, e: Element, name: string)
    requires MeshDecl(t, e).Ok? && IsArrayChildName(name)
    ensures |MeshDecl(t, e).value| == |t| + 1
    ensures var n := MeshDecl(t, e).value[|t|];
            n.Some? && n.value.Mesh? &&
            (match LastNamedFrom(e.child, 0, name)
             case None => Slot(n.value, name) == None
             case Some(k) => ArrayBinding(e.child[k], ShapeOf(name)).Ok? &&
                             Slot(n.value, name) == Some(ArrayBinding(e.child[k], ShapeOf(name)).value)) &&
            n.value.materials == MaterialListsFrom(e.child, 0)
  {
    var t1 := t + [Some(EmptyMesh)];
    MeshChildrenSlot(t1, EmptyMesh, e.child, 0, name);
    MeshChildrenMaterialLists(t1, EmptyMesh, e.child, 0);
    assert [] + MaterialListsFrom(e.child, 0) == MaterialListsFrom(e.child, 0);
  }

  // ---------------------------------------------------------------------
  // Group
  // ---------------------------------------------------------------------

  /** A Group's body is accepted exactly when every token indexes the table. */
  lemma {:induction false} GroupChildrenOk(t: seq<Entry>, toks: seq<string>, i: nat, kids: seq<nat>)
    requires i <= |toks|
    ensures GroupChildren(t, toks, i, kids).Ok? <==> forall k :: i <= k < |toks| ==> IndexOf(toks[k]) < |t|
    decreases |toks| - i
  {
    if i < |toks| {
      var id := IndexOf(toks[i]);
      if id < |t| {
        GroupChildrenOk(t, toks, i + 1, kids + [id]);
      }
    }
  }

  /** The Group's children are the indices its tokens name, in token order. */
  lemma {:induction false} GroupChildrenOrder(t: seq<Entry>, toks: seq<string>, i: nat, kids: seq<nat>)
    requires i <= |toks|
    requires GroupChildren(t, toks, i, kids).Ok?
    ensures GroupChildren(t, toks, i, kids).value == kids + Indices(toks[i..])
    decreases |toks| - i
  {
    if i == |toks| {
      assert Indices(toks[i..]) == [];
    } else {
      var id := IndexOf(toks[i]);
      var rest := Indices(toks[i + 1..]);
      assert id < |t| && GroupChildren(t, toks, i, kids) == GroupChildren(t, toks, i + 1, kids + [id]);
      IndicesCons(toks, i);
      GroupChildrenOrder(t, toks, i + 1, kids + [id]);
      assert kids + [id] + rest == kids + ([id] + rest);
    }
  }

  /**
   * A Group declaration: accepted exactly when every token of its body is at
   * most its own index (a NULL entry, or the Group itself, is a valid child),
   * and the Group's children are those indices; an empty body gives none.
   */
  lemma GroupDeclSpec(t: seq<Entry>, e: Element)
    ensures GroupDecl(t, e).Ok? <==> forall k :: 0 <= k < |Tokens(e.content)| ==> IndexOf(Tokens(e.content)[k]) <= |t|
    ensures GroupDecl(t, e).Ok? ==> GroupDecl(t, e).value == t + [Some(Group(Indices(Tokens(e.content))))]
  {
    var toks := Tokens(e.content);
    if e.content == "" {
      NoTokens(e.content);
      assert Indices(toks) == [];
    } else {
      GroupChildrenOk(t + [Some(Group([]))], toks, 0, []);
      if GroupDecl(t, e).Ok? {
        GroupChildrenOrder(t + [Some(Group([]))], toks, 0, []);
      }
      assert toks[0..] == toks;
      assert [] + Indices(toks) == Indices(toks);
    }
  }

  /** A Group whose body names node 0. */
  const GroupOfZero: Element := Element("Group", [], "0", [])

  /** On any table, even one whose entry 0 is NULL, that Group is accepted with child 0. */
  lemma GroupOfZeroDecl(t: seq<Entry>)
    ensures GroupDecl(t, GroupOfZero) == Ok(t + [Some(Group([0]))])
  {
    assert Join(["0"]) == "0";
    TokensOfJoin(["0"]);
    SmallIndices();
    var t1 := t + [Some(Group([]))];
    assert ["0"][0] == "0" && [] + [0] == [0];
    assert GroupChildren(t1, ["0"], 1, [0]) == Ok([0]);
    assert GroupChildren(t1, ["0"], 0, []) == Ok([0]);
  }
}
