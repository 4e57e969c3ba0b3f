/**
 * What one call of importRIVL yields, stated on whole documents: when it
 * fails, what the scene it builds looks like, and what goes wrong when the
 * node table outlives the call.
 */
module ImportProperties {
  import opened Wrappers
  import opened Xml
  import opened CText
  import opened SceneGraph
  import opened Declarations
  import opened Properties
  import opened WellFormedness
  import opened DeclarationProperties

  /** The declarations of a document that passed the format check. */
  function Decls(doc: Doc): seq<Element>
    requires |doc.child| == 1
  {
    doc.child[0].child
  }

  /**
   * The document check: an import fails with NotRivlFormat exactly when the
   * document is not a single BGFscene element, and the root-name check of
   * parseBGFscene can then never fire.
   */
  lemma ImportFormat(t: seq<Entry>, doc: Doc)
    ensures ImportOnTable(t, doc) == Err(NotRivlFormat) <==>
            (|doc.child| != 1 || doc.child[0].name != "BGFscene")
    ensures !(ImportOnTable(t, doc).Err? && ImportOnTable(t, doc).failure.NotBgfScene?)
  {
    if |doc.child| == 1 && doc.child[0].name == "BGFscene" && doc.child[0].child != [] {
      var r := DeclareFrom(State(t, None), doc.child[0].child, 0);
      if r.Err? {
        DeclareFromFailure(State(t, None), doc.child[0].child, 0);
      }
    }
  }

  /** The failures a declaration can raise; none of them is a document-level failure. */
  predicate DeclarationFailure(f: Failure)
  {
    !f.NotRivlFormat? && !f.NotBgfScene? && !f.EmptyModel?
  }

  lemma {:induction false} DeclareFromFailure(st: State, es: seq<Element>, i: nat)
    requires i <= |es| && DeclareFrom(st, es, i).Err?
    ensures DeclarationFailure(DeclareFrom(st, es, i).failure)
    decreases |es| - i
  {
    if Declare(st, es[i]).Ok? {
      DeclareFromFailure(Declare(st, es[i]).value, es, i + 1);
    } else {
      DeclareFailure(st, es[i]);
    }
  }

  lemma DeclareFailure(st: State, e: Element)
    requires Declare(st, e).Err?
    ensures DeclarationFailure(Declare(st, e).failure)
  {
    if e.name == "Material" {
      MaterialParamsFailure(map[], e.child, 0);
    } else if e.name == "Mesh" {
      MeshChildrenFailure(st.table + [Some(EmptyMesh)], EmptyMesh, e.child, 0);
    } else if e.name == "Group" {
      GroupChildrenFailure(st.table + [Some(Group([]))], Tokens(e.content), 0, []);
    } else if e.name == "Transform" {
      var t1 := st.table + [Some(Transform(None, []))];
      if TransformChild(t1, e.props, 0, None).Err? {
        TransformChildFailure(t1, e.props, 0, None);
      }
    }
  }

  lemma {:induction false} MaterialParamsFailure(ps: map<string, ParamValue>, cs: seq<Element>, i: nat)
    requires i <= |cs| && MaterialParams(ps, cs, i).Err?
    ensures DeclarationFailure(MaterialParams(ps, cs, i).failure)
    ensures MaterialParams(ps, cs, i).failure.UnknownParamType? || MaterialParams(ps, cs, i).failure.MissingParamToken?
    decreases |cs| - i
  {
    if i < |cs| {
      var c := cs[i];
      if c.name == "param" {
        var d := Param(c);
        if d.Ok? {
          MaterialParamsFailure(if d.value.Some? then ps[ParamName(c) := d.value.value] else ps, cs, i + 1);
        }
      } else {
        MaterialParamsFailure(ps, cs, i + 1);
      }
    }
  }

  lemma {:induction false} BindMaterialsFailure(t: seq<Entry>, mats: seq<nat>, toks: seq<string>, i: nat)
    requires i <= |toks| && BindMaterials(t, mats, toks, i).Err?
    ensures DeclarationFailure(BindMaterials(t, mats, toks, i).failure)
    ensures BindMaterials(t, mats, toks, i).failure.IndexOutOfRange? || BindMaterials(t, mats, toks, i).failure.NotAMaterial?
    decreases |toks| - i
  {
    var id := IndexOf(toks[i]);
    if id < |t| && IsMaterialAt(t, id) {
      BindMaterialsFailure(RefInc(t, id), mats + [id], toks, i + 1);
    }
  }

  lemma {:induction false} MeshChildrenFailure(t: seq<Entry>, m: Node, cs: seq<Element>, i: nat)
    requires m.Mesh? && i <= |cs| && MeshChildren(t, m, cs, i).Err?
    ensures DeclarationFailure(MeshChildren(t, m, cs, i).failure)
    ensures var f := MeshChildren(t, m, cs, i).failure;
            f.MissingOffset? || f.MissingCount? || f.IndexOutOfRange? || f.NotAMaterial? || f.UnknownMeshChild?
    decreases |cs| - i
  {
    var c := cs[i];
    match MeshChild(t, m, c)
    case Ok(next) =>
      MeshChildrenFailure(next.0, next.1, cs, i + 1);
    case Err(_) =>
      if c.name == "materiallist" {
        BindMaterialsFailure(t, m.materials, Tokens(c.content), 0);
      }
  }

  lemma {:induction false} GroupChildrenFailure(t: seq<Entry>, toks: seq<string>, i: nat, kids: seq<nat>)
    requires i <= |toks|
    requires GroupChildren(t, toks, i, kids).Err?
    ensures DeclarationFailure(GroupChildren(t, toks, i, kids).failure)
    ensures GroupChildren(t, toks, i, kids).failure.IndexOutOfRange?
    decreases |toks| - i
  {
    var id := IndexOf(toks[i]);
    if id < |t| {
      GroupChildrenFailure(t, toks, i + 1, kids + [id]);
    }
  }

  lemma {:induction false} TransformChildFailure(t: seq<Entry>, props: seq<Prop>, i: nat, child: Option<nat>)
    requires i <= |props| && (child.Some? ==> IsNodeAt(t, child.value))
    requires TransformChild(t, props, i, child).Err?
    ensures DeclarationFailure(TransformChild(t, props, i, child).failure)
    ensures TransformChild(t, props, i, child).failure.IndexOutOfRange? || TransformChild(t, props, i, child).failure.NullTransformChild?
    decreases |props| - i
  {
    if props[i].name == "child" {
      var id := IndexOf(props[i].value);
      if id < |t| && t[id].Some? {
        TransformChildFailure(t, props, i + 1, Some(id));
      }
    } else {
      TransformChildFailure(t, props, i + 1, child);
    }
  }

  /** A BGFscene element without children is an empty model. */
  lemma ImportEmptyModel(t: seq<Entry>, doc: Doc)
    requires |doc.child| == 1 && doc.child[0].name == "BGFscene" && doc.child[0].child == []
    ensures ImportOnTable(t, doc) == Err(EmptyModel)
  {
  }

  /**
   * A successful import of a document on its own: one root is pushed into
   * the World, the table holds one entry per non-`text` declaration, the
   * k-th declaration owns the entry at the number of non-`text`
   * declarations before it and that entry has the kind its name calls for,
   * and the table is well formed.
   */
  lemma ImportShape(doc: Doc)
    requires Import(doc).Ok?
    ensures |Import(doc).value.node| == 1
    ensures |Import(doc).value.table| == EntryCount(Decls(doc))
    ensures forall k :: 0 <= k < |Decls(doc)| && Decls(doc)[k].name != "text" ==>
              EntryCount(Decls(doc)[..k]) < |Import(doc).value.table| &&
              KindOf(Import(doc).value.table[EntryCount(Decls(doc)[..k])]) == ExpectedKind(Decls(doc)[k].name)
    ensures WellFormed(Import(doc).value.table)
  {
    var es := Decls(doc);
    assert es[0..] == es;
    DeclarationsAligned(State([], None), es, 0);
    forall k | 0 <= k < |es|
      ensures es[0..k] == es[..k]
    {
    }
    ImportWellFormed([], doc);
  }

  /**
   * The root pushed into the World: NULL when the document declares no Mesh
   * or Group, otherwise the entry of the last Mesh or Group declaration.
   */
  lemma ImportRoot(doc: Doc)
    requires Import(doc).Ok?
    ensures match LastRootFrom(Decls(doc), 0)
            case None => Import(doc).value.node == [None]
            case Some(k) =>
              Import(doc).value.node == [Some(EntryCount(Decls(doc)[..k]))] &&
              EntryCount(Decls(doc)[..k]) < |Import(doc).value.table| &&
              KindOf(Import(doc).value.table[EntryCount(Decls(doc)[..k])]) in {MeshKind, GroupKind}
  {
    var es := Decls(doc);
    RootIsLastMeshOrGroup(State([], None), es, 0);
    match LastRootFrom(es, 0)
    case None =>
    case Some(k) =>
      assert es[0..k] == es[..k];
      AlignedAt(State([], None), es, 0, k);
  }

  // ---------------------------------------------------------------------
  // The node table outlives the import
  // ---------------------------------------------------------------------

  /** A document with that Group as its only declaration. */
  const GroupDoc: Doc := Doc([Element("BGFscene", [], "", [GroupOfZero])])

  /** GroupDoc imported after a table `t`: one group, whose child is entry 0 of the table. */
  lemma GroupDocOnTable(t: seq<Entry>)
    ensures ImportOnTable(t, GroupDoc) == Ok(World([Some(|t|)], t + [Some(Group([0]))]))
  {
    var root := GroupDoc.child[0];
    GroupOfZeroDecl(t);
    var st1 := State(t + [Some(Group([0]))], Some(|t|));
    assert Declare(State(t, None), GroupOfZero) == Ok(st1);
    assert DeclareFrom(st1, root.child, 1) == Ok(st1);
    assert DeclareFrom(State(t, None), root.child, 0) == Ok(st1);
  }

  /**
   * With one node table shared by every import (the global nodeList, which
   * is never cleared), importing GroupDoc a second time does not rebuild the
   * same scene: the second file's Group, whose body names node 0 of its own
   * file and so contains itself on a first import, now contains the first
   * file's Group.
   */
  lemma SharedTableCounterexample()
    ensures Import(GroupDoc) == Ok(World([Some(0)], [Some(Group([0]))]))
    ensures var again := ImportOnTable(Import(GroupDoc).value.table, GroupDoc);
            again == Ok(World([Some(1)], [Some(Group([0])), Some(Group([0]))])) &&
            again.value.node != Import(GroupDoc).value.node
  {
    GroupDocOnTable([]);
    assert [] + [Some(Group([0]))] == [Some(Group([0]))];
    GroupDocOnTable([Some(Group([0]))]);
    assert [Some(Group([0]))] + [Some(Group([0]))] == [Some(Group([0])), Some(Group([0]))];
    assert [Some(1)][0] != [Some(0)][0];
  }
}
