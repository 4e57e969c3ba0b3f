/**
 * The node table stays well formed: every reference an entry holds points
 * to an earlier entry (or, for a Transform or Group, to itself), a
 * Transform's child is never NULL, and a Mesh's material list only holds
 * Materials. This is what makes the pointers the importer stores valid.
 */
module WellFormedness {
  import opened Wrappers
  import opened Xml
  import opened CText
  import opened SceneGraph
  import opened Declarations
  import opened Growth
  import opened Properties
  import opened DeclarationProperties

  /** An entry that is well formed stays so as the table grows. */
  lemma ExtendsKeepsEntryOk(t1: seq<Entry>, t2: seq<Entry>, i: nat)
    requires Extends(t1, t2) && i < |t1| && EntryOk(t1, i)
    ensures EntryOk(t2, i)
  {
    var e1 := t1[i];
    var e2 := t2[i];
    assert Frozen(e2) == Frozen(e1);
    if KindOf(e2) == TransformKind && e2.value.child.Some? {
      var c := e2.value.child.value;
      assert Refs(e2) == [c];
      assert e1.value.child == Some(c);
      assert Frozen(t2[c]) == Frozen(t1[c]);
    }
    if KindOf(e2) == MeshKind {
      forall j | 0 <= j < |e2.value.materials|
        ensures IsMaterialAt(t2, e2.value.materials[j])
      {
        var x := e1.value.materials[j];
        assert Refs(e2) == e2.value.materials;
        assert Frozen(t2[x]) == Frozen(t1[x]);
      }
    }
  }

  lemma ExtendsKeepsWellFormed(t1: seq<Entry>, t2: seq<Entry>)
    requires Extends(t1, t2) && WellFormed(t1)
    ensures forall i :: 0 <= i < |t1| ==> EntryOk(t2, i)
  {
    forall i | 0 <= i < |t1|
      ensures EntryOk(t2, i)
    {
      ExtendsKeepsEntryOk(t1, t2, i);
    }
  }

  /** Every index a materiallist appends names a Material of the table it leaves. */
  lemma {:induction false} BindMaterialsAreMaterials(t: seq<Entry>, mats: seq<nat>, toks: seq<string>, i: nat)
    requires i <= |toks| && BindMaterials(t, mats, toks, i).Ok?
    requires forall j :: 0 <= j < |mats| ==> IsMaterialAt(t, mats[j])
    ensures var res := BindMaterials(t, mats, toks, i).value;
            forall j :: 0 <= j < |res.1| ==> IsMaterialAt(res.0, res.1[j])
    decreases |toks| - i
  {
    if i < |toks| {
      var id := IndexOf(toks[i]);
      RefIncKinds(t, id);
      BindMaterialsAreMaterials(RefInc(t, id), mats + [id], toks, i + 1);
    }
  }

  lemma MeshChildMaterials(t: seq<Entry>, m: Node, c: Element)
    requires m.Mesh? && MeshChild(t, m, c).Ok?
    requires forall j :: 0 <= j < |m.materials| ==> IsMaterialAt(t, m.materials[j])
    ensures var res := MeshChild(t, m, c).value;
            forall j :: 0 <= j < |res.1.materials| ==> IsMaterialAt(res.0, res.1.materials[j])
  {
    if c.name == "materiallist" {
      BindMaterialsAreMaterials(t, m.materials, Tokens(c.content), 0);
    }
  }

  lemma {:induction false} MeshChildrenMaterials(t: seq<Entry>, m: Node, cs: seq<Element>, i: nat)
    requires m.Mesh? && i <= |cs| && MeshChildren(t, m, cs, i).Ok?
    requires forall j :: 0 <= j < |m.materials| ==> IsMaterialAt(t, m.materials[j])
    ensures var res := MeshChildren(t, m, cs, i).value;
            forall j :: 0 <= j < |res.1.materials| ==> IsMaterialAt(res.0, res.1.materials[j])
    decreases |cs| - i
  {
    if i < |cs| {
      var next := MeshChild(t, m, cs[i]).value;
      MeshChildMaterials(t, m, cs[i]);
      MeshChildrenMaterials(next.0, next.1, cs, i + 1);
    }
  }

  /** The entry a Mesh declaration leaves is well formed. */
  lemma MeshDeclEntryOk(t: seq<Entry>, e: Element)
    requires MeshDecl(t, e).Ok?
    ensures |MeshDecl(t, e).value| == |t| + 1 && EntryOk(MeshDecl(t, e).value, |t|)
  {
    var t1 := t + [Some(EmptyMesh)];
    var built := MeshChildren(t1, EmptyMesh, e.child, 0).value;
    var t2 := MeshDecl(t, e).value;
    assert t2 == built.0[|t| := Some(built.1)];
    MeshChildrenMaterials(t1, EmptyMesh, e.child, 0);
    MeshChildrenExtends(t1, EmptyMesh, e.child, 0);
    assert Frozen(built.0[|t|]) == Frozen(t1[|t|]);
    forall j | 0 <= j < |built.1.materials|
      ensures built.1.materials[j] < |t| && IsMaterialAt(t2, built.1.materials[j])
    {
      assert IsMaterialAt(built.0, built.1.materials[j]);
    }
    assert Refs(t2[|t|]) == built.1.materials;
  }

  /** The entry a Transform declaration leaves is well formed. */
  lemma TransformDeclEntryOk(t: seq<Entry>, e: Element)
    requires TransformDecl(t, e).Ok?
    ensures |TransformDecl(t, e).value| == |t| + 1 && EntryOk(TransformDecl(t, e).value, |t|)
  {
    var t1 := t + [Some(Transform(None, []))];
    var child := TransformChild(t1, e.props, 0, None).value;
    var t2 := TransformDecl(t, e).value;
    assert t2 == t + [Some(Transform(child, Tokens(e.content)[..MatrixSize]))];
    if child.Some? {
      assert IsNodeAt(t1, child.value);
      assert Refs(t2[|t|]) == [child.value];
    }
  }

  /** The entry a Group declaration leaves is well formed. */
  lemma GroupDeclEntryOk(t: seq<Entry>, e: Element)
    requires GroupDecl(t, e).Ok?
    ensures |GroupDecl(t, e).value| == |t| + 1 && EntryOk(GroupDecl(t, e).value, |t|)
  {
    var toks := Tokens(e.content);
    GroupDeclSpec(t, e);
    assert Refs(GroupDecl(t, e).value[|t|]) == Indices(toks);
  }

  /** A declaration keeps the table well formed. */
  lemma DeclareWellFormed(st: State, e: Element)
    requires WellFormed(st.table) && Declare(st, e).Ok?
    ensures WellFormed(Declare(st, e).value.table)
  {
    var t := st.table;
    var t2 := Declare(st, e).value.table;
    DeclareExtends(st, e);
    ExtendsKeepsWellFormed(t, t2);
    if e.name != "text" {
      assert |t2| == |t| + 1 by {
        assert [e][1..] == [];
      }
      if e.name == "Transform" {
        TransformDeclEntryOk(t, e);
      } else if e.name == "Mesh" {
        MeshDeclEntryOk(t, e);
      } else if e.name == "Group" {
        GroupDeclEntryOk(t, e);
      } else {
        assert Refs(t2[|t|]) == [];
      }
    }
  }

  /** The declaration loop keeps the table well formed. */
  lemma {:induction false} DeclareFromWellFormed(st: State, es: seq<Element>, i: nat)
    requires i <= |es| && WellFormed(st.table) && DeclareFrom(st, es, i).Ok?
    ensures WellFormed(DeclareFrom(st, es, i).value.table)
    decreases |es| - i
  {
    if i < |es| {
      DeclareWellFormed(st, es[i]);
      DeclareFromWellFormed(Declare(st, es[i]).value, es, i + 1);
    }
  }

  /** An import onto a well-formed table (in particular, the empty one) leaves a well-formed table. */
  lemma ImportWellFormed(t: seq<Entry>, doc: Doc)
    requires WellFormed(t) && ImportOnTable(t, doc).Ok?
    ensures WellFormed(ImportOnTable(t, doc).value.table)
  {
    DeclareFromWellFormed(State(t, None), doc.child[0].child, 0);
  }
}
