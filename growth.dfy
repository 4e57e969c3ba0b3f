/**
 * The node table only grows: a declaration appends its entry and touches
 * nothing already in the table except the use counts of the Materials a
 * mesh names, which only go up.
 */
module Growth {
  import opened Wrappers
  import opened Xml
  import opened CText
  import opened SceneGraph
  import opened Declarations

  lemma ExtendsTrans(t1: seq<Entry>, t2: seq<Entry>, t3: seq<Entry>)
    requires Extends(t1, t2) && Extends(t2, t3)
    ensures Extends(t1, t3)
  {
  }

  lemma ExtendsAppend(t: seq<Entry>, x: Entry)
    ensures Extends(t, t + [x])
  {
  }

  /** Overwriting an entry beyond the old table keeps the extension. */
  lemma ExtendsUpdateBeyond(t1: seq<Entry>, t2: seq<Entry>, j: nat, x: Entry)
    requires Extends(t1, t2) && |t1| <= j < |t2|
    ensures Extends(t1, t2[j := x])
  {
    forall i | 0 <= i < |t1|
      ensures t2[j := x][i] == t2[i]
    {
    }
  }

  /** A refInc keeps the table extended. */
  lemma ExtendsRefInc(t: seq<Entry>, id: nat)
    requires IsMaterialAt(t, id)
    ensures Extends(t, RefInc(t, id))
  {
  }

  /** refInc changes no entry's kind. */
  lemma RefIncKinds(t: seq<Entry>, id: nat)
    requires IsMaterialAt(t, id)
    ensures forall x :: IsMaterialAt(RefInc(t, id), x) <==> IsMaterialAt(t, x)
  {
  }

  lemma {:induction false} BindMaterialsExtends(t: seq<Entry>, mats: seq<nat>, toks: seq<string>, i: nat)
    requires i <= |toks| && BindMaterials(t, mats, toks, i).Ok?
    ensures Extends(t, BindMaterials(t, mats, toks, i).value.0)
    decreases |toks| - i
  {
    if i < |toks| {
      var id := IndexOf(toks[i]);
      var t1 := RefInc(t, id);
      BindMaterialsExtends(t1, mats + [id], toks, i + 1);
      ExtendsRefInc(t, id);
      ExtendsTrans(t, t1, BindMaterials(t, mats, toks, i).value.0);
    }
  }

  lemma MeshChildExtends(t: seq<Entry>, m: Node, c: Element)
    requires m.Mesh? && MeshChild(t, m, c).Ok?
    ensures Extends(t, MeshChild(t, m, c).value.0)
  {
    if c.name == "materiallist" {
      BindMaterialsExtends(t, m.materials, Tokens(c.content), 0);
    } else {
      assert MeshChild(t, m, c).value.0 == t;
    }
  }

  lemma {:induction false} MeshChildrenExtends(t: seq<Entry>, m: Node, cs: seq<Element>, i: nat)
    requires m.Mesh? && i <= |cs| && MeshChildren(t, m, cs, i).Ok?
    ensures Extends(t, MeshChildren(t, m, cs, i).value.0)
    decreases |cs| - i
  {
    if i < |cs| {
      var next := MeshChild(t, m, cs[i]).value;
      MeshChildExtends(t, m, cs[i]);
      MeshChildrenExtends(next.0, next.1, cs, i + 1);
      ExtendsTrans(t, next.0, MeshChildren(t, m, cs, i).value.0);
    }
  }

  lemma MeshDeclExtends(t: seq<Entry>, e: Element)
    requires MeshDecl(t, e).Ok?
    ensures Extends(t, MeshDecl(t, e).value)
  {
    var t1 := t + [Some(EmptyMesh)];
    var built := MeshChildren(t1, EmptyMesh, e.child, 0).value;
    ExtendsAppend(t, Some(EmptyMesh));
    MeshChildrenExtends(t1, EmptyMesh, e.child, 0);
    ExtendsTrans(t, t1, built.0);
    ExtendsUpdateBeyond(t, built.0, |t|, Some(built.1));
  }

  /** A declaration extends the table. */
  lemma DeclareExtends(st: State, e: Element)
    requires Declare(st, e).Ok?
    ensures Extends(st.table, Declare(st, e).value.table)
  {
    if e.name == "Mesh" {
      MeshDeclExtends(st.table, e);
    } else if e.name != "text" {
      var t := Declare(st, e).value.table;
      assert t == st.table + [t[|st.table|]] by {
        assert [e][1..] == [];
      }
      ExtendsAppend(st.table, t[|st.table|]);
    }
  }

  /** The declaration loop extends the table. */
  lemma {:induction false} DeclareFromExtends(st: State, es: seq<Element>, i: nat)
    requires i <= |es| && DeclareFrom(st, es, i).Ok?
    ensures Extends(st.table, DeclareFrom(st, es, i).value.table)
    decreases |es| - i
  {
    if i < |es| {
      var st1 := Declare(st, es[i]).value;
      DeclareExtends(st, es[i]);
      DeclareFromExtends(st1, es, i + 1);
      ExtendsTrans(st.table, st1.table, DeclareFrom(st, es, i).value.table);
    }
  }
}
