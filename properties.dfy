/**
 * What the importer promises, proved about the specification in module
 * Declarations (and so, through the agreement proofs of module Importer,
 * about the loops that run it).
 */
module Properties {
  import opened Wrappers
  import opened Xml
  import opened CText
  import opened SceneGraph
  import opened Declarations
  import opened Growth

  // ---------------------------------------------------------------------
  // One entry per declaration, in declaration order
  // ---------------------------------------------------------------------

  /** The kind of entry a declaration of this name leaves: NULL for Texture2D and unknown names. */
  function ExpectedKind(name: string): Kind
  {
    if name == "Material" then MaterialKind
    else if name == "Transform" then TransformKind
    else if name == "Mesh" then MeshKind
    else if name == "Group" then GroupKind
    else NoNode
  }

  /** Texture2D and unknown declarations append a NULL placeholder, keep `lastNode`, and never fail. */
  lemma PlaceholderDeclarations(st: State, e: Element)
    requires e.name != "text" && ExpectedKind(e.name) == NoNode
    ensures Declare(st, e) == Ok(State(st.table + [None], st.last))
  {
  }

  /** A successful declaration leaves an entry of the expected kind at the next index. */
  lemma DeclareKind(st: State, e: Element)
    requires Declare(st, e).Ok? && e.name != "text"
    ensures |st.table| < |Declare(st, e).value.table|
    ensures KindOf(Declare(st, e).value.table[|st.table|]) == ExpectedKind(e.name)
  {
    assert [e][1..] == [];
  }

  /** Only a completed Mesh or Group becomes `lastNode`; every other declaration keeps it. */
  lemma DeclareLast(st: State, e: Element)
    requires Declare(st, e).Ok?
    ensures Declare(st, e).value.last == if IsRootName(e.name) then Some(|st.table|) else st.last
  {
  }

  /** Unfolds one iteration of the declaration loop. */
  lemma DeclareFromStep(st: State, es: seq<Element>, i: nat)
    requires i < |es| && DeclareFrom(st, es, i).Ok?
    ensures Declare(st, es[i]).Ok?
    ensures DeclareFrom(Declare(st, es[i]).value, es, i + 1) == DeclareFrom(st, es, i)
  {
  }

  /** The entry a declaration leaves keeps its kind through any later declarations. */
  lemma KindSurvives(st: State, e: Element, fin: seq<Entry>)
    requires Declare(st, e).Ok? && e.name != "text"
    requires Extends(Declare(st, e).value.table, fin)
    ensures |st.table| < |fin| && KindOf(fin[|st.table|]) == ExpectedKind(e.name)
  {
    var t1 := Declare(st, e).value.table;
    DeclareKind(st, e);
    assert Frozen(fin[|st.table|]) == Frozen(t1[|st.table|]);
  }

  /** The index arithmetic of one loop step: one more declaration before `k` moves its entry by its own count. */
  lemma EntryCountStep(es: seq<Element>, i: nat, k: nat)
    requires i < k <= |es|
    ensures EntryCount(es[i..k]) == EntryCount([es[i]]) + EntryCount(es[i + 1..k])
  {
    assert es[i..k] == [es[i]] + es[i + 1..k];
    EntryCountAppend([es[i]], es[i + 1..k]);
  }

  /** The alignment of the declaration the loop is at. */
  lemma AlignedHere(st: State, es: seq<Element>, i: nat)
    requires i < |es| && es[i].name != "text" && DeclareFrom(st, es, i).Ok?
    ensures |st.table| < |DeclareFrom(st, es, i).value.table|
    ensures KindOf(DeclareFrom(st, es, i).value.table[|st.table|]) == ExpectedKind(es[i].name)
  {
    DeclareFromStep(st, es, i);
    var st1 := Declare(st, es[i]).value;
    DeclareFromExtends(st1, es, i + 1);
    KindSurvives(st, es[i], DeclareFrom(st1, es, i + 1).value.table);
  }

  /** The alignment of one declaration, proved along the loop from `i` to `k`. */
  lemma {:induction false} AlignedAt(st: State, es: seq<Element>, i: nat, k: nat)
    requires i <= k < |es| && es[k].name != "text" && DeclareFrom(st, es, i).Ok?
    ensures |st.table| + EntryCount(es[i..k]) < |DeclareFrom(st, es, i).value.table|
    ensures KindOf(DeclareFrom(st, es, i).value.table[|st.table| + EntryCount(es[i..k])]) == ExpectedKind(es[k].name)
    decreases k - i
  {
    if k == i {
      assert es[i..k] == [];
      AlignedHere(st, es, i);
    } else {
      DeclareFromStep(st, es, i);
      var st1 := Declare(st, es[i]).value;
      assert |st1.table| == |st.table| + EntryCount([es[i]]);
      AlignedAt(st1, es, i + 1, k);
      EntryCountStep(es, i, k);
      assert |st1.table| + EntryCount(es[i + 1..k]) == |st.table| + EntryCount(es[i..k]);
    }
  }

  /**
   * Index alignment: the k-th declaration owns the entry at index |table| plus
   * the number of non-`text` declarations before it, and that entry has the
   * kind its name calls for; Texture2D and unknown names hold NULL there.
   */
  lemma DeclarationsAligned(st: State, es: seq<Element>, i: nat)
    requires i <= |es| && DeclareFrom(st, es, i).Ok?
    ensures forall k :: i <= k < |es| && es[k].name != "text" ==>
      |st.table| + EntryCount(es[i..k]) < |DeclareFrom(st, es, i).value.table| &&
      KindOf(DeclareFrom(st, es, i).value.table[|st.table| + EntryCount(es[i..k])]) == ExpectedKind(es[k].name)
  {
    var fin := DeclareFrom(st, es, i).value.table;
    forall k | i <= k < |es| && es[k].name != "text"
      ensures |st.table| + EntryCount(es[i..k]) < |fin| &&
              KindOf(fin[|st.table| + EntryCount(es[i..k])]) == ExpectedKind(es[k].name)
    {
      AlignedAt(st, es, i, k);
    }
  }

  /** The position of the last Mesh or Group declaration at or after `i`. */
  function LastRootFrom(es: seq<Element>, i: nat): (r: Option<nat>)
    requires i <= |es|
    ensures r.Some? ==> i <= r.value < |es| && IsRootName(es[r.value].name) &&
                        forall j :: r.value < j < |es| ==> !IsRootName(es[j].name)
    ensures r.None? ==> forall j :: i <= j < |es| ==> !IsRootName(es[j].name)
    decreases |es| - i
  {
    if i == |es| then None
    else match LastRootFrom(es, i + 1)
      case Some(k) => Some(k)
      case None => if IsRootName(es[i].name) then Some(i) else None
  }

  /** The root after the loop from `i`, given the state the loop starts from there. */
  function RootFrom(st: State, es: seq<Element>, i: nat): Option<nat>
    requires i <= |es|
  {
    match LastRootFrom(es, i)
    case None => st.last
    case Some(k) => Some(|st.table| + EntryCount(es[i..k]))
  }

  /** One declaration step does not change which root the rest of the loop ends with. */
  lemma RootShift(st: State, st1: State, es: seq<Element>, i: nat)
    requires i < |es|
    requires st1.last == (if IsRootName(es[i].name) then Some(|st.table|) else st.last)
    requires |st1.table| == |st.table| + EntryCount([es[i]])
    ensures RootFrom(st1, es, i + 1) == RootFrom(st, es, i)
  {
    assert [es[i]][1..] == [];
    match LastRootFrom(es, i + 1)
    case Some(k) =>
      EntryCountStep(es, i, k);
    case None =>
      assert es[i..i] == [];
  }

  /**
   * The running root: after the loop, `lastNode` is the entry of the last Mesh
   * or Group declaration, or what it was before when there is none.
   */
  lemma {:induction false} RootIsLastMeshOrGroup(st: State, es: seq<Element>, i: nat)
    requires i <= |es| && DeclareFrom(st, es, i).Ok?
    ensures DeclareFrom(st, es, i).value.last == RootFrom(st, es, i)
    decreases |es| - i
  {
    if i < |es| {
      DeclareFromStep(st, es, i);
      var st1 := Declare(st, es[i]).value;
      RootIsLastMeshOrGroup(st1, es, i + 1);
      DeclareLast(st, es[i]);
      RootShift(st, st1, es, i);
    }
  }

  // ---------------------------------------------------------------------
  // Material lists and use counts
  // ---------------------------------------------------------------------

  /** The table index each token names. */
  function Indices(toks: seq<string>): (ids: seq<nat>)
    ensures |ids| == |toks| && forall k :: 0 <= k < |toks| ==> ids[k] == IndexOf(toks[k])
  {
    seq(|toks|, k requires 0 <= k < |toks| => IndexOf(toks[k]))
  }

  /** The indices of the tokens from `i` on, taken one token at a time. */
  lemma IndicesCons(toks: seq<string>, i: nat)
    requires i < |toks|
    ensures Indices(toks[i..]) == [IndexOf(toks[i])] + Indices(toks[i + 1..])
  {
    var a := Indices(toks[i..]);
    var b := [IndexOf(toks[i])] + Indices(toks[i + 1..]);
    assert |a| == |b|;
    forall k | 0 <= k < |a|
      ensures a[k] == b[k]
    {
      if k > 0 {
        assert toks[i..][k] == toks[i + 1..][k - 1];
      }
    }
  }

  /** refInc adds one use to the Material it names and leaves every other count alone. */
  lemma RefIncUses(t: seq<Entry>, id: nat)
    requires IsMaterialAt(t, id)
    ensures forall j :: 0 <= j < |t| ==> UsesOf(RefInc(t, id)[j]) == UsesOf(t[j]) + (if j == id then 1 else 0)
  {
  }

  /** A materiallist body succeeds exactly when every token names a Material. */
  lemma {:induction false} MaterialListOk(t: seq<Entry>, mats: seq<nat>, toks: seq<string>, i: nat)
    requires i <= |toks|
    ensures BindMaterials(t, mats, toks, i).Ok? <==>
            forall k :: i <= k < |toks| ==> IsMaterialAt(t, IndexOf(toks[k]))
    decreases |toks| - i
  {
    if i < |toks| {
      var id := IndexOf(toks[i]);
      if IsMaterialAt(t, id) {
        var t1 := RefInc(t, id);
        MaterialListOk(t1, mats + [id], toks, i + 1);
        RefIncKinds(t, id);
      }
    }
  }

  /** A successful materiallist body appends one entry per token, in token order. */
  lemma {:induction false} MaterialListOrder(t: seq<Entry>, mats: seq<nat>, toks: seq<string>, i: nat)
    requires i <= |toks| && BindMaterials(t, mats, toks, i).Ok?
    ensures BindMaterials(t, mats, toks, i).value.1 == mats + Indices(toks[i..])
    decreases |toks| - i
  {
    if i == |toks| {
      assert Indices(toks[i..]) == [];
    } else {
      var id := IndexOf(toks[i]);
      IndicesCons(toks, i);
      MaterialListOrder(RefInc(t, id), mats + [id], toks, i + 1);
      assert mats + [id] + Indices(toks[i + 1..]) == mats + ([id] + Indices(toks[i + 1..]));
    }
  }

  /**
   * A successful materiallist body raises each Material's use count by the
   * number of times its index occurs among the tokens.
   */
  lemma {:induction false} MaterialListUses(t: seq<Entry>, mats: seq<nat>, toks: seq<string>, i: nat)
    requires i <= |toks| && BindMaterials(t, mats, toks, i).Ok?
    ensures var t2 := BindMaterials(t, mats, toks, i).value.0;
            forall j :: 0 <= j < |t| ==> UsesOf(t2[j]) == UsesOf(t[j]) + multiset(Indices(toks[i..]))[j]
    decreases |toks| - i
  {
    if i == |toks| {
      assert Indices(toks[i..]) == [];
    } else {
      var id := IndexOf(toks[i]);
      var t1 := RefInc(t, id);
      var rest := Indices(toks[i + 1..]);
      IndicesCons(toks, i);
      assert multiset([id] + rest) == multiset{id} + multiset(rest);
      RefIncUses(t, id);
      MaterialListUses(t1, mats + [id], toks, i + 1);
    }
  }

  lemma {:induction false} KnownIndices(n: nat)
    requires n <= SizeMax
    ensures IndexOf(Decimal(n)) == n
  {
    AtoiOfDecimal(n);
    AsSizeRange(n);
  }

  /** The body "0 2 0" splits into the tokens "0", "2", "0". */
  lemma MaterialListTokens()
    ensures Tokens("0 2 0") == ["0", "2", "0"]
  {
    var toks := ["0", "2", "0"];
    assert Join(toks) == "0 2 0";
    TokensOfJoin(toks);
  }

  lemma SmallIndices()
    ensures IndexOf("0") == 0 && IndexOf("2") == 2
  {
    KnownIndices(0);
    KnownIndices(2);
    assert Decimal(0) == "0" && Decimal(2) == "2";
  }

  /** The tokens "0", "2", "0" list Materials 0, 2, 0 and refInc Material 0 twice and Material 2 once. */
  lemma MaterialTokensExample(t: seq<Entry>)
    requires IsMaterialAt(t, 0) && IsMaterialAt(t, 2)
    ensures BindMaterials(t, [], ["0", "2", "0"], 0).Ok?
    ensures var res := BindMaterials(t, [], ["0", "2", "0"], 0).value;
            res.1 == [0, 2, 0] &&
            UsesOf(res.0[0]) == UsesOf(t[0]) + 2 &&
            UsesOf(res.0[1]) == UsesOf(t[1]) &&
            UsesOf(res.0[2]) == UsesOf(t[2]) + 1
  {
    var toks := ["0", "2", "0"];
    SmallIndices();
    assert IndexOf(toks[0]) == 0 && IndexOf(toks[1]) == 2 && IndexOf(toks[2]) == 0;
    assert [] + [0] == [0] && [0] + [2] == [0, 2] && [0, 2] + [0] == [0, 2, 0];
    var t1 := RefInc(t, 0);
    RefIncKinds(t, 0);
    var t2 := RefInc(t1, 2);
    RefIncKinds(t1, 2);
    var t3 := RefInc(t2, 0);
    assert BindMaterials(t, [], toks, 0) == BindMaterials(t1, [0], toks, 1);
    assert BindMaterials(t1, [0], toks, 1) == BindMaterials(t2, [0, 2], toks, 2);
    assert BindMaterials(t2, [0, 2], toks, 2) == BindMaterials(t3, [0, 2, 0], toks, 3);
    assert BindMaterials(t3, [0, 2, 0], toks, 3) == Ok((t3, [0, 2, 0]));
    RefIncUses(t, 0);
    RefIncUses(t1, 2);
    RefIncUses(t2, 0);
  }

  /** The body "0 2 0" lists Materials 0, 2, 0 and refIncs Material 0 twice and Material 2 once. */
  lemma MaterialListExample(t: seq<Entry>)
    requires IsMaterialAt(t, 0) && IsMaterialAt(t, 2)
    ensures BindMaterials(t, [], Tokens("0 2 0"), 0).Ok?
    ensures var res := BindMaterials(t, [], Tokens("0 2 0"), 0).value;
            res.1 == [0, 2, 0] &&
            UsesOf(res.0[0]) == UsesOf(t[0]) + 2 &&
            UsesOf(res.0[1]) == UsesOf(t[1]) &&
            UsesOf(res.0[2]) == UsesOf(t[2]) + 1
  {
    MaterialListTokens();
    MaterialTokensExample(t);
  }
}
