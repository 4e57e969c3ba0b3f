/**
 * The element tree the markup parser hands to the importer. The parser itself
 * (xml::readXML) is an external collaborator; the importer only reads this tree.
 */
module Xml {
  import opened Wrappers

  /** One attribute of an element, in document order. */
  datatype Prop = Prop(name: string, value: string)

  /** An element: its name, its attributes, its concatenated body text and its child elements. */
  datatype Element = Element(name: string, props: seq<Prop>, content: string, child: seq<Element>)

  /** The document: the top-level elements of the file. */
  datatype Doc = Doc(child: seq<Element>)

  /** The values of every attribute named `key`, in attribute order. */
  function Values(props: seq<Prop>, key: string): (vs: seq<string>)
    ensures |vs| <= |props|
  {
    if props == [] then []
    else (if props[0].name == key then [props[0].value] else []) + Values(props[1..], key)
  }

  /**
   * The value an attribute scan ends up with: every attribute named `key`
   * overwrites the previous one, so the last one wins; None when there is none.
   */
  function LastValue(props: seq<Prop>, key: string): Option<string>
  {
    var vs := Values(props, key);
    if vs == [] then None else Some(vs[|vs| - 1])
  }

  /** LastValue with the value an unset std::string keeps: the empty string. */
  function ValueOr(props: seq<Prop>, key: string, default: string): string
  {
    match LastValue(props, key)
    case None => default
    case Some(v) => v
  }

  /**
   * The attribute scan loop of the importer (`for pID ... if (prop->name == key) x = prop->value`).
   */
  method ScanProp(props: seq<Prop>, key: string) returns (found: Option<string>)
    ensures found == LastValue(props, key)
  {
    found := None;
    for i := 0 to |props|
      invariant found == LastValue(props[..i], key)
    {
      assert props[..i + 1] == props[..i] + [props[i]];
      LastValueAppend(props[..i], props[i], key);
      if props[i].name == key {
        found := Some(props[i].value);
      }
    }
    assert props[..|props|] == props;
  }

  /** Scanning one more attribute appends its value when it has the name looked for. */
  lemma {:induction false} ValuesAppend(props: seq<Prop>, p: Prop, key: string)
    ensures Values(props + [p], key) == Values(props, key) + (if p.name == key then [p.value] else [])
  {
    if props == [] {
      assert props + [p] == [p];
    } else {
      var head := if props[0].name == key then [props[0].value] else [];
      assert (props + [p])[0] == props[0];
      assert (props + [p])[1..] == props[1..] + [p];
      assert Values(props + [p], key) == head + Values(props[1..] + [p], key);
      ValuesAppend(props[1..], p, key);
      assert Values(props, key) == head + Values(props[1..], key);
    }
  }

  /** One more attribute replaces the value found so far when it has the name looked for. */
  lemma LastValueAppend(props: seq<Prop>, p: Prop, key: string)
    ensures LastValue(props + [p], key) == if p.name == key then Some(p.value) else LastValue(props, key)
  {
    ValuesAppend(props, p, key);
  }

  /** Read from the front: the value of `p` counts only when no later attribute has the name. */
  lemma LastValueCons(props: seq<Prop>, key: string)
    requires props != []
    ensures LastValue(props, key) ==
            if LastValue(props[1..], key).Some? then LastValue(props[1..], key)
            else if props[0].name == key then Some(props[0].value)
            else None
  {
    var head := if props[0].name == key then [props[0].value] else [];
    var rest := Values(props[1..], key);
    assert Values(props, key) == head + rest;
    if rest != [] {
      assert (head + rest)[|head + rest| - 1] == rest[|rest| - 1];
    }
  }

  /**
   * The last attribute wins: the scan finds nothing exactly when no attribute
   * has the name, and otherwise the value of the last attribute that has it.
   */
  lemma {:induction false} LastValueWins(props: seq<Prop>, key: string)
    ensures LastValue(props, key).None? <==> forall k :: 0 <= k < |props| ==> props[k].name != key
    ensures LastValue(props, key).Some? ==>
            exists k :: 0 <= k < |props| && props[k] == Prop(key, LastValue(props, key).value) &&
                        forall j :: k < j < |props| ==> props[j].name != key
  {
    if props != [] {
      var init := props[..|props| - 1];
      var p := props[|props| - 1];
      assert props == init + [p];
      LastValueAppend(init, p, key);
      LastValueWins(init, key);
      if p.name != key && LastValue(props, key).Some? {
        var k :| 0 <= k < |init| && init[k] == Prop(key, LastValue(init, key).value) &&
                 forall j :: k < j < |init| ==> init[j].name != key;
        assert props[k] == init[k];
      }
    }
  }
}
