/**
 * Clearing the values of form fields (remove_defaults.py, and the same loop in app.py): each
 * top-level field that has /T and /V, and whose name is selected, loses /V and /AP.
 */
module RemoveDefaults {
  import opened Options
  import opened Text
  import opened Pdf

  /**
   * `should_clear`: the field is named, has a value, and either every field is selected
   * (`fields_to_clear is None`) or its name is in the list.
   */
  predicate ShouldClear(n: Node, selection: Option<seq<string>>) {
    n.partialName.Some? && n.value.Some? && (selection.None? || n.partialName.value in selection.value)
  }

  /** `del field['/V']` and, when present, `del field['/AP']`. */
  function ClearNode(n: Node): Node {
    n.(value := None, hasAppearance := false)
  }

  /** The nodes after the loop over `fields`: the listed fields to clear are cleared, every other node is as it was. */
  function Cleared(nodes: seq<Node>, fields: seq<NodeId>, selection: Option<seq<string>>): (r: seq<Node>)
    ensures SameShape(nodes, r)
  {
    seq(|nodes|, j requires 0 <= j < |nodes| =>
      if j in fields && ShouldClear(nodes[j], selection) then ClearNode(nodes[j]) else nodes[j])
  }

  /**
   * The fields the loop clears. A field listed twice is cleared on its first visit only,
   * because its /V is gone by the second, so `cleared_count` counts distinct fields.
   */
  function ClearedIds(nodes: seq<Node>, fields: seq<NodeId>, selection: Option<seq<string>>): set<NodeId> {
    set j | j in fields && j < |nodes| && ShouldClear(nodes[j], selection)
  }

  lemma ClearedStep(nodes: seq<Node>, fields: seq<NodeId>, i: nat, selection: Option<seq<string>>)
    requires InArena(fields, nodes) && i < |fields|
    ensures var cur := Cleared(nodes, fields[..i], selection); var k := fields[i];
      && Cleared(nodes, fields[..i + 1], selection)
         == (if ShouldClear(cur[k], selection) then cur[k := ClearNode(cur[k])] else cur)
      && ClearedIds(nodes, fields[..i + 1], selection)
         == ClearedIds(nodes, fields[..i], selection) + (if ShouldClear(cur[k], selection) then {k} else {})
      && (ShouldClear(cur[k], selection) ==> k !in ClearedIds(nodes, fields[..i], selection))
  {
    assert fields[..i + 1] == fields[..i] + [fields[i]];
  }

  /** The clearing loop of both entry points; returns `cleared_count`. */
  method ClearFields(doc: Document, selection: Option<seq<string>>) returns (cleared: nat)
    requires doc.Valid() && FormFields(doc.acroForm).Some?
    modifies doc
    ensures doc.nodes == Cleared(old(doc.nodes), FormFields(old(doc.acroForm)).value, selection)
    ensures cleared == |ClearedIds(old(doc.nodes), FormFields(old(doc.acroForm)).value, selection)|
    ensures doc.pages == old(doc.pages) && doc.acroForm == old(doc.acroForm)
  {
    ghost var nodes := doc.nodes;
    var fields := FormFields(doc.acroForm).value;
    cleared := 0;
    assert doc.nodes == Cleared(nodes, fields[..0], selection);
    for i := 0 to |fields|
      invariant doc.nodes == Cleared(nodes, fields[..i], selection)
      invariant cleared == |ClearedIds(nodes, fields[..i], selection)|
      invariant doc.pages == old(doc.pages) && doc.acroForm == old(doc.acroForm)
    {
      ClearedStep(nodes, fields, i, selection);
      var did := ClearOne(doc, fields[i], selection);
      if did {
        cleared := cleared + 1;
      }
    }
    assert fields[..|fields|] == fields;
  }

  /** One turn of the clearing loop, on the field at `k`; tells whether it was cleared. */
  method ClearOne(doc: Document, k: NodeId, selection: Option<seq<string>>) returns (did: bool)
    requires k < |doc.nodes|
    modifies doc
    ensures did == ShouldClear(old(doc.nodes)[k], selection)
    ensures doc.nodes == if did then old(doc.nodes)[k := ClearNode(old(doc.nodes)[k])] else old(doc.nodes)
    ensures doc.pages == old(doc.pages) && doc.acroForm == old(doc.acroForm)
  {
    var field := doc.nodes[k];
    if field.partialName.None? {
      return false;
    }
    var name := field.partialName.value;
    var shouldClear := false;
    if selection.None? {
      shouldClear := field.value.Some?;
    } else {
      shouldClear := name in selection.value && field.value.Some?;
    }
    if shouldClear {
      doc.nodes := doc.nodes[k := field.(value := None, hasAppearance := false)];
    }
    did := shouldClear;
  }

  /** remove_defaults.py's `remove_default_values`: false without a form, else the fields are cleared and the count reported. */
  method RemoveDefaultValues(doc: Document, selection: Option<seq<string>>) returns (ok: bool, cleared: nat)
    requires doc.Valid()
    modifies doc
    ensures ok <==> FormFields(old(doc.acroForm)).Some?
    ensures doc.pages == old(doc.pages) && doc.acroForm == old(doc.acroForm)
    ensures !ok ==> doc.nodes == old(doc.nodes) && cleared == 0
    ensures ok ==> var fields := FormFields(old(doc.acroForm)).value;
      doc.nodes == Cleared(old(doc.nodes), fields, selection)
      && cleared == |ClearedIds(old(doc.nodes), fields, selection)|
  {
    if FormFields(doc.acroForm).None? {
      return false, 0;
    }
    cleared := ClearFields(doc, selection);
    ok := true;
  }

  /** app.py's `remove_defaults`: the same loop, reported as a message. */
  method RemoveDefaultsApi(doc: Document, selection: Option<seq<string>>) returns (ok: bool, message: string)
    requires doc.Valid()
    modifies doc
    ensures ok <==> FormFields(old(doc.acroForm)).Some?
    ensures doc.pages == old(doc.pages) && doc.acroForm == old(doc.acroForm)
    ensures !ok ==> doc.nodes == old(doc.nodes) && message == "No form fields found"
    ensures ok ==> var fields := FormFields(old(doc.acroForm)).value;
      doc.nodes == Cleared(old(doc.nodes), fields, selection)
      && message == "Cleared " + Decimal(|ClearedIds(old(doc.nodes), fields, selection)|) + " fields"
  {
    if FormFields(doc.acroForm).None? {
      return false, "No form fields found";
    }
    var cleared := ClearFields(doc, selection);
    return true, "Cleared " + Decimal(cleared) + " fields";
  }

  /** After a run nothing is left to clear: a second run clears no field and changes nothing. */
  lemma ClearTwice(nodes: seq<Node>, fields: seq<NodeId>, selection: Option<seq<string>>)
    ensures ClearedIds(Cleared(nodes, fields, selection), fields, selection) == {}
    ensures Cleared(Cleared(nodes, fields, selection), fields, selection) == Cleared(nodes, fields, selection)
  {
    var once := Cleared(nodes, fields, selection);
    forall j | j in fields && j < |nodes| ensures !ShouldClear(once[j], selection) {
    }
    var twice := Cleared(once, fields, selection);
    forall j | 0 <= j < |nodes| ensures twice[j] == once[j] {
    }
  }

  /**
   * Exactly the listed, named fields with a value that the selection covers lose /V and /AP;
   * no other key of any node changes, and every other node is untouched.
   */
  lemma ClearEffect(nodes: seq<Node>, fields: seq<NodeId>, selection: Option<seq<string>>, j: nat)
    requires j < |nodes|
    ensures var r := Cleared(nodes, fields, selection);
      && r[j].(value := nodes[j].value, hasAppearance := nodes[j].hasAppearance) == nodes[j]
      && (j in fields && nodes[j].partialName.Some? && (selection.None? || nodes[j].partialName.value in selection.value)
          ==> r[j].value.None?)
      && (j in ClearedIds(nodes, fields, selection) ==> r[j].value.None? && !r[j].hasAppearance)
      && (r[j] != nodes[j] <==> j in ClearedIds(nodes, fields, selection))
  {
  }

  /** The default selection when no argument is given. */
  const DefaultSelection: seq<string> := ["H_Proposition"]

  /**
   * The command-line selection: no argument selects H_Proposition; "ALL" in any case
   * selects every field; anything else is a comma-separated list of names, each stripped.
   */
  function ParseSelection(arg: Option<string>): (selection: Option<seq<string>>)
    ensures arg.None? ==> selection == Some(DefaultSelection)
    ensures arg.Some? ==> (selection.None? <==> Upper(arg.value) == "ALL")
    ensures arg.Some? && selection.Some? ==>
      |selection.value| == |Split(arg.value, ',')|
      && (forall i :: 0 <= i < |selection.value| ==> selection.value[i] == Strip(Split(arg.value, ',')[i]))
      && forall name <- selection.value :: ',' !in name && (name != [] ==> !IsSpace(name[0]) && !IsSpace(name[|name| - 1]))
  {
    if arg.None? then Some(DefaultSelection)
    else if Upper(arg.value) == "ALL" then None
    else
      var parts := Split(arg.value, ',');
      Some(seq(|parts|, i requires 0 <= i < |parts| => Strip(parts[i])))
  }

  /** A name without whitespace is its own `strip()`. */
  lemma StripNoSpace(p: string)
    requires forall c <- p :: !IsSpace(c)
    ensures Strip(p) == p
  {
    var a, b :| 0 <= a <= b <= |p| && Strip(p) == p[a..b]
                && (forall i :: 0 <= i < a ==> IsSpace(p[i])) && (forall i :: b <= i < |p| ==> IsSpace(p[i]));
    if |p| > 0 {
      assert p[0] in p && p[|p| - 1] in p;
    }
    assert a == 0 && b == |p|;
    assert p[0..|p|] == p;
  }

  /**
   * When no comma-separated piece holds whitespace, the selection is exactly the pieces, and
   * joining it with ',' gives back the argument.
   */
  lemma ParseSelectionJoin(arg: string)
    requires Upper(arg) != "ALL"
    requires forall p <- Split(arg, ',') :: forall c <- p :: !IsSpace(c)
    ensures ParseSelection(Some(arg)) == Some(Split(arg, ','))
    ensures Join(ParseSelection(Some(arg)).value, ',') == arg
  {
    var parts := Split(arg, ',');
    forall i | 0 <= i < |parts| ensures Strip(parts[i]) == parts[i] {
      assert parts[i] in parts;
      StripNoSpace(parts[i]);
    }
    assert seq(|parts|, i requires 0 <= i < |parts| => Strip(parts[i])) == parts;
    JoinSplit(arg, ',');
  }
}
