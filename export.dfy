/**
 * Exporting field values (export_fields.py): a dict from each named top-level field's /T to
 * its decoded value, optionally without the empty values. A later field with the same name
 * replaces the earlier value, keeping the key's first position.
 */
module Export {
  import opened Options
  import opened Dicts
  import opened Pdf

  /** The exported value: the decoded /V, or "" when the field has none. */
  function ValueOf(n: Node): string {
    if n.value.Some? then Decode(n.value.value) else ""
  }

  /** A field is written when it has /T and its value is non-empty or empty values are included. */
  predicate Qualifies(n: Node, includeEmpty: bool) {
    n.partialName.Some? && (ValueOf(n) != "" || includeEmpty)
  }

  /** `field_data` after the loop over `fields`. */
  function Exported(nodes: seq<Node>, fields: seq<NodeId>, includeEmpty: bool): (d: Dict<string>)
    requires InArena(fields, nodes)
    ensures UniqueKeys(d)
    decreases |fields|
  {
    if fields == [] then []
    else
      var d := Exported(nodes, fields[..|fields| - 1], includeEmpty);
      var n := nodes[fields[|fields| - 1]];
      if Qualifies(n, includeEmpty) then Put(d, n.partialName.value, ValueOf(n)) else d
  }

  /** One more turn of the export loop. */
  lemma ExportedSnoc(nodes: seq<Node>, fields: seq<NodeId>, i: nat, includeEmpty: bool)
    requires InArena(fields, nodes) && i < |fields|
    ensures var n := nodes[fields[i]];
      Exported(nodes, fields[..i + 1], includeEmpty) ==
        if Qualifies(n, includeEmpty) then Put(Exported(nodes, fields[..i], includeEmpty), n.partialName.value, ValueOf(n))
        else Exported(nodes, fields[..i], includeEmpty)
  {
    assert fields[..i + 1][..i] == fields[..i];
  }

  /** Position `i` holds a field written under the key `k`. */
  predicate WrittenAs(nodes: seq<Node>, fields: seq<NodeId>, includeEmpty: bool, i: int, k: string)
    requires InArena(fields, nodes)
  {
    0 <= i < |fields| && Qualifies(nodes[fields[i]], includeEmpty) && nodes[fields[i]].partialName.value == k
  }

  /** The position of the last field written under the key `k`, if any. */
  function LastWritten(nodes: seq<Node>, fields: seq<NodeId>, includeEmpty: bool, k: string): (r: Option<nat>)
    requires InArena(fields, nodes)
    ensures r.Some? ==> WrittenAs(nodes, fields, includeEmpty, r.value, k)
                        && forall j :: r.value < j < |fields| ==> !WrittenAs(nodes, fields, includeEmpty, j, k)
    ensures r.None? ==> forall j :: 0 <= j < |fields| ==> !WrittenAs(nodes, fields, includeEmpty, j, k)
    decreases |fields|
  {
    if fields == [] then None
    else if WrittenAs(nodes, fields, includeEmpty, |fields| - 1, k) then Some(|fields| - 1)
    else
      var init := fields[..|fields| - 1];
      WrittenAsPrefix(nodes, fields, includeEmpty, k);
      LastWritten(nodes, init, includeEmpty, k)
  }

  lemma WrittenAsPrefix(nodes: seq<Node>, fields: seq<NodeId>, includeEmpty: bool, k: string)
    requires InArena(fields, nodes) && fields != []
    ensures forall j :: 0 <= j < |fields| - 1 ==>
      WrittenAs(nodes, fields[..|fields| - 1], includeEmpty, j, k) == WrittenAs(nodes, fields, includeEmpty, j, k)
  {
    var init := fields[..|fields| - 1];
    forall j | 0 <= j < |init| ensures WrittenAs(nodes, init, includeEmpty, j, k) == WrittenAs(nodes, fields, includeEmpty, j, k) {
      assert init[j] == fields[j];
    }
  }

  /**
   * The key `k` is exported exactly when some qualifying field is named `k`, and its value is
   * that of the last such field.
   */
  lemma {:induction false} ExportedGet(nodes: seq<Node>, fields: seq<NodeId>, includeEmpty: bool, k: string)
    requires InArena(fields, nodes)
    ensures var last := LastWritten(nodes, fields, includeEmpty, k);
      Get(Exported(nodes, fields, includeEmpty), k) == if last.Some? then Some(ValueOf(nodes[fields[last.value]])) else None
    decreases |fields|
  {
    if fields != [] {
      var init := fields[..|fields| - 1];
      ExportedGet(nodes, init, includeEmpty, k);
      var last := LastWritten(nodes, init, includeEmpty, k);
      if last.Some? {
        assert init[last.value] == fields[last.value];
      }
    }
  }

  /** Every key is the /T of some top-level field, and with `include_empty` false no value is empty. */
  lemma {:induction false} ExportedEntries(nodes: seq<Node>, fields: seq<NodeId>, includeEmpty: bool, k: string)
    requires InArena(fields, nodes)
    requires k in Keys(Exported(nodes, fields, includeEmpty))
    ensures exists i :: 0 <= i < |fields| && nodes[fields[i]].partialName == Some(k)
    ensures !includeEmpty ==> Get(Exported(nodes, fields, includeEmpty), k).value != ""
  {
    ExportedGet(nodes, fields, includeEmpty, k);
  }

  /** `export_fields_to_json`: none without /AcroForm /Fields, else the exported dict. */
  method ExportFields(doc: Document, includeEmpty: bool) returns (r: Option<Dict<string>>)
    requires doc.Valid()
    ensures r.None? <==> FormFields(doc.acroForm).None?
    ensures r.Some? ==> r.value == Exported(doc.nodes, FormFields(doc.acroForm).value, includeEmpty)
  {
    var form := FormFields(doc.acroForm);
    if form.None? {
      return None;
    }
    var fields := form.value;
    var data: Dict<string> := [];
    for i := 0 to |fields|
      invariant data == Exported(doc.nodes, fields[..i], includeEmpty)
    {
      ExportedSnoc(doc.nodes, fields, i, includeEmpty);
      var field := doc.nodes[fields[i]];
      if field.partialName.None? {
        continue;
      }
      var name := field.partialName.value;
      var value := "";
      if field.value.Some? {
        value := Decode(field.value.value);
      }
      if value != "" || includeEmpty {
        data := Put(data, name, value);
      }
    }
    assert fields[..|fields|] == fields;
    r := Some(data);
  }
}
