/**
 * Listing the fields (list_fields.py): one entry per top-level field, numbered from 1, with
 * its name or an `<unnamed_i>` placeholder, a type label, its value or `<empty>`, its default
 * value and its number of kids. Long values are shown cut to 50 characters.
 */
module ListFields {
  import opened Options
  import opened Text
  import opened Pdf

  /** One `field_info` dict of the listing. */
  datatype ListedField = ListedField(
    index: nat,
    name: string,
    fieldType: string,
    value: string,
    default: Option<string>,
    kids: Option<nat>)

  /** What the listing reports: it stops early without /AcroForm or without /Fields. */
  datatype Listing = NoAcroForm | NoFields | Fields(rows: seq<ListedField>)

  /** The listing's `field_types` table. */
  const TypeNames: map<string, string> :=
    map["/Tx" := "Text", "/Btn" := "Button/Checkbox", "/Ch" := "Choice (dropdown/list)", "/Sig" := "Signature"]

  /** `field_types.get(ft, ft)` */
  function TypeName(ft: string): (r: string)
    ensures ft in TypeNames ==> r == TypeNames[ft]
    ensures ft !in TypeNames ==> r == ft
  {
    if ft in TypeNames then TypeNames[ft] else ft
  }

  /** `f"<unnamed_{i}>"` */
  function Unnamed(i: nat): string {
    "<unnamed_" + Decimal(i) + ">"
  }

  /** Two unnamed fields at different positions get different placeholders. */
  lemma UnnamedDistinct(i: nat, j: nat)
    requires Unnamed(i) == Unnamed(j)
    ensures i == j
  {
    var s := Unnamed(i);
    assert s[9..|s| - 1] == Decimal(i);
    assert Unnamed(j)[9..|s| - 1] == Decimal(j);
    DigitsInjective(i, j);
  }

  /**
   * The type label: the field's own /FT; else, with /Kids, the first kid's /FT or "Parent
   * field" when the kid has none or /Kids is empty (`[0]` raises and is caught); else "Unknown".
   */
  function ListType(nodes: seq<Node>, n: Node): string
    requires KidsIn(n, nodes)
  {
    if n.fieldType.Some? then TypeName(n.fieldType.value)
    else if n.kids.Some? then
      if n.kids.value == [] then "Parent field"
      else if nodes[n.kids.value[0]].fieldType.Some? then TypeName(nodes[n.kids.value[0]].fieldType.value)
      else "Parent field"
    else "Unknown"
  }

  /**
   * The label agrees with the tag the other scripts resolve: the tag's display name when
   * there is one, and otherwise "Parent field" for a field with /Kids and "Unknown" without.
   */
  lemma ListTypeResolved(nodes: seq<Node>, n: Node)
    requires KidsIn(n, nodes)
    ensures var tag := ResolvedTag(nodes, n);
      && (tag.Some? ==> ListType(nodes, n) == TypeName(tag.value))
      && (tag.None? ==> ListType(nodes, n) == if n.kids.Some? then "Parent field" else "Unknown")
      && (n.fieldType == Some("/Ch") ==> ListType(nodes, n) == "Choice (dropdown/list)")
  {
  }

  /** The entry for field number `i` (counting from 1). */
  function Row(nodes: seq<Node>, n: Node, i: nat): ListedField
    requires KidsIn(n, nodes)
  {
    ListedField(
      index := i,
      name := if n.partialName.Some? then n.partialName.value else Unnamed(i),
      fieldType := ListType(nodes, n),
      value := if n.value.Some? then PyStr(n.value.value) else "<empty>",
      default := if n.defaultValue.Some? then Some(PyStr(n.defaultValue.value)) else None,
      kids := if n.kids.Some? then Some(|n.kids.value|) else None)
  }

  /** The value as printed: at most 50 characters, followed by "..." when it was longer. */
  function Shown(v: string): (r: string)
    ensures |v| <= 50 ==> r == v
    ensures |v| > 50 ==> |r| == 53 && r[..50] == v[..50] && r[50..] == "..."
  {
    if |v| > 50 then v[..50] + "..." else v
  }

  /** The loop body for field number `i`. */
  method BuildRow(nodes: seq<Node>, n: Node, i: nat) returns (row: ListedField)
    requires KidsIn(n, nodes)
    ensures row == Row(nodes, n, i)
  {
    var name := if n.partialName.Some? then n.partialName.value else Unnamed(i);
    var fieldType: string;
    if n.fieldType.Some? {
      fieldType := TypeName(n.fieldType.value);
    } else if n.kids.Some? {
      if n.kids.value == [] {
        fieldType := "Parent field";
      } else {
        var kid := nodes[n.kids.value[0]];
        if kid.fieldType.Some? {
          fieldType := TypeName(kid.fieldType.value);
        } else {
          fieldType := "Parent field";
        }
      }
    } else {
      fieldType := "Unknown";
    }
    var value := if n.value.Some? then PyStr(n.value.value) else "<empty>";
    row := ListedField(i, name, fieldType, value, None, None);
    if n.defaultValue.Some? {
      row := row.(default := Some(PyStr(n.defaultValue.value)));
    }
    if n.kids.Some? {
      row := row.(kids := Some(|n.kids.value|));
    }
  }

  /** `list_fields` */
  method ListAll(doc: Document) returns (listing: Listing)
    requires doc.Valid()
    ensures doc.acroForm.None? <==> listing == NoAcroForm
    ensures doc.acroForm.Some? && doc.acroForm.value.fields.None? <==> listing == NoFields
    ensures listing.Fields? ==>
      var fields := doc.acroForm.value.fields.value;
      |listing.rows| == |fields| &&
      forall i :: 0 <= i < |fields| ==> listing.rows[i] == Row(doc.nodes, doc.nodes[fields[i]], i + 1)
  {
    if doc.acroForm.None? {
      return NoAcroForm;
    }
    if doc.acroForm.value.fields.None? {
      return NoFields;
    }
    var fields := doc.acroForm.value.fields.value;
    var rows: seq<ListedField> := [];
    for i := 0 to |fields|
      invariant |rows| == i
      invariant forall j :: 0 <= j < i ==> rows[j] == Row(doc.nodes, doc.nodes[fields[j]], j + 1)
    {
      var row := BuildRow(doc.nodes, doc.nodes[fields[i]], i + 1);
      rows := rows + [row];
    }
    listing := Fields(rows);
  }

  /**
   * Each row names its field: a named field by its /T, an unnamed one by a placeholder no
   * other unnamed field shares; the kid count is present exactly when the field has /Kids.
   */
  lemma RowsNamed(nodes: seq<Node>, fields: seq<NodeId>, rows: seq<ListedField>, i: nat, j: nat)
    requires Arena(nodes) && InArena(fields, nodes) && |rows| == |fields|
    requires forall k :: 0 <= k < |fields| ==> rows[k] == Row(nodes, nodes[fields[k]], k + 1)
    requires i < |fields| && j < |fields| && i != j
    requires nodes[fields[i]].partialName.None? && nodes[fields[j]].partialName.None?
    ensures rows[i].name != rows[j].name
    ensures rows[i].kids.Some? <==> nodes[fields[i]].kids.Some?
  {
    if rows[i].name == rows[j].name {
      UnnamedDistinct(i + 1, j + 1);
    }
  }
}
