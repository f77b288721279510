/**
 * The field extraction of the web application (app.py): the recursive walk over /Fields and
 * /Kids that flattens the form into records with fully qualified dotted names (section
 * 12.7.3.2 of ISO 32000-1), the name/tooltip search over those records, the upload
 * extension check and the JSON template built from the records.
 */
module FieldTree {
  import opened Options
  import opened Text
  import opened Seqs
  import opened Dicts
  import opened Pdf

  /** One extracted field: the `field_info` dictionary. */
  datatype FieldInfo = FieldInfo(name: string, fieldType: string, tooltip: string, value: string)

  /** `type_map.get(ft, 'unknown')` */
  function AppTypeName(ft: string): string {
    if ft == "/Tx" then "text"
    else if ft == "/Btn" then "checkbox"
    else if ft == "/Ch" then "choice"
    else if ft == "/Sig" then "signature"
    else "unknown"
  }

  predicate IsAppType(t: string) {
    t == "text" || t == "checkbox" || t == "choice" || t == "signature" || t == "unknown"
  }

  /** `f"{parent_name}.{field_name}" if parent_name else field_name` */
  function QualifiedName(parent: string, partial: string): string {
    if parent != "" then parent + "." + partial else partial
  }

  /** The record a node gives under `parent`: name, tooltip, mapped type and decoded value. */
  function InfoOf(n: Node, parent: string): FieldInfo {
    FieldInfo(
      if n.partialName.Some? then QualifiedName(parent, n.partialName.value) else "",
      if n.fieldType.Some? then AppTypeName(n.fieldType.value) else "",
      n.tooltip.GetOr(""),
      if n.value.Some? then Decode(n.value.value) else "")
  }

  lemma PrefixOfPrefix(s: string, b: string, a: string)
    requires StartsWith(s, b) && StartsWith(b, a)
    ensures StartsWith(s, a)
  {
    assert s[..|a|] == s[..|b|][..|a|];
  }

  /**
   * The records `extract_field_info(field, parent)` appends, in order. A node without /T
   * under a named parent gives nothing and its subtree is not visited; otherwise the node's
   * own record comes first when it has /FT, then those of its kids, each visited with this
   * node's name as parent. `fuel` bounds the depth of the walk, which the source does not
   * guard against cycles.
   */
  function Visit(nodes: seq<Node>, id: NodeId, parent: string, fuel: nat): seq<FieldInfo>
    requires Arena(nodes) && id < |nodes|
    decreases fuel, 0, 0
  {
    var n := nodes[id];
    assert KidsIn(n, nodes);
    if n.partialName.None? && parent != "" then []
    else
      var info := InfoOf(n, parent);
      (if n.fieldType.Some? then [info] else [])
      + (if fuel == 0 || n.kids.None? then [] else VisitKids(nodes, n.kids.value, info.name, fuel - 1))
  }

  /** The records of the kids in array order: the loop `for kid in field['/Kids']`. */
  function VisitKids(nodes: seq<Node>, kids: seq<NodeId>, parent: string, fuel: nat): seq<FieldInfo>
    requires Arena(nodes) && InArena(kids, nodes)
    decreases fuel, 1, |kids|
  {
    if kids == [] then []
    else VisitKids(nodes, kids[..|kids| - 1], parent, fuel) + Visit(nodes, kids[|kids| - 1], parent, fuel)
  }

  lemma VisitStep(nodes: seq<Node>, id: NodeId, parent: string, fuel: nat)
    requires Arena(nodes) && id < |nodes|
    ensures KidsIn(nodes[id], nodes)
    ensures var n := nodes[id]; var info := InfoOf(n, parent);
      Visit(nodes, id, parent, fuel) ==
        if n.partialName.None? && parent != "" then []
        else if fuel == 0 || n.kids.None? then (if n.fieldType.Some? then [info] else [])
        else (if n.fieldType.Some? then [info] else []) + VisitKids(nodes, n.kids.value, info.name, fuel - 1)
  {
    assert KidsIn(nodes[id], nodes);
  }

  lemma VisitKidsSnoc(nodes: seq<Node>, kids: seq<NodeId>, i: nat, parent: string, fuel: nat)
    requires Arena(nodes) && InArena(kids, nodes) && i < |kids|
    ensures VisitKids(nodes, kids[..i + 1], parent, fuel) == VisitKids(nodes, kids[..i], parent, fuel) + Visit(nodes, kids[i], parent, fuel)
  {
    assert kids[..i + 1][..i] == kids[..i];
  }

  /**
   * Every record below a named parent carries the parent's name and a dot as prefix: names
   * are fully qualified, and a nameless node under a named parent contributes nothing.
   */
  lemma {:induction false} VisitQualified(nodes: seq<Node>, id: NodeId, parent: string, fuel: nat)
    requires Arena(nodes) && id < |nodes|
    ensures parent != "" ==> forall f <- Visit(nodes, id, parent, fuel) :: StartsWith(f.name, parent + ".")
    ensures parent != "" && nodes[id].partialName.None? ==> Visit(nodes, id, parent, fuel) == []
    decreases fuel, 0, 0
  {
    var n := nodes[id];
    assert KidsIn(n, nodes);
    if parent != "" && n.partialName.Some? {
      var info := InfoOf(n, parent);
      if fuel > 0 && n.kids.Some? {
        VisitKidsQualified(nodes, n.kids.value, info.name, fuel - 1);
        forall f <- VisitKids(nodes, n.kids.value, info.name, fuel - 1) ensures StartsWith(f.name, parent + ".") {
          PrefixOfPrefix(f.name, info.name + ".", parent + ".");
        }
      }
    }
  }

  lemma {:induction false} VisitKidsQualified(nodes: seq<Node>, kids: seq<NodeId>, parent: string, fuel: nat)
    requires Arena(nodes) && InArena(kids, nodes)
    ensures parent != "" ==> forall f <- VisitKids(nodes, kids, parent, fuel) :: StartsWith(f.name, parent + ".")
    decreases fuel, 1, |kids|
  {
    if kids != [] {
      VisitKidsQualified(nodes, kids[..|kids| - 1], parent, fuel);
      VisitQualified(nodes, kids[|kids| - 1], parent, fuel);
    }
  }

  /** Every record's type is one of the application's five type names. */
  lemma {:induction false} VisitTypes(nodes: seq<Node>, id: NodeId, parent: string, fuel: nat)
    requires Arena(nodes) && id < |nodes|
    ensures forall f <- Visit(nodes, id, parent, fuel) :: IsAppType(f.fieldType)
    decreases fuel, 0, 0
  {
    var n := nodes[id];
    assert KidsIn(n, nodes);
    if fuel > 0 && n.kids.Some? && !(n.partialName.None? && parent != "") {
      VisitKidsTypes(nodes, n.kids.value, InfoOf(n, parent).name, fuel - 1);
    }
  }

  lemma {:induction false} VisitKidsTypes(nodes: seq<Node>, kids: seq<NodeId>, parent: string, fuel: nat)
    requires Arena(nodes) && InArena(kids, nodes)
    ensures forall f <- VisitKids(nodes, kids, parent, fuel) :: IsAppType(f.fieldType)
    decreases fuel, 1, |kids|
  {
    if kids != [] {
      VisitKidsTypes(nodes, kids[..|kids| - 1], parent, fuel);
      VisitTypes(nodes, kids[|kids| - 1], parent, fuel);
    }
  }

  /** `f` is the record of some node that carries /FT, under some parent name. */
  ghost predicate FromTypedNode(nodes: seq<Node>, f: FieldInfo) {
    exists j, q :: 0 <= j < |nodes| && nodes[j].fieldType.Some? && f == InfoOf(nodes[j], q)
  }

  /** Every record comes from a node that carries /FT: nodes without a type only pass their name down. */
  lemma {:induction false} VisitFromTyped(nodes: seq<Node>, id: NodeId, parent: string, fuel: nat)
    requires Arena(nodes) && id < |nodes|
    ensures forall f <- Visit(nodes, id, parent, fuel) :: FromTypedNode(nodes, f)
    decreases fuel, 0, 0
  {
    var n := nodes[id];
    assert KidsIn(n, nodes);
    if !(n.partialName.None? && parent != "") {
      if n.fieldType.Some? {
        assert FromTypedNode(nodes, InfoOf(nodes[id], parent));
      }
      if fuel > 0 && n.kids.Some? {
        VisitKidsFromTyped(nodes, n.kids.value, InfoOf(n, parent).name, fuel - 1);
      }
    }
  }

  lemma {:induction false} VisitKidsFromTyped(nodes: seq<Node>, kids: seq<NodeId>, parent: string, fuel: nat)
    requires Arena(nodes) && InArena(kids, nodes)
    ensures forall f <- VisitKids(nodes, kids, parent, fuel) :: FromTypedNode(nodes, f)
    decreases fuel, 1, |kids|
  {
    if kids != [] {
      VisitKidsFromTyped(nodes, kids[..|kids| - 1], parent, fuel);
      VisitFromTyped(nodes, kids[|kids| - 1], parent, fuel);
    }
  }

  /** A typed node that is visited at all contributes its own record first, before any of its kids'. */
  lemma OwnRecordFirst(nodes: seq<Node>, id: NodeId, parent: string, fuel: nat)
    requires Arena(nodes) && id < |nodes|
    requires nodes[id].fieldType.Some? && (nodes[id].partialName.Some? || parent == "")
    ensures var r := Visit(nodes, id, parent, fuel); r != [] && r[0] == InfoOf(nodes[id], parent)
  {
  }

  /** What `get_form_fields` returns for a document with a form: each top-level field visited with no parent. */
  function Extraction(nodes: seq<Node>, top: seq<NodeId>): seq<FieldInfo>
    requires Arena(nodes) && InArena(top, nodes)
  {
    VisitKids(nodes, top, "", |nodes|)
  }

  /** `extract_field_info`: appends the records of the subtree at `id` to the shared list. */
  method ExtractFieldInfo(doc: Document, id: NodeId, parent: string, fuel: nat, fields: seq<FieldInfo>)
    returns (fields': seq<FieldInfo>)
    requires doc.Valid() && id < |doc.nodes|
    ensures fields' == fields + Visit(doc.nodes, id, parent, fuel)
    decreases fuel, 0
  {
    var field := doc.nodes[id];
    VisitStep(doc.nodes, id, parent, fuel);
    if field.partialName.None? && parent != "" {
      return fields;
    }
    var info := InfoOf(field, parent);
    var own := if field.fieldType.Some? then [info] else [];
    fields' := fields + own;
    if fuel > 0 && field.kids.Some? {
      fields' := ExtractKids(doc, field.kids.value, info.name, fuel - 1, fields');
    }
  }

  /** The loop over /Kids inside `extract_field_info`, each kid visited with the field's name as parent. */
  method ExtractKids(doc: Document, kids: seq<NodeId>, parent: string, fuel: nat, fields: seq<FieldInfo>)
    returns (fields': seq<FieldInfo>)
    requires doc.Valid() && InArena(kids, doc.nodes)
    ensures fields' == fields + VisitKids(doc.nodes, kids, parent, fuel)
    decreases fuel, 1
  {
    ghost var nodes := doc.nodes;
    fields' := fields;
    for i := 0 to |kids|
      invariant InArena(kids[..i], nodes)
      invariant fields' == fields + VisitKids(nodes, kids[..i], parent, fuel)
    {
      VisitKidsSnoc(nodes, kids, i, parent, fuel);
      fields' := ExtractFieldInfo(doc, kids[i], parent, fuel, fields');
    }
    assert kids[..|kids|] == kids;
  }

  /** `get_form_fields`: None without a form, else the records of every top-level field in order. */
  method GetFormFields(doc: Document) returns (result: Option<seq<FieldInfo>>)
    requires doc.Valid()
    ensures result.None? <==> FormFields(doc.acroForm).None?
    ensures result.Some? ==> result.value == Extraction(doc.nodes, FormFields(doc.acroForm).value)
  {
    var form := FormFields(doc.acroForm);
    if form.None? {
      return None;
    }
    var fields := ExtractKids(doc, form.value, "", |doc.nodes|, []);
    return Some(fields);
  }

  /** The search test: the lower-cased term occurs in the lower-cased name or tooltip. */
  predicate Matches(f: FieldInfo, termLower: string) {
    Contains(Lower(f.name), termLower) || Contains(Lower(f.tooltip), termLower)
  }

  /** `search_fields` of the web application: the matching records, in extraction order. */
  method SearchFields(doc: Document, term: string) returns (results: seq<FieldInfo>)
    requires doc.Valid()
    ensures FormFields(doc.acroForm).None? ==> results == []
    ensures FormFields(doc.acroForm).Some? ==>
      results == Filter(Extraction(doc.nodes, FormFields(doc.acroForm).value), f => Matches(f, Lower(term)))
  {
    var fields := GetFormFields(doc);
    if fields.None? || fields.value == [] {
      return [];
    }
    results := SelectMatching(fields.value, Lower(term));
  }

  /** The loop of `search_fields` over the extracted records. */
  method SelectMatching(all: seq<FieldInfo>, t: string) returns (results: seq<FieldInfo>)
    ensures results == Filter(all, f => Matches(f, t))
  {
    results := [];
    for i := 0 to |all|
      invariant results == Filter(all[..i], f => Matches(f, t))
    {
      FilterSnoc(all, i, f => Matches(f, t));
      if Contains(Lower(all[i].name), t) || Contains(Lower(all[i].tooltip), t) {
        results := results + [all[i]];
      }
    }
    assert all[..|all|] == all;
  }

  /** The position of the last '.' in `s`, or -1. */
  function LastDot(s: string): (r: int)
    ensures -1 <= r < |s|
    ensures r == -1 <==> '.' !in s
    ensures r >= 0 ==> s[r] == '.' && '.' !in s[r + 1..]
    decreases |s|
  {
    if s == [] then -1
    else if s[|s| - 1] == '.' then |s| - 1
    else
      assert s == s[..|s| - 1] + [s[|s| - 1]];
      var r := LastDot(s[..|s| - 1]);
      assert r >= 0 ==> s[r + 1..] == s[..|s| - 1][r + 1..] + [s[|s| - 1]];
      r
  }

  /** `allowed_file`: `'.' in filename and filename.rsplit('.', 1)[1].lower() in {'pdf'}` */
  function AllowedFile(filename: string): bool {
    var d := LastDot(filename);
    d >= 0 && Lower(filename[d + 1..]) == "pdf"
  }

  /** A name is accepted exactly when it has a '.' and the text after the last one is "pdf" in any case. */
  lemma AllowedFileSpec(filename: string)
    ensures AllowedFile(filename) <==>
      exists i :: 0 <= i < |filename| && filename[i] == '.' && '.' !in filename[i + 1..]
                  && Lower(filename[i + 1..]) == "pdf"
  {
    var d := LastDot(filename);
    forall i | 0 <= i < |filename| && filename[i] == '.' && '.' !in filename[i + 1..]
      ensures i == d
    {
    }
  }

  /** One entry of the template the web application returns. */
  datatype TemplateItem = TemplateItem(value: string, fieldType: string, description: string)

  function ItemFor(f: FieldInfo): TemplateItem {
    TemplateItem(if f.fieldType != "checkbox" then "" else "Off", f.fieldType, f.tooltip)
  }

  /** `template[field['name']] = {...}` for each record in order; a repeated name keeps its place and takes the later entry. */
  function TemplateOf(fields: seq<FieldInfo>): (t: Dict<TemplateItem>)
    ensures UniqueKeys(t)
    ensures Keys(t) == set i | 0 <= i < |fields| :: fields[i].name
    decreases |fields|
  {
    if fields == [] then []
    else
      var init := fields[..|fields| - 1];
      var last := fields[|fields| - 1];
      assert (set i | 0 <= i < |fields| :: fields[i].name) == (set i | 0 <= i < |init| :: init[i].name) + {last.name};
      Put(TemplateOf(init), last.name, ItemFor(last))
  }

  lemma TemplateOfSnoc(fields: seq<FieldInfo>, i: nat)
    requires i < |fields|
    ensures TemplateOf(fields[..i + 1]) == Put(TemplateOf(fields[..i]), fields[i].name, ItemFor(fields[i]))
  {
    assert fields[..i + 1][..i] == fields[..i];
  }

  /**
   * Every entry of the template is that of the last record with its name: "Off" for a
   * checkbox and empty otherwise, described by the record's tooltip.
   */
  lemma {:induction false} TemplateEntries(fields: seq<FieldInfo>, k: string)
    requires Get(TemplateOf(fields), k).Some?
    ensures exists i :: 0 <= i < |fields| && fields[i].name == k && Get(TemplateOf(fields), k).value == ItemFor(fields[i])
                        && forall j :: i < j < |fields| ==> fields[j].name != k
    ensures Get(TemplateOf(fields), k).value.value == (if Get(TemplateOf(fields), k).value.fieldType == "checkbox" then "Off" else "")
    decreases |fields|
  {
    var init := fields[..|fields| - 1];
    var last := fields[|fields| - 1];
    if k != last.name {
      TemplateEntries(init, k);
      var i :| 0 <= i < |init| && init[i].name == k && Get(TemplateOf(init), k).value == ItemFor(init[i])
               && forall j :: i < j < |init| ==> init[j].name != k;
      assert fields[i] == init[i];
      NoNameAfter(fields, init, i, k);
    } else {
      assert fields[|fields| - 1] == last;
    }
  }

  lemma NoNameAfter(fields: seq<FieldInfo>, init: seq<FieldInfo>, i: nat, k: string)
    requires i < |fields| - 1 && init == fields[..|fields| - 1] && fields[|fields| - 1].name != k
    requires forall j :: i < j < |init| ==> init[j].name != k
    ensures forall j :: i < j < |fields| ==> fields[j].name != k
  {
    forall j | i < j < |init| ensures fields[j].name != k {
      assert init[j] == fields[j];
    }
  }

  /**
   * The template of `generate_template_api`: no template when extraction gives no records;
   * otherwise the records whose name starts with the upper-cased section, when one is given.
   */
  method BuildTemplate(doc: Document, section: string) returns (template: Option<Dict<TemplateItem>>)
    requires doc.Valid()
    ensures var form := FormFields(doc.acroForm);
      template == if form.None? || Extraction(doc.nodes, form.value) == [] then None
                  else if Upper(section) == "" then Some(TemplateOf(Extraction(doc.nodes, form.value)))
                  else Some(TemplateOf(Filter(Extraction(doc.nodes, form.value), (f: FieldInfo) => StartsWith(f.name, Upper(section)))))
  {
    var prefix := Upper(section);
    var fields := GetFormFields(doc);
    if fields.None? || fields.value == [] {
      return None;
    }
    var selected := fields.value;
    if prefix != "" {
      selected := [];
      for i := 0 to |fields.value|
        invariant selected == Filter(fields.value[..i], (f: FieldInfo) => StartsWith(f.name, prefix))
      {
        FilterSnoc(fields.value, i, (f: FieldInfo) => StartsWith(f.name, prefix));
        if StartsWith(fields.value[i].name, prefix) {
          selected := selected + [fields.value[i]];
        }
      }
      assert fields.value[..|fields.value|] == fields.value;
    }
    var t: Dict<TemplateItem> := [];
    for i := 0 to |selected|
      invariant t == TemplateOf(selected[..i])
    {
      TemplateOfSnoc(selected, i);
      var f := selected[i];
      t := Put(t, f.name, TemplateItem(if f.fieldType != "checkbox" then "" else "Off", f.fieldType, f.tooltip));
    }
    assert selected[..|selected|] == selected;
    return Some(t);
  }
}
