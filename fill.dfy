/**
 * Filling a form from a dictionary of values (fill_pdf.py, and the same loop in app.py):
 * every top-level field whose /T is a key of the data gets /V written, as a name with a
 * matching /AS for a button and as a string otherwise; the keys that name no top-level
 * field are reported.
 */
module Fill {
  import opened Options
  import opened Text
  import opened Seqs
  import opened Dicts
  import opened Pdf
  import FieldTree

  /**
   * `value in [True, 'Yes', 'yes', 'ON', 'On', 1, '1']`. Python compares `True == 1`, so the
   * boolean true and the integer 1 both qualify; strings compare exactly, with no case folding.
   */
  predicate Truthy(x: Input) {
    match x
    case Bool(b) => b
    case Int(i) => i == 1
    case Str(s) => s == "Yes" || s == "yes" || s == "ON" || s == "On" || s == "1"
  }

  /** `str(value)` */
  function InputStr(x: Input): string {
    match x
    case Bool(b) => if b then "True" else "False"
    case Int(i) => Decimal(i)
    case Str(s) => s
  }

  /** The state name a button is set to. */
  function ToggleState(x: Input): string {
    if Truthy(x) then "/Yes" else "/Off"
  }

  /** The writes for one field, given its resolved type tag and its input. */
  function FillNode(n: Node, tag: Option<string>, x: Input): Node {
    if tag == Some("/Btn") then n.(value := Some(Name(ToggleState(x))), appearanceState := Some(ToggleState(x)))
    else n.(value := Some(Text(InputStr(x))))
  }

  /** `'/T' in field` and `field_name in field_data` */
  predicate Selected(n: Node, data: Dict<Input>) {
    n.partialName.Some? && n.partialName.value in Keys(data)
  }

  /** Node `j` filled with the input stored under its name. */
  function FilledNode(nodes: seq<Node>, j: NodeId, data: Dict<Input>): Node
    requires Arena(nodes) && j < |nodes| && Selected(nodes[j], data)
  {
    FillNode(nodes[j], ResolvedTag(nodes, nodes[j]), Get(data, nodes[j].partialName.value).value)
  }

  /** The nodes after the fill loop over `fields`: each listed, selected node is filled, every other node is as it was. */
  function Filled(nodes: seq<Node>, fields: seq<NodeId>, data: Dict<Input>): (r: seq<Node>)
    requires Arena(nodes)
    ensures SameShape(nodes, r) && Arena(r)
  {
    var r := seq(|nodes|, j requires 0 <= j < |nodes| =>
      if j in fields && Selected(nodes[j], data) then FilledNode(nodes, j, data) else nodes[j]);
    SameShapeArena(nodes, r);
    r
  }

  /** `filled_count`: the listed fields that were filled, a field listed twice counting twice. */
  function FillCount(nodes: seq<Node>, fields: seq<NodeId>, data: Dict<Input>): nat
    decreases |fields|
  {
    if fields == [] then 0
    else
      var k := fields[|fields| - 1];
      FillCount(nodes, fields[..|fields| - 1], data) + if k < |nodes| && Selected(nodes[k], data) then 1 else 0
  }

  /** The keys of the data in insertion order. */
  function DataKeys(data: Dict<Input>): seq<string> {
    seq(|data|, i requires 0 <= i < |data| => data[i].0)
  }

  /** `not_found`: the data keys, in order, that are the /T of no top-level field. */
  function NotFound(nodes: seq<Node>, fields: seq<NodeId>, data: Dict<Input>): seq<string> {
    Filter(DataKeys(data), k => !NamedIn(nodes, fields, k))
  }

  /** With no repeated data key, no key is reported as not found twice. */
  lemma NotFoundDistinct(nodes: seq<Node>, fields: seq<NodeId>, data: Dict<Input>)
    requires UniqueKeys(data)
    ensures Distinct(NotFound(nodes, fields, data))
  {
    FilterDistinct(DataKeys(data), k => !NamedIn(nodes, fields, k));
  }

  lemma FillNodeIdempotent(n: Node, tag: Option<string>, x: Input)
    ensures FillNode(FillNode(n, tag, x), tag, x) == FillNode(n, tag, x)
  {
  }

  /** One more turn of the fill loop, on the nodes as the earlier turns left them. */
  lemma FilledStep(nodes: seq<Node>, fields: seq<NodeId>, i: nat, data: Dict<Input>)
    requires Arena(nodes) && InArena(fields, nodes) && i < |fields|
    ensures var cur := Filled(nodes, fields[..i], data); var k := fields[i];
      Filled(nodes, fields[..i + 1], data) ==
        if Selected(cur[k], data)
        then cur[k := FillNode(cur[k], ResolvedTag(cur, cur[k]), Get(data, cur[k].partialName.value).value)]
        else cur
  {
    var cur := Filled(nodes, fields[..i], data);
    var next := Filled(nodes, fields[..i + 1], data);
    var k := fields[i];
    assert fields[..i + 1] == fields[..i] + [k];
    ResolvedTagShape(nodes, cur, nodes[k], cur[k]);
    if Selected(cur[k], data) {
      FillNodeIdempotent(nodes[k], ResolvedTag(nodes, nodes[k]), Get(data, nodes[k].partialName.value).value);
      assert next == cur[k := FilledNode(nodes, k, data)];
    } else {
      assert next == cur;
    }
  }

  /**
   * The fill loop of both entry points: writes every listed field whose name is a data key
   * and counts them.
   */
  method FillFields(doc: Document, data: Dict<Input>) returns (filled: nat)
    requires doc.Valid() && FormFields(doc.acroForm).Some?
    modifies doc
    ensures doc.nodes == Filled(old(doc.nodes), FormFields(old(doc.acroForm)).value, data)
    ensures filled == FillCount(old(doc.nodes), FormFields(old(doc.acroForm)).value, data)
    ensures doc.pages == old(doc.pages) && doc.acroForm == old(doc.acroForm)
  {
    ghost var nodes := doc.nodes;
    var fields := FormFields(doc.acroForm).value;
    filled := 0;
    assert doc.nodes == Filled(nodes, fields[..0], data);
    for i := 0 to |fields|
      invariant doc.nodes == Filled(nodes, fields[..i], data)
      invariant filled == FillCount(nodes, fields[..i], data)
      invariant doc.pages == old(doc.pages) && doc.acroForm == old(doc.acroForm)
    {
      FilledStep(nodes, fields, i, data);
      assert fields[..i + 1][..i] == fields[..i];
      SameShapeArena(nodes, doc.nodes);
      var did := FillOne(doc, fields[i], data);
      if did {
        filled := filled + 1;
      }
    }
    assert fields[..|fields|] == fields;
  }

  /** One turn of the fill loop: field `k` is written when its /T is a data key. */
  method FillOne(doc: Document, k: NodeId, data: Dict<Input>) returns (did: bool)
    requires Arena(doc.nodes) && k < |doc.nodes|
    modifies doc
    ensures did == Selected(old(doc.nodes)[k], data)
    ensures var cur := old(doc.nodes);
      doc.nodes == if did then cur[k := FillNode(cur[k], ResolvedTag(cur, cur[k]), Get(data, cur[k].partialName.value).value)] else cur
    ensures doc.pages == old(doc.pages) && doc.acroForm == old(doc.acroForm)
  {
    var field := doc.nodes[k];
    assert KidsIn(field, doc.nodes);
    if field.partialName.None? {
      return false;
    }
    var value := Get(data, field.partialName.value);
    did := value.Some?;
    if did {
      var fieldType := ResolvedTag(doc.nodes, field);
      doc.nodes := doc.nodes[k := FillNode(field, fieldType, value.value)];
    }
  }

  /** Whether some top-level field is named `name`: the inner search loop with `break`. */
  method FindNamed(doc: Document, fields: seq<NodeId>, name: string) returns (found: bool)
    ensures found == NamedIn(doc.nodes, fields, name)
  {
    found := false;
    var i := 0;
    while i < |fields|
      invariant 0 <= i <= |fields|
      invariant !NamedIn(doc.nodes, fields[..i], name)
    {
      if fields[i] < |doc.nodes| && doc.nodes[fields[i]].partialName == Some(name) {
        found := true;
        break;
      }
      assert fields[..i + 1] == fields[..i] + [fields[i]];
      i := i + 1;
    }
    if !found {
      assert fields[..i] == fields;
    }
  }

  /**
   * fill_pdf.py's `fill_pdf`: false without a form; otherwise the fields are filled, the
   * count and the unknown keys are reported, and the document is saved. The data is a JSON
   * object loaded into a dict, so no key repeats.
   */
  method FillPdf(doc: Document, data: Dict<Input>) returns (ok: bool, filled: nat, notFound: seq<string>)
    requires doc.Valid() && UniqueKeys(data)
    modifies doc
    ensures ok <==> FormFields(old(doc.acroForm)).Some?
    ensures doc.pages == old(doc.pages) && doc.acroForm == old(doc.acroForm)
    ensures !ok ==> doc.nodes == old(doc.nodes) && filled == 0 && notFound == []
    ensures ok ==> var fields := FormFields(old(doc.acroForm)).value;
      doc.nodes == Filled(old(doc.nodes), fields, data)
      && filled == FillCount(old(doc.nodes), fields, data)
      && notFound == NotFound(old(doc.nodes), fields, data)

    ensures Distinct(notFound)
  {
    var form := FormFields(doc.acroForm);
    if form.None? {
      return false, 0, [];
    }
    var fields := form.value;
    ghost var nodes := doc.nodes;
    filled := FillFields(doc, data);
    notFound := NotFoundKeys(doc, fields, data);
    NotFoundShape(nodes, doc.nodes, fields, data);
    NotFoundDistinct(nodes, fields, data);
    ok := true;
  }

  /** app.py's `fill_pdf`: the same loop, reported as a message; the posted JSON object repeats no key. */
  method FillForm(doc: Document, data: Dict<Input>) returns (ok: bool, message: string)
    requires doc.Valid() && UniqueKeys(data)
    modifies doc
    ensures ok <==> FormFields(old(doc.acroForm)).Some?
    ensures doc.pages == old(doc.pages) && doc.acroForm == old(doc.acroForm)
    ensures !ok ==> doc.nodes == old(doc.nodes) && message == "No form fields found"
    ensures ok ==> var fields := FormFields(old(doc.acroForm)).value;
      doc.nodes == Filled(old(doc.nodes), fields, data)
      && message == "Filled " + Decimal(FillCount(old(doc.nodes), fields, data)) + " fields"
  {
    if FormFields(doc.acroForm).None? {
      return false, "No form fields found";
    }
    var filled := FillFields(doc, data);
    return true, "Filled " + Decimal(filled) + " fields";
  }

  /** The reporting loop of fill_pdf.py: each data key, in order, that no top-level field carries. */
  method NotFoundKeys(doc: Document, fields: seq<NodeId>, data: Dict<Input>) returns (notFound: seq<string>)
    ensures notFound == NotFound(doc.nodes, fields, data)
  {
    var nodes := doc.nodes;
    notFound := [];
    var keys := DataKeys(data);
    for i := 0 to |keys|
      invariant notFound == Filter(keys[..i], k => !NamedIn(nodes, fields, k))
    {
      FilterSnoc(keys, i, k => !NamedIn(nodes, fields, k));
      var found := FindNamed(doc, fields, keys[i]);
      if !found {
        notFound := notFound + [keys[i]];
      }
    }
    assert keys[..|keys|] == keys;
  }

  lemma NotFoundShape(a: seq<Node>, b: seq<Node>, fields: seq<NodeId>, data: Dict<Input>)
    requires SameShape(a, b)
    ensures NotFound(a, fields, data) == NotFound(b, fields, data)
  {
    NamedInShape(a, b, fields);
    FilterCongruent(DataKeys(data), k => !NamedIn(a, fields, k), k => !NamedIn(b, fields, k));
  }

  /** Names survive the writes, so the not-found scan after filling sees the names before it. */
  lemma NamedInShape(a: seq<Node>, b: seq<Node>, fields: seq<NodeId>)
    requires SameShape(a, b)
    ensures forall name :: NamedIn(a, fields, name) == NamedIn(b, fields, name)
  {
    forall name ensures NamedIn(a, fields, name) == NamedIn(b, fields, name) {
      if NamedIn(a, fields, name) {
        var i :| 0 <= i < |fields| && fields[i] < |a| && a[fields[i]].partialName == Some(name);
        assert SameShapeNode(a[fields[i]], b[fields[i]]);
      }
      if NamedIn(b, fields, name) {
        var i :| 0 <= i < |fields| && fields[i] < |b| && b[fields[i]].partialName == Some(name);
        assert SameShapeNode(a[fields[i]], b[fields[i]]);
      }
    }
  }

  /** Filling twice with the same data gives the same document as filling once. */
  lemma FillIdempotent(nodes: seq<Node>, fields: seq<NodeId>, data: Dict<Input>)
    requires Arena(nodes)
    ensures Filled(Filled(nodes, fields, data), fields, data) == Filled(nodes, fields, data)
  {
    var once := Filled(nodes, fields, data);
    var twice := Filled(once, fields, data);
    forall j | 0 <= j < |nodes| ensures twice[j] == once[j] {
      if j in fields && Selected(nodes[j], data) {
        ResolvedTagShape(nodes, once, nodes[j], once[j]);
        FillNodeIdempotent(nodes[j], ResolvedTag(nodes, nodes[j]), Get(data, nodes[j].partialName.value).value);
      }
    }
  }

  /**
   * Only /V, and /AS of a button, are written, and only on listed fields whose name is a data
   * key; everything else is left as it was.
   */
  lemma FillFrame(nodes: seq<Node>, fields: seq<NodeId>, data: Dict<Input>, j: nat)
    requires Arena(nodes) && j < |nodes|
    ensures var r := Filled(nodes, fields, data);
      (!(j in fields && Selected(nodes[j], data)) ==> r[j] == nodes[j])
      && r[j].(value := nodes[j].value, appearanceState := nodes[j].appearanceState) == nodes[j]
      && (ResolvedTag(nodes, nodes[j]) != Some("/Btn") ==> r[j].appearanceState == nodes[j].appearanceState)
  {
  }

  /**
   * What the web application's extraction reads back from a filled field: "Yes" or "Off" for
   * a button, whose /AS then names the same state as /V, and `str(value)` otherwise.
   */
  lemma FillReadBack(nodes: seq<Node>, fields: seq<NodeId>, data: Dict<Input>, j: nat, parent: string)
    requires Arena(nodes) && j in fields && j < |nodes| && Selected(nodes[j], data)
    ensures var r := Filled(nodes, fields, data); var x := Get(data, nodes[j].partialName.value).value;
      if ResolvedTag(nodes, nodes[j]) == Some("/Btn") then
        FieldTree.InfoOf(r[j], parent).value == (if Truthy(x) then "Yes" else "Off")
        && r[j].value == Some(Name(r[j].appearanceState.value))
      else
        FieldTree.InfoOf(r[j], parent).value == InputStr(x)
  {
    var r := Filled(nodes, fields, data);
    var x := Get(data, nodes[j].partialName.value).value;
    if ResolvedTag(nodes, nodes[j]) == Some("/Btn") {
      DecodeSlashName("Yes");
      DecodeSlashName("Off");
    }
  }

  lemma DataKeysSpec(data: Dict<Input>, k: string)
    ensures k in DataKeys(data) <==> k in Keys(data)
  {
    if k in Keys(data) {
      var i :| 0 <= i < |data| && data[i].0 == k;
      assert DataKeys(data)[i] == k;
    }
  }

  /** A key is reported exactly when it is a data key and no top-level field carries it as /T. */
  lemma NotFoundSpec(nodes: seq<Node>, fields: seq<NodeId>, data: Dict<Input>, k: string)
    ensures k in NotFound(nodes, fields, data) <==> k in Keys(data) && !NamedIn(nodes, fields, k)
  {
    DataKeysSpec(data, k);
  }

  /** The count is zero exactly when no data key names a top-level field. */
  lemma {:induction false} FillCountZero(nodes: seq<Node>, fields: seq<NodeId>, data: Dict<Input>)
    ensures FillCount(nodes, fields, data) == 0 <==> forall k :: k in Keys(data) ==> !NamedIn(nodes, fields, k)
    decreases |fields|
  {
    if fields != [] {
      var init := fields[..|fields| - 1];
      var last := fields[|fields| - 1];
      FillCountZero(nodes, init, data);
      if FillCount(nodes, fields, data) == 0 {
        forall k | k in Keys(data) ensures !NamedIn(nodes, fields, k) {
          if NamedIn(nodes, fields, k) {
            var i :| 0 <= i < |fields| && fields[i] < |nodes| && nodes[fields[i]].partialName == Some(k);
          }
        }
      } else if last < |nodes| && Selected(nodes[last], data) {
        var k := nodes[last].partialName.value;
        assert fields[|fields| - 1] == last;
        assert NamedIn(nodes, fields, k);
      } else {
        var k :| k in Keys(data) && NamedIn(nodes, init, k);
        var i :| 0 <= i < |init| && init[i] < |nodes| && nodes[init[i]].partialName == Some(k);
        assert fields[i] == init[i];
      }
    }
  }

  /** The count never exceeds the number of listed fields. */
  lemma {:induction false} FillCountBound(nodes: seq<Node>, fields: seq<NodeId>, data: Dict<Input>)
    ensures FillCount(nodes, fields, data) <= |fields|
    decreases |fields|
  {
    if fields != [] {
      FillCountBound(nodes, fields[..|fields| - 1], data);
    }
  }
}
