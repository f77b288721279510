/**
 * Removing the VOID watermark (remove_void.py, and the same loop in app.py). The watermark is
 * a button field named `btnVoid`: its /Ff gets bit 1 set, the caption of each widget kid is
 * blanked and every appearance stream of it and its kids is deleted. The field
 * `H_Proposition` is reset: bit 0 of its /Ff is cleared when /Ff is present, /V and /DV
 * become empty strings, and each kid gets an empty /V and loses its appearance stream.
 * When either field was found, /NeedAppearances is set and the document saved.
 */
module RemoveVoid {
  import opened Options
  import opened Text
  import opened Flags
  import opened Pdf

  const ButtonName := "btnVoid"
  const PropositionName := "H_Proposition"

  /** What the loops over /Kids do to each kid. */
  datatype WidgetEdit =
    | Blank   // `kid['/MK']['/CA'] = ''` when /MK exists, and `del kid['/AP']`
    | Empty   // `kid['/V'] = ''` and `del kid['/AP']`

  function Apply(e: WidgetEdit, n: Node): Node {
    match e
    case Blank => n.(mk := (if n.mk.Some? then Some(n.mk.value.(caption := Some(""))) else None), hasAppearance := false)
    case Empty => n.(value := Some(Text("")), hasAppearance := false)
  }

  /** Every node listed in `ids` edited by `e`, every other node as it was. */
  function UpdateAt(nodes: seq<Node>, ids: seq<NodeId>, e: WidgetEdit): (r: seq<Node>)
    ensures SameShape(nodes, r)
  {
    seq(|nodes|, j requires 0 <= j < |nodes| => if j in ids then Apply(e, nodes[j]) else nodes[j])
  }

  /** One more turn of a kid loop: a kid listed twice is edited twice, to the same effect. */
  lemma UpdateAtStep(nodes: seq<Node>, ids: seq<NodeId>, k: nat, e: WidgetEdit)
    requires k < |ids| && ids[k] < |nodes|
    ensures var cur := UpdateAt(nodes, ids[..k], e);
      UpdateAt(nodes, ids[..k + 1], e) == cur[ids[k] := Apply(e, cur[ids[k]])]
  {
    assert ids[..k + 1] == ids[..k] + [ids[k]];
  }

  /** The `btnVoid` branch on field `id`: set bit 1 of /Ff (absent counts as 0), blank the kids, drop the field's /AP. */
  function HideStep(nodes: seq<Node>, id: NodeId): (r: seq<Node>)
    requires id < |nodes|
    ensures SameShape(nodes, r)
  {
    var f := nodes[id];
    var flagged := nodes[id := f.(flags := Some(SetBit(f.flags.GetOr(0), 1)))];
    var blanked := if f.kids.Some? then UpdateAt(flagged, f.kids.value, Blank) else flagged;
    blanked[id := blanked[id].(hasAppearance := false)]
  }

  /** The `H_Proposition` branch on field `id`: clear bit 0 of /Ff when present, empty /V and /DV, empty the kids. */
  function PropositionStep(nodes: seq<Node>, id: NodeId): (r: seq<Node>)
    requires id < |nodes|
    ensures SameShape(nodes, r)
  {
    var f := nodes[id];
    var emptied := nodes[id := f.(flags := (if f.flags.Some? then Some(ClearBit(f.flags.value, 0)) else None),
                                  value := Some(Text("")), defaultValue := Some(Text("")))];
    if f.kids.Some? then UpdateAt(emptied, f.kids.value, Empty) else emptied
  }

  /** One turn of the loop over /Fields, on the field's current name. */
  function VoidStep(nodes: seq<Node>, id: NodeId): (r: seq<Node>)
    requires id < |nodes|
    ensures SameShape(nodes, r)
  {
    if nodes[id].partialName == Some(ButtonName) then HideStep(nodes, id)
    else if nodes[id].partialName == Some(PropositionName) then PropositionStep(nodes, id)
    else nodes
  }

  /** Node `j` is one of the listed fields named `name`. */
  predicate Target(nodes: seq<Node>, fields: seq<NodeId>, name: string, j: nat) {
    j in fields && j < |nodes| && nodes[j].partialName == Some(name)
  }

  /** Node `j` is a kid of one of the listed fields named `name`. */
  predicate KidOf(nodes: seq<Node>, fields: seq<NodeId>, name: string, j: nat) {
    exists id :: id in fields && id < |nodes| && nodes[id].partialName == Some(name)
                 && nodes[id].kids.Some? && j in nodes[id].kids.value
  }

  /** Node `j` once the whole loop has run: each key written by at most one kind of edit. */
  function VoidedNode(nodes: seq<Node>, fields: seq<NodeId>, j: nat): Node
    requires j < |nodes|
  {
    var n := nodes[j];
    var hidden := Target(nodes, fields, ButtonName, j);
    var prop := Target(nodes, fields, PropositionName, j);
    var hideKid := KidOf(nodes, fields, ButtonName, j);
    var propKid := KidOf(nodes, fields, PropositionName, j);
    n.(flags := (if hidden then Some(SetBit(n.flags.GetOr(0), 1))
                 else if prop && n.flags.Some? then Some(ClearBit(n.flags.value, 0))
                 else n.flags),
       value := (if prop || propKid then Some(Text("")) else n.value),
       defaultValue := (if prop then Some(Text("")) else n.defaultValue),
       hasAppearance := n.hasAppearance && !hidden && !hideKid && !propKid,
       mk := (if hideKid && n.mk.Some? then Some(n.mk.value.(caption := Some(""))) else n.mk))
  }

  /**
   * The nodes after the loop over `fields`, stated node by node: the outcome does not depend
   * on the order in which the fields are listed, nor on a field being listed twice.
   */
  function Voided(nodes: seq<Node>, fields: seq<NodeId>): (r: seq<Node>)
    ensures SameShape(nodes, r)
  {
    seq(|nodes|, j requires 0 <= j < |nodes| => VoidedNode(nodes, fields, j))
  }

  lemma TargetSnoc(nodes: seq<Node>, fields: seq<NodeId>, id: NodeId, name: string, j: nat)
    ensures Target(nodes, fields + [id], name, j) <==>
      Target(nodes, fields, name, j) || (j == id && id < |nodes| && nodes[id].partialName == Some(name))
  {
  }

  lemma KidOfSnoc(nodes: seq<Node>, fields: seq<NodeId>, id: NodeId, name: string, j: nat)
    ensures KidOf(nodes, fields + [id], name, j) <==>
      KidOf(nodes, fields, name, j)
      || (id < |nodes| && nodes[id].partialName == Some(name) && nodes[id].kids.Some? && j in nodes[id].kids.value)
  {
    if KidOf(nodes, fields + [id], name, j) {
      var id' :| id' in fields + [id] && id' < |nodes| && nodes[id'].partialName == Some(name)
                 && nodes[id'].kids.Some? && j in nodes[id'].kids.value;
      if id' != id {
        assert id' in fields;
      }
    }
    if KidOf(nodes, fields, name, j) {
      var id' :| id' in fields && id' < |nodes| && nodes[id'].partialName == Some(name)
                 && nodes[id'].kids.Some? && j in nodes[id'].kids.value;
      assert id' in fields + [id];
    }
  }

  /** A `btnVoid` turn on top of the earlier turns. */
  lemma HideStepVoided(nodes: seq<Node>, fields: seq<NodeId>, id: NodeId)
    requires id < |nodes| && nodes[id].partialName == Some(ButtonName)
    ensures HideStep(Voided(nodes, fields), id) == Voided(nodes, fields + [id])
  {
    forall j | 0 <= j < |nodes| ensures HideStep(Voided(nodes, fields), id)[j] == Voided(nodes, fields + [id])[j] {
      HideStepVoidedAt(nodes, fields, id, j);
    }
  }

  lemma HideStepVoidedAt(nodes: seq<Node>, fields: seq<NodeId>, id: NodeId, j: nat)
    requires id < |nodes| && nodes[id].partialName == Some(ButtonName) && j < |nodes|
    ensures HideStep(Voided(nodes, fields), id)[j] == Voided(nodes, fields + [id])[j]
  {
    var cur := Voided(nodes, fields);
    assert SameShapeNode(nodes[id], cur[id]);
    TargetSnoc(nodes, fields, id, ButtonName, j);
    TargetSnoc(nodes, fields, id, PropositionName, j);
    KidOfSnoc(nodes, fields, id, ButtonName, j);
    KidOfSnoc(nodes, fields, id, PropositionName, j);
    if j == id {
      SetBitIdempotent(nodes[id].flags.GetOr(0), 1);
    }
  }

  /** An `H_Proposition` turn on top of the earlier turns. */
  lemma PropositionStepVoided(nodes: seq<Node>, fields: seq<NodeId>, id: NodeId)
    requires id < |nodes| && nodes[id].partialName == Some(PropositionName)
    ensures PropositionStep(Voided(nodes, fields), id) == Voided(nodes, fields + [id])
  {
    forall j | 0 <= j < |nodes| ensures PropositionStep(Voided(nodes, fields), id)[j] == Voided(nodes, fields + [id])[j] {
      PropositionStepVoidedAt(nodes, fields, id, j);
    }
  }

  lemma PropositionStepVoidedAt(nodes: seq<Node>, fields: seq<NodeId>, id: NodeId, j: nat)
    requires id < |nodes| && nodes[id].partialName == Some(PropositionName) && j < |nodes|
    ensures PropositionStep(Voided(nodes, fields), id)[j] == Voided(nodes, fields + [id])[j]
  {
    var cur := Voided(nodes, fields);
    assert SameShapeNode(nodes[id], cur[id]);
    TargetSnoc(nodes, fields, id, ButtonName, j);
    TargetSnoc(nodes, fields, id, PropositionName, j);
    KidOfSnoc(nodes, fields, id, ButtonName, j);
    KidOfSnoc(nodes, fields, id, PropositionName, j);
    PropositionStepAt(cur, id, j);
    if j == id && nodes[id].flags.Some? {
      ClearBitIdempotent(nodes[id].flags.value, 0);
    }
  }

  /** Node `j` after an `H_Proposition` turn. */
  lemma PropositionStepAt(nodes: seq<Node>, id: NodeId, j: nat)
    requires id < |nodes| && j < |nodes|
    ensures var f := nodes[id];
      var e := if j == id then f.(flags := (if f.flags.Some? then Some(ClearBit(f.flags.value, 0)) else None),
                                   value := Some(Text("")), defaultValue := Some(Text(""))) else nodes[j];
      PropositionStep(nodes, id)[j] == if f.kids.Some? && j in f.kids.value then Apply(Empty, e) else e
  {
  }

  /** Any other turn changes nothing. */
  lemma OtherStepVoided(nodes: seq<Node>, fields: seq<NodeId>, id: NodeId)
    requires id < |nodes| && nodes[id].partialName != Some(ButtonName) && nodes[id].partialName != Some(PropositionName)
    ensures Voided(nodes, fields) == Voided(nodes, fields + [id])
  {
    forall j | 0 <= j < |nodes| ensures Voided(nodes, fields)[j] == Voided(nodes, fields + [id])[j] {
      TargetSnoc(nodes, fields, id, ButtonName, j);
      TargetSnoc(nodes, fields, id, PropositionName, j);
      KidOfSnoc(nodes, fields, id, ButtonName, j);
      KidOfSnoc(nodes, fields, id, PropositionName, j);
    }
  }

  /** The loop over /Fields, one turn at a time, reaches the node-by-node outcome. */
  lemma VoidedStep(nodes: seq<Node>, fields: seq<NodeId>, i: nat)
    requires InArena(fields, nodes) && i < |fields|
    ensures VoidStep(Voided(nodes, fields[..i]), fields[i]) == Voided(nodes, fields[..i + 1])
  {
    var id := fields[i];
    assert fields[..i + 1] == fields[..i] + [id];
    assert SameShapeNode(nodes[id], Voided(nodes, fields[..i])[id]);
    if nodes[id].partialName == Some(ButtonName) {
      HideStepVoided(nodes, fields[..i], id);
    } else if nodes[id].partialName == Some(PropositionName) {
      PropositionStepVoided(nodes, fields[..i], id);
    } else {
      OtherStepVoided(nodes, fields[..i], id);
    }
  }

  lemma NamedInSnoc(nodes: seq<Node>, fields: seq<NodeId>, i: nat, name: string)
    requires i < |fields|
    ensures NamedIn(nodes, fields[..i + 1], name) <==>
      NamedIn(nodes, fields[..i], name) || (fields[i] < |nodes| && nodes[fields[i]].partialName == Some(name))
  {
    assert fields[..i + 1] == fields[..i] + [fields[i]];
    if NamedIn(nodes, fields[..i + 1], name) && !(fields[i] < |nodes| && nodes[fields[i]].partialName == Some(name)) {
      var k :| 0 <= k < i + 1 && fields[..i + 1][k] < |nodes| && nodes[fields[..i + 1][k]].partialName == Some(name);
      assert fields[..i][k] == fields[k];
    }
  }

  /** The `btnVoid` branch of the loop body. */
  method HideField(doc: Document, id: NodeId)
    requires Arena(doc.nodes) && id < |doc.nodes|
    modifies doc
    ensures doc.nodes == HideStep(old(doc.nodes), id)
    ensures doc.pages == old(doc.pages) && doc.acroForm == old(doc.acroForm)
  {
    var field := doc.nodes[id];
    assert KidsIn(field, doc.nodes);
    doc.nodes := doc.nodes[id := field.(flags := Some(SetBit(field.flags.GetOr(0), 1)))];
    if field.kids.Some? {
      var kids := field.kids.value;
      ghost var flagged := doc.nodes;
      assert kids[..0] == [];
      for k := 0 to |kids|
        invariant doc.nodes == UpdateAt(flagged, kids[..k], Blank)
        invariant doc.pages == old(doc.pages) && doc.acroForm == old(doc.acroForm)
      {
        UpdateAtStep(flagged, kids, k, Blank);
        var kid := doc.nodes[kids[k]];
        if kid.mk.Some? {
          kid := kid.(mk := Some(kid.mk.value.(caption := Some(""))));
        }
        kid := kid.(hasAppearance := false);
        doc.nodes := doc.nodes[kids[k] := kid];
      }
      assert kids[..|kids|] == kids;
    }
    doc.nodes := doc.nodes[id := doc.nodes[id].(hasAppearance := false)];
  }

  /** The `H_Proposition` branch of the loop body. */
  method ResetProposition(doc: Document, id: NodeId)
    requires Arena(doc.nodes) && id < |doc.nodes|
    modifies doc
    ensures doc.nodes == PropositionStep(old(doc.nodes), id)
    ensures doc.pages == old(doc.pages) && doc.acroForm == old(doc.acroForm)
  {
    var field := doc.nodes[id];
    assert KidsIn(field, doc.nodes);
    var flags := field.flags;
    if flags.Some? {
      flags := Some(ClearBit(flags.value, 0));
    }
    doc.nodes := doc.nodes[id := field.(flags := flags, value := Some(Text("")), defaultValue := Some(Text("")))];
    if field.kids.Some? {
      var kids := field.kids.value;
      ghost var emptied := doc.nodes;
      assert kids[..0] == [];
      for k := 0 to |kids|
        invariant doc.nodes == UpdateAt(emptied, kids[..k], Empty)
        invariant doc.pages == old(doc.pages) && doc.acroForm == old(doc.acroForm)
      {
        UpdateAtStep(emptied, kids, k, Empty);
        doc.nodes := doc.nodes[kids[k] := doc.nodes[kids[k]].(value := Some(Text("")), hasAppearance := false)];
      }
      assert kids[..|kids|] == kids;
    }
  }

  /**
   * The loop over /Fields shared by both entry points. Returns whether a field named
   * `btnVoid` and one named `H_Proposition` were met.
   */
  method VoidFields(doc: Document) returns (foundButton: bool, foundProposition: bool)
    requires doc.Valid() && FormFields(doc.acroForm).Some?
    modifies doc
    ensures var fields := FormFields(old(doc.acroForm)).value;
      && doc.nodes == Voided(old(doc.nodes), fields)
      && foundButton == NamedIn(old(doc.nodes), fields, ButtonName)
      && foundProposition == NamedIn(old(doc.nodes), fields, PropositionName)
    ensures doc.pages == old(doc.pages) && doc.acroForm == old(doc.acroForm)
  {
    ghost var nodes := doc.nodes;
    var fields := FormFields(doc.acroForm).value;
    foundButton, foundProposition := false, false;
    assert fields[..0] == [];
    assert doc.nodes == Voided(nodes, fields[..0]);
    for i := 0 to |fields|
      invariant doc.nodes == Voided(nodes, fields[..i])
      invariant foundButton == NamedIn(nodes, fields[..i], ButtonName)
      invariant foundProposition == NamedIn(nodes, fields[..i], PropositionName)
      invariant doc.pages == old(doc.pages) && doc.acroForm == old(doc.acroForm)
    {
      var id := fields[i];
      VoidedStep(nodes, fields, i);
      NamedInSnoc(nodes, fields, i, ButtonName);
      NamedInSnoc(nodes, fields, i, PropositionName);
      assert SameShapeNode(nodes[id], doc.nodes[id]);
      SameShapeArena(nodes, doc.nodes);
      var field := doc.nodes[id];
      if field.partialName.None? {
        continue;
      }
      var name := field.partialName.value;
      if name == ButtonName {
        foundButton := true;
        HideField(doc, id);
      }
      if name == PropositionName {
        foundProposition := true;
        ResetProposition(doc, id);
      }
    }
    assert fields[..|fields|] == fields;
  }

  /** The form after /NeedAppearances is set. */
  function NeedingAppearances(form: Option<AcroForm>): Option<AcroForm> {
    if form.Some? then Some(form.value.(needAppearances := Some(true))) else None
  }

  /**
   * remove_void.py's `remove_void_actual`: false without a form; otherwise the fields are
   * edited, and /NeedAppearances is set and the result true exactly when a target was found.
   */
  method RemoveVoidActual(doc: Document) returns (ok: bool)
    requires doc.Valid()
    modifies doc
    ensures doc.pages == old(doc.pages)
    ensures FormFields(old(doc.acroForm)).None? ==> !ok && doc.nodes == old(doc.nodes) && doc.acroForm == old(doc.acroForm)
    ensures FormFields(old(doc.acroForm)).Some? ==> var fields := FormFields(old(doc.acroForm)).value;
      && doc.nodes == Voided(old(doc.nodes), fields)
      && (ok <==> NamedIn(old(doc.nodes), fields, ButtonName) || NamedIn(old(doc.nodes), fields, PropositionName))
      && doc.acroForm == if ok then NeedingAppearances(old(doc.acroForm)) else old(doc.acroForm)
  {
    if FormFields(doc.acroForm).None? {
      return false;
    }
    var foundButton, foundProposition := VoidFields(doc);
    if foundButton || foundProposition {
      doc.acroForm := Some(doc.acroForm.value.(needAppearances := Some(true)));
      return true;
    }
    return false;
  }

  /** app.py's `remove_void_watermark`: the same edits, reported as a message. */
  method RemoveVoidWatermark(doc: Document) returns (ok: bool, message: string)
    requires doc.Valid()
    modifies doc
    ensures doc.pages == old(doc.pages)
    ensures FormFields(old(doc.acroForm)).None? ==>
      !ok && message == "No form fields found" && doc.nodes == old(doc.nodes) && doc.acroForm == old(doc.acroForm)
    ensures FormFields(old(doc.acroForm)).Some? ==> var fields := FormFields(old(doc.acroForm)).value;
      var button := NamedIn(old(doc.nodes), fields, ButtonName);
      var proposition := NamedIn(old(doc.nodes), fields, PropositionName);
      && doc.nodes == Voided(old(doc.nodes), fields)
      && (ok <==> button || proposition)
      && doc.acroForm == (if ok then NeedingAppearances(old(doc.acroForm)) else old(doc.acroForm))
      && message == if !ok then "btnVoid or H_Proposition field not found"
                    else "VOID watermark removed successfully!"
                         + (if button then " (btnVoid field hidden)" else "")
                         + (if proposition then " (H_Proposition cleared)" else "")
  {
    if FormFields(doc.acroForm).None? {
      return false, "No form fields found";
    }
    var foundButton, foundProposition := VoidFields(doc);
    if foundButton || foundProposition {
      doc.acroForm := Some(doc.acroForm.value.(needAppearances := Some(true)));
      message := "VOID watermark removed successfully!";
      if foundButton {
        message := message + " (btnVoid field hidden)";
      }
      if foundProposition {
        message := message + " (H_Proposition cleared)";
      }
      return true, message;
    }
    return false, "btnVoid or H_Proposition field not found";
  }

  /**
   * A listed `btnVoid` field ends with bit 1 of /Ff set and every other bit, the read-only
   * bit 0 among them, as it was (an absent /Ff counting as 0), and without /AP.
   */
  lemma ButtonHidden(nodes: seq<Node>, fields: seq<NodeId>, j: nat, b: nat)
    requires Target(nodes, fields, ButtonName, j)
    ensures var r := Voided(nodes, fields)[j];
      && r.flags.Some? && Bit(r.flags.value, 1) == 1
      && (b != 1 ==> Bit(r.flags.value, b) == Bit(nodes[j].flags.GetOr(0), b))
      && !r.hasAppearance
  {
    SetBitOnly(nodes[j].flags.GetOr(0), 1, 1);
    SetBitOnly(nodes[j].flags.GetOr(0), 1, b);
  }

  /**
   * A listed `H_Proposition` field ends with empty /V and /DV and, when it had /Ff, bit 0
   * cleared and every other bit kept; without /Ff it gains none.
   */
  lemma PropositionReset(nodes: seq<Node>, fields: seq<NodeId>, j: nat, b: nat)
    requires Target(nodes, fields, PropositionName, j)
    ensures var r := Voided(nodes, fields)[j];
      && r.value == Some(Text("")) && r.defaultValue == Some(Text(""))
      && (nodes[j].flags.None? ==> r.flags.None?)
      && (nodes[j].flags.Some? ==> r.flags.Some? && Bit(r.flags.value, 0) == 0
                                   && (b != 0 ==> Bit(r.flags.value, b) == Bit(nodes[j].flags.value, b)))
  {
    if nodes[j].flags.Some? {
      ClearBitOnly(nodes[j].flags.value, 0, 0);
      ClearBitOnly(nodes[j].flags.value, 0, b);
    }
  }

  /**
   * Every kid of a listed `btnVoid` field ends without /AP and with a blank caption when it
   * has /MK; every kid of a listed `H_Proposition` field ends without /AP and with an empty /V.
   */
  lemma KidsCleared(nodes: seq<Node>, fields: seq<NodeId>, id: NodeId, j: nat)
    requires id in fields && id < |nodes| && nodes[id].kids.Some? && j in nodes[id].kids.value && j < |nodes|
    ensures var r := Voided(nodes, fields)[j];
      && (nodes[id].partialName == Some(ButtonName) ==>
            !r.hasAppearance && r.mk.Some? == nodes[j].mk.Some? && (r.mk.Some? ==> r.mk.value.caption == Some("")))
      && (nodes[id].partialName == Some(PropositionName) ==> !r.hasAppearance && r.value == Some(Text("")))
  {
  }

  /**
   * Nothing but /Ff, /V, /DV, /AP and /MK is ever written, and a node that is neither a
   * listed target nor a kid of one is left exactly as it was.
   */
  lemma VoidFrame(nodes: seq<Node>, fields: seq<NodeId>, j: nat)
    requires j < |nodes|
    ensures var r := Voided(nodes, fields)[j]; var n := nodes[j];
      && r.(flags := n.flags, value := n.value, defaultValue := n.defaultValue, hasAppearance := n.hasAppearance, mk := n.mk) == n
      && ((!Target(nodes, fields, ButtonName, j) && !Target(nodes, fields, PropositionName, j)
           && !KidOf(nodes, fields, ButtonName, j) && !KidOf(nodes, fields, PropositionName, j)) ==> r == n)
  {
  }

  lemma TargetShape(a: seq<Node>, b: seq<Node>, fields: seq<NodeId>, name: string, j: nat)
    requires SameShape(a, b)
    ensures Target(a, fields, name, j) == Target(b, fields, name, j)
    ensures KidOf(a, fields, name, j) == KidOf(b, fields, name, j)
  {
    if KidOf(a, fields, name, j) {
      var id :| id in fields && id < |a| && a[id].partialName == Some(name) && a[id].kids.Some? && j in a[id].kids.value;
      assert SameShapeNode(a[id], b[id]);
    }
    if KidOf(b, fields, name, j) {
      var id :| id in fields && id < |b| && b[id].partialName == Some(name) && b[id].kids.Some? && j in b[id].kids.value;
      assert SameShapeNode(a[id], b[id]);
    }
    if j < |a| {
      assert SameShapeNode(a[j], b[j]);
    }
  }

  /** Running the removal a second time changes nothing more. */
  lemma VoidIdempotent(nodes: seq<Node>, fields: seq<NodeId>)
    ensures Voided(Voided(nodes, fields), fields) == Voided(nodes, fields)
  {
    var once := Voided(nodes, fields);
    var twice := Voided(once, fields);
    forall j | 0 <= j < |nodes| ensures twice[j] == once[j] {
      TargetShape(nodes, once, fields, ButtonName, j);
      TargetShape(nodes, once, fields, PropositionName, j);
      SetBitIdempotent(nodes[j].flags.GetOr(0), 1);
      if nodes[j].flags.Some? {
        ClearBitIdempotent(nodes[j].flags.value, 0);
      }
    }
  }

  /** When no listed field is named `btnVoid` or `H_Proposition`, nothing is changed. */
  lemma NoTargetNoChange(nodes: seq<Node>, fields: seq<NodeId>)
    requires !NamedIn(nodes, fields, ButtonName) && !NamedIn(nodes, fields, PropositionName)
    ensures Voided(nodes, fields) == nodes
  {
    forall j | 0 <= j < |nodes| ensures Voided(nodes, fields)[j] == nodes[j] {
    }
  }
}
