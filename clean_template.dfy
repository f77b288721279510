/**
 * Making a clean template (create_clean_template.py): every image XObject wider or taller
 * than 500 units is deleted from each page's resources, the first top-level field named
 * `H_Proposition` is reset as in the void removal, and /NeedAppearances is set whenever
 * the form has /Fields.
 */
module CleanTemplate {
  import opened Options
  import opened Pdf
  import RemoveVoid

  /** `xobj.get('/Subtype') == Name('/Image')` and `width > 500 or height > 500`, a missing size counting as 0. */
  predicate IsLargeImage(x: XObject) {
    x.subtype == Some("/Image") && (x.width.GetOr(0) > 500 || x.height.GetOr(0) > 500)
  }

  /** The XObject dictionary without its large images. */
  function KeepSmall(m: map<string, XObject>): map<string, XObject> {
    map k | k in m && !IsLargeImage(m[k]) :: m[k]
  }

  /** The names of the large images in an XObject dictionary. */
  function LargeNames(m: map<string, XObject>): set<string> {
    set k | k in m && IsLargeImage(m[k])
  }

  /** Every entry is either kept or counted as removed, never both. */
  lemma PruneSplits(m: map<string, XObject>)
    ensures KeepSmall(m).Keys !! LargeNames(m)
    ensures KeepSmall(m).Keys + LargeNames(m) == m.Keys
    ensures |m| == |KeepSmall(m)| + |LargeNames(m)|
  {
    var kept := KeepSmall(m).Keys;
    var large := LargeNames(m);
    assert kept + large == m.Keys;
    assert |kept + large| == |kept| + |large|;
  }

  /** After one pass nothing large is left, so a second pass removes nothing and changes nothing. */
  lemma PruneIdempotent(m: map<string, XObject>)
    ensures LargeNames(KeepSmall(m)) == {}
    ensures KeepSmall(KeepSmall(m)) == KeepSmall(m)
  {
  }

  /** The inner loop over `list(xobjects.keys())`: deletes each large image and counts it. */
  method PruneXObjects(m: map<string, XObject>) returns (kept: map<string, XObject>, removed: nat)
    ensures kept == KeepSmall(m) && removed == |LargeNames(m)|
  {
    kept := m;
    removed := 0;
    var pending := m.Keys;
    while pending != {}
      invariant pending <= m.Keys
      invariant kept == map k | k in m && (k in pending || !IsLargeImage(m[k])) :: m[k]
      invariant removed == |set k | k in m && k !in pending && IsLargeImage(m[k])|
      decreases |pending|
    {
      var name :| name in pending;
      ghost var done := set k | k in m && k !in pending && IsLargeImage(m[k]);
      if IsLargeImage(m[name]) {
        kept := map k | k in kept && k != name :: kept[k];
        removed := removed + 1;
        assert (set k | k in m && k !in pending - {name} && IsLargeImage(m[k])) == done + {name};
      } else {
        assert (set k | k in m && k !in pending - {name} && IsLargeImage(m[k])) == done;
      }
      pending := pending - {name};
    }
    assert (set k | k in m && k !in pending && IsLargeImage(m[k])) == LargeNames(m);
  }

  /** A page after pruning; a page without /Resources /XObject is left alone. */
  function PrunePage(p: Page): Page {
    if p.xobjects.Some? then p.(xobjects := Some(KeepSmall(p.xobjects.value))) else p
  }

  /** The large images of a page. */
  function PageLarge(p: Page): nat {
    if p.xobjects.Some? then |LargeNames(p.xobjects.value)| else 0
  }

  /** `pages_modified`: the number of images removed over all pages (an image count, despite its name). */
  function RemovedCount(pages: seq<Page>): nat
    decreases |pages|
  {
    if pages == [] then 0 else RemovedCount(pages[..|pages| - 1]) + PageLarge(pages[|pages| - 1])
  }

  /** No page keeps a large image, and nothing but the XObject dictionaries changes. */
  lemma PrunedPages(pages: seq<Page>, i: nat)
    requires i < |pages|
    ensures var p := PrunePage(pages[i]);
      && p.id == pages[i].id && p.annots == pages[i].annots
      && p.xobjects.Some? == pages[i].xobjects.Some?
      && (p.xobjects.Some? ==> forall k <- p.xobjects.value :: !IsLargeImage(p.xobjects.value[k])
                                  && k in pages[i].xobjects.value && p.xobjects.value[k] == pages[i].xobjects.value[k])
      && PageLarge(p) == 0
  {
    if pages[i].xobjects.Some? {
      PruneIdempotent(pages[i].xobjects.value);
    }
  }

  /** Step 1: the loop over the pages; returns `pages_modified`. */
  method PrunePages(doc: Document) returns (removed: nat)
    modifies doc
    ensures doc.pages == seq(|old(doc.pages)|, i requires 0 <= i < |old(doc.pages)| => PrunePage(old(doc.pages)[i]))
    ensures removed == RemovedCount(old(doc.pages))
    ensures doc.nodes == old(doc.nodes) && doc.acroForm == old(doc.acroForm)
  {
    ghost var pages := doc.pages;
    removed := 0;
    for i := 0 to |doc.pages|
      invariant |doc.pages| == |pages|
      invariant forall j :: 0 <= j < i ==> doc.pages[j] == PrunePage(pages[j])
      invariant forall j :: i <= j < |pages| ==> doc.pages[j] == pages[j]
      invariant removed == RemovedCount(pages[..i])
      invariant doc.nodes == old(doc.nodes) && doc.acroForm == old(doc.acroForm)
    {
      assert pages[..i + 1][..i] == pages[..i];
      var page := doc.pages[i];
      if page.xobjects.Some? {
        var kept, n := PruneXObjects(page.xobjects.value);
        doc.pages := doc.pages[i := page.(xobjects := Some(kept))];
        removed := removed + n;
      }
    }
    assert pages[..|pages|] == pages;
  }

  /** The position of the first listed field named `H_Proposition`, where the loop breaks. */
  function FirstProposition(nodes: seq<Node>, fields: seq<NodeId>): (r: Option<nat>)
    ensures r.Some? ==> r.value < |fields| && fields[r.value] < |nodes|
                        && nodes[fields[r.value]].partialName == Some(RemoveVoid.PropositionName)
    ensures r.Some? <==> NamedIn(nodes, fields, RemoveVoid.PropositionName)
    ensures r.Some? ==> forall i :: 0 <= i < r.value && fields[i] < |nodes| ==>
                          nodes[fields[i]].partialName != Some(RemoveVoid.PropositionName)
    decreases |fields|
  {
    if fields == [] then None
    else if fields[0] < |nodes| && nodes[fields[0]].partialName == Some(RemoveVoid.PropositionName) then Some(0)
    else
      var r := FirstProposition(nodes, fields[1..]);
      NamedInTail(nodes, fields, RemoveVoid.PropositionName);
      if r.Some? then Some(r.value + 1) else None
  }

  /** The nodes after step 2: only the first `H_Proposition` field and its kids are reset. */
  function ResetFirst(nodes: seq<Node>, fields: seq<NodeId>): seq<Node> {
    var first := FirstProposition(nodes, fields);
    if first.Some? then RemoveVoid.PropositionStep(nodes, fields[first.value]) else nodes
  }

  /** `create_clean_template`: prune the pages, reset the first `H_Proposition`, set /NeedAppearances; returns the image count. */
  method CreateCleanTemplate(doc: Document) returns (removed: nat)
    requires doc.Valid()
    modifies doc
    ensures doc.pages == seq(|old(doc.pages)|, i requires 0 <= i < |old(doc.pages)| => PrunePage(old(doc.pages)[i]))
    ensures removed == RemovedCount(old(doc.pages))
    ensures FormFields(old(doc.acroForm)).None? ==> doc.nodes == old(doc.nodes) && doc.acroForm == old(doc.acroForm)
    ensures FormFields(old(doc.acroForm)).Some? ==>
      && doc.nodes == ResetFirst(old(doc.nodes), FormFields(old(doc.acroForm)).value)
      && doc.acroForm == RemoveVoid.NeedingAppearances(old(doc.acroForm))
  {
    removed := PrunePages(doc);
    var form := FormFields(doc.acroForm);
    if form.Some? {
      var fields := form.value;
      var i := 0;
      while i < |fields|
        invariant 0 <= i <= |fields|
        invariant forall j :: 0 <= j < i ==> doc.nodes[fields[j]].partialName != Some(RemoveVoid.PropositionName)
        invariant doc.nodes == old(doc.nodes)
      {
        var id := fields[i];
        if doc.nodes[id].partialName == Some(RemoveVoid.PropositionName) {
          assert FirstProposition(doc.nodes, fields) == Some(i);
          RemoveVoid.ResetProposition(doc, id);
          break;
        }
        i := i + 1;
      }
      doc.acroForm := Some(doc.acroForm.value.(needAppearances := Some(true)));
    }
  }

  /**
   * A second `H_Proposition` listed after the first is left as it was, unless it is a kid
   * of the first: the loop stops at the first match.
   */
  lemma OnlyFirstReset(nodes: seq<Node>, fields: seq<NodeId>, i: nat)
    requires InArena(fields, nodes) && i < |fields|
    requires FirstProposition(nodes, fields).Some? && FirstProposition(nodes, fields).value < i
    requires fields[i] != fields[FirstProposition(nodes, fields).value]
    requires var f := nodes[fields[FirstProposition(nodes, fields).value]]; f.kids.Some? ==> fields[i] !in f.kids.value
    ensures ResetFirst(nodes, fields)[fields[i]] == nodes[fields[i]]
  {
  }
}
