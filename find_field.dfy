/**
 * Searching fields by label (find_field_by_label.py): one record per top-level field with
 * its name, tooltip, page and display type, kept when no search term is given or when the
 * term occurs, ignoring case, in the name or the tooltip.
 */
module FindField {
  import opened Options
  import opened Text
  import opened Seqs
  import opened Pdf

  /** One `field_info` dict of the search. */
  datatype FoundField = FoundField(name: string, tooltip: string, page: nat, fieldType: string)

  /** The search's `type_map`. */
  const TypeNames: map<string, string> :=
    map["/Tx" := "Text", "/Btn" := "Button", "/Ch" := "Choice", "/Sig" := "Signature"]

  /** `type_map.get(ft, ft)` */
  function TypeName(ft: string): (r: string)
    ensures ft in TypeNames ==> r == TypeNames[ft]
    ensures ft !in TypeNames ==> r == ft
  {
    if ft in TypeNames then TypeNames[ft] else ft
  }

  /** The record built for the top-level field `n`. */
  function Found(nodes: seq<Node>, pages: seq<Page>, n: Node): FoundField
    requires KidsIn(n, nodes)
  {
    var tag := ResolvedTag(nodes, n);
    FoundField(
      name := n.partialName.GetOr(""),
      tooltip := n.tooltip.GetOr(""),
      page := KidPage(nodes, pages, n),
      fieldType := if tag.Some? then TypeName(tag.value) else "")
  }

  /**
   * The type is the display name of the field's own /FT, else of its first kid's /FT, else
   * empty; a tag outside the table is shown raw. The page is known only through a first kid
   * of a field with no /FT.
   */
  lemma FoundTypeAndPage(nodes: seq<Node>, pages: seq<Page>, n: Node)
    requires KidsIn(n, nodes)
    ensures var f := Found(nodes, pages, n);
      && (n.fieldType.Some? ==> f.fieldType == TypeName(n.fieldType.value) && f.page == 0)
      && (n.fieldType == Some("/Btn") ==> f.fieldType == "Button")
      && (FromKid(n) && FirstKid(nodes, n).fieldType.Some? ==> f.fieldType == TypeName(FirstKid(nodes, n).fieldType.value))
      && (ResolvedTag(nodes, n).None? ==> f.fieldType == "")
      && (n.fieldType.None? && !HasKids(n) ==> f.fieldType == "" && f.page == 0)
      && (f.page > 0 ==> FirstKid(nodes, n).pageRef == Some(pages[f.page - 1].id))
  {
  }

  /** `if search_term:` — an absent or empty term keeps every field. */
  predicate Wanted(f: FoundField, term: Option<string>) {
    term.None? || term.value == [] ||
    Contains(Lower(f.name), Lower(term.value)) || Contains(Lower(f.tooltip), Lower(term.value))
  }

  /** The records of the top-level fields, in /Fields order. */
  function FoundAll(nodes: seq<Node>, pages: seq<Page>, fields: seq<NodeId>): (r: seq<FoundField>)
    requires Arena(nodes) && InArena(fields, nodes)
    ensures |r| == |fields|
  {
    seq(|fields|, i requires 0 <= i < |fields| => Found(nodes, pages, nodes[fields[i]]))
  }

  /** The loop body: build the record of one field. */
  method BuildFound(nodes: seq<Node>, pages: seq<Page>, n: Node) returns (f: FoundField)
    requires KidsIn(n, nodes)
    ensures f == Found(nodes, pages, n)
  {
    f := FoundField("", "", 0, "");
    if n.partialName.Some? {
      f := f.(name := n.partialName.value);
    }
    if n.tooltip.Some? {
      f := f.(tooltip := n.tooltip.value);
    }
    if n.fieldType.Some? {
      f := f.(fieldType := TypeName(n.fieldType.value));
    } else if HasKids(n) {
      var kid := nodes[n.kids.value[0]];
      if kid.fieldType.Some? {
        f := f.(fieldType := TypeName(kid.fieldType.value));
      }
      if kid.pageRef.Some? {
        var page := FindPage(pages, kid.pageRef.value);
        f := f.(page := page);
      }
    }
  }

  /** `search_fields`: none without /AcroForm /Fields, else the wanted records in /Fields order. */
  method SearchByLabel(doc: Document, term: Option<string>) returns (r: Option<seq<FoundField>>)
    requires doc.Valid()
    ensures r.None? <==> FormFields(doc.acroForm).None?
    ensures r.Some? ==>
      r.value == Filter(FoundAll(doc.nodes, doc.pages, FormFields(doc.acroForm).value), f => Wanted(f, term))
  {
    var form := FormFields(doc.acroForm);
    if form.None? {
      return None;
    }
    var fields := form.value;
    ghost var all := FoundAll(doc.nodes, doc.pages, fields);
    var results: seq<FoundField> := [];
    for i := 0 to |fields|
      invariant results == Filter(all[..i], f => Wanted(f, term))
    {
      var f := BuildFound(doc.nodes, doc.pages, doc.nodes[fields[i]]);
      assert f == all[i];
      FilterSnoc(all, i, f => Wanted(f, term));
      if term.Some? && term.value != [] {
        var lower := Lower(term.value);
        if Contains(Lower(f.name), lower) || Contains(Lower(f.tooltip), lower) {
          results := results + [f];
        }
      } else {
        results := results + [f];
      }
    }
    assert all[..|fields|] == all;
    r := Some(results);
  }

  /** Without a term every top-level field is listed, in /Fields order. */
  lemma {:induction false} NoTermKeepsAll(s: seq<FoundField>, term: Option<string>)
    requires term.None? || term.value == []
    ensures Filter(s, f => Wanted(f, term)) == s
    decreases |s|
  {
    if s != [] {
      NoTermKeepsAll(s[..|s| - 1], term);
      assert s[..|s| - 1] + [s[|s| - 1]] == s;
    }
  }

  /**
   * With a term, a record is listed exactly when the lower-cased term occurs in its
   * lower-cased name or tooltip; records keep their relative order.
   */
  lemma SearchResults(s: seq<FoundField>, term: string, a: seq<FoundField>, b: seq<FoundField>)
    requires term != []
    ensures forall f <- Filter(s, f => Wanted(f, Some(term))) ::
      f in s && (Contains(Lower(f.name), Lower(term)) || Contains(Lower(f.tooltip), Lower(term)))
    ensures forall f <- s :: Contains(Lower(f.name), Lower(term)) || Contains(Lower(f.tooltip), Lower(term)) ==>
      f in Filter(s, f => Wanted(f, Some(term)))
    ensures Filter(a + b, f => Wanted(f, Some(term))) == Filter(a, f => Wanted(f, Some(term))) + Filter(b, f => Wanted(f, Some(term)))
  {
    FilterAppend(a, b, f => Wanted(f, Some(term)));
  }
}
