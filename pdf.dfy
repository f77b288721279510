/**
 * The PDF object graph as the form scripts see it through pikepdf: an arena of field and
 * widget dictionaries addressed by index, the page list, and the catalog's /AcroForm.
 * Opening, saving and resolving indirect references belong to the library; here a
 * reference is an index into `nodes`, and a page carries its object identity (`objgen`).
 */
module Pdf {
  import opened Options
  import opened Text

  /** A PDF object stored under /V or /DV. */
  datatype PdfValue =
    | Name(token: string)   // a name object; `token` keeps its leading '/', as `str()` shows it
    | Text(text: string)    // a string object
    | Other(repr: string)   // any other object, as `str()` shows it

  /** A value of the fill data (a JSON object): booleans, integers and strings. */
  datatype Input = Bool(b: bool) | Int(i: int) | Str(s: string)

  /** The (object number, generation) pair pikepdf calls `objgen`. */
  datatype ObjGen = ObjGen(num: int, gen: int)

  /** A /Rect array [llx lly urx ury]. */
  datatype Rect = Rect(llx: int, lly: int, urx: int, ury: int)

  /** The /MK appearance-characteristics dictionary; only its caption /CA is used. */
  datatype Mk = Mk(caption: Option<string>)

  type NodeId = nat

  /** A field or widget dictionary, one member per key the scripts read or write. */
  datatype Node = Node(
    partialName: Option<string>,      // /T
    fieldType: Option<string>,        // /FT, a name such as "/Tx"
    value: Option<PdfValue>,          // /V
    appearanceState: Option<string>,  // /AS, a name such as "/Off"
    hasAppearance: bool,              // /AP present
    flags: Option<int>,               // /Ff
    defaultValue: Option<PdfValue>,   // /DV
    tooltip: Option<string>,          // /TU
    kids: Option<seq<NodeId>>,        // /Kids
    mk: Option<Mk>,                   // /MK
    pageRef: Option<ObjGen>,          // /P, by the identity of the page it refers to
    rect: Option<Rect>                // /Rect
  )

  /** An entry of a page's /Resources /XObject dictionary. */
  datatype XObject = XObject(subtype: Option<string>, width: Option<int>, height: Option<int>)

  /** An entry of a page's /Annots array. */
  datatype Annot = Annot(subtype: Option<string>)

  /** A page: its identity, its /Resources /XObject dictionary and its /Annots array. */
  datatype Page = Page(id: ObjGen, xobjects: Option<map<string, XObject>>, annots: Option<seq<Annot>>)

  /** The catalog's /AcroForm dictionary. */
  datatype AcroForm = AcroForm(fields: Option<seq<NodeId>>, hasXfa: bool, needAppearances: Option<bool>)

  /** An opened document; the scripts change its dictionaries in place before saving. */
  class Document {
    var nodes: seq<Node>
    var pages: seq<Page>
    var acroForm: Option<AcroForm>

    constructor Open(nodes: seq<Node>, pages: seq<Page>, acroForm: Option<AcroForm>)
      ensures this.nodes == nodes && this.pages == pages && this.acroForm == acroForm
    {
      this.nodes := nodes;
      this.pages := pages;
      this.acroForm := acroForm;
    }

    /** Every reference resolves: /Fields and every /Kids array name nodes of the arena. */
    ghost predicate Valid()
      reads this
    {
      Arena(nodes) && InArena(FormFields(acroForm).GetOr([]), nodes)
    }
  }

  predicate InArena(ids: seq<NodeId>, nodes: seq<Node>) {
    forall i :: 0 <= i < |ids| ==> ids[i] < |nodes|
  }

  predicate KidsIn(n: Node, nodes: seq<Node>) {
    n.kids.Some? ==> InArena(n.kids.value, nodes)
  }

  predicate Arena(nodes: seq<Node>) {
    forall j :: 0 <= j < |nodes| ==> KidsIn(nodes[j], nodes)
  }

  /**
   * The /Fields array when the catalog has /AcroForm and /AcroForm has /Fields: the guard
   * `'/AcroForm' not in pdf.Root or '/Fields' not in pdf.Root.AcroForm` of every script.
   */
  function FormFields(form: Option<AcroForm>): Option<seq<NodeId>> {
    if form.Some? then form.value.fields else None
  }

  /** `'/Kids' in field and len(field['/Kids']) > 0` */
  predicate HasKids(n: Node) {
    n.kids.Some? && |n.kids.value| > 0
  }

  /** `field['/Kids'][0]` when the field has a non-empty /Kids array. */
  function FirstKid(nodes: seq<Node>, n: Node): Node
    requires KidsIn(n, nodes) && HasKids(n)
  {
    nodes[n.kids.value[0]]
  }

  /**
   * The type tag the fill, map, search and template scripts use: the field's own /FT, else
   * the /FT of its first kid when /Kids is non-empty, else none.
   */
  function ResolvedTag(nodes: seq<Node>, n: Node): (tag: Option<string>)
    requires KidsIn(n, nodes)
    ensures n.fieldType.Some? ==> tag == n.fieldType
    ensures tag.Some? && n.fieldType.None? ==> HasKids(n) && tag == FirstKid(nodes, n).fieldType
    ensures n.fieldType.None? ==> (tag.Some? <==> HasKids(n) && FirstKid(nodes, n).fieldType.Some?)
  {
    if n.fieldType.Some? then n.fieldType
    else if HasKids(n) then FirstKid(nodes, n).fieldType
    else None
  }

  /** Two nodes agree on the keys no script writes: /T, /FT and /Kids. */
  predicate SameShapeNode(a: Node, b: Node) {
    a.partialName == b.partialName && a.fieldType == b.fieldType && a.kids == b.kids
  }

  predicate SameShape(a: seq<Node>, b: seq<Node>) {
    |a| == |b| && forall j :: 0 <= j < |a| ==> SameShapeNode(a[j], b[j])
  }

  /** Writing values, flags and appearances never changes which node is a field or of which type. */
  lemma SameShapeArena(a: seq<Node>, b: seq<Node>)
    requires SameShape(a, b) && Arena(a)
    ensures Arena(b)
  {
    forall j | 0 <= j < |b| ensures KidsIn(b[j], b) {
      assert KidsIn(a[j], a);
    }
  }

  lemma ResolvedTagShape(a: seq<Node>, b: seq<Node>, n: Node, m: Node)
    requires SameShape(a, b) && SameShapeNode(n, m) && KidsIn(n, a)
    ensures KidsIn(m, b) && ResolvedTag(a, n) == ResolvedTag(b, m)
  {
    if HasKids(n) {
      var k := n.kids.value[0];
      assert SameShapeNode(a[k], b[k]);
    }
  }

  /** `str(val)` */
  function PyStr(v: PdfValue): string {
    match v
    case Name(t) => t
    case Text(s) => s
    case Other(r) => r
  }

  /**
   * The value decoding shared by the extraction, map and export scripts: a name loses its
   * leading '/' characters (`str(val).lstrip('/')`), any other value is `str(val)`.
   */
  function Decode(v: PdfValue): (s: string)
    ensures v.Name? ==> |s| <= |v.token| && s == v.token[|v.token| - |s|..] && (s != [] ==> s[0] != '/')
    ensures v.Name? ==> forall i :: 0 <= i < |v.token| - |s| ==> v.token[i] == '/'
    ensures !v.Name? ==> s == PyStr(v)
  {
    match v
    case Name(t) => LStrip(t, '/')
    case Text(s) => s
    case Other(r) => r
  }

  /** A name with one leading '/' decodes to its text: `/Yes` reads back as "Yes". */
  lemma DecodeSlashName(u: string)
    requires u != [] && u[0] != '/'
    ensures Decode(Name("/" + u)) == u
  {
    var t := "/" + u;
    var s := Decode(Name(t));
    assert t[1] == u[0] && t[1..] == u;
  }

  /**
   * The 1-based position of the first page whose identity is `ref`, or 0 when no page has it:
   * the page lookup of map_fields.py and find_field_by_label.py.
   */
  function PageNumber(pages: seq<Page>, ref: ObjGen): (p: nat)
    ensures p <= |pages|
    ensures p == 0 <==> forall i :: 0 <= i < |pages| ==> pages[i].id != ref
    ensures p > 0 ==> pages[p - 1].id == ref && forall i :: 0 <= i < p - 1 ==> pages[i].id != ref
    decreases |pages|
  {
    if pages == [] then 0
    else if pages[0].id == ref then 1
    else
      var q := PageNumber(pages[1..], ref);
      if q == 0 then 0 else q + 1
  }

  /** The lookup loop: scan the pages in order and stop at the first identity match. */
  method FindPage(pages: seq<Page>, ref: ObjGen) returns (page: nat)
    ensures page == PageNumber(pages, ref)
  {
    page := 0;
    var i := 0;
    while i < |pages|
      invariant 0 <= i <= |pages|
      invariant forall k :: 0 <= k < i ==> pages[k].id != ref
    {
      if pages[i].id == ref {
        page := i + 1;
        break;
      }
      i := i + 1;
    }
  }

  /**
   * The map and search scripts read a page, a rectangle and a kid count from the first kid,
   * and only for a field without its own /FT and with a non-empty /Kids.
   */
  predicate FromKid(n: Node) {
    n.fieldType.None? && HasKids(n)
  }

  /** The page column of the map and search scripts: the first kid's page number, else 0. */
  function KidPage(nodes: seq<Node>, pages: seq<Page>, n: Node): (p: nat)
    requires KidsIn(n, nodes)
    ensures p > 0 ==> FromKid(n) && p <= |pages| && FirstKid(nodes, n).pageRef == Some(pages[p - 1].id)
                      && forall i :: 0 <= i < p - 1 ==> pages[i].id != pages[p - 1].id
    ensures FromKid(n) && FirstKid(nodes, n).pageRef.Some? && p == 0 ==>
              forall i :: 0 <= i < |pages| ==> pages[i].id != FirstKid(nodes, n).pageRef.value
  {
    if FromKid(n) && FirstKid(nodes, n).pageRef.Some? then PageNumber(pages, FirstKid(nodes, n).pageRef.value) else 0
  }

  /** Some top-level field is named `name`: `'/T' in field and str(field['/T']) == name`. */
  predicate NamedIn(nodes: seq<Node>, fields: seq<NodeId>, name: string) {
    exists i :: 0 <= i < |fields| && fields[i] < |nodes| && nodes[fields[i]].partialName == Some(name)
  }

  lemma NamedInTail(nodes: seq<Node>, fields: seq<NodeId>, name: string)
    requires fields != []
    ensures NamedIn(nodes, fields, name) <==>
      (fields[0] < |nodes| && nodes[fields[0]].partialName == Some(name)) || NamedIn(nodes, fields[1..], name)
  {
    if NamedIn(nodes, fields, name) && !(fields[0] < |nodes| && nodes[fields[0]].partialName == Some(name)) {
      var i :| 0 <= i < |fields| && fields[i] < |nodes| && nodes[fields[i]].partialName == Some(name);
      assert fields[1..][i - 1] == fields[i];
    }
    if NamedIn(nodes, fields[1..], name) {
      var i :| 0 <= i < |fields[1..]| && fields[1..][i] < |nodes| && nodes[fields[1..][i]].partialName == Some(name);
      assert fields[i + 1] == fields[1..][i];
    }
  }
}
