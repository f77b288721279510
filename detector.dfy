/**
 * Form-type detection (pdf_form_detector.py): whether the catalog's /AcroForm carries an XFA
 * stream, a /Fields array, both or neither, together with a census of the page annotations
 * and a warning for widget annotations that no /AcroForm defines.
 */
module Detector {
  import opened Options
  import opened Pdf

  /** The `result` dict with its `details`. */
  datatype Detection = Detection(
    formType: string,
    hasAcroForm: bool,
    hasXfa: bool,
    pageCount: nat,
    isEncrypted: bool,
    xfaPresent: bool,
    fieldCount: Option<nat>,
    message: Option<string>,
    annotationCount: Option<nat>,
    widgetAnnotations: Option<nat>,
    annotationTypes: Option<set<string>>,
    warning: Option<string>)

  /** The `form_type` decision. */
  function FormType(form: Option<AcroForm>): string {
    if form.None? then "None"
    else if form.value.hasXfa && form.value.fields.Some? then "Both (Hybrid)"
    else if form.value.hasXfa then "XFA"
    else if form.value.fields.Some? then "AcroForm"
    else "AcroForm structure (empty)"
  }

  /** Each combination of /XFA and /Fields gets its own label, and "None" means no /AcroForm at all. */
  lemma FormTypeCases(form: Option<AcroForm>, other: Option<AcroForm>)
    ensures FormType(form) == "None" <==> form.None?
    ensures FormType(form) == "XFA" <==> form.Some? && form.value.hasXfa && form.value.fields.None?
    ensures FormType(form) == "AcroForm" <==> form.Some? && !form.value.hasXfa && form.value.fields.Some?
    ensures FormType(form) == "Both (Hybrid)" <==> form.Some? && form.value.hasXfa && form.value.fields.Some?
    ensures FormType(form) == FormType(other) <==>
      (form.None? && other.None?) ||
      (form.Some? && other.Some? && form.value.hasXfa == other.value.hasXfa
                  && form.value.fields.Some? == other.value.fields.Some?)
  {
  }

  /** The widget annotations in one /Annots array. */
  function WidgetsIn(annots: seq<Annot>): (w: nat)
    ensures w <= |annots|
    decreases |annots|
  {
    if annots == [] then 0
    else WidgetsIn(annots[..|annots| - 1]) + if annots[|annots| - 1].subtype == Some("/Widget") then 1 else 0
  }

  /** The /Subtype values in one /Annots array. */
  function TypesIn(annots: seq<Annot>): (types: set<string>)
    ensures forall t <- types :: exists i :: 0 <= i < |annots| && annots[i].subtype == Some(t)
    ensures forall i :: 0 <= i < |annots| && annots[i].subtype.Some? ==> annots[i].subtype.value in types
    decreases |annots|
  {
    if annots == [] then {}
    else
      var init := annots[..|annots| - 1];
      var last := annots[|annots| - 1];
      assert forall i :: 0 <= i < |init| ==> init[i] == annots[i];
      TypesIn(init) + if last.subtype.Some? then {last.subtype.value} else {}
  }

  function PageAnnots(p: Page): seq<Annot> {
    p.annots.GetOr([])
  }

  /** `annotation_count` over the pages. */
  function AnnotCount(pages: seq<Page>): nat
    decreases |pages|
  {
    if pages == [] then 0 else AnnotCount(pages[..|pages| - 1]) + |PageAnnots(pages[|pages| - 1])|
  }

  /** `widget_annotations` over the pages. */
  function WidgetCount(pages: seq<Page>): nat
    decreases |pages|
  {
    if pages == [] then 0 else WidgetCount(pages[..|pages| - 1]) + WidgetsIn(PageAnnots(pages[|pages| - 1]))
  }

  /** `annotation_types` over the pages. */
  function AnnotTypes(pages: seq<Page>): set<string>
    decreases |pages|
  {
    if pages == [] then {} else AnnotTypes(pages[..|pages| - 1]) + TypesIn(PageAnnots(pages[|pages| - 1]))
  }

  /** Only annotations are counted as widgets. */
  lemma {:induction false} WidgetsBounded(pages: seq<Page>)
    ensures WidgetCount(pages) <= AnnotCount(pages)
    decreases |pages|
  {
    if pages != [] {
      WidgetsBounded(pages[..|pages| - 1]);
    }
  }

  /** A widget in one /Annots array puts "/Widget" among its types. */
  lemma {:induction false} WidgetTyped(annots: seq<Annot>)
    requires WidgetsIn(annots) > 0
    ensures "/Widget" in TypesIn(annots)
    decreases |annots|
  {
    var init := annots[..|annots| - 1];
    if annots[|annots| - 1].subtype != Some("/Widget") {
      WidgetTyped(init);
      var i :| 0 <= i < |init| && init[i].subtype == Some("/Widget");
      assert annots[i] == init[i];
    }
  }

  /** Whenever a widget was counted, "/Widget" is among the recorded annotation types. */
  lemma {:induction false} WidgetsRecorded(pages: seq<Page>)
    requires WidgetCount(pages) > 0
    ensures "/Widget" in AnnotTypes(pages)
    decreases |pages|
  {
    var init := pages[..|pages| - 1];
    if WidgetCount(init) > 0 {
      WidgetsRecorded(init);
    } else {
      WidgetTyped(PageAnnots(pages[|pages| - 1]));
    }
  }

  /** The inner loop over one page's annotations. */
  method CensusPage(annots: seq<Annot>) returns (widgets: nat, types: set<string>)
    ensures widgets == WidgetsIn(annots) && types == TypesIn(annots)
  {
    widgets := 0;
    types := {};
    for i := 0 to |annots|
      invariant widgets == WidgetsIn(annots[..i]) && types == TypesIn(annots[..i])
    {
      assert annots[..i + 1][..i] == annots[..i];
      if annots[i].subtype.Some? {
        types := types + {annots[i].subtype.value};
        if annots[i].subtype.value == "/Widget" {
          widgets := widgets + 1;
        }
      }
    }
    assert annots[..|annots|] == annots;
  }

  /** The outer loop over the pages. */
  method Census(pages: seq<Page>) returns (count: nat, widgets: nat, types: set<string>)
    ensures count == AnnotCount(pages) && widgets == WidgetCount(pages) && types == AnnotTypes(pages)
  {
    count, widgets, types := 0, 0, {};
    for i := 0 to |pages|
      invariant count == AnnotCount(pages[..i]) && widgets == WidgetCount(pages[..i]) && types == AnnotTypes(pages[..i])
    {
      assert pages[..i + 1][..i] == pages[..i];
      if pages[i].annots.Some? {
        var annots := pages[i].annots.value;
        count := count + |annots|;
        var w, t := CensusPage(annots);
        widgets := widgets + w;
        types := types + t;
      }
    }
    assert pages[..|pages|] == pages;
  }

  /**
   * `detect_form_type`; `encrypted` is the reader's `is_encrypted`. The annotation census is
   * recorded only when some annotation exists, and the warning exactly when a widget was
   * found but /AcroForm has no /Fields.
   */
  method DetectFormType(doc: Document, encrypted: bool) returns (d: Detection)
    ensures d.formType == FormType(doc.acroForm)
    ensures d.hasAcroForm <==> FormFields(doc.acroForm).Some?
    ensures d.hasXfa <==> doc.acroForm.Some? && doc.acroForm.value.hasXfa
    ensures d.xfaPresent == d.hasXfa
    ensures d.fieldCount == if FormFields(doc.acroForm).Some? then Some(|FormFields(doc.acroForm).value|) else None
    ensures d.message.Some? <==> doc.acroForm.None?
    ensures d.pageCount == |doc.pages| && d.isEncrypted == encrypted
    ensures d.annotationCount.Some? <==> AnnotCount(doc.pages) > 0
    ensures d.annotationCount.Some? ==>
      && d.annotationCount == Some(AnnotCount(doc.pages))
      && d.widgetAnnotations == Some(WidgetCount(doc.pages))
      && d.annotationTypes == Some(AnnotTypes(doc.pages))
    ensures d.annotationCount.None? ==> d.widgetAnnotations.None? && d.annotationTypes.None?
    ensures d.warning.Some? <==> WidgetCount(doc.pages) > 0 && FormFields(doc.acroForm).None?
  {
    d := ReadCatalog(doc.acroForm, |doc.pages|, encrypted);
    var count, widgets, types := Census(doc.pages);
    if count > 0 {
      d := d.(annotationCount := Some(count), widgetAnnotations := Some(widgets), annotationTypes := Some(types));
    }
    if widgets > 0 && !d.hasAcroForm {
      d := d.(warning := Some("Found widget annotations but no AcroForm definition"));
    }
  }

  /** The first part of `detect_form_type`: the page count and what the catalog's /AcroForm holds. */
  method ReadCatalog(acroForm: Option<AcroForm>, pageCount: nat, encrypted: bool) returns (d: Detection)
    ensures d.formType == FormType(acroForm)
    ensures d.hasAcroForm <==> FormFields(acroForm).Some?
    ensures d.hasXfa <==> acroForm.Some? && acroForm.value.hasXfa
    ensures d.xfaPresent == d.hasXfa
    ensures d.fieldCount == if FormFields(acroForm).Some? then Some(|FormFields(acroForm).value|) else None
    ensures d.message.Some? <==> acroForm.None?
    ensures d.pageCount == pageCount && d.isEncrypted == encrypted
    ensures d.annotationCount.None? && d.widgetAnnotations.None? && d.annotationTypes.None? && d.warning.None?
  {
    d := Detection("None", false, false, pageCount, encrypted, false, None, None, None, None, None, None);
    if acroForm.Some? {
      var form := acroForm.value;
      if form.hasXfa {
        d := d.(hasXfa := true, xfaPresent := true);
      }
      if form.fields.Some? {
        d := d.(hasAcroForm := true, fieldCount := Some(|form.fields.value|));
      }
      if d.hasXfa && d.hasAcroForm {
        d := d.(formType := "Both (Hybrid)");
      } else if d.hasXfa {
        d := d.(formType := "XFA");
      } else if d.hasAcroForm {
        d := d.(formType := "AcroForm");
      } else {
        d := d.(formType := "AcroForm structure (empty)");
      }
    } else {
      d := d.(message := Some("No /AcroForm in catalog"));
    }
  }

  /** The census never reports more widgets than annotations, nor a widget without its type. */
  lemma DetectionConsistent(d: Detection, pages: seq<Page>)
    requires d.annotationCount == Some(AnnotCount(pages)) && d.widgetAnnotations == Some(WidgetCount(pages))
    requires d.annotationTypes == Some(AnnotTypes(pages))
    ensures d.widgetAnnotations.value <= d.annotationCount.value
    ensures d.widgetAnnotations.value > 0 ==> "/Widget" in d.annotationTypes.value
  {
    WidgetsBounded(pages);
    if WidgetCount(pages) > 0 {
      WidgetsRecorded(pages);
    }
  }
}
