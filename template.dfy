/**
 * The commented template generator (generate_template.py): a dict from each selected named
 * top-level field to its empty value, tooltip and type, written one entry per line with a
 * comment line before every entry that has a tooltip and a blank line wherever the first
 * character of the names changes. The command line decides whether its second argument is
 * a list of section prefixes or the output file.
 */
module Template {
  import opened Options
  import opened Text
  import opened Dicts
  import opened Pdf

  /** One `field_map` value: `{"value": ..., "description": ..., "type": ...}`. */
  datatype Entry = Entry(value: string, description: string, fieldType: string)

  /** The template type: "checkbox" for /Btn, "choice" for /Ch, "text" for anything else or nothing. */
  function TemplateType(nodes: seq<Node>, n: Node): (t: string)
    requires KidsIn(n, nodes)
    ensures t == "checkbox" <==> ResolvedTag(nodes, n) == Some("/Btn")
    ensures t == "choice" <==> ResolvedTag(nodes, n) == Some("/Ch")
    ensures t == "text" <==> ResolvedTag(nodes, n) != Some("/Btn") && ResolvedTag(nodes, n) != Some("/Ch")
  {
    var tag := ResolvedTag(nodes, n);
    if tag == Some("/Btn") then "checkbox" else if tag == Some("/Ch") then "choice" else "text"
  }

  function EntryOf(nodes: seq<Node>, n: Node): Entry
    requires KidsIn(n, nodes)
  {
    var t := TemplateType(nodes, n);
    Entry(if t == "checkbox" then "Off" else "", n.tooltip.GetOr(""), t)
  }

  /** `if sections: if not any(field_name.startswith(s) for s in sections): continue` */
  predicate SectionSelected(name: string, sections: Option<seq<string>>) {
    sections.None? || sections.value == [] ||
    exists i :: 0 <= i < |sections.value| && StartsWith(name, sections.value[i])
  }

  /** The field is written to `field_map`: it has /T and its name is selected. */
  predicate Listed(n: Node, sections: Option<seq<string>>) {
    n.partialName.Some? && SectionSelected(n.partialName.value, sections)
  }

  /** `field_map` after the loop over `fields`. */
  function FieldMap(nodes: seq<Node>, fields: seq<NodeId>, sections: Option<seq<string>>): (d: Dict<Entry>)
    requires Arena(nodes) && InArena(fields, nodes)
    ensures UniqueKeys(d)
    decreases |fields|
  {
    if fields == [] then []
    else
      var d := FieldMap(nodes, fields[..|fields| - 1], sections);
      var n := nodes[fields[|fields| - 1]];
      if Listed(n, sections) then Put(d, n.partialName.value, EntryOf(nodes, n)) else d
  }

  lemma FieldMapSnoc(nodes: seq<Node>, fields: seq<NodeId>, i: nat, sections: Option<seq<string>>)
    requires Arena(nodes) && InArena(fields, nodes) && i < |fields|
    ensures var n := nodes[fields[i]];
      FieldMap(nodes, fields[..i + 1], sections) ==
        if Listed(n, sections) then Put(FieldMap(nodes, fields[..i], sections), n.partialName.value, EntryOf(nodes, n))
        else FieldMap(nodes, fields[..i], sections)
  {
    assert fields[..i + 1][..i] == fields[..i];
  }

  /** Position `i` holds a field written to `field_map` under the key `k`. */
  predicate ListedAs(nodes: seq<Node>, fields: seq<NodeId>, sections: Option<seq<string>>, i: int, k: string)
    requires InArena(fields, nodes)
  {
    0 <= i < |fields| && Listed(nodes[fields[i]], sections) && nodes[fields[i]].partialName.value == k
  }

  /** A name is a key exactly when some listed field has it. */
  lemma {:induction false} FieldMapHas(nodes: seq<Node>, fields: seq<NodeId>, sections: Option<seq<string>>, k: string)
    requires Arena(nodes) && InArena(fields, nodes)
    ensures Get(FieldMap(nodes, fields, sections), k).Some? <==> exists i :: ListedAs(nodes, fields, sections, i, k)
    decreases |fields|
  {
    if fields != [] {
      var m := |fields| - 1;
      FieldMapHas(nodes, fields[..m], sections, k);
      ListedAsPrefix(nodes, fields, sections, k);
      if !ListedAs(nodes, fields, sections, m, k) {
        assert Get(FieldMap(nodes, fields, sections), k) == Get(FieldMap(nodes, fields[..m], sections), k);
        if exists i :: ListedAs(nodes, fields, sections, i, k) {
          var i :| ListedAs(nodes, fields, sections, i, k);
          assert ListedAs(nodes, fields[..m], sections, i, k);
        }
        if Get(FieldMap(nodes, fields[..m], sections), k).Some? {
          var i :| ListedAs(nodes, fields[..m], sections, i, k);
          assert ListedAs(nodes, fields, sections, i, k);
        }
      }
    }
  }

  /**
   * A name is a key exactly when some listed field has it; its entry is that of the last
   * such field: value "Off" for a checkbox and "" otherwise, the tooltip or "" as description.
   */
  lemma {:induction false} FieldMapGet(nodes: seq<Node>, fields: seq<NodeId>, sections: Option<seq<string>>, k: string)
    requires Arena(nodes) && InArena(fields, nodes)
    ensures Get(FieldMap(nodes, fields, sections), k).Some? <==> exists i :: ListedAs(nodes, fields, sections, i, k)
    ensures Get(FieldMap(nodes, fields, sections), k).Some? ==>
      SectionSelected(k, sections) &&
      exists i :: ListedAs(nodes, fields, sections, i, k)
        && Get(FieldMap(nodes, fields, sections), k).value == EntryOf(nodes, nodes[fields[i]])
        && forall j :: i < j < |fields| ==> !ListedAs(nodes, fields, sections, j, k)
    decreases |fields|
  {
    FieldMapHas(nodes, fields, sections, k);
    if fields != [] {
      var m := |fields| - 1;
      var init := fields[..m];
      var d := FieldMap(nodes, init, sections);
      var r := FieldMap(nodes, fields, sections);
      if ListedAs(nodes, fields, sections, m, k) {
        assert r == Put(d, k, EntryOf(nodes, nodes[fields[m]]));
      } else if Get(d, k).Some? {
        FieldMapGet(nodes, init, sections, k);
        assert Get(r, k) == Get(d, k);
        var i :| ListedAs(nodes, init, sections, i, k)
          && Get(d, k).value == EntryOf(nodes, nodes[init[i]])
          && forall j :: i < j < m ==> !ListedAs(nodes, init, sections, j, k);
        LastListedExtend(nodes, fields, init, sections, k, i);
      } else {
        assert Get(r, k) == Get(d, k);
      }
    }
  }

  /** The last listed position of `k` in the prefix stays the last one when the new field is not listed as `k`. */
  lemma LastListedExtend(nodes: seq<Node>, fields: seq<NodeId>, init: seq<NodeId>, sections: Option<seq<string>>, k: string, i: int)
    requires InArena(fields, nodes) && fields != [] && init == fields[..|fields| - 1]
    requires !ListedAs(nodes, fields, sections, |fields| - 1, k)
    requires ListedAs(nodes, init, sections, i, k)
    requires forall j :: i < j < |init| ==> !ListedAs(nodes, init, sections, j, k)
    ensures init[i] == fields[i] && ListedAs(nodes, fields, sections, i, k)
    ensures forall j :: i < j < |fields| ==> !ListedAs(nodes, fields, sections, j, k)
  {
    ListedAsPrefix(nodes, fields, sections, k);
  }

  lemma ListedAsPrefix(nodes: seq<Node>, fields: seq<NodeId>, sections: Option<seq<string>>, k: string)
    requires InArena(fields, nodes) && fields != []
    ensures forall j :: 0 <= j < |fields| - 1 ==>
      ListedAs(nodes, fields[..|fields| - 1], sections, j, k) == ListedAs(nodes, fields, sections, j, k)
  {
    var init := fields[..|fields| - 1];
    forall j | 0 <= j < |init| ensures ListedAs(nodes, init, sections, j, k) == ListedAs(nodes, fields, sections, j, k) {
      assert init[j] == fields[j];
    }
  }

  /** A line of the written template, past its fixed three-line header. */
  datatype Line =
    | Comment(name: string, description: string, fieldType: string)  // "// name": "description (type)",
    | Item(name: string, value: string, last: bool)                   // "name": "value", with the comma unless last
    | Blank

  /**
   * `fname[0]` and `items[i + 1][0][0]` are evaluated for every entry but the last: the
   * first `n` turns need the names up to position `n` to be non-empty, unless there is at
   * most one entry.
   */
  predicate PairsOk(items: Dict<Entry>, n: nat) {
    n == 0 || |items| <= 1 || forall j :: 0 <= j <= n && j < |items| ==> items[j].0 != []
  }

  /** The lines written for entry `i`. */
  function Block(items: Dict<Entry>, i: nat): (b: seq<Line>)
    requires i < |items| && PairsOk(items, i + 1)
    ensures b != []
    ensures b[0] == if items[i].1.description != [] then Comment(items[i].0, items[i].1.description, items[i].1.fieldType)
                    else Item(items[i].0, items[i].1.value, i == |items| - 1)
    ensures b[|b| - 1] == if i < |items| - 1 && items[i].0[0] != items[i + 1].0[0] then Blank
                          else Item(items[i].0, items[i].1.value, i == |items| - 1)
  {
    var (name, e) := items[i];
    (if e.description != [] then [Comment(name, e.description, e.fieldType)] else [])
    + [Item(name, e.value, i == |items| - 1)]
    + (if i < |items| - 1 && name[0] != items[i + 1].0[0] then [Blank] else [])
  }

  /** The lines written for the first `n` entries. */
  function LayoutUpTo(items: Dict<Entry>, n: nat): seq<Line>
    requires n <= |items| && PairsOk(items, n)
    decreases n
  {
    if n == 0 then [] else LayoutUpTo(items, n - 1) + Block(items, n - 1)
  }

  /**
   * The body of the template, or none when an empty name makes `fname[0]` raise: the error
   * is caught by the function's own handler, which then returns nothing. That happens
   * exactly when there are two or more entries and one of them has an empty name.
   */
  function Layout(items: Dict<Entry>): (r: Option<seq<Line>>)
    ensures r.None? <==> |items| >= 2 && exists i :: 0 <= i < |items| && items[i].0 == []
  {
    if PairsOk(items, |items|) then Some(LayoutUpTo(items, |items|)) else None
  }

  /** The writing loop over `field_map.items()`. */
  method WriteTemplate(items: Dict<Entry>) returns (lines: Option<seq<Line>>)
    ensures lines == Layout(items)
  {
    var written: seq<Line> := [];
    for i := 0 to |items|
      invariant PairsOk(items, i)
      invariant written == LayoutUpTo(items, i)
    {
      if i < |items| - 1 && (items[i].0 == [] || items[i + 1].0 == []) {
        return None;
      }
      var block := WriteEntry(items, i);
      written := written + block;
    }
    lines := Some(written);
  }

  /** One turn of the writing loop, once both names it reads are known to be non-empty. */
  method WriteEntry(items: Dict<Entry>, i: nat) returns (block: seq<Line>)
    requires i < |items| && PairsOk(items, i)
    requires i < |items| - 1 ==> items[i].0 != [] && items[i + 1].0 != []
    ensures PairsOk(items, i + 1) && block == Block(items, i)
  {
    var (name, e) := items[i];
    block := [];
    if e.description != [] {
      block := [Comment(name, e.description, e.fieldType)];
    }
    block := block + [Item(name, e.value, i == |items| - 1)];
    if i < |items| - 1 && name[0] != items[i + 1].0[0] {
      block := block + [Blank];
    }
  }

  /** Writing the first `n` entries writes a prefix of what writing `m >= n` entries writes. */
  lemma {:induction false} LayoutPrefix(items: Dict<Entry>, n: nat, m: nat)
    requires n <= m <= |items| && PairsOk(items, m)
    ensures |LayoutUpTo(items, n)| <= |LayoutUpTo(items, m)|
    ensures LayoutUpTo(items, m)[..|LayoutUpTo(items, n)|] == LayoutUpTo(items, n)
    decreases m
  {
    if n < m {
      LayoutPrefix(items, n, m - 1);
      var a := LayoutUpTo(items, m - 1);
      var j := |LayoutUpTo(items, n)|;
      assert LayoutUpTo(items, m) == a + Block(items, m - 1);
      assert (a + Block(items, m - 1))[..j] == a[..j];
    }
  }

  /** Each entry's lines sit in order at their place in the whole layout. */
  lemma BlockAt(items: Dict<Entry>, i: nat)
    requires Layout(items).Some? && i < |items|
    ensures var lines := Layout(items).value;
      var start := |LayoutUpTo(items, i)|;
      var end := |LayoutUpTo(items, i + 1)|;
      start < end <= |lines| && lines[start..end] == Block(items, i)
  {
    var lines := Layout(items).value;
    LayoutPrefix(items, i + 1, |items|);
    var pre := LayoutUpTo(items, i + 1);
    assert pre == LayoutUpTo(items, i) + Block(items, i);
    assert lines[..|pre|] == pre;
    assert lines[|LayoutUpTo(items, i)|..|pre|] == pre[|LayoutUpTo(items, i)|..];
  }

  /**
   * The first line written for an entry is its comment when it has a description, else its
   * own line; the entry's line carries a comma unless the entry is the last.
   */
  lemma CommentRule(items: Dict<Entry>, i: nat)
    requires Layout(items).Some? && i < |items|
    ensures var lines := Layout(items).value;
      var start := |LayoutUpTo(items, i)|;
      var (name, e) := items[i];
      start < |lines| &&
      lines[start] == if e.description != [] then Comment(name, e.description, e.fieldType)
                      else Item(name, e.value, i == |items| - 1)
  {
    BlockAt(items, i);
    var lines := Layout(items).value;
    var start := |LayoutUpTo(items, i)|;
    var end := |LayoutUpTo(items, i + 1)|;
    assert lines[start] == lines[start..end][0];
  }

  /**
   * The line just before entry `i + 1` is blank exactly when the names of entries `i` and
   * `i + 1` start with different characters; otherwise it is entry `i`'s own line.
   */
  lemma SpacingRule(items: Dict<Entry>, i: nat)
    requires Layout(items).Some? && i + 1 < |items|
    ensures var lines := Layout(items).value;
      var end := |LayoutUpTo(items, i + 1)|;
      0 < end <= |lines| &&
      (lines[end - 1] == Blank <==> items[i].0[0] != items[i + 1].0[0]) &&
      (lines[end - 1] != Blank ==> lines[end - 1] == Item(items[i].0, items[i].1.value, false))
  {
    BlockAt(items, i);
    var lines := Layout(items).value;
    var start := |LayoutUpTo(items, i)|;
    var end := |LayoutUpTo(items, i + 1)|;
    var b := Block(items, i);
    assert lines[end - 1] == lines[start..end][|b| - 1];
  }

  /**
   * `generate_template`: none without /AcroForm /Fields or when the layout fails; otherwise
   * the field map, and the lines written for it.
   */
  method GenerateTemplate(doc: Document, sections: Option<seq<string>>)
      returns (result: Option<Dict<Entry>>, lines: Option<seq<Line>>)
    requires doc.Valid()
    ensures FormFields(doc.acroForm).None? ==> result.None? && lines.None?
    ensures FormFields(doc.acroForm).Some? ==>
      var items := FieldMap(doc.nodes, FormFields(doc.acroForm).value, sections);
      lines == Layout(items) && result == if lines.Some? then Some(items) else None
  {
    var form := FormFields(doc.acroForm);
    if form.None? {
      return None, None;
    }
    var fields := form.value;
    var fieldMap: Dict<Entry> := [];
    for i := 0 to |fields|
      invariant fieldMap == FieldMap(doc.nodes, fields[..i], sections)
    {
      FieldMapSnoc(doc.nodes, fields, i, sections);
      var field := doc.nodes[fields[i]];
      if field.partialName.None? {
        continue;
      }
      var name := field.partialName.value;
      if sections.Some? && sections.value != [] {
        if !(exists j :: 0 <= j < |sections.value| && StartsWith(name, sections.value[j])) {
          continue;
        }
      }
      var entry := EntryOf(doc.nodes, field);
      fieldMap := Put(fieldMap, name, entry);
    }
    assert fields[..|fields|] == fields;
    lines := WriteTemplate(fieldMap);
    result := if lines.Some? then Some(fieldMap) else None;
  }

  /** The default output file: `<stem>_template_<sections joined by '_' or "all">.json`. */
  function DefaultOutputName(stem: string, sections: Option<seq<string>>): (name: string)
    ensures StartsWith(name, stem + "_template_")
    ensures |name| >= 5 && name[|name| - 5..] == ".json"
    ensures sections.None? || sections == Some([]) ==> name == stem + "_template_all.json"
    ensures sections.Some? && sections.value != [] ==> name == stem + "_template_" + Join(sections.value, '_') + ".json"
  {
    var sectionStr := if sections.Some? && sections.value != [] then Join(sections.value, '_') else "all";
    stem + "_template_" + sectionStr + ".json"
  }

  /**
   * The sections can be read back from a default file name: when none of them holds '_',
   * splitting the part between `<stem>_template_` and `.json` at '_' gives them again.
   */
  lemma OutputNameSections(stem: string, sections: seq<string>)
    requires sections != [] && forall s <- sections :: '_' !in s
    ensures var name := DefaultOutputName(stem, Some(sections));
      |stem| + 10 <= |name| - 5 && Split(name[|stem| + 10..|name| - 5], '_') == sections
  {
    var name := DefaultOutputName(stem, Some(sections));
    var mid := Join(sections, '_');
    assert name == (stem + "_template_") + mid + ".json";
    assert name[|stem| + 10..|name| - 5] == mid;
    SplitJoin(sections, '_');
  }

  /** `main`'s reading of the second and third arguments: the sections and the output file. */
  function ClassifyArgs(argv: seq<string>): (r: (Option<seq<string>>, Option<string>))
  {
    if |argv| <= 2 then (None, None)
    else
      var arg2 := argv[2];
      if ',' in arg2 || (|arg2| <= 3 && IsAlpha(arg2)) then
        (Some(Split(arg2, ',')), if |argv| > 3 then Some(argv[3]) else None)
      else (None, Some(arg2))
  }

  /**
   * The second argument is read as sections exactly when it holds a comma or is one to three
   * letters; then joining the sections back with ',' gives the argument, no section holds a
   * comma, and the default file name shows the argument with every ',' turned into '_'.
   * Otherwise it is the output file, and a third argument is ignored.
   */
  lemma ClassifyArgsSpec(argv: seq<string>, stem: string)
    requires |argv| > 2
    ensures var (sections, output) := ClassifyArgs(argv);
      && (sections.Some? <==> ',' in argv[2] || (|argv[2]| <= 3 && IsAlpha(argv[2])))
      && (sections.Some? ==> Join(sections.value, ',') == argv[2] && forall s <- sections.value :: ',' !in s)
      && (sections.Some? ==> DefaultOutputName(stem, sections) == stem + "_template_" + Replace(argv[2], ',', '_') + ".json")
      && (sections.None? ==> output == Some(argv[2]))
  {
    var arg2 := argv[2];
    if ',' in arg2 || (|arg2| <= 3 && IsAlpha(arg2)) {
      JoinSplit(arg2, ',');
      JoinSplitReplace(arg2, ',', '_');
    }
  }
}
