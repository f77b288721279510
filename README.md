# PDF form tools: a Dafny model of the form-field core

The repository is a set of Python scripts and a small Flask application that work on the
interactive form (AcroForm) of a PDF through pikepdf or PyPDF2. Every script repeats the same
field logic:

- walk the catalog's `/AcroForm /Fields` array;
- resolve a field's type from its own `/FT` or its first kid's;
- decode `/V`, so that a name loses its leading `/`;
- then either report on the fields or change their dictionaries in place.

The scripts that change fields in place:

- fill values;
- clear values;
- hide the VOID watermark button;
- reset `H_Proposition`;
- delete large watermark images.

The scripts that report on fields:

- map, search, export and list the fields;
- generate a commented JSON template;
- classify the form type.

This project models that core in Dafny.

## Structure

- `Pdf` models the opened document.
  - It is a class `Document` whose fields are an arena of field and widget dictionaries (`nodes`, addressed by index), the page list, and the catalog's `/AcroForm`.
  - A reference (`/Kids`, `/Fields`) is an index into the arena.
  - A page carries the identity (`objgen`) that the page lookups compare.
- The mutating scripts are methods with `modifies doc`.
  - Each ends with `doc.nodes` equal to a node-by-node specification function of the old nodes.
  - Lemmas about that function state the source's promises: which keys change, which do not, bit preservation, idempotence.
- The reporting scripts are methods whose loops are proved against reference functions.
- Python's string operations, bit operations and dicts live in `Text`, `Flags` and `Dicts`.

| module | source |
|---|---|
| `Options`, `Text`, `Flags`, `Seqs`, `Dicts` | Python built-ins the scripts rely on |
| `Pdf` | the document, type resolution, value decoding, page lookup |
| `FieldTree` | app.py: `allowed_file`, `get_form_fields`/`extract_field_info`, `search_fields`, the template of `generate_template_api` |
| `Fill` | fill_pdf.py and app.py `fill_pdf` |
| `RemoveDefaults` | remove_defaults.py and app.py `remove_defaults` |
| `RemoveVoid` | remove_void.py and app.py `remove_void_watermark` |
| `CleanTemplate` | create_clean_template.py |
| `MapFields` | map_fields.py |
| `FindField` | find_field_by_label.py |
| `Export` | export_fields.py |
| `Template` | generate_template.py |
| `ListFields` | list_fields.py |
| `Detector` | pdf_form_detector.py |

## Behaviour worth knowing

These are facts about the scripts as written, and the model keeps each of them.

- **Button truthy set.** The set is the exact list `True, 'Yes', 'yes', 'ON', 'On', 1, '1'`, compared case-sensitively. There is no custom on-state token.
- **Writes the fill does not do.** Filling a Signature field is not rejected. Filling drops no appearance stream and sets no `/NeedAppearances`.
- **Duplicate names.** Nothing detects a duplicate name.
  - A fill writes every field that carries a given name.
  - The export and template dicts keep the last value under the key's first position.
- **Fields without a rectangle.** Their sort key is `(page, 0, 0)`. A field on the same page whose top edge is positive therefore sorts before them, not after.
- **Page, rectangle and kid count.** The map and search scripts read these from the first kid only when the field has no `/FT` of its own.
- **Bit 1 of `/Ff`.** The scripts set it believing it hides the field. In section 12.7.3.1 (Table 221) of ISO 32000-1 it is *Required*, while *Hidden* is an annotation `/F` flag (section 12.5.3). The model sets the bit the code sets.
- **`pages_modified`.** It counts deleted images, not pages.
- **Nameless kids.** A nameless kid under a named parent contributes nothing: no record, no widget list.

## Model

| member | source | states |
|---|---|---|
| Text.ContainsIffOccurs | app.py:115-116 | Python's `sub in s` on strings holds exactly when `sub` occurs at some offset of `s` |
| Text.TrimLeft | app.py:69 | `lstrip` drops exactly the longest prefix of dropped characters; what is left is a suffix that starts with a kept character |
| Text.TrimRight | remove_defaults.py:107 | `rstrip` drops exactly the longest suffix of dropped characters; what is left is a prefix that ends with a kept character |
| Text.Strip | remove_defaults.py:107 | `strip()` gives the slice of the input left after cutting off whitespace at both ends, and what it keeps neither starts nor ends with whitespace |
| Text.Split | remove_defaults.py:107 | `split(',')` gives at least one piece and no piece holds the separator |
| Text.JoinSplit | generate_template.py:147 | joining the pieces of `split(sep)` with `sep` gives back the original text |
| Text.SplitJoin | generate_template.py:79 | pieces without the separator, joined with it and split again, come back unchanged |
| Text.Replace | generate_template.py:79 | each character equal to the old one becomes the new one, every other character stays, and the length is kept |
| Text.JoinSplitReplace | generate_template.py:79 | joining the comma-split pieces with '_' equals the text with every ',' replaced by '_' |
| Text.DigitsInjective | list_fields.py:44 | different numbers have different decimal text |
| Flags.SetBitOnly | remove_void.py:53-55 | `x \| 2` makes bit 1 set and leaves every other bit of the unbounded integer, bit 0 included, as it was |
| Flags.ClearBitOnly | remove_void.py:83-87 | `x & ~1` makes bit 0 clear and leaves every other bit as it was, negative values included |
| Flags.SetBitIdempotent | app.py:243-245 | setting the same bit twice equals setting it once |
| Flags.ClearBitIdempotent | app.py:264-267 | clearing the same bit twice equals clearing it once |
| Seqs.Filter | app.py:112-117 | the list built by the append loop has only elements of the input that pass the test, holds every element that passes, and is no longer than the input |
| Seqs.FilterAppend | app.py:114-117 | filtering distributes over concatenation, so kept elements stay in input order |
| Seqs.FilterDistinct | fill_pdf.py:86-93 | filtering a list with no repeated element gives a list with no repeated element |
| Dicts.Get | fill_pdf.py:46-47 | a lookup finds a value exactly when the key is in the dict |
| Dicts.GetFirst | fill_pdf.py:46-47 | the value found is the one paired with the key at the first position that holds the key |
| Dicts.Put | export_fields.py:53 | after `d[k] = v`, `k` maps to `v`, every other key maps as before, the keys are the old ones plus `k`, and keys stay unique |
| Dicts.PutPlacement | export_fields.py:53 | an existing key keeps its position and only its value changes; a new key is appended at the end |
| Pdf.ResolvedTag | fill_pdf.py:50-57 | the type tag is the field's own `/FT`; otherwise it is the first kid's `/FT` when `/Kids` is non-empty, and none otherwise |
| Pdf.Decode | app.py:65-71 | a name value loses exactly its leading '/' characters; any other value decodes to `str(val)` |
| Pdf.DecodeSlashName | fill_pdf.py:64-68 | the name `/Yes` (or `/Off`) written by a fill decodes back to `Yes` (or `Off`) |
| Pdf.PageNumber | map_fields.py:70-75 | the page number is the 1-based index of the first page whose identity equals the reference, and 0 exactly when none does |
| Pdf.FindPage | map_fields.py:72-75 | the search loop with `break` returns the first 1-based identity match, else 0 |
| Pdf.KidPage | find_field_by_label.py:53-58 | a page number is found only through the first kid of a field without its own `/FT`; it names the first page whose identity is the kid's `/P`; 0 means no page matches |
| FieldTree.VisitFromTyped | app.py:59-82 | every record the walk gives is the record of some node that carries `/FT`; nodes without a type only pass their name down |
| FieldTree.VisitQualified | app.py:47-53 | every record below a named parent has the parent's name plus '.' as prefix, and an unnamed node under a named parent yields no record |
| FieldTree.VisitTypes | app.py:59-63 | every record's type is text, checkbox, choice, signature or unknown |
| FieldTree.OwnRecordFirst | app.py:76-82 | a visited node with `/FT` emits its own record before any record of its descendants (pre-order) |
| FieldTree.ExtractFieldInfo | app.py:38-88 | the recursive walk appends exactly the node's records to the shared list |
| FieldTree.ExtractKids | app.py:81-88 | the loop over `/Kids` appends the kids' records in array order |
| FieldTree.GetFormFields | app.py:28-98 | there is no result exactly when `/AcroForm /Fields` is missing; otherwise the result is the records of every top-level field in order |
| FieldTree.SearchFields | app.py:105-119 | returns [] without a form; otherwise returns the order-preserving subsequence of records whose lower-cased name or tooltip contains the lower-cased term |
| FieldTree.SelectMatching | app.py:111-117 | the append loop keeps exactly the matching records, in order |
| FieldTree.LastDot | app.py:25 | `rsplit('.', 1)` finds the last '.', after which no '.' occurs, or reports that there is none |
| FieldTree.AllowedFileSpec | app.py:24-25 | a file name is allowed exactly when it has a '.' and the text after the last '.' lower-cases to "pdf" |
| FieldTree.TemplateOf | app.py:457-463 | the template's keys are unique and are exactly the records' names |
| FieldTree.TemplateEntries | app.py:458-463 | every template entry is that of the last record with its name, with value "Off" for a checkbox and "" otherwise |
| FieldTree.BuildTemplate | app.py:446-463 | gives no template when extraction yields no records; otherwise the template of the records, filtered by the upper-cased section prefix when one is given |
| Fill.FillOne | fill_pdf.py:40-80 | one loop turn writes the field exactly when its `/T` is a data key, with the writes that its resolved type calls for |
| Fill.FillFields | fill_pdf.py:38-83 | after the loop the nodes are the node-by-node fill of the listed fields, and the count is the number of matched listed fields |
| Fill.Filled | fill_pdf.py:38-77 | filling never changes any node's `/T`, `/FT` or `/Kids`, and kid references stay inside the document |
| Fill.FindNamed | fill_pdf.py:87-91 | the inner search with `break` reports whether some top-level field has the name as `/T` |
| Fill.NotFoundKeys | fill_pdf.py:86-93 | the reporting loop returns the data keys, in order, that name no top-level field |
| Fill.FillPdf | fill_pdf.py:26-93 | returns false and changes nothing without `/AcroForm /Fields`; otherwise fills, counts and reports the unknown keys, none of them twice; the data is a JSON object, so no key repeats |
| Fill.FillForm | app.py:122-173 | the web fill either fails with "No form fields found" and leaves the nodes unchanged, or fills and reports "Filled N fields"; the posted JSON object repeats no key |
| Fill.NamedInShape | fill_pdf.py:86-93 | writes never change `/T`, so the not-found scan after filling sees the names from before |
| Fill.FillIdempotent | fill_pdf.py:60-77 | filling twice with the same data equals filling once |
| Fill.FillNodeIdempotent | fill_pdf.py:60-77 | writing the same value into one field twice equals writing it once |
| Fill.FillFrame | fill_pdf.py:38-77 | only `/V` (and `/AS`, for a button) of listed fields whose name is a data key change; every other node and key is untouched |
| Fill.FillReadBack | fill_pdf.py:61-77 | a filled button reads back as "Yes" or "Off" according to the truthy set, with `/AS` naming the same state as `/V`; any other field reads back `str(value)` |
| Fill.NotFoundSpec | fill_pdf.py:86-93 | a key is reported exactly when it is a data key and no top-level field has it as `/T` |
| Fill.NotFoundDistinct | fill_pdf.py:86-93 | when the data repeats no key (a JSON object loaded into a dict), no key is reported twice as not found |
| Fill.FillCountZero | fill_pdf.py:79-80 | the count is zero exactly when no data key names a top-level field |
| Fill.FillCountBound | fill_pdf.py:79-80 | the count never exceeds the number of listed fields |
| RemoveDefaults.ClearOne | remove_defaults.py:34-67 | one loop turn clears exactly a named field that has `/V` and is selected, by deleting `/V` and `/AP` |
| RemoveDefaults.ClearFields | remove_defaults.py:33-67 | the loop leaves the node-by-node clearing of the listed fields, and counts the distinct fields cleared |
| RemoveDefaults.Cleared | remove_defaults.py:33-67 | clearing never changes any node's `/T`, `/FT` or `/Kids` |
| RemoveDefaults.RemoveDefaultValues | remove_defaults.py:25-79 | returns false and changes nothing without a form; otherwise clears and returns true with the count |
| RemoveDefaults.RemoveDefaultsApi | app.py:179-217 | the web version: "No form fields found" without a form, else clears and reports "Cleared N fields" |
| RemoveDefaults.ClearTwice | remove_defaults.py:46-67 | a second run with the same selection clears no field and changes nothing |
| RemoveDefaults.ClearEffect | remove_defaults.py:58-64 | only `/V` and `/AP` change; a listed, named, selected field ends without `/V`; a cleared field ends without `/V` and `/AP`; a node changes exactly when it is one of the cleared fields |
| RemoveDefaults.ParseSelection | remove_defaults.py:100-112 | no argument selects `H_Proposition`; "ALL" in any case selects all; otherwise name i is `strip()` of comma-separated piece i, with no comma and no surrounding whitespace |
| RemoveDefaults.StripNoSpace | remove_defaults.py:107 | a name without whitespace is its own `strip()` |
| RemoveDefaults.ParseSelectionJoin | remove_defaults.py:106-107 | when no piece holds whitespace the selection is exactly the comma-split pieces, and joining it with ',' gives back the argument |
| RemoveVoid.HideStep | remove_void.py:46-75 | the `btnVoid` branch never changes a node's `/T`, `/FT` or `/Kids` |
| RemoveVoid.PropositionStep | remove_void.py:78-99 | the `H_Proposition` branch never changes a node's `/T`, `/FT` or `/Kids` |
| RemoveVoid.Voided | remove_void.py:39-99 | the whole removal never changes any node's `/T`, `/FT` or `/Kids` |
| RemoveVoid.HideField | remove_void.py:46-75 | the method sets bit 1 of `/Ff` (absent counts as 0), blanks each kid's caption, drops each kid's and then the field's `/AP` |
| RemoveVoid.ResetProposition | remove_void.py:78-99 | the method clears bit 0 of `/Ff` when present, empties `/V` and `/DV`, then empties each kid's `/V` and drops its `/AP` |
| RemoveVoid.HideStepVoided | remove_void.py:46-75 | a `btnVoid` turn on top of the earlier turns gives the node-by-node outcome of the longer field list |
| RemoveVoid.PropositionStepVoided | remove_void.py:78-99 | an `H_Proposition` turn on top of the earlier turns gives the node-by-node outcome of the longer field list |
| RemoveVoid.OtherStepVoided | remove_void.py:39-46 | a turn on any other field changes nothing |
| RemoveVoid.VoidedStep | remove_void.py:39-99 | each turn of the loop over `/Fields` reaches the node-by-node outcome, whatever order and repetition the list has |
| RemoveVoid.VoidFields | remove_void.py:35-99 | the loop leaves the node-by-node outcome and reports whether `btnVoid` and `H_Proposition` were found |
| RemoveVoid.RemoveVoidActual | remove_void.py:23-125 | returns false and changes nothing without a form; otherwise edits the fields, and sets `/NeedAppearances` and returns true exactly when a target was found |
| RemoveVoid.RemoveVoidWatermark | app.py:220-296 | the web version with the same outcome and its exact messages |
| RemoveVoid.ButtonHidden | remove_void.py:53-74 | a `btnVoid` field ends with bit 1 set, every other bit (read-only bit 0 included) as before, and no `/AP` |
| RemoveVoid.PropositionReset | remove_void.py:83-91 | `H_Proposition` ends with empty `/V` and `/DV`; with `/Ff`, bit 0 is clear and the other bits are kept; without `/Ff` none is added |
| RemoveVoid.KidsCleared | remove_void.py:60-98 | each `btnVoid` kid ends without `/AP` and with a blank caption when it has `/MK`; each `H_Proposition` kid ends without `/AP` and with empty `/V` |
| RemoveVoid.VoidFrame | remove_void.py:39-99 | only `/Ff`, `/V`, `/DV`, `/AP` and `/MK` are written, and a node that is neither a target nor a target's kid is untouched |
| RemoveVoid.VoidIdempotent | remove_void.py:39-99 | running the removal twice equals running it once |
| RemoveVoid.NoTargetNoChange | remove_void.py:107-125 | with no `btnVoid` and no `H_Proposition` field, no node changes |
| CleanTemplate.PruneSplits | create_clean_template.py:31-42 | each XObject is either kept or counted as removed, never both, and the counts add up |
| CleanTemplate.PruneIdempotent | create_clean_template.py:34-41 | after pruning no large image is left, so a second pass changes nothing |
| CleanTemplate.PruneXObjects | create_clean_template.py:31-42 | the deletion loop keeps exactly the entries that are not images larger than 500 in width or height, and counts the deleted ones |
| CleanTemplate.PrunedPages | create_clean_template.py:27-42 | a pruned page keeps its identity and annotations, keeps only small or non-image XObjects with their old values, and has no large image |
| CleanTemplate.PrunePages | create_clean_template.py:25-42 | the page loop prunes every page and returns the total number of deleted images |
| CleanTemplate.FirstProposition | create_clean_template.py:50-51 | finds the position of the first top-level field named `H_Proposition`, and finds one exactly when some field has that name |
| CleanTemplate.CreateCleanTemplate | create_clean_template.py:17-81 | prunes the pages, resets only the first `H_Proposition`, and sets `/NeedAppearances` whenever the form has `/Fields` |
| CleanTemplate.OnlyFirstReset | create_clean_template.py:50-72 | a later `H_Proposition` that is not the first one's kid is left as it was |
| MapFields.TypeName | map_fields.py:45-53 | a known tag gets its display name; any other tag is shown as it is |
| MapFields.Records | map_fields.py:29-95 | every top-level field, named or not, yields exactly one record |
| MapFields.RecordKidData | map_fields.py:54-79 | page, rectangle and kid count come only from the first kid of a field without `/FT`; the page names the first page whose identity is the kid's `/P`; it stays 0 when none matches |
| MapFields.RecordType | map_fields.py:44-67 | the type column is the display name of the own `/FT`, else of the first kid's, else empty |
| MapFields.BuildRecord | map_fields.py:29-95 | the loop body builds exactly the record of the field, using the page search |
| MapFields.SortByKey | map_fields.py:98-102 | the sorted list is a permutation of the records |
| MapFields.Insert | map_fields.py:98-102 | inserting one record adds exactly that record to the list |
| MapFields.InsertSorted | map_fields.py:98-102 | inserting into a sorted list keeps it sorted by (page, -top, left) |
| MapFields.SortSorted | map_fields.py:98-102 | the result is ordered by (page, -top, left) under Python's tuple comparison |
| MapFields.InsertStable | map_fields.py:98-102 | insertion appends the new record to the end of its key's subsequence |
| MapFields.SortStable | map_fields.py:98-102 | records with equal keys keep their `/Fields` order, as Python's stable sort guarantees |
| MapFields.RectBeforeRectless | map_fields.py:99-101 | on one page, a field whose top edge is positive sorts before every field without a rectangle |
| MapFields.MapFields | map_fields.py:18-102 | gives nothing without `/AcroForm /Fields`; otherwise the records sorted by the key |
| MapFields.MapFieldsContents | map_fields.py:95-102 | the report has one entry per top-level field, is a permutation of the records, is sorted, and has nondecreasing pages |
| FindField.TypeName | find_field_by_label.py:42-45 | Tx, Btn, Ch and Sig map to Text, Button, Choice and Signature; any other tag is shown raw |
| FindField.FoundTypeAndPage | find_field_by_label.py:41-60 | the type comes from the own `/FT`, else the first kid's, else is empty; the page is known only through the first kid of a field without `/FT` |
| FindField.FoundAll | find_field_by_label.py:25-69 | one record per top-level field |
| FindField.BuildFound | find_field_by_label.py:26-60 | the loop body builds exactly the record of the field, using the page search |
| FindField.SearchByLabel | find_field_by_label.py:15-72 | gives nothing without a form; otherwise the wanted records in `/Fields` order |
| FindField.NoTermKeepsAll | find_field_by_label.py:62-69 | with no term or an empty one, every top-level field is returned in order |
| FindField.SearchResults | find_field_by_label.py:63-67 | with a term, a record is returned exactly when the lower-cased term occurs in its lower-cased name or tooltip, and order is preserved |
| Export.Exported | export_fields.py:35-53 | the exported dict never holds a key twice |
| Export.LastWritten | export_fields.py:35-53 | locates the last field written under a key, with no qualifying field of that name after it |
| Export.ExportedGet | export_fields.py:35-53 | a key is exported exactly when a qualifying field has that name, and its value is the last such field's decoded value |
| Export.ExportedEntries | export_fields.py:37-53 | every key is some top-level field's `/T`, and with `include_empty` false no exported value is empty |
| Export.ExportFields | export_fields.py:22-55 | gives nothing without a form; otherwise the dict built by the loop |
| Template.TemplateType | generate_template.py:48-66 | "checkbox" exactly for a resolved `/Btn`, "choice" exactly for `/Ch`, and "text" otherwise, `/Sig` and `/Tx` included |
| Template.FieldMap | generate_template.py:32-72 | the field map never holds a key twice |
| Template.FieldMapHas | generate_template.py:32-72 | a name is a key exactly when a named, section-selected field has it |
| Template.FieldMapGet | generate_template.py:32-72 | a name is a key exactly when a named, section-selected field has it; its entry is that of the last such field: "Off" for a checkbox or "", and the tooltip or "" as description |
| Template.Block | generate_template.py:90-112 | an entry's lines start with its comment when it has a description, else its own line; they end with a blank line exactly when the next name starts with another character |
| Template.Layout | generate_template.py:89-112 | the writing fails exactly when there are two or more entries and one of them has an empty name |
| Template.WriteTemplate | generate_template.py:89-112 | the writing loop produces the layout, or fails as the layout says |
| Template.WriteEntry | generate_template.py:91-112 | one turn writes exactly the entry's block |
| Template.LayoutPrefix | generate_template.py:90-112 | writing fewer entries writes a prefix of what writing more writes |
| Template.BlockAt | generate_template.py:89-112 | each entry's lines sit in order at their place in the whole output |
| Template.CommentRule | generate_template.py:93-105 | a comment line comes first exactly when the description is non-empty; every entry but the last carries a comma |
| Template.SpacingRule | generate_template.py:107-112 | the line before the next entry is blank exactly when the two names start with different characters |
| Template.GenerateTemplate | generate_template.py:22-125 | gives nothing without a form or when writing fails; otherwise the field map and its lines |
| Template.DefaultOutputName | generate_template.py:77-80 | the default file name is `<stem>_template_all.json` without sections, else `<stem>_template_` then the sections joined by '_' then `.json` |
| Template.OutputNameSections | generate_template.py:77-80 | when no section holds '_', splitting the middle of the default file name at '_' gives back the sections |
| Template.ClassifyArgsSpec | generate_template.py:143-152 | the second argument is read as sections exactly when it has a ',' or is at most 3 letters; the sections join back to it and the default name shows it with ',' turned into '_'; otherwise it is the output file |
| ListFields.TypeName | list_fields.py:49-55 | Tx, Btn, Ch and Sig get their display names; any other tag is shown raw |
| ListFields.UnnamedDistinct | list_fields.py:41-44 | unnamed fields at different positions get different `<unnamed_i>` placeholders |
| ListFields.ListTypeResolved | list_fields.py:46-74 | the label is the resolved tag's display name; otherwise "Parent field" with `/Kids` (empty included) and "Unknown" without |
| ListFields.Shown | list_fields.py:94-97 | a value over 50 characters is shown as its first 50 followed by "..."; a shorter one as it is |
| ListFields.BuildRow | list_fields.py:38-88 | the loop body builds exactly the entry of field number i |
| ListFields.ListAll | list_fields.py:18-104 | stops early without `/AcroForm` or without `/Fields`; otherwise one entry per field, numbered from 1 |
| ListFields.RowsNamed | list_fields.py:41-88 | unnamed fields have distinct names in the listing; the kid count is present exactly when the field has `/Kids` |
| Detector.FormTypeCases | pdf_form_detector.py:57-64 | each combination of /XFA and /Fields gets its own label, and "None" means no /AcroForm |
| Detector.WidgetsIn | pdf_form_detector.py:79-85 | the widgets counted in one /Annots array are no more than its length |
| Detector.TypesIn | pdf_form_detector.py:79-83 | the recorded types are exactly the /Subtype values that occur |
| Detector.WidgetsBounded | pdf_form_detector.py:74-85 | `widget_annotations` never exceeds `annotation_count` |
| Detector.WidgetsRecorded | pdf_form_detector.py:79-85 | whenever a widget was counted, "/Widget" is among the annotation types |
| Detector.CensusPage | pdf_form_detector.py:79-85 | the inner loop counts the page's widgets and collects its types |
| Detector.Census | pdf_form_detector.py:70-85 | the page loop sums the annotations and widgets and unites the types |
| Detector.ReadCatalog | pdf_form_detector.py:26-67 | has_acroform exactly with /Fields, has_xfa exactly with /XFA, the form-type label, the field count, and the message without /AcroForm |
| Detector.DetectFormType | pdf_form_detector.py:26-99 | the full result: catalog facts, census recorded exactly when some annotation exists, warning exactly when widgets exist without /Fields |
| Detector.DetectionConsistent | pdf_form_detector.py:87-90 | a recorded census has no more widgets than annotations and lists "/Widget" when it has any |

## Left out

- Opening, saving and closing documents, indirect-object resolution and the PyPDF2 reader are not modelled. A document is given as an arena; a file that fails to open is not modelled.
- Resource leaks are not modelled: the early return without `close`, and the unreachable `close` after `return` in remove_void.py.
- Exception handlers that cannot fire in the arena model are left out. An index or key that the arena always resolves cannot raise, so the `try`/`except` around kid lookups and writes is not modelled, and no write fails.
  - Exception: list_fields.py's `[0]` on an empty `/Kids` does raise, and is modelled as "Parent field".
  - Exception: generate_template.py's `fname[0]` on an empty name does raise, and is modelled as the failed layout.
- Template.Layout: when the error is raised part-way through writing, the lines already written to the file are not modelled; only the failure is.
- Printing, the report layouts, `format_result` and every message printed rather than returned are not modelled.
- JSON reading, writing and escaping are not modelled, including `json.dumps` of values and the template's fixed three header lines. A template line is a structured `Line`.
- The Flask routes, sessions, uploads, the browser UI and the other context scripts are not part of this model.
- Python's `True == 1` equality is not modelled. Fill inputs are a tagged `Bool`/`Int`/`Str`, and the truthy test spells out which of them match.
- `/Rect` coordinates are integers; `float` conversion is not modelled.
- A `/Rect` is always four numbers. An empty `/Rect`, which the map script treats as absent (sort key `(page, 0, 0)`), and a shorter one, on which its sort key raises `IndexError`, cannot be represented.
- Case mapping (`lower`, `upper`) and `isalpha` cover ASCII letters only.
- Detector.DetectFormType: `is_encrypted` is a parameter, because it comes from the reader. Any exception caught into `details["error"]` is not modelled.
- FieldTree.ExtractFieldInfo: the walk has no cycle guard in the source. The model bounds its depth by a fuel equal to the number of nodes, so a cyclic `/Kids` chain is cut there rather than exhausting Python's recursion limit.
- MapFields.SortByKey: Python's `list.sort` is specified by a stable insertion sort. Any stable sort on the same key gives the same list, but the model does not follow Timsort's steps.
- FindField.SearchByLabel: the `except` that turns an exception into `[]` is not modelled, since no step raises in the arena model.
- CleanTemplate.PrunePages: every page holds its own copy of its `/XObject` dictionary. Pages that share one dictionary are not modelled. The script deletes a shared large image once and counts it once; the model counts it once per page that lists it.
- CleanTemplate.CreateCleanTemplate: its count of removed images inherits the per-page counting of CleanTemplate.PrunePages.
- RemoveVoid.HideField: every widget holds its own copy of its `/MK` dictionary, and a `/MK` shared by several widgets is not modelled. The script's `kid['/MK']['/CA'] = ''` writes into that dictionary in place, so it also blanks the caption of every other widget that shares it. The model blanks only the caption of the kids of `btnVoid`.
- RemoveVoid.VoidFrame: "a node that is neither a target nor a target's kid is untouched" holds only for per-widget `/MK` dictionaries. A widget that shares its `/MK` with a kid of `btnVoid` loses its caption in the script. RemoveVoid.RemoveVoidActual and RemoveVoid.RemoveVoidWatermark inherit the same gap.
