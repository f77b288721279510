/**
 * The field map report (map_fields.py): one record per top-level field with its name,
 * display type, tooltip, page, rectangle, decoded value and kid count, listed in reading
 * order — by page, then top to bottom, then left to right.
 */
module MapFields {
  import opened Options
  import opened Pdf

  /** One `field_info` dict of the report. */
  datatype MappedField = MappedField(
    name: string,
    fieldType: string,
    tooltip: string,
    page: nat,
    rect: Option<Rect>,
    value: string,
    kids: nat)

  /** The report's `type_map`. */
  const TypeNames: map<string, string> :=
    map["/Tx" := "Text", "/Btn" := "Button/Checkbox", "/Ch" := "Choice", "/Sig" := "Signature"]

  /** `type_map.get(ft, ft)`: a known tag gets its display name, any other tag is shown as it is. */
  function TypeName(ft: string): (r: string)
    ensures ft in TypeNames ==> r == TypeNames[ft]
    ensures ft !in TypeNames ==> r == ft
  {
    if ft in TypeNames then TypeNames[ft] else ft
  }

  /** The record built for the top-level field `n`. */
  function Record(nodes: seq<Node>, pages: seq<Page>, n: Node): MappedField
    requires KidsIn(n, nodes)
  {
    var tag := ResolvedTag(nodes, n);
    var kid := if FromKid(n) then Some(FirstKid(nodes, n)) else None;
    MappedField(
      name := n.partialName.GetOr(""),
      fieldType := if tag.Some? then TypeName(tag.value) else "",
      tooltip := n.tooltip.GetOr(""),
      page := KidPage(nodes, pages, n),
      rect := (if kid.Some? then kid.value.rect else None),
      value := (if n.value.Some? then Decode(n.value.value) else ""),
      kids := if kid.Some? then |n.kids.value| else 0)
  }

  /** The records in /Fields order, before sorting. */
  function Records(nodes: seq<Node>, pages: seq<Page>, fields: seq<NodeId>): (r: seq<MappedField>)
    requires Arena(nodes) && InArena(fields, nodes)
    ensures |r| == |fields|
  {
    seq(|fields|, i requires 0 <= i < |fields| => Record(nodes, pages, nodes[fields[i]]))
  }

  /**
   * A record has page, rectangle or kid count only when its field has no /FT of its own and
   * a non-empty /Kids; then the kid count is the length of /Kids, the rectangle is the first
   * kid's, and a page number names the first page whose identity is the first kid's /P.
   */
  lemma RecordKidData(nodes: seq<Node>, pages: seq<Page>, n: Node)
    requires KidsIn(n, nodes)
    ensures var m := Record(nodes, pages, n);
      && (m.kids > 0 || m.page > 0 || m.rect.Some? ==> FromKid(n))
      && (FromKid(n) ==> m.kids == |n.kids.value| > 0 && m.rect == FirstKid(nodes, n).rect)
      && (m.page > 0 ==> m.page <= |pages| && FirstKid(nodes, n).pageRef == Some(pages[m.page - 1].id)
                         && forall i :: 0 <= i < m.page - 1 ==> pages[i].id != pages[m.page - 1].id)
      && (FromKid(n) && m.page == 0 ==>
            (FirstKid(nodes, n).pageRef.None? || forall i :: 0 <= i < |pages| ==> pages[i].id != FirstKid(nodes, n).pageRef.value))
  {
  }

  /**
   * The type column: the display name of the field's own /FT, else of its first kid's;
   * empty when neither has one. An unknown tag is shown raw.
   */
  lemma RecordType(nodes: seq<Node>, pages: seq<Page>, n: Node)
    requires KidsIn(n, nodes)
    ensures var m := Record(nodes, pages, n);
      && (n.fieldType == Some("/Tx") ==> m.fieldType == "Text")
      && (n.fieldType == Some("/Btn") ==> m.fieldType == "Button/Checkbox")
      && (n.fieldType == Some("/Ch") ==> m.fieldType == "Choice")
      && (n.fieldType == Some("/Sig") ==> m.fieldType == "Signature")
      && (n.fieldType.Some? && n.fieldType.value !in TypeNames ==> m.fieldType == n.fieldType.value)
      && (n.fieldType.None? && !HasKids(n) ==> m.fieldType == "")
      && (FromKid(n) ==> m.fieldType == if FirstKid(nodes, n).fieldType.Some? then TypeName(FirstKid(nodes, n).fieldType.value) else "")
  {
  }

  /** The building loop for one field: the first-kid branch and its page search. */
  method BuildRecord(nodes: seq<Node>, pages: seq<Page>, n: Node) returns (m: MappedField)
    requires KidsIn(n, nodes)
    ensures m == Record(nodes, pages, n)
  {
    m := MappedField("", "", "", 0, None, "", 0);
    if n.partialName.Some? {
      m := m.(name := n.partialName.value);
    }
    if n.fieldType.Some? {
      m := m.(fieldType := TypeName(n.fieldType.value));
    } else if HasKids(n) {
      m := m.(kids := |n.kids.value|);
      var kid := nodes[n.kids.value[0]];
      if kid.fieldType.Some? {
        m := m.(fieldType := TypeName(kid.fieldType.value));
      }
      if kid.pageRef.Some? {
        var page := FindPage(pages, kid.pageRef.value);
        m := m.(page := page);
      }
      if kid.rect.Some? {
        m := m.(rect := kid.rect);
      }
    }
    if n.tooltip.Some? {
      m := m.(tooltip := n.tooltip.value);
    }
    if n.value.Some? {
      m := m.(value := Decode(n.value.value));
    }
  }

  /** The sort key `(page, -rect[3], rect[0])`, or `(page, 0, 0)` without a rectangle. */
  datatype SortKey = SortKey(page: int, y: int, x: int)

  function Key(f: MappedField): SortKey {
    if f.rect.Some? then SortKey(f.page, -f.rect.value.ury, f.rect.value.llx) else SortKey(f.page, 0, 0)
  }

  /** Python's tuple comparison `a <= b`. */
  predicate KeyLe(a: SortKey, b: SortKey) {
    a.page < b.page || (a.page == b.page && (a.y < b.y || (a.y == b.y && a.x <= b.x)))
  }

  /** Python's tuple comparison `a < b`. */
  predicate KeyLt(a: SortKey, b: SortKey) {
    !KeyLe(b, a)
  }

  predicate Sorted(s: seq<MappedField>) {
    forall i, j :: 0 <= i < j < |s| ==> KeyLe(Key(s[i]), Key(s[j]))
  }

  /** The records whose key is `k`, in their order: the subsequence stability is about. */
  function WithKey(s: seq<MappedField>, k: SortKey): seq<MappedField>
    decreases |s|
  {
    if s == [] then [] else (if Key(s[0]) == k then [s[0]] else []) + WithKey(s[1..], k)
  }

  lemma {:induction false} WithKeyAppend(a: seq<MappedField>, b: seq<MappedField>, k: SortKey)
    ensures WithKey(a + b, k) == WithKey(a, k) + WithKey(b, k)
    decreases |a|
  {
    if a != [] {
      assert (a + b)[0] == a[0] && (a + b)[1..] == a[1..] + b;
      WithKeyAppend(a[1..], b, k);
    } else {
      assert a + b == b;
    }
  }

  lemma {:induction false} WithKeyNone(s: seq<MappedField>, k: SortKey)
    requires forall i :: 0 <= i < |s| ==> Key(s[i]) != k
    ensures WithKey(s, k) == []
    decreases |s|
  {
    if s != [] {
      WithKeyNone(s[1..], k);
    }
  }

  /** Places `x` after every element of `t` whose key is not greater than its own. */
  function Insert(t: seq<MappedField>, x: MappedField): (r: seq<MappedField>)
    ensures |r| == |t| + 1
    ensures multiset(r) == multiset(t) + multiset{x}
    decreases |t|
  {
    if t == [] then [x]
    else if KeyLt(Key(x), Key(t[0])) then [x] + t
    else
      assert t == [t[0]] + t[1..];
      [t[0]] + Insert(t[1..], x)
  }

  /**
   * `field_list.sort(key=...)`: Python's sort is stable, so it is the insertion sort that
   * keeps records of equal key in their /Fields order.
   */
  function SortByKey(s: seq<MappedField>): (r: seq<MappedField>)
    ensures multiset(r) == multiset(s)
    decreases |s|
  {
    if s == [] then []
    else
      assert s == s[..|s| - 1] + [s[|s| - 1]];
      Insert(SortByKey(s[..|s| - 1]), s[|s| - 1])
  }

  lemma {:induction false} InsertSorted(t: seq<MappedField>, x: MappedField)
    requires Sorted(t)
    ensures Sorted(Insert(t, x))
    decreases |t|
  {
    if t != [] && !KeyLt(Key(x), Key(t[0])) {
      var rest := Insert(t[1..], x);
      InsertSorted(t[1..], x);
      forall j | 0 <= j < |rest| ensures KeyLe(Key(t[0]), Key(rest[j])) {
        assert rest[j] in multiset(rest);
        if rest[j] != x {
          assert rest[j] in multiset(t[1..]);
          var k :| 0 <= k < |t[1..]| && t[1..][k] == rest[j];
          assert t[k + 1] == rest[j];
        }
      }
      assert Insert(t, x) == [t[0]] + rest;
    }
  }

  /** The report lists records by page, then from the top of the page down, then left to right. */
  lemma {:induction false} SortSorted(s: seq<MappedField>)
    ensures Sorted(SortByKey(s))
    decreases |s|
  {
    if s != [] {
      SortSorted(s[..|s| - 1]);
      InsertSorted(SortByKey(s[..|s| - 1]), s[|s| - 1]);
    }
  }

  lemma {:induction false} InsertStable(t: seq<MappedField>, x: MappedField, k: SortKey)
    requires Sorted(t)
    ensures WithKey(Insert(t, x), k) == WithKey(t, k) + if Key(x) == k then [x] else []
    decreases |t|
  {
    if t == [] {
      assert [x][1..] == [];
    } else if KeyLt(Key(x), Key(t[0])) {
      StableFront(t, x, k);
    } else {
      InsertStable(t[1..], x, k);
      StableBehind(t, x, k);
    }
  }

  /** `x` goes in front of a sorted `t`, whose keys are then all greater than its own. */
  lemma StableFront(t: seq<MappedField>, x: MappedField, k: SortKey)
    requires Sorted(t) && t != [] && KeyLt(Key(x), Key(t[0]))
    ensures WithKey(Insert(t, x), k) == WithKey(t, k) + if Key(x) == k then [x] else []
  {
    assert Insert(t, x) == [x] + t;
    assert ([x] + t)[0] == x && ([x] + t)[1..] == t;
    if Key(x) == k {
      forall i | 0 <= i < |t| ensures Key(t[i]) != k {
        assert i == 0 || KeyLe(Key(t[0]), Key(t[i]));
      }
      WithKeyNone(t, k);
    }
  }

  /** `x` goes behind the head of `t`, given the claim for the tail. */
  lemma StableBehind(t: seq<MappedField>, x: MappedField, k: SortKey)
    requires t != [] && !KeyLt(Key(x), Key(t[0]))
    requires WithKey(Insert(t[1..], x), k) == WithKey(t[1..], k) + if Key(x) == k then [x] else []
    ensures WithKey(Insert(t, x), k) == WithKey(t, k) + if Key(x) == k then [x] else []
  {
    var rest := Insert(t[1..], x);
    assert Insert(t, x) == [t[0]] + rest;
    assert ([t[0]] + rest)[0] == t[0] && ([t[0]] + rest)[1..] == rest;
  }

  /** The sort is stable: the records sharing a key keep their relative /Fields order. */
  lemma {:induction false} SortStable(s: seq<MappedField>, k: SortKey)
    ensures WithKey(SortByKey(s), k) == WithKey(s, k)
    decreases |s|
  {
    if s != [] {
      var init := s[..|s| - 1];
      SortStable(init, k);
      SortSorted(init);
      SortStableStep(s, k);
    }
  }

  /** One insertion keeps the claim: the last record joins the end of its key's subsequence. */
  lemma SortStableStep(s: seq<MappedField>, k: SortKey)
    requires s != []
    requires WithKey(SortByKey(s[..|s| - 1]), k) == WithKey(s[..|s| - 1], k)
    requires Sorted(SortByKey(s[..|s| - 1]))
    ensures WithKey(SortByKey(s), k) == WithKey(s, k)
  {
    var init := s[..|s| - 1];
    var x := s[|s| - 1];
    assert SortByKey(s) == Insert(SortByKey(init), x);
    InsertStable(SortByKey(init), x, k);
    WithKeySnoc(s, k);
  }

  lemma WithKeySnoc(s: seq<MappedField>, k: SortKey)
    requires s != []
    ensures WithKey(s, k) == WithKey(s[..|s| - 1], k) + if Key(s[|s| - 1]) == k then [s[|s| - 1]] else []
  {
    var x := s[|s| - 1];
    WithKeyAppend(s[..|s| - 1], [x], k);
    assert s[..|s| - 1] + [x] == s;
    assert [x][1..] == [];
  }

  /**
   * On one page, a field whose rectangle has a positive top edge comes before every field
   * without a rectangle, whose key is (page, 0, 0).
   */
  lemma RectBeforeRectless(s: seq<MappedField>, i: nat, j: nat)
    requires Sorted(s) && i < |s| && j < |s|
    requires s[i].rect.Some? && s[i].rect.value.ury > 0 && s[j].rect.None? && s[i].page == s[j].page
    ensures i < j
  {
  }

  /**
   * `map_fields`: none without /AcroForm /Fields; otherwise one record per top-level field,
   * named or not, sorted into reading order.
   */
  method MapFields(doc: Document) returns (r: Option<seq<MappedField>>)
    requires doc.Valid()
    ensures r.None? <==> FormFields(doc.acroForm).None?
    ensures r.Some? ==> r.value == SortByKey(Records(doc.nodes, doc.pages, FormFields(doc.acroForm).value))
  {
    var form := FormFields(doc.acroForm);
    if form.None? {
      return None;
    }
    var fields := form.value;
    var list: seq<MappedField> := [];
    for i := 0 to |fields|
      invariant |list| == i
      invariant forall j :: 0 <= j < i ==> list[j] == Record(doc.nodes, doc.pages, doc.nodes[fields[j]])
    {
      var m := BuildRecord(doc.nodes, doc.pages, doc.nodes[fields[i]]);
      list := list + [m];
    }
    assert list == Records(doc.nodes, doc.pages, fields);
    r := Some(SortByKey(list));
  }

  /** The report holds exactly the records of the top-level fields, each once, in reading order. */
  lemma MapFieldsContents(nodes: seq<Node>, pages: seq<Page>, fields: seq<NodeId>)
    requires Arena(nodes) && InArena(fields, nodes)
    ensures var r := SortByKey(Records(nodes, pages, fields));
      && |r| == |fields|
      && multiset(r) == multiset(Records(nodes, pages, fields))
      && Sorted(r)
      && forall i, j :: 0 <= i < j < |r| ==> r[i].page <= r[j].page
  {
    var r := SortByKey(Records(nodes, pages, fields));
    assert |r| == |multiset(r)|;
    SortSorted(Records(nodes, pages, fields));
  }
}
