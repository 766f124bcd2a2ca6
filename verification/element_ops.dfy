/** Operations on elements: dropping a new element of a palette kind into a
    column, removing one, and editing one, where an edit keeps a button's
    `href` and `companyId` in step through the `companyID=` query
    parameter. */
module ElementOps {
  import opened Optional
  import opened Strings
  import opened Types
  import opened Editor
  import opened CompanyIdParam

  const ImageUrl := "https://storage.emojot.com/pictures/generalImages/67761761cb917201e680c031-skin2.png"
  const DefaultCompanyId := "6791d6ad94210ae8d23f93ae"

  /** The default button link, in the pieces around its `companyID=` value. */
  const HrefBeforeCompany := "https://emojot.com/emojotDashboard/" + "samlsso?redirectPage=reports/"
    + "incidentManagement/incidentEdit.jsp&" + "workflowID=$workflow_id$&"
    + "incidentID=$incident_id$&trimOut=true&"
  const HrefAfterCompany := "&unmask=true"
  const DefaultButtonHref := HrefBeforeCompany + Key + DefaultCompanyId + HrefAfterCompany

  /** An element's `companyId` is the value its `href` carries, whenever the
      `href` carries one. */
  predicate LinkInSync(e: Element) {
    e.href.Some? && Extract(e.href.value).Some? ==> e.companyId == Extract(e.href.value)
  }

  /** The part of the default link before its company id holds no `y`,
      so no `companyID=` starts in it, and it ends in `&`. */
  lemma HrefBeforeCompanyPlain()
    ensures 'y' !in HrefBeforeCompany
    ensures HrefBeforeCompany[|HrefBeforeCompany| - 1] == '&'
  {
    LacksY("https://emojot.com/emojotDashboard/");
    LacksY("samlsso?redirectPage=reports/");
    LacksY("incidentManagement/incidentEdit.jsp&");
    LacksY("workflowID=$workflow_id$&");
    LacksY("incidentID=$incident_id$&trimOut=true&");
    CharNotInConcat('y', "https://emojot.com/emojotDashboard/", "samlsso?redirectPage=reports/");
    CharNotInConcat('y', "https://emojot.com/emojotDashboard/" + "samlsso?redirectPage=reports/",
      "incidentManagement/incidentEdit.jsp&");
    CharNotInConcat('y', "https://emojot.com/emojotDashboard/" + "samlsso?redirectPage=reports/"
      + "incidentManagement/incidentEdit.jsp&", "workflowID=$workflow_id$&");
    CharNotInConcat('y', "https://emojot.com/emojotDashboard/" + "samlsso?redirectPage=reports/"
      + "incidentManagement/incidentEdit.jsp&" + "workflowID=$workflow_id$&", "incidentID=$incident_id$&trimOut=true&");
  }

  /** A short literal without the letter `y`. */
  lemma LacksY(s: string)
    requires forall i :: 0 <= i < |s| ==> s[i] != 'y'
    ensures 'y' !in s
  {
  }

  /** The default link carries the default company id. */
  lemma DefaultHrefInSync()
    ensures Extract(DefaultButtonHref) == Some(DefaultCompanyId)
  {
    HrefBeforeCompanyPlain();
    assert '&' !in DefaultCompanyId;
    ExtractAfterPlainPrefix(HrefBeforeCompany, DefaultCompanyId, HrefAfterCompany);
  }

  function DefaultContent(kind: ElementType): string {
    match kind
    case Text => "Text content"
    case TextArea => "Longer text content..."
    case Image => ImageUrl
    case Button => "Button Text"
    case Variable => ""
  }

  function DefaultStyle(kind: ElementType): ElementStyle {
    ElementStyle(
      if kind == Button then "#ffffff" else "#000000",
      "16px",
      if kind == Button then "bold" else "normal",
      if kind == Button then "center" else "left",
      "10px",
      if kind == Image then Some("auto") else None,
      if kind == Image then Some("100px") else None,
      if kind == Button then Some("#0c7bbf") else None,
      Some("1.5"))
  }

  /** The element a palette drop creates. Only a button gets a link and a
      company id, and they agree; only an image gets a size; a variable
      starts empty. */
  function NewElement(kind: ElementType, id: real): (e: Element)
    ensures e.id == id && e.kind == kind
    ensures e.content == "" <==> kind == Variable
    ensures e.href.Some? <==> kind == Button
    ensures e.companyId.Some? <==> kind == Button
    ensures kind == Button ==> Extract(e.href.value) == e.companyId
    ensures LinkInSync(e)
    ensures e.style.width.Some? <==> kind == Image
    ensures e.style.height.Some? <==> kind == Image
    ensures e.style.backgroundColor.Some? <==> kind == Button
  {
    DefaultHrefInSync();
    Element(id, kind, DefaultContent(kind), DefaultStyle(kind),
      if kind == Button then Some(DefaultButtonHref) else None,
      if kind == Button then Some(DefaultCompanyId) else None)
  }

  /** Appends the new element to every addressed column; every other column
      and section is left as it was. */
  function HandleDrop(ss: seq<Section>, sectionId: int, columnId: int, kind: ElementType, newId: real): (r: seq<Section>)
    ensures SameLayout(r, ss)
    ensures forall k :: 0 <= k < |ss| && ss[k].id != sectionId ==> r[k] == ss[k]
    ensures forall k, j :: 0 <= k < |ss| && 0 <= j < |ss[k].columns| && Addressed(ss, k, j, sectionId, columnId) ==>
              r[k].columns[j].elements == ss[k].columns[j].elements + [NewElement(kind, newId)]
    ensures forall k, j :: 0 <= k < |ss| && 0 <= j < |ss[k].columns| && !Addressed(ss, k, j, sectionId, columnId) ==>
              r[k].columns[j] == ss[k].columns[j]
  {
    var add := (c: Column) => c.(elements := c.elements + [NewElement(kind, newId)]);
    MapSections(ss, sectionId, (s: Section) => s.(columns := MapColumns(s.columns, columnId, add)))
  }

  /** The filter predicate of `removeElement`. */
  function ElementLacksId(id: real): Element -> bool {
    (e: Element) => e.id != id
  }

  /** Removes every element with the id from the addressed columns; every
      other column and section is left as it was. */
  function RemoveElementFrom(ss: seq<Section>, sectionId: int, columnId: int, elementId: real): (r: seq<Section>)
    ensures SameLayout(r, ss)
    ensures forall k :: 0 <= k < |ss| && ss[k].id != sectionId ==> r[k] == ss[k]
    ensures forall k, j :: 0 <= k < |ss| && 0 <= j < |ss[k].columns| && Addressed(ss, k, j, sectionId, columnId) ==>
              r[k].columns[j].elements == Filter(ss[k].columns[j].elements, ElementLacksId(elementId))
    ensures forall k, j :: 0 <= k < |ss| && 0 <= j < |ss[k].columns| && !Addressed(ss, k, j, sectionId, columnId) ==>
              r[k].columns[j] == ss[k].columns[j]
  {
    var drop := (c: Column) => c.(elements := Filter(c.elements, ElementLacksId(elementId)));
    MapSections(ss, sectionId, (s: Section) => s.(columns := MapColumns(s.columns, columnId, drop)))
  }

  /** `removeElement`: removes the element and clears the element selection
      exactly when it named this very path. */
  function RemoveElement(st: EditorState, sectionId: int, columnId: int, elementId: real): (r: EditorState)
    ensures r.sections == RemoveElementFrom(st.sections, sectionId, columnId, elementId)
    ensures r.activeElement.None? <==> st.activeElement.None? || st.activeElement == Some(ElementPath(sectionId, columnId, elementId))
    ensures r.activeElement.Some? ==> r.activeElement == st.activeElement
    ensures r.activeSection == st.activeSection && r.activeColumn == st.activeColumn
  {
    var st' := st.(sections := RemoveElementFrom(st.sections, sectionId, columnId, elementId));
    if st.activeElement == Some(ElementPath(sectionId, columnId, elementId)) then st'.(activeElement := None) else st'
  }

  /** No element of the addressed columns has the id. */
  predicate IdAbsent(ss: seq<Section>, sectionId: int, columnId: int, id: real) {
    forall k, j, m ::
      0 <= k < |ss| && 0 <= j < |ss[k].columns| && 0 <= m < |ss[k].columns[j].elements|
      && Addressed(ss, k, j, sectionId, columnId)
      ==> ss[k].columns[j].elements[m].id != id
  }

  /** Removing a freshly dropped element by its id undoes the drop. */
  lemma RemoveUndoesDrop(ss: seq<Section>, sectionId: int, columnId: int, kind: ElementType, newId: real)
    requires IdAbsent(ss, sectionId, columnId, newId)
    ensures RemoveElementFrom(HandleDrop(ss, sectionId, columnId, kind, newId), sectionId, columnId, newId) == ss
  {
    var d := HandleDrop(ss, sectionId, columnId, kind, newId);
    var r := RemoveElementFrom(d, sectionId, columnId, newId);
    var keep := ElementLacksId(newId);
    forall k | 0 <= k < |ss| ensures r[k] == ss[k] {
      if ss[k].id == sectionId {
        forall j | 0 <= j < |ss[k].columns| ensures r[k].columns[j] == ss[k].columns[j] {
          if ss[k].columns[j].id == columnId {
            var es := ss[k].columns[j].elements;
            assert Addressed(d, k, j, sectionId, columnId);
            FilterAppend(es, [NewElement(kind, newId)], keep);
            FilterKeepsAll(es, keep);
            assert Filter([NewElement(kind, newId)], keep) == [];
          }
        }
        assert r[k].columns == ss[k].columns;
      }
    }
  }

  /** Removing twice removes nothing more. */
  lemma RemoveElementTwice(ss: seq<Section>, sectionId: int, columnId: int, elementId: real)
    ensures RemoveElementFrom(RemoveElementFrom(ss, sectionId, columnId, elementId), sectionId, columnId, elementId)
            == RemoveElementFrom(ss, sectionId, columnId, elementId)
  {
    var r1 := RemoveElementFrom(ss, sectionId, columnId, elementId);
    var r2 := RemoveElementFrom(r1, sectionId, columnId, elementId);
    forall k | 0 <= k < |ss| ensures r2[k] == r1[k] {
      if ss[k].id == sectionId {
        forall j | 0 <= j < |ss[k].columns| ensures r2[k].columns[j] == r1[k].columns[j] {
          if ss[k].columns[j].id == columnId {
            assert Addressed(r1, k, j, sectionId, columnId);
            FilterTwice(ss[k].columns[j].elements, ElementLacksId(elementId));
          }
        }
        assert r2[k].columns == r1[k].columns;
      }
    }
  }

  /** An update whose company id, when present, is a non-empty value without
      `&`: such a value reads back from the link it is written into. */
  predicate LinkSafe(u: ElementUpdate) {
    u.companyId.Some? ==> |u.companyId.value| > 0 && '&' !in u.companyId.value
  }

  /** Two updates that differ at most in `href` and `companyId`. */
  predicate SameFields(u: ElementUpdate, v: ElementUpdate) {
    u.id == v.id && u.kind == v.kind && u.content == v.content && u.style == v.style
  }

  /** `r` carries the update's id, kind, content and style where the update
      has them, and `e`'s otherwise. */
  predicate TakesPlainFields(r: Element, e: Element, u: ElementUpdate) {
    r.id == u.id.GetOr(e.id) && r.kind == u.kind.GetOr(e.kind)
    && r.content == u.content.GetOr(e.content) && r.style == u.style.GetOr(e.style)
  }

  /** One matching element in `updateElement`, as written: an `href` in the
      update that carries a company id sets the update's `companyId`; then a
      truthy `companyId` with a truthy existing `href` sets the update's
      `href` to the EXISTING link with that value written in; then the
      update is spread over the element. The update object is mutated, so
      the second component is the update as the next matching element sees
      it. */
  function MergeUpdate(e: Element, u: ElementUpdate): (res: (Element, ElementUpdate))
    ensures res.0 == Overlay(e, res.1)
    ensures SameFields(res.1, u)
    ensures LinkSafe(u) ==> LinkSafe(res.1)
    ensures Truthy(u.href) && Extract(u.href.value).Some? ==>
              res.0.companyId == Extract(u.href.value)
              && res.0.href == (if Truthy(e.href) then Some(ReplaceFirst(e.href.value, Extract(u.href.value).value)) else u.href)
    ensures u.href.None? && Truthy(u.companyId) ==>
              res.0.companyId == u.companyId
              && res.0.href == (if Truthy(e.href) then Some(ReplaceFirst(e.href.value, u.companyId.value)) else e.href)
    ensures u.href.None? && u.companyId == Some("") ==> res.0.href == e.href && res.0.companyId == Some("")
    ensures u.href.None? && u.companyId.None? ==> res.0.href == e.href && res.0.companyId == e.companyId
    ensures !(Truthy(u.href) && Extract(u.href.value).Some?) && Truthy(u.companyId) ==>
              res.0.companyId == u.companyId
              && res.0.href == (if Truthy(e.href) then Some(ReplaceFirst(e.href.value, u.companyId.value))
                                else if u.href.Some? then u.href else e.href)
    ensures !(Truthy(u.href) && Extract(u.href.value).Some?) && !Truthy(u.companyId) ==>
              res.0.href == (if u.href.Some? then u.href else e.href)
              && res.0.companyId == (if u.companyId.Some? then u.companyId else e.companyId)
  {
    var u1 := if Truthy(u.href) && Extract(u.href.value).Some? then u.(companyId := Extract(u.href.value)) else u;
    var u2 := if Truthy(u1.companyId) && Truthy(e.href)
              then u1.(href := Some(ReplaceFirst(e.href.value, u1.companyId.value)))
              else u1;
    (Overlay(e, u2), u2)
  }

  /** An edit keeps an element in sync when the element was in sync and the
      update's company id is safe to write into a link. */
  lemma MergeKeepsSync(e: Element, u: ElementUpdate)
    ensures LinkInSync(e) && LinkSafe(u) ==> LinkInSync(MergeUpdate(e, u).0)
  {
    var (r, u2) := MergeUpdate(e, u);
    if LinkSafe(u) && Truthy(u2.companyId) && Truthy(e.href) {
      var h := e.href.value;
      if Extract(h).Some? {
        ExtractAfterReplace(h, u2.companyId.value);
      }
    }
  }

  /** `elements.map(...)` for one column, threading the update object from
      each matching element to the next. */
  function UpdateInElements(es: seq<Element>, id: real, u: ElementUpdate): (res: (seq<Element>, ElementUpdate))
    ensures |res.0| == |es|
    ensures forall m :: 0 <= m < |es| && es[m].id != id ==> res.0[m] == es[m]
    ensures forall m :: 0 <= m < |es| && es[m].id == id ==>
              res.0[m].id == u.id.GetOr(es[m].id) && res.0[m].kind == u.kind.GetOr(es[m].kind)
              && res.0[m].content == u.content.GetOr(es[m].content) && res.0[m].style == u.style.GetOr(es[m].style)
    ensures SameFields(res.1, u)
    ensures LinkSafe(u) ==> LinkSafe(res.1)
    decreases |es|
  {
    if |es| == 0 then ([], u)
    else
      var head := if es[0].id == id then MergeUpdate(es[0], u) else (es[0], u);
      var tail := UpdateInElements(es[1..], id, head.1);
      var r := [head.0] + tail.0;
      assert forall m :: 1 <= m < |es| ==> r[m] == tail.0[m - 1] && es[m] == es[1..][m - 1];
      (r, tail.1)
  }

  lemma {:induction false} UpdateInElementsFirst(es: seq<Element>, id: real, u: ElementUpdate, m: nat)
    requires m < |es| && es[m].id == id
    requires forall p :: 0 <= p < m ==> es[p].id != id
    ensures UpdateInElements(es, id, u).0[m] == MergeUpdate(es[m], u).0
    decreases m
  {
    if m > 0 {
      UpdateInElementsFirst(es[1..], id, u, m - 1);
    }
  }

  lemma {:induction false} UpdateInElementsNoMatch(es: seq<Element>, id: real, u: ElementUpdate)
    requires forall m :: 0 <= m < |es| ==> es[m].id != id
    ensures UpdateInElements(es, id, u) == (es, u)
    decreases |es|
  {
    if |es| > 0 {
      UpdateInElementsNoMatch(es[1..], id, u);
      assert es == [es[0]] + es[1..];
    }
  }

  lemma {:induction false} UpdateInElementsSync(es: seq<Element>, id: real, u: ElementUpdate)
    requires LinkSafe(u)
    requires forall m :: 0 <= m < |es| ==> LinkInSync(es[m])
    ensures forall m :: 0 <= m < |es| ==> LinkInSync(UpdateInElements(es, id, u).0[m])
    decreases |es|
  {
    if |es| > 0 {
      var head := if es[0].id == id then MergeUpdate(es[0], u) else (es[0], u);
      MergeKeepsSync(es[0], u);
      UpdateInElementsSync(es[1..], id, head.1);
      var r := UpdateInElements(es, id, u).0;
      forall m | 0 <= m < |es| ensures LinkInSync(r[m]) {
        if m > 0 {
          assert r[m] == UpdateInElements(es[1..], id, head.1).0[m - 1];
        }
      }
    }
  }

  /** `columns.map(...)` for one section, threading the update object. */
  function UpdateInColumns(cs: seq<Column>, columnId: int, elementId: real, u: ElementUpdate): (res: (seq<Column>, ElementUpdate))
    ensures |res.0| == |cs|
    ensures forall j :: 0 <= j < |cs| ==>
              res.0[j].id == cs[j].id && res.0[j].width == cs[j].width
              && |res.0[j].elements| == |cs[j].elements|
    ensures forall j :: 0 <= j < |cs| && cs[j].id != columnId ==> res.0[j] == cs[j]
    ensures forall j, m :: 0 <= j < |cs| && 0 <= m < |cs[j].elements| && cs[j].elements[m].id != elementId ==>
              res.0[j].elements[m] == cs[j].elements[m]
    ensures forall j, m ::
              0 <= j < |cs| && 0 <= m < |cs[j].elements| && cs[j].id == columnId && cs[j].elements[m].id == elementId
              ==> TakesPlainFields(res.0[j].elements[m], cs[j].elements[m], u)
    ensures SameFields(res.1, u)
    ensures LinkSafe(u) ==> LinkSafe(res.1)
    decreases |cs|
  {
    if |cs| == 0 then ([], u)
    else
      var head := if cs[0].id == columnId
                  then var r := UpdateInElements(cs[0].elements, elementId, u); (cs[0].(elements := r.0), r.1)
                  else (cs[0], u);
      var tail := UpdateInColumns(cs[1..], columnId, elementId, head.1);
      var r := [head.0] + tail.0;
      assert forall j :: 1 <= j < |cs| ==> r[j] == tail.0[j - 1] && cs[j] == cs[1..][j - 1];
      (r, tail.1)
  }

  lemma {:induction false} UpdateInColumnsFirst(cs: seq<Column>, columnId: int, elementId: real, u: ElementUpdate, j: nat)
    requires j < |cs| && cs[j].id == columnId
    requires forall p :: 0 <= p < j ==> cs[p].id != columnId
    ensures UpdateInColumns(cs, columnId, elementId, u).0[j].elements == UpdateInElements(cs[j].elements, elementId, u).0
    decreases j
  {
    if j > 0 {
      var tail := UpdateInColumns(cs[1..], columnId, elementId, u);
      assert UpdateInColumns(cs, columnId, elementId, u) == ([cs[0]] + tail.0, tail.1);
      UpdateInColumnsFirst(cs[1..], columnId, elementId, u, j - 1);
      assert cs[1..][j - 1] == cs[j];
    }
  }

  /** Every element of every column of every section is in sync. */
  predicate DocInSync(ss: seq<Section>) {
    forall k, j, m :: 0 <= k < |ss| && 0 <= j < |ss[k].columns| && 0 <= m < |ss[k].columns[j].elements| ==>
      LinkInSync(ss[k].columns[j].elements[m])
  }

  predicate ColumnsInSync(cs: seq<Column>) {
    forall j, m :: 0 <= j < |cs| && 0 <= m < |cs[j].elements| ==> LinkInSync(cs[j].elements[m])
  }

  lemma {:induction false} UpdateInColumnsSync(cs: seq<Column>, columnId: int, elementId: real, u: ElementUpdate)
    requires LinkSafe(u) && ColumnsInSync(cs)
    ensures ColumnsInSync(UpdateInColumns(cs, columnId, elementId, u).0)
    decreases |cs|
  {
    if |cs| > 0 {
      var u1 := u;
      if cs[0].id == columnId {
        UpdateInElementsSync(cs[0].elements, elementId, u);
        u1 := UpdateInElements(cs[0].elements, elementId, u).1;
      }
      var r := UpdateInColumns(cs, columnId, elementId, u).0;
      var tail := cs[1..];
      assert ColumnsInSync(tail) by {
        forall j, m | 0 <= j < |tail| && 0 <= m < |tail[j].elements| ensures LinkInSync(tail[j].elements[m]) {
          assert tail[j] == cs[j + 1];
        }
      }
      UpdateInColumnsSync(tail, columnId, elementId, u1);
      forall j, m | 0 <= j < |r| && 0 <= m < |r[j].elements| ensures LinkInSync(r[j].elements[m]) {
        if j > 0 {
          assert r[j] == UpdateInColumns(tail, columnId, elementId, u1).0[j - 1];
        }
      }
    }
  }

  /** `sections.map(...)`, threading the update object. */
  function UpdateInSections(ss: seq<Section>, sectionId: int, columnId: int, elementId: real, u: ElementUpdate): (res: (seq<Section>, ElementUpdate))
    ensures |res.0| == |ss|
    ensures forall k :: 0 <= k < |ss| ==>
              res.0[k].id == ss[k].id && res.0[k].backgroundColor == ss[k].backgroundColor
              && |res.0[k].columns| == |ss[k].columns|
    ensures forall k, j :: 0 <= k < |ss| && 0 <= j < |ss[k].columns| ==>
              res.0[k].columns[j].id == ss[k].columns[j].id && res.0[k].columns[j].width == ss[k].columns[j].width
              && |res.0[k].columns[j].elements| == |ss[k].columns[j].elements|
    ensures forall k :: 0 <= k < |ss| && ss[k].id != sectionId ==> res.0[k] == ss[k]
    ensures forall k, j :: 0 <= k < |ss| && 0 <= j < |ss[k].columns| && ss[k].columns[j].id != columnId ==>
              res.0[k].columns[j] == ss[k].columns[j]
    ensures forall k, j, m ::
              0 <= k < |ss| && 0 <= j < |ss[k].columns| && 0 <= m < |ss[k].columns[j].elements|
              && ss[k].columns[j].elements[m].id != elementId
              ==> res.0[k].columns[j].elements[m] == ss[k].columns[j].elements[m]
    ensures forall k, j, m ::
              0 <= k < |ss| && 0 <= j < |ss[k].columns| && 0 <= m < |ss[k].columns[j].elements|
              && ss[k].id == sectionId && ss[k].columns[j].id == columnId
              && ss[k].columns[j].elements[m].id == elementId
              ==> TakesPlainFields(res.0[k].columns[j].elements[m], ss[k].columns[j].elements[m], u)
    ensures SameFields(res.1, u)
    ensures LinkSafe(u) ==> LinkSafe(res.1)
    decreases |ss|
  {
    if |ss| == 0 then ([], u)
    else
      var head := if ss[0].id == sectionId
                  then var r := UpdateInColumns(ss[0].columns, columnId, elementId, u); (ss[0].(columns := r.0), r.1)
                  else (ss[0], u);
      var tail := UpdateInSections(ss[1..], sectionId, columnId, elementId, head.1);
      var r := [head.0] + tail.0;
      assert forall k :: 1 <= k < |ss| ==> r[k] == tail.0[k - 1] && ss[k] == ss[1..][k - 1];
      (r, tail.1)
  }

  /** The first addressed element on the first addressed path is merged with
      the update exactly as the caller passed it: no earlier element has
      mutated it yet. */
  lemma UpdateInSectionsFirstPath(ss: seq<Section>, sectionId: int, columnId: int, elementId: real, u: ElementUpdate)
    ensures forall k, j, m ::
              0 <= k < |ss| && 0 <= j < |ss[k].columns| && 0 <= m < |ss[k].columns[j].elements|
              && FirstIndex(ss, SectionHasId(sectionId)) == Some(k)
              && FirstIndex(ss[k].columns, ColumnHasId(columnId)) == Some(j)
              && FirstIndex(ss[k].columns[j].elements, ElementHasId(elementId)) == Some(m)
              ==> UpdateInSections(ss, sectionId, columnId, elementId, u).0[k].columns[j].elements[m]
                  == MergeUpdate(ss[k].columns[j].elements[m], u).0
  {
    forall k, j, m |
      0 <= k < |ss| && 0 <= j < |ss[k].columns| && 0 <= m < |ss[k].columns[j].elements|
      && FirstIndex(ss, SectionHasId(sectionId)) == Some(k)
      && FirstIndex(ss[k].columns, ColumnHasId(columnId)) == Some(j)
      && FirstIndex(ss[k].columns[j].elements, ElementHasId(elementId)) == Some(m)
      ensures UpdateInSections(ss, sectionId, columnId, elementId, u).0[k].columns[j].elements[m]
              == MergeUpdate(ss[k].columns[j].elements[m], u).0
    {
      var cs := ss[k].columns;
      assert forall p :: 0 <= p < k ==> !SectionHasId(sectionId)(ss[p]);
      UpdateInSectionsFirst(ss, sectionId, columnId, elementId, u, k);
      assert forall p :: 0 <= p < j ==> !ColumnHasId(columnId)(cs[p]);
      UpdateInColumnsFirst(cs, columnId, elementId, u, j);
      assert forall p :: 0 <= p < m ==> !ElementHasId(elementId)(cs[j].elements[p]);
      UpdateInElementsFirst(cs[j].elements, elementId, u, m);
    }
  }

  lemma {:induction false} UpdateInSectionsFirst(ss: seq<Section>, sectionId: int, columnId: int, elementId: real, u: ElementUpdate, k: nat)
    requires k < |ss| && ss[k].id == sectionId
    requires forall p :: 0 <= p < k ==> ss[p].id != sectionId
    ensures UpdateInSections(ss, sectionId, columnId, elementId, u).0[k].columns
            == UpdateInColumns(ss[k].columns, columnId, elementId, u).0
    decreases k
  {
    if k > 0 {
      var tail := UpdateInSections(ss[1..], sectionId, columnId, elementId, u);
      assert UpdateInSections(ss, sectionId, columnId, elementId, u) == ([ss[0]] + tail.0, tail.1);
      UpdateInSectionsFirst(ss[1..], sectionId, columnId, elementId, u, k - 1);
      assert ss[1..][k - 1] == ss[k];
    }
  }

  lemma {:induction false} UpdateInSectionsSync(ss: seq<Section>, sectionId: int, columnId: int, elementId: real, u: ElementUpdate)
    requires LinkSafe(u) && DocInSync(ss)
    ensures DocInSync(UpdateInSections(ss, sectionId, columnId, elementId, u).0)
    decreases |ss|
  {
    if |ss| > 0 {
      var u1 := u;
      assert ColumnsInSync(ss[0].columns);
      if ss[0].id == sectionId {
        UpdateInColumnsSync(ss[0].columns, columnId, elementId, u);
        u1 := UpdateInColumns(ss[0].columns, columnId, elementId, u).1;
      }
      var r := UpdateInSections(ss, sectionId, columnId, elementId, u).0;
      var tail := ss[1..];
      assert DocInSync(tail) by {
        forall k, j, m | 0 <= k < |tail| && 0 <= j < |tail[k].columns| && 0 <= m < |tail[k].columns[j].elements|
          ensures LinkInSync(tail[k].columns[j].elements[m])
        {
          assert tail[k] == ss[k + 1];
        }
      }
      UpdateInSectionsSync(tail, sectionId, columnId, elementId, u1);
      assert ColumnsInSync(r[0].columns);
      forall k, j, m | 0 <= k < |r| && 0 <= j < |r[k].columns| && 0 <= m < |r[k].columns[j].elements|
        ensures LinkInSync(r[k].columns[j].elements[m])
      {
        if k > 0 {
          assert r[k] == UpdateInSections(tail, sectionId, columnId, elementId, u1).0[k - 1];
        }
      }
    }
  }

  /** `updateElement` as written. Only elements on the addressed path can
      change, and only by the update; the layout stays as it was. */
  function UpdateElement(ss: seq<Section>, sectionId: int, columnId: int, elementId: real, u: ElementUpdate): (r: seq<Section>)
    ensures SameLayout(r, ss)
    ensures forall k :: 0 <= k < |ss| && ss[k].id != sectionId ==> r[k] == ss[k]
    ensures forall k, j :: 0 <= k < |ss| && 0 <= j < |ss[k].columns| && !Addressed(ss, k, j, sectionId, columnId) ==>
              r[k].columns[j] == ss[k].columns[j]
    ensures forall k, j :: 0 <= k < |ss| && 0 <= j < |ss[k].columns| ==>
              |r[k].columns[j].elements| == |ss[k].columns[j].elements|
    ensures forall k, j, m ::
              0 <= k < |ss| && 0 <= j < |ss[k].columns| && 0 <= m < |ss[k].columns[j].elements|
              && ss[k].columns[j].elements[m].id != elementId
              ==> r[k].columns[j].elements[m] == ss[k].columns[j].elements[m]
    ensures forall k, j, m ::
              0 <= k < |ss| && 0 <= j < |ss[k].columns| && 0 <= m < |ss[k].columns[j].elements|
              && Addressed(ss, k, j, sectionId, columnId) && ss[k].columns[j].elements[m].id == elementId
              ==> TakesPlainFields(r[k].columns[j].elements[m], ss[k].columns[j].elements[m], u)
    ensures forall k, j, m ::
              0 <= k < |ss| && 0 <= j < |ss[k].columns| && 0 <= m < |ss[k].columns[j].elements|
              && FirstIndex(ss, SectionHasId(sectionId)) == Some(k)
              && FirstIndex(ss[k].columns, ColumnHasId(columnId)) == Some(j)
              && FirstIndex(ss[k].columns[j].elements, ElementHasId(elementId)) == Some(m)
              ==> r[k].columns[j].elements[m] == MergeUpdate(ss[k].columns[j].elements[m], u).0
  {
    UpdateInSectionsFirstPath(ss, sectionId, columnId, elementId, u);
    UpdateInSections(ss, sectionId, columnId, elementId, u).0
  }

  /** An edit never breaks the link/company-id agreement of a document, as
      long as the company id it writes is a non-empty value without `&`. */
  lemma UpdateElementKeepsSync(ss: seq<Section>, sectionId: int, columnId: int, elementId: real, u: ElementUpdate)
    requires DocInSync(ss) && LinkSafe(u)
    ensures DocInSync(UpdateElement(ss, sectionId, columnId, elementId, u))
  {
    UpdateInSectionsSync(ss, sectionId, columnId, elementId, u);
  }

  /** With unique ids along the path, the addressed element is merged with
      the update exactly as the caller passed it. */
  lemma UpdateElementUnique(ss: seq<Section>, sectionId: int, columnId: int, elementId: real, u: ElementUpdate, k: nat, j: nat, m: nat)
    requires IdsDistinct(ss)
    requires k < |ss| && j < |ss[k].columns| && m < |ss[k].columns[j].elements|
    requires Addressed(ss, k, j, sectionId, columnId) && ss[k].columns[j].elements[m].id == elementId
    requires forall p :: 0 <= p < m ==> ss[k].columns[j].elements[p].id != elementId
    ensures UpdateElement(ss, sectionId, columnId, elementId, u)[k].columns[j].elements[m]
            == MergeUpdate(ss[k].columns[j].elements[m], u).0
  {
    var cs := ss[k].columns;
    assert ColumnIdsDistinct(cs);
    UpdateInSectionsFirst(ss, sectionId, columnId, elementId, u, k);
    UpdateInColumnsFirst(cs, columnId, elementId, u, j);
    UpdateInElementsFirst(cs[j].elements, elementId, u, m);
  }

  /** The merge with the `href` edit kept: an update that carries a truthy
      `href` stores that `href`, and takes its company id from it when it
      carries one; only an update without an `href` rewrites the existing
      link with its company id. */
  function MergeIntended(e: Element, u: ElementUpdate): (r: Element)
    ensures r.id == u.id.GetOr(e.id) && r.kind == u.kind.GetOr(e.kind)
    ensures r.content == u.content.GetOr(e.content) && r.style == u.style.GetOr(e.style)
    ensures Truthy(u.href) ==> r.href == u.href
    ensures Truthy(u.href) && Extract(u.href.value).Some? ==> r.companyId == Extract(u.href.value)
    ensures !Truthy(u.href) ==> r == MergeUpdate(e, u).0
  {
    var u1 :=
      if Truthy(u.href) then
        (if Extract(u.href.value).Some? then u.(companyId := Extract(u.href.value)) else u)
      else if Truthy(u.companyId) && Truthy(e.href) then
        u.(href := Some(ReplaceFirst(e.href.value, u.companyId.value)))
      else u;
    Overlay(e, u1)
  }

  lemma MergeIntendedKeepsSync(e: Element, u: ElementUpdate)
    requires LinkInSync(e) && LinkSafe(u)
    ensures LinkInSync(MergeIntended(e, u))
  {
    if !Truthy(u.href) {
      MergeKeepsSync(e, u);
    }
  }

  /** Applying the same edit twice is applying it once. */
  lemma MergeIntendedIdempotent(e: Element, u: ElementUpdate)
    requires LinkSafe(u)
    ensures MergeIntended(MergeIntended(e, u), u) == MergeIntended(e, u)
  {
    var r := MergeIntended(e, u);
    if !Truthy(u.href) && Truthy(u.companyId) && Truthy(e.href) {
      var h := e.href.value;
      if Extract(h).Some? {
        ReplaceTwice(h, u.companyId.value, u.companyId.value);
        ExtractAfterReplace(h, u.companyId.value);
      }
      assert r.href == Some(ReplaceFirst(h, u.companyId.value));
    }
  }

  /** `updateElement` with the `href` edit kept and a fresh update for each
      matching element. */
  function UpdateElementIntended(ss: seq<Section>, sectionId: int, columnId: int, elementId: real, u: ElementUpdate): (r: seq<Section>)
    ensures SameLayout(r, ss)
    ensures forall k :: 0 <= k < |ss| && ss[k].id != sectionId ==> r[k] == ss[k]
    ensures forall k, j :: 0 <= k < |ss| && 0 <= j < |ss[k].columns| ==>
              |r[k].columns[j].elements| == |ss[k].columns[j].elements|
    ensures forall k, j, m :: 0 <= k < |ss| && 0 <= j < |ss[k].columns| && 0 <= m < |ss[k].columns[j].elements| ==>
              r[k].columns[j].elements[m] ==
                if Addressed(ss, k, j, sectionId, columnId) && ss[k].columns[j].elements[m].id == elementId
                then MergeIntended(ss[k].columns[j].elements[m], u)
                else ss[k].columns[j].elements[m]
  {
    var edit := (c: Column) => c.(elements := MapElements(c.elements, elementId, (e: Element) => MergeIntended(e, u)));
    MapSections(ss, sectionId, (s: Section) => s.(columns := MapColumns(s.columns, columnId, edit)))
  }

  lemma UpdateElementIntendedKeepsSync(ss: seq<Section>, sectionId: int, columnId: int, elementId: real, u: ElementUpdate)
    requires DocInSync(ss) && LinkSafe(u)
    ensures DocInSync(UpdateElementIntended(ss, sectionId, columnId, elementId, u))
  {
    var r := UpdateElementIntended(ss, sectionId, columnId, elementId, u);
    forall k, j, m | 0 <= k < |r| && 0 <= j < |r[k].columns| && 0 <= m < |r[k].columns[j].elements|
      ensures LinkInSync(r[k].columns[j].elements[m])
    {
      MergeIntendedKeepsSync(ss[k].columns[j].elements[m], u);
    }
  }

  /** The link `companyID=<v>` followed by `rest`. */
  function LinkWith(v: string, rest: string): string {
    Key + v + rest
  }

  lemma ExtractLinkWith(v: string, rest: string)
    requires |v| > 0 && '&' !in v && (|rest| == 0 || rest[0] == '&')
    ensures Extract(LinkWith(v, rest)) == Some(v)
  {
    ExtractAfterPlainPrefix("", v, rest);
    assert "" + Key + v + rest == LinkWith(v, rest);
  }

  /** The input that shows an `href` edit being thrown away: a button linked
      to `companyID=1` whose link is edited to `companyID=2&x` ends up with
      `companyID=2` — the new company id in the OLD link — while the
      corrected merge stores the edited link. */
  lemma HrefEditDiscarded()
    ensures var e := Element(1.0, Button, "Button Text", DefaultStyle(Button), Some(LinkWith("1", "")), Some("1"));
            var u := NoUpdate.(href := Some(LinkWith("2", "&x")));
            MergeUpdate(e, u).0.href == Some(LinkWith("2", ""))
            && MergeUpdate(e, u).0.href != u.href
            && MergeIntended(e, u).href == u.href
            && MergeIntended(e, u).companyId == Some("2")
  {
    var linked := LinkWith("1", "");
    ExtractLinkWith("2", "&x");
    ExtractLinkWith("1", "");
    ReplaceShape(linked, "2");
    assert FirstMatch(linked) == Some(0) by {
      MatchAtStart(Key, "1");
      assert Key + "1" == linked;
    }
    ValueEndIs(linked, |Key|, |linked|);
    assert linked[..|Key|] + "2" + linked[|linked|..] == LinkWith("2", "");
    assert |LinkWith("2", "")| != |LinkWith("2", "&x")|;
  }

  /** With two elements of the same id in one column, the update object the
      first one mutated reaches the second: an element without a link gains
      the first element's rewritten link. */
  lemma SharedUpdateReachesDuplicate()
    ensures var first := Element(1.0, Button, "Button Text", DefaultStyle(Button), Some(LinkWith("1", "")), Some("1"));
            var second := Element(1.0, Text, "Text content", DefaultStyle(Text), None, None);
            var u := NoUpdate.(companyId := Some("2"));
            UpdateInElements([first, second], 1.0, u).0[1].href == Some(LinkWith("2", ""))
            && MergeIntended(second, u).href == None
  {
    var linked := LinkWith("1", "");
    ExtractLinkWith("1", "");
    ExtractLinkWith("2", "");
    ReplaceShape(linked, "2");
    assert FirstMatch(linked) == Some(0) by {
      MatchAtStart(Key, "1");
      assert Key + "1" == linked;
    }
    ValueEndIs(linked, |Key|, |linked|);
    assert linked[..|Key|] + "2" + linked[|linked|..] == LinkWith("2", "");
  }
}
