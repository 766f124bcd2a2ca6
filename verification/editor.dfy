/** The editor's state: the sections of the template and the three
    selections of the properties panel (a section, a column of it, and an
    element addressed by its full path), each possibly empty. */
module Editor {
  import opened Optional
  import opened Types

  /** The address of an element: section id, column id, element id. */
  datatype ElementPath = ElementPath(sectionId: int, columnId: int, elementId: real)

  datatype EditorState = EditorState(
    sections: seq<Section>,
    activeSection: Option<int>,
    activeColumn: Option<int>,
    activeElement: Option<ElementPath>)

  /** The section, column and element a path resolves to. */
  datatype ElementDetails = ElementDetails(section: Section, column: Column, element: Element)

  /** No two sections share an id. */
  predicate SectionIdsDistinct(ss: seq<Section>) {
    forall i, j :: 0 <= i < j < |ss| ==> ss[i].id != ss[j].id
  }

  function SectionId(s: Section): int { s.id }

  /** No two columns of one section share an id. */
  predicate ColumnIdsDistinct(cs: seq<Column>) {
    forall i, j :: 0 <= i < j < |cs| ==> cs[i].id != cs[j].id
  }

  /** Ids are unique at the section level and within every section. */
  predicate IdsDistinct(ss: seq<Section>) {
    SectionIdsDistinct(ss) && forall i :: 0 <= i < |ss| ==> ColumnIdsDistinct(ss[i].columns)
  }

  /** Some section, column and element along the path carry its three ids. */
  predicate Resolves(ss: seq<Section>, p: ElementPath) {
    exists i, j, k :: 0 <= i < |ss| && 0 <= j < |ss[i].columns| && 0 <= k < |ss[i].columns[j].elements|
      && ss[i].id == p.sectionId && ss[i].columns[j].id == p.columnId
      && ss[i].columns[j].elements[k].id == p.elementId
  }

  /** The search predicates of the three lookup levels. */
  function SectionHasId(id: int): Section -> bool {
    (s: Section) => s.id == id
  }

  function ColumnHasId(id: int): Column -> bool {
    (c: Column) => c.id == id
  }

  function ElementHasId(id: real): Element -> bool {
    (e: Element) => e.id == id
  }

  /** The path lookup: the first section with the id, then the first column
      of it with the id, then the first element of it with the id; any level
      that is missing gives None, as does an empty element selection. */
  function GetActiveElementDetails(st: EditorState): (r: Option<ElementDetails>)
    ensures r.Some? ==> st.activeElement.Some?
    ensures r.Some? ==> r.value.section in st.sections && r.value.section.id == st.activeElement.value.sectionId
    ensures r.Some? ==> r.value.column in r.value.section.columns && r.value.column.id == st.activeElement.value.columnId
    ensures r.Some? ==> r.value.element in r.value.column.elements && r.value.element.id == st.activeElement.value.elementId
    ensures r.Some? ==> Resolves(st.sections, st.activeElement.value)
    ensures r.Some? ==>
              exists i :: 0 <= i < |st.sections| && st.sections[i] == r.value.section
                && forall p :: 0 <= p < i ==> st.sections[p].id != st.activeElement.value.sectionId
    ensures r.Some? ==>
              exists j :: 0 <= j < |r.value.section.columns| && r.value.section.columns[j] == r.value.column
                && forall q :: 0 <= q < j ==> r.value.section.columns[q].id != st.activeElement.value.columnId
    ensures r.Some? ==>
              exists k :: 0 <= k < |r.value.column.elements| && r.value.column.elements[k] == r.value.element
                && forall q :: 0 <= q < k ==> r.value.column.elements[q].id != st.activeElement.value.elementId
  {
    match st.activeElement
    case None => None
    case Some(p) =>
      match FirstIndex(st.sections, SectionHasId(p.sectionId))
      case None => None
      case Some(i) =>
        var section := st.sections[i];
        match FirstIndex(section.columns, ColumnHasId(p.columnId))
        case None => None
        case Some(j) =>
          var column := section.columns[j];
          match FirstIndex(column.elements, ElementHasId(p.elementId))
          case None => None
          case Some(k) =>
            assert st.sections[i].columns[j].elements[k].id == p.elementId;
            assert forall q :: 0 <= q < i ==> !SectionHasId(p.sectionId)(st.sections[q]);
            assert forall q :: 0 <= q < j ==> !ColumnHasId(p.columnId)(section.columns[q]);
            assert forall q :: 0 <= q < k ==> !ElementHasId(p.elementId)(column.elements[q]);
            Some(ElementDetails(section, column, column.elements[k]))
  }

  /** With unique section ids and unique column ids per section, a selected
      path that resolves is found, in the section and column it names (the
      converse is the lookup's own postcondition). */
  lemma DetailsFoundWhenResolved(st: EditorState, i: nat, j: nat, k: nat)
    requires IdsDistinct(st.sections)
    requires st.activeElement.Some?
    requires i < |st.sections| && j < |st.sections[i].columns| && k < |st.sections[i].columns[j].elements|
    requires st.sections[i].id == st.activeElement.value.sectionId
    requires st.sections[i].columns[j].id == st.activeElement.value.columnId
    requires st.sections[i].columns[j].elements[k].id == st.activeElement.value.elementId
    ensures GetActiveElementDetails(st).Some?
    ensures GetActiveElementDetails(st).value.section == st.sections[i]
    ensures GetActiveElementDetails(st).value.column == st.sections[i].columns[j]
    ensures (forall q :: 0 <= q < k ==> st.sections[i].columns[j].elements[q].id != st.activeElement.value.elementId)
            ==> GetActiveElementDetails(st).value.element == st.sections[i].columns[j].elements[k]
  {
    var p := st.activeElement.value;
    var ss := st.sections;
    var cs := ss[i].columns;
    FirstIndexIs(ss, SectionHasId(p.sectionId), i);
    assert ColumnIdsDistinct(cs);
    FirstIndexIs(cs, ColumnHasId(p.columnId), j);
    var es := cs[j].elements;
    if forall q :: 0 <= q < k ==> es[q].id != p.elementId {
      FirstIndexIs(es, ElementHasId(p.elementId), k);
    }
  }

  /** Column `j` of section `k` is the one a (section id, column id) pair
      addresses. */
  predicate Addressed(ss: seq<Section>, k: int, j: int, sectionId: int, columnId: int)
    requires 0 <= k < |ss| && 0 <= j < |ss[k].columns|
  {
    ss[k].id == sectionId && ss[k].columns[j].id == columnId
  }

  /** Two documents with the same sections, columns, ids, colours and
      widths, and the same number of elements in each column. */
  predicate SameLayout(a: seq<Section>, b: seq<Section>) {
    |a| == |b|
    && (forall k :: 0 <= k < |a| ==>
          a[k].id == b[k].id && a[k].backgroundColor == b[k].backgroundColor
          && |a[k].columns| == |b[k].columns|)
    && (forall k, j :: 0 <= k < |a| && 0 <= j < |a[k].columns| && j < |b[k].columns| ==>
          a[k].columns[j].id == b[k].columns[j].id && a[k].columns[j].width == b[k].columns[j].width)
  }

  /** Rewrites by `f` every section with the id. */
  function MapSections(ss: seq<Section>, id: int, f: Section -> Section): (r: seq<Section>)
    ensures |r| == |ss|
    ensures forall k :: 0 <= k < |ss| ==> r[k] == (if ss[k].id == id then f(ss[k]) else ss[k])
  {
    MapWhere(ss, SectionHasId(id), f)
  }

  /** Rewrites by `f` every column with the id. */
  function MapColumns(cs: seq<Column>, id: int, f: Column -> Column): (r: seq<Column>)
    ensures |r| == |cs|
    ensures forall k :: 0 <= k < |cs| ==> r[k] == (if cs[k].id == id then f(cs[k]) else cs[k])
  {
    MapWhere(cs, ColumnHasId(id), f)
  }

  /** Rewrites by `f` every element with the id. */
  function MapElements(es: seq<Element>, id: real, f: Element -> Element): (r: seq<Element>)
    ensures |r| == |es|
    ensures forall k :: 0 <= k < |es| ==> r[k] == (if es[k].id == id then f(es[k]) else es[k])
  {
    MapWhere(es, ElementHasId(id), f)
  }
}
