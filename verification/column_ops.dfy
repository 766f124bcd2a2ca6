/** Column layout of a section: splitting it into equal columns, merging
    its columns back into one, and the column-width editor of the
    properties panel. */
module ColumnOps {
  import opened Optional
  import opened Types
  import opened Editor
  import opened JsNumber
  import opened SectionOps

  /** `Math.max(...ids, 0)`: the largest column id, or 0 when that is
      larger or there are no columns. */
  function MaxColumnId(cs: seq<Column>): (m: int)
    ensures m >= 0
    ensures forall j :: 0 <= j < |cs| ==> cs[j].id <= m
    ensures m == 0 || exists j :: 0 <= j < |cs| && cs[j].id == m
    decreases |cs|
  {
    if |cs| == 0 then 0
    else
      var m := MaxColumnId(cs[1..]);
      assert forall j :: 1 <= j < |cs| ==> cs[j] == cs[1..][j - 1];
      if cs[0].id >= m then cs[0].id else m
  }

  /** Sum of the widths of the columns. */
  function TotalWidth(cs: seq<Column>): real
    decreases |cs|
  {
    if |cs| == 0 then 0.0 else cs[0].width + TotalWidth(cs[1..])
  }

  lemma {:induction false} TotalOfEqualWidths(cs: seq<Column>, w: real)
    requires forall j :: 0 <= j < |cs| ==> cs[j].width == w
    ensures TotalWidth(cs) == (|cs| as real) * w
    decreases |cs|
  {
    if |cs| > 0 {
      TotalOfEqualWidths(cs[1..], w);
    }
  }

  lemma {:induction false} FlattenOfEmpty(cs: seq<Column>)
    requires forall j :: 0 <= j < |cs| ==> cs[j].elements == []
    ensures Flatten(cs) == []
    decreases |cs|
  {
    if |cs| > 0 {
      FlattenOfEmpty(cs[1..]);
    }
  }

  /** The columns of `splitSection(n)`: the first, id 0, gathers every
      element in order; the other `n - 1` are empty with ids above every
      old id; all are `100 / n` wide. */
  function SplitColumns(cs: seq<Column>, n: nat): (r: seq<Column>)
    requires n >= 1
    ensures |r| == n
    ensures r[0].id == 0 && r[0].elements == Flatten(cs)
    ensures forall i :: 1 <= i < n ==> r[i].id == MaxColumnId(cs) + i && r[i].elements == []
    ensures forall i :: 0 <= i < n ==> r[i].width == FullWidth / (n as real)
    ensures ColumnIdsDistinct(r)
  {
    var w := FullWidth / (n as real);
    var m := MaxColumnId(cs);
    [Column(0, Flatten(cs), w)] + seq(n - 1, i requires 0 <= i < n - 1 => Column(m + i + 1, [], w))
  }

  /** `n` equal shares of the full width add up to it. */
  lemma EqualSharesFill(total: real, n: nat)
    requires n >= 1 && total == (n as real) * (FullWidth / (n as real))
    ensures total == FullWidth
  {
  }

  /** The widths of a split fill the row. */
  lemma SplitFillsRow(cs: seq<Column>, n: nat)
    requires n >= 1
    ensures TotalWidth(SplitColumns(cs, n)) == FullWidth
  {
    var r := SplitColumns(cs, n);
    TotalOfEqualWidths(r, FullWidth / (n as real));
    EqualSharesFill(TotalWidth(r), n);
  }

  /** A split keeps every element, in order, and the widths fill the row. */
  lemma SplitKeepsContent(cs: seq<Column>, n: nat)
    requires n >= 1
    ensures Flatten(SplitColumns(cs, n)) == Flatten(cs)
    ensures TotalWidth(SplitColumns(cs, n)) == FullWidth
  {
    var r := SplitColumns(cs, n);
    FlattenOfEmpty(r[1..]);
    assert Flatten(r) == r[0].elements + Flatten(r[1..]);
    SplitFillsRow(cs, n);
  }

  /** Splits every section with the id into `n` columns. */
  function SplitSection(ss: seq<Section>, id: int, n: nat): (r: seq<Section>)
    requires n >= 1
    ensures |r| == |ss|
    ensures forall k :: 0 <= k < |ss| ==> r[k].id == ss[k].id && r[k].backgroundColor == ss[k].backgroundColor
    ensures forall k :: 0 <= k < |ss| && ss[k].id == id ==> r[k].columns == SplitColumns(ss[k].columns, n)
    ensures forall k :: 0 <= k < |ss| && ss[k].id != id ==> r[k] == ss[k]
  {
    MapSections(ss, id, (s: Section) => s.(columns := SplitColumns(s.columns, n)))
  }

  /** The single column a merge leaves. */
  function MergedColumn(cs: seq<Column>): Column {
    Column(0, Flatten(cs), FullWidth)
  }

  /** `mergeColumns`: every section with the id is left with one full-width
      column, id 0, holding all of its elements in order; the column
      selection is always cleared. */
  function MergeColumns(st: EditorState, id: int): (r: EditorState)
    ensures |r.sections| == |st.sections|
    ensures forall k :: 0 <= k < |st.sections| ==>
              r.sections[k].id == st.sections[k].id && r.sections[k].backgroundColor == st.sections[k].backgroundColor
    ensures forall k :: 0 <= k < |st.sections| && st.sections[k].id == id ==>
              |r.sections[k].columns| == 1 && r.sections[k].columns[0].id == 0
              && r.sections[k].columns[0].width == FullWidth
              && Flatten(r.sections[k].columns) == Flatten(st.sections[k].columns)
    ensures forall k :: 0 <= k < |st.sections| && st.sections[k].id != id ==> r.sections[k] == st.sections[k]
    ensures r.activeColumn.None?
    ensures r.activeSection == st.activeSection && r.activeElement == st.activeElement
  {
    var merged := MapSections(st.sections, id, (s: Section) => s.(columns := [MergedColumn(s.columns)]));
    assert forall cs :: Flatten([MergedColumn(cs)]) == Flatten(cs) by {
      forall cs ensures Flatten([MergedColumn(cs)]) == Flatten(cs) {
        assert Flatten([MergedColumn(cs)]) == Flatten(cs) + Flatten([]);
      }
    }
    st.(sections := merged, activeColumn := None)
  }

  /** Merging after a split is merging: the split lost nothing. */
  lemma MergeAfterSplit(st: EditorState, id: int, n: nat)
    requires n >= 1
    ensures MergeColumns(st.(sections := SplitSection(st.sections, id, n)), id) == MergeColumns(st, id)
  {
    var a := MergeColumns(st.(sections := SplitSection(st.sections, id, n)), id);
    var b := MergeColumns(st, id);
    forall k | 0 <= k < |st.sections| ensures a.sections[k] == b.sections[k] {
      if st.sections[k].id == id {
        SplitKeepsContent(st.sections[k].columns, n);
      }
    }
  }

  /** A second merge changes nothing. */
  lemma MergeIdempotent(st: EditorState, id: int)
    ensures MergeColumns(MergeColumns(st, id), id) == MergeColumns(st, id)
  {
    var a := MergeColumns(st, id);
    var b := MergeColumns(a, id);
    forall k | 0 <= k < |st.sections| ensures b.sections[k] == a.sections[k] {
      if st.sections[k].id == id {
        assert Flatten(a.sections[k].columns) == Flatten(st.sections[k].columns);
        assert a.sections[k].columns == [MergedColumn(st.sections[k].columns)];
        assert Flatten([MergedColumn(a.sections[k].columns)]) == Flatten(a.sections[k].columns) + Flatten([]);
      }
    }
  }

  /** Splitting into one column gives the sections a merge gives. */
  lemma SplitIntoOneIsMerge(st: EditorState, id: int)
    ensures SplitSection(st.sections, id, 1) == MergeColumns(st, id).sections
  {
    var a := SplitSection(st.sections, id, 1);
    var b := MergeColumns(st, id).sections;
    forall k | 0 <= k < |st.sections| ensures a[k] == b[k] {
      if st.sections[k].id == id {
        assert a[k].columns == [MergedColumn(st.sections[k].columns)];
      }
    }
  }

  /** Splitting and merging keep every id unique. */
  lemma SplitMergeKeepIdsDistinct(st: EditorState, id: int, n: nat)
    requires n >= 1 && IdsDistinct(st.sections)
    ensures IdsDistinct(SplitSection(st.sections, id, n))
    ensures IdsDistinct(MergeColumns(st, id).sections)
  {
  }

  const MinEditorWidth := 10
  const MaxEditorWidth := 100

  /** The width the editor accepts from its input: a number inside
      10..100 after `parseInt`. */
  function AcceptedWidth(input: string): (r: Option<int>)
    ensures r.Some? ==> MinEditorWidth <= r.value <= MaxEditorWidth
    ensures r.Some? <==> ParseInt(input).Some? && MinEditorWidth <= ParseInt(input).value <= MaxEditorWidth
    ensures r.Some? ==> r == ParseInt(input)
  {
    match ParseInt(input)
    case None => None
    case Some(w) => if w < MinEditorWidth || w > MaxEditorWidth then None else Some(w)
  }

  /** Writes the width into every column with the column id of every
      section with the section id. */
  function SetWidthAt(ss: seq<Section>, sectionId: int, columnId: int, w: int): (r: seq<Section>)
    ensures |r| == |ss|
    ensures forall k :: 0 <= k < |ss| ==>
              r[k].id == ss[k].id && r[k].backgroundColor == ss[k].backgroundColor
              && |r[k].columns| == |ss[k].columns|
    ensures forall k, j :: 0 <= k < |ss| && 0 <= j < |ss[k].columns| ==>
              r[k].columns[j] == if Addressed(ss, k, j, sectionId, columnId)
                                 then ss[k].columns[j].(width := w as real)
                                 else ss[k].columns[j]
  {
    var setWidth := (c: Column) => c.(width := w as real);
    MapSections(ss, sectionId, (s: Section) => s.(columns := MapColumns(s.columns, columnId, setWidth)))
  }

  /** The column-width editor: an accepted width is written into the
      selected column of the selected section; any other input, or an empty
      selection, changes nothing. */
  function SetColumnWidth(st: EditorState, input: string): (r: EditorState)
    ensures AcceptedWidth(input).None? || st.activeSection.None? || st.activeColumn.None? ==> r == st
    ensures r.activeSection == st.activeSection && r.activeColumn == st.activeColumn
    ensures r.activeElement == st.activeElement
    ensures |r.sections| == |st.sections|
    ensures forall k :: 0 <= k < |st.sections| ==>
              r.sections[k].id == st.sections[k].id && r.sections[k].backgroundColor == st.sections[k].backgroundColor
              && |r.sections[k].columns| == |st.sections[k].columns|
    ensures forall k, j :: 0 <= k < |st.sections| && 0 <= j < |st.sections[k].columns| ==>
              r.sections[k].columns[j].id == st.sections[k].columns[j].id
              && r.sections[k].columns[j].elements == st.sections[k].columns[j].elements
    ensures forall k, j :: 0 <= k < |st.sections| && 0 <= j < |st.sections[k].columns| ==>
              r.sections[k].columns[j].width
              == if AcceptedWidth(input).Some? && st.activeSection.Some? && st.activeColumn.Some?
                    && Addressed(st.sections, k, j, st.activeSection.value, st.activeColumn.value)
                 then AcceptedWidth(input).value as real
                 else st.sections[k].columns[j].width
  {
    if AcceptedWidth(input).Some? && st.activeSection.Some? && st.activeColumn.Some? then
      st.(sections := SetWidthAt(st.sections, st.activeSection.value, st.activeColumn.value, AcceptedWidth(input).value))
    else st
  }

  /** Every width the editor writes lies in 10..100. */
  lemma EditedWidthInRange(st: EditorState, input: string, k: nat, j: nat)
    requires k < |st.sections| && j < |st.sections[k].columns|
    requires SetColumnWidth(st, input).sections[k].columns[j].width != st.sections[k].columns[j].width
    ensures MinEditorWidth as real <= SetColumnWidth(st, input).sections[k].columns[j].width <= MaxEditorWidth as real
  {
  }

  /** Typing a whole number in range sets the selected column to it; typing
      one outside the range changes nothing. */
  lemma WidthFromDecimal(st: EditorState, n: nat, rest: string)
    requires EndsNumeral(rest)
    ensures MinEditorWidth <= n <= MaxEditorWidth ==> AcceptedWidth(DecimalString(n) + rest) == Some(n)
    ensures !(MinEditorWidth <= n <= MaxEditorWidth) ==> SetColumnWidth(st, DecimalString(n) + rest) == st
  {
    ParseDecimal(n, rest);
  }

  /** Entering the same width twice is entering it once. */
  lemma SetColumnWidthIdempotent(st: EditorState, input: string)
    ensures SetColumnWidth(SetColumnWidth(st, input), input) == SetColumnWidth(st, input)
  {
    var a := SetColumnWidth(st, input);
    var b := SetColumnWidth(a, input);
    if AcceptedWidth(input).Some? && st.activeSection.Some? && st.activeColumn.Some? {
      forall k | 0 <= k < |st.sections| ensures b.sections[k] == a.sections[k] {
        assert b.sections[k].columns == a.sections[k].columns;
      }
    }
  }
}
