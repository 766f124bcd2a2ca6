/** Operations on the list of sections: adding one with a fresh id, removing
    by id, moving one place up or down, the drag-and-drop reorder, and
    changing a background colour. */
module SectionOps {
  import opened Optional
  import opened Types
  import opened Editor

  const DefaultBackground := "#ffffff"
  const FullWidth: real := 100.0

  /** The largest section id of a non-empty list. */
  function MaxSectionId(ss: seq<Section>): (m: int)
    requires |ss| > 0
    ensures forall k :: 0 <= k < |ss| ==> ss[k].id <= m
    ensures exists k :: 0 <= k < |ss| && ss[k].id == m
    decreases |ss|
  {
    if |ss| == 1 then ss[0].id
    else
      var m := MaxSectionId(ss[1..]);
      assert forall k :: 1 <= k < |ss| ==> ss[k] == ss[1..][k - 1];
      if ss[0].id >= m then ss[0].id else m
  }

  /** The id a new section gets: 0 for an empty list, one more than the
      largest id otherwise. */
  function NextSectionId(ss: seq<Section>): (r: int)
    ensures |ss| == 0 ==> r == 0
    ensures forall k :: 0 <= k < |ss| ==> ss[k].id < r
    ensures |ss| > 0 ==> exists k :: 0 <= k < |ss| && r == ss[k].id + 1
  {
    if |ss| > 0 then MaxSectionId(ss) + 1 else 0
  }

  /** Appends a white section with a single empty full-width column whose id
      no existing section carries; the selections stay as they are. */
  function AddSection(st: EditorState): (r: EditorState)
    ensures |r.sections| == |st.sections| + 1
    ensures r.sections[..|st.sections|] == st.sections
    ensures forall k :: 0 <= k < |st.sections| ==> st.sections[k].id != r.sections[|st.sections|].id
    ensures r.sections[|st.sections|].backgroundColor == DefaultBackground
    ensures r.sections[|st.sections|].columns == [Column(0, [], FullWidth)]
    ensures r.activeSection == st.activeSection && r.activeColumn == st.activeColumn
    ensures r.activeElement == st.activeElement
  {
    var added := Section(NextSectionId(st.sections), DefaultBackground, [Column(0, [], FullWidth)]);
    st.(sections := st.sections + [added])
  }

  /** A fresh id keeps every id unique. */
  lemma AddSectionKeepsIdsDistinct(st: EditorState)
    requires IdsDistinct(st.sections)
    ensures IdsDistinct(AddSection(st).sections)
  {
    var r := AddSection(st).sections;
    var n := |st.sections|;
    forall i | 0 <= i < |r| ensures ColumnIdsDistinct(r[i].columns) {
      if i < n {
        assert r[i] == r[..n][i];
      }
    }
    forall i, j | 0 <= i < j < |r| ensures r[i].id != r[j].id {
      assert r[i] == r[..n][i];
      if j < n {
        assert r[j] == r[..n][j];
      }
    }
  }

  /** The filter predicate of `removeSection`. */
  function SectionLacksId(id: int): Section -> bool {
    (s: Section) => s.id != id
  }

  /** The sections whose id differs, in order. */
  function WithoutSection(ss: seq<Section>, id: int): (r: seq<Section>)
    ensures |r| <= |ss|
    ensures forall s :: s in r <==> s in ss && s.id != id
  {
    Filter(ss, SectionLacksId(id))
  }

  /** Removal works section by section and keeps their order: it
      distributes over concatenation, drops a section with the id, and keeps
      any other. */
  lemma WithoutSectionInOrder(a: seq<Section>, b: seq<Section>, s: Section, id: int)
    ensures WithoutSection(a + b, id) == WithoutSection(a, id) + WithoutSection(b, id)
    ensures WithoutSection([s], id) == (if s.id == id then [] else [s])
  {
    FilterAppend(a, b, SectionLacksId(id));
    assert [s][1..] == [];
  }

  /** Drops every section with the id; the section and column selections are
      cleared exactly when the removed id was the selected section, and the
      element selection is never touched. */
  function RemoveSection(st: EditorState, id: int): (r: EditorState)
    ensures r.sections == WithoutSection(st.sections, id)
    ensures forall s :: s in r.sections <==> s in st.sections && s.id != id
    ensures r.activeSection.None? <==> st.activeSection.None? || st.activeSection == Some(id)
    ensures r.activeSection.Some? ==> r.activeSection == st.activeSection
    ensures st.activeSection == Some(id) ==> r.activeColumn.None?
    ensures st.activeSection != Some(id) ==> r.activeColumn == st.activeColumn
    ensures r.activeElement == st.activeElement
  {
    var st' := st.(sections := WithoutSection(st.sections, id));
    if st.activeSection == Some(id) then st'.(activeSection := None, activeColumn := None) else st'
  }

  /** Removing the section just added gives back the original list. */
  lemma RemoveUndoesAdd(st: EditorState)
    ensures RemoveSection(AddSection(st), NextSectionId(st.sections)).sections == st.sections
  {
    var id := NextSectionId(st.sections);
    var added := AddSection(st).sections[|st.sections|];
    assert AddSection(st).sections == st.sections + [added];
    FilterAppend(st.sections, [added], SectionLacksId(id));
    FilterKeepsAll(st.sections, SectionLacksId(id));
    assert Filter([added], SectionLacksId(id)) == [];
  }

  /** Removal keeps a subsequence, so ids stay unique. */
  lemma WithoutSectionKeepsIdsDistinct(ss: seq<Section>, id: int)
    requires IdsDistinct(ss)
    ensures IdsDistinct(WithoutSection(ss, id))
  {
    var r := WithoutSection(ss, id);
    assert KeysDistinct(ss, SectionId);
    FilterKeepsDistinct(ss, SectionLacksId(id), SectionId);
    forall i | 0 <= i < |r| ensures ColumnIdsDistinct(r[i].columns) {
      assert r[i] in ss;
      var m :| 0 <= m < |ss| && ss[m] == r[i];
    }
  }

  /** A direction of `moveSection`. */
  datatype Direction = Up | Down

  /** Exchanges the sections at two positions. */
  function Swap(ss: seq<Section>, i: nat, j: nat): (r: seq<Section>)
    requires i < |ss| && j < |ss|
    ensures |r| == |ss| && multiset(r) == multiset(ss)
    ensures r[i] == ss[j] && r[j] == ss[i]
    ensures forall k :: 0 <= k < |ss| && k != i && k != j ==> r[k] == ss[k]
  {
    ss[i := ss[j]][j := ss[i]]
  }

  /** Where `moveSection` would put the first section with the id, when the
      section exists and that place is inside the list. */
  function MoveTarget(ss: seq<Section>, id: int, dir: Direction): (r: Option<(nat, nat)>)
    ensures r.Some? ==> r.value.0 < |ss| && r.value.1 < |ss|
    ensures r.Some? ==> FirstIndex(ss, SectionHasId(id)) == Some(r.value.0)
    ensures r.Some? ==> r.value.1 == (if dir == Up then r.value.0 - 1 else r.value.0 + 1)
    ensures r.None? <==> match FirstIndex(ss, SectionHasId(id))
                         case None => true
                         case Some(i) => (dir == Up && i == 0) || (dir == Down && i + 1 == |ss|)
  {
    match FirstIndex(ss, SectionHasId(id))
    case None => None
    case Some(i) =>
      if dir == Up then (if i == 0 then None else Some((i, i - 1)))
      else if i + 1 < |ss| then Some((i, i + 1)) else None
  }

  /** Swaps the first section with the id with its neighbour in the given
      direction; does nothing when there is no such section or no such
      neighbour. */
  function MoveSection(ss: seq<Section>, id: int, dir: Direction): (r: seq<Section>)
    ensures |r| == |ss| && multiset(r) == multiset(ss)
    ensures MoveTarget(ss, id, dir).None? ==> r == ss
    ensures MoveTarget(ss, id, dir).Some? ==>
              var (i, t) := MoveTarget(ss, id, dir).value;
              r[t] == ss[i] && r[i] == ss[t]
              && forall k :: 0 <= k < |ss| && k != i && k != t ==> r[k] == ss[k]
  {
    match MoveTarget(ss, id, dir)
    case None => ss
    case Some((i, t)) => Swap(ss, i, t)
  }

  /** A successful move up followed by a move down restores the list: the
      moved section is now the first with its id, one place higher. */
  lemma MoveUpThenDown(ss: seq<Section>, id: int)
    requires MoveTarget(ss, id, Up).Some?
    ensures MoveSection(MoveSection(ss, id, Up), id, Down) == ss
  {
    var (i, t) := MoveTarget(ss, id, Up).value;
    var r := MoveSection(ss, id, Up);
    forall j | 0 <= j < t ensures !SectionHasId(id)(r[j]) {
      assert r[j] == ss[j];
    }
    FirstIndexIs(r, SectionHasId(id), t);
    assert MoveTarget(r, id, Down) == Some((t, i));
    assert MoveSection(r, id, Down) == Swap(r, t, i);
  }

  /** With unique ids a successful move down followed by a move up restores
      the list. (Without unique ids it need not: if the neighbour carries the
      same id, the move up moves the neighbour.) */
  lemma MoveDownThenUp(ss: seq<Section>, id: int)
    requires SectionIdsDistinct(ss)
    requires MoveTarget(ss, id, Down).Some?
    ensures MoveSection(MoveSection(ss, id, Down), id, Up) == ss
  {
    var (i, t) := MoveTarget(ss, id, Down).value;
    var r := MoveSection(ss, id, Down);
    forall j | 0 <= j < t ensures !SectionHasId(id)(r[j]) {
      if j == i {
        assert r[j] == ss[t];
        assert ss[i].id == id;
      } else {
        assert r[j] == ss[j];
      }
    }
    FirstIndexIs(r, SectionHasId(id), t);
    assert MoveTarget(r, id, Up) == Some((t, i));
    assert MoveSection(r, id, Up) == Swap(r, t, i);
  }

  /** A move is a permutation of the list, so ids stay unique. */
  lemma MoveKeepsIdsDistinct(ss: seq<Section>, id: int, dir: Direction)
    requires IdsDistinct(ss)
    ensures IdsDistinct(MoveSection(ss, id, dir))
  {
    var r := MoveSection(ss, id, dir);
    if MoveTarget(ss, id, dir).Some? {
      var (i, t) := MoveTarget(ss, id, dir).value;
      // position k of the result holds position Src(k) of the input
      var src := (k: int) => if k == i then t else if k == t then i else k;
      forall k | 0 <= k < |r| ensures 0 <= src(k) < |ss| && r[k] == ss[src(k)] { }
      forall a, b | 0 <= a < b < |r| ensures r[a].id != r[b].id {
        assert r[a] == ss[src(a)] && r[b] == ss[src(b)];
        assert src(a) != src(b);
      }
    }
  }

  /** `xs.splice(i, 1)`: the list without position `i`. */
  function RemoveAt(xs: seq<Section>, i: nat): (r: seq<Section>)
    requires i < |xs|
    ensures |r| == |xs| - 1
  {
    xs[..i] + xs[i + 1..]
  }

  /** `xs.splice(i, 0, x)`: `x` inserted before position `i`, or appended when
      `i` is past the end. */
  function InsertAt(xs: seq<Section>, i: nat, x: Section): (r: seq<Section>)
    ensures |r| == |xs| + 1
    ensures r[if i < |xs| then i else |xs|] == x
  {
    var j := if i < |xs| then i else |xs|;
    xs[..j] + [x] + xs[j..]
  }

  lemma RemoveInserted(xs: seq<Section>, i: nat, x: Section)
    requires i <= |xs|
    ensures RemoveAt(InsertAt(xs, i, x), i) == xs
  {
    var r := InsertAt(xs, i, x);
    assert r[..i] == xs[..i];
    assert r[i + 1..] == xs[i..];
    assert xs == xs[..i] + xs[i..];
  }

  lemma InsertRemoved(xs: seq<Section>, i: nat)
    requires i < |xs|
    ensures InsertAt(RemoveAt(xs, i), i, xs[i]) == xs
  {
    var r := RemoveAt(xs, i);
    assert r[..i] == xs[..i];
    assert r[i..] == xs[i + 1..];
    assert xs == xs[..i] + [xs[i]] + xs[i + 1..];
  }

  /** The drag-and-drop reorder: without a destination nothing moves;
      otherwise the dragged section is taken out and reinserted at the
      destination (clamped to the end, as `splice` does). The drag library
      only reports sources that are positions of the list. */
  function HandleDragEnd(ss: seq<Section>, source: nat, destination: Option<nat>): (r: seq<Section>)
    requires source < |ss|
    ensures |r| == |ss| && multiset(r) == multiset(ss)
    ensures destination.None? ==> r == ss
    ensures destination.Some? ==> r[if destination.value < |ss| then destination.value else |ss| - 1] == ss[source]
    ensures destination.Some? ==>
              RemoveAt(r, if destination.value < |ss| then destination.value else |ss| - 1) == RemoveAt(ss, source)
  {
    match destination
    case None => ss
    case Some(d) =>
      var items := RemoveAt(ss, source);
      assert ss == ss[..source] + [ss[source]] + ss[source + 1..];
      assert multiset(ss) == multiset(items) + multiset{ss[source]};
      var r := InsertAt(items, d, ss[source]);
      var j := if d < |items| then d else |items|;
      assert items == items[..j] + items[j..];
      assert multiset(r) == multiset(items[..j]) + multiset{ss[source]} + multiset(items[j..]);
      RemoveInserted(items, j, ss[source]);
      assert InsertAt(items, j, ss[source]) == r;
      r
  }

  /** Dragging the section back to where it came from restores the list. */
  lemma DragBack(ss: seq<Section>, source: nat, destination: nat)
    requires source < |ss| && destination < |ss|
    ensures HandleDragEnd(HandleDragEnd(ss, source, Some(destination)), destination, Some(source)) == ss
  {
    var items := RemoveAt(ss, source);
    var r := HandleDragEnd(ss, source, Some(destination));
    assert r == InsertAt(items, destination, ss[source]);
    RemoveInserted(items, destination, ss[source]);
    InsertRemoved(ss, source);
  }

  /** Sets the background of every section with the id; nothing else
      changes. */
  function UpdateSectionBackground(ss: seq<Section>, id: int, color: string): (r: seq<Section>)
    ensures |r| == |ss|
    ensures forall k :: 0 <= k < |ss| ==> r[k].id == ss[k].id && r[k].columns == ss[k].columns
    ensures forall k :: 0 <= k < |ss| && ss[k].id == id ==> r[k].backgroundColor == color
    ensures forall k :: 0 <= k < |ss| && ss[k].id != id ==> r[k] == ss[k]
  {
    MapSections(ss, id, (s: Section) => s.(backgroundColor := color))
  }

  /** Only the last of two colour changes of one section is visible. */
  lemma BackgroundLastWins(ss: seq<Section>, id: int, c1: string, c2: string)
    ensures UpdateSectionBackground(UpdateSectionBackground(ss, id, c1), id, c2)
            == UpdateSectionBackground(ss, id, c2)
  {
  }

  /** Setting the colour the sections already have changes nothing. */
  lemma BackgroundUnchanged(ss: seq<Section>, id: int, color: string)
    requires forall k :: 0 <= k < |ss| && ss[k].id == id ==> ss[k].backgroundColor == color
    ensures UpdateSectionBackground(ss, id, color) == ss
  {
  }
}
