/** The catalogue of template variables and its grouping by category for
    the variables panel. */
module Variables {
  import opened Optional
  import opened Types

  /** The catalogue, in the order the panel lists it. */
  const Catalog: seq<TemplateVariable> := [
    TemplateVariable("$incident_newVal$", "This will hold a new value when someone change the incident property value one to another", "Incident"),
    TemplateVariable("$incident_oldVal$", "This will hold a old value when someone change the incident property value one to another", "Incident"),
    TemplateVariable("$incident_updatedField$", "Field Name which is updated", "Incident"),
    TemplateVariable("$incident_name$", "Name of the incident", "Incident"),
    TemplateVariable("$workflow_id$", "Unique workflow identifier", "Workflow"),
    TemplateVariable("$emoSignature_<key>$", "If you want to show emo signature data in a template this placeholder can be used", "Signature"),
    TemplateVariable("$incident_customFields_<fieldId>$", "This can be use to show custom field value in the template", "Custom Fields"),
    TemplateVariable("$incident_comment_status_current$", "Current status comment", "Comment"),
    TemplateVariable("$incident_comment_status_<statusId>$", "This can be used to append comment based on the status", "Comment"),
    TemplateVariable("$incident_lastComment$", "Last comment of the incident", "Comment"),
    TemplateVariable("$emoSignature_Hospital$", "Add emo signature data", "Signature"),
    TemplateVariable("$incident_assigneeName$", "Current assignee name", "Assignee"),
    TemplateVariable("$incident_previousAssigneeName$", "Previous assignee name", "Assignee"),
    TemplateVariable("$incident_previousAssigneeEmail$", "Previous assignee email", "Assignee"),
    TemplateVariable("$incident_updatedByName$", "Name of the person who updated the incident", "Update"),
    TemplateVariable("$incident_updatedByEmail$", "Email of the person who updated the incident", "Update"),
    TemplateVariable("$incident_id$", "Unique identifier used by the system", "Incident"),
    TemplateVariable("$incident_companyId$", "Company Id belong to incident", "Incident"),
    TemplateVariable("$incident_number$", "Human readable incident number (123)", "Incident"),
    TemplateVariable("$incident_created_date$", "Incident created date", "Incident"),
    TemplateVariable("$incident_description$", "Description of the incident", "Incident"),
    TemplateVariable("$incident_type$", "Type of the incident", "Incident"),
    TemplateVariable("$incident_status$", "Status of the incident", "Incident"),
    TemplateVariable("$incident_priority$", "Priority of the incident", "Incident"),
    TemplateVariable("$client_name$", "Name of the person who created the incident", "Client"),
    TemplateVariable("$client_email$", "Email of the person who created the incident", "Client"),
    TemplateVariable("$client_telephone$", "Telephone of the person who created the incident", "Client"),
    TemplateVariable("$incidentURL$", "Append Edit URL to Incident", "URL"),
    TemplateVariable("showFileUrl", "Show file URL", "URL"),
    TemplateVariable("\"objectListPlaceholder\": true,", "Object list placeholder", "Other")
  ]

  /** One heading of the panel: a category and its variables, in catalogue
      order. */
  datatype CategoryGroup = CategoryGroup(category: string, variables: seq<TemplateVariable>)

  function InCategory(c: string): TemplateVariable -> bool {
    (v: TemplateVariable) => v.category == c
  }

  function GroupHasCategory(c: string): CategoryGroup -> bool {
    (g: CategoryGroup) => g.category == c
  }

  /** The variables of one category, in order: the reference the grouping is
      measured against. */
  function OfCategory(vs: seq<TemplateVariable>, c: string): seq<TemplateVariable> {
    Filter(vs, InCategory(c))
  }

  /** The category of every variable, in order. */
  function Keys(vs: seq<TemplateVariable>): (r: seq<string>)
    ensures |r| == |vs|
    ensures forall k :: 0 <= k < |vs| ==> r[k] == vs[k].category
  {
    seq(|vs|, k requires 0 <= k < |vs| => vs[k].category)
  }

  /** The distinct strings of `ks`, each where it first occurs. */
  function FirstOccurrences(ks: seq<string>): (r: seq<string>)
    ensures forall i, j :: 0 <= i < j < |r| ==> r[i] != r[j]
    decreases |ks|
  {
    if |ks| == 0 then []
    else
      var cs := FirstOccurrences(ks[..|ks| - 1]);
      var c := ks[|ks| - 1];
      if c in cs then cs else cs + [c]
  }

  /** The distinct categories of `vs`, each where it first occurs. */
  function Categories(vs: seq<TemplateVariable>): seq<string> {
    FirstOccurrences(Keys(vs))
  }

  /** One step of the grouping: the variable is pushed onto the group of its
      category, and a new group is opened after the others when there is
      none yet. */
  function AddToGroups(gs: seq<CategoryGroup>, v: TemplateVariable): (r: seq<CategoryGroup>) {
    match FirstIndex(gs, GroupHasCategory(v.category))
    case Some(i) => gs[i := gs[i].(variables := gs[i].variables + [v])]
    case None => gs + [CategoryGroup(v.category, [v])]
  }

  /** `getVariablesByCategory` read through `Object.entries`: a left fold of
      the catalogue into groups, which come out in the order their keys were
      first inserted. */
  function GroupByCategory(vs: seq<TemplateVariable>): seq<CategoryGroup>
    decreases |vs|
  {
    if |vs| == 0 then [] else AddToGroups(GroupByCategory(vs[..|vs| - 1]), vs[|vs| - 1])
  }

  /** The grouping described directly: one group per category, in order of
      first occurrence, holding exactly the variables of that category. */
  function ReferenceGroups(vs: seq<TemplateVariable>): (r: seq<CategoryGroup>)
    ensures |r| == |Categories(vs)|
    ensures forall i :: 0 <= i < |r| ==>
              r[i] == CategoryGroup(Categories(vs)[i], OfCategory(vs, Categories(vs)[i]))
  {
    var cs := Categories(vs);
    seq(|cs|, i requires 0 <= i < |cs| => CategoryGroup(cs[i], OfCategory(vs, cs[i])))
  }

  /** A category is listed exactly when some variable has it. */
  lemma {:induction false} CategoriesComplete(vs: seq<TemplateVariable>, c: string)
    ensures c in Categories(vs) <==> exists k :: 0 <= k < |vs| && vs[k].category == c
    decreases |vs|
  {
    if |vs| > 0 {
      var init := vs[..|vs| - 1];
      assert Keys(vs)[..|vs| - 1] == Keys(init);
      CategoriesComplete(init, c);
      if c in Categories(vs) && c !in Categories(init) {
        assert vs[|vs| - 1].category == c;
      }
      if exists k :: 0 <= k < |init| && init[k].category == c {
        var k :| 0 <= k < |init| && init[k].category == c;
        assert vs[k].category == c;
      }
    }
  }

  /** Adding a variable at the end extends its own category's list only. */
  lemma OfCategorySnoc(vs: seq<TemplateVariable>, v: TemplateVariable, c: string)
    ensures OfCategory(vs + [v], c) == OfCategory(vs, c) + (if v.category == c then [v] else [])
  {
    FilterAppend(vs, [v], InCategory(c));
    assert Filter([v], InCategory(c)) == (if v.category == c then [v] else []) + Filter([], InCategory(c));
  }

  /** A category that no variable has has no variables. */
  lemma {:induction false} OfAbsentCategory(vs: seq<TemplateVariable>, c: string)
    requires forall k :: 0 <= k < |vs| ==> vs[k].category != c
    ensures OfCategory(vs, c) == []
    decreases |vs|
  {
    if |vs| > 0 {
      OfAbsentCategory(vs[1..], c);
    }
  }

  /** One step of the fold keeps the grouping equal to the reference. */
  lemma AddToReference(vs: seq<TemplateVariable>, v: TemplateVariable)
    ensures AddToGroups(ReferenceGroups(vs), v) == ReferenceGroups(vs + [v])
  {
    var gs := ReferenceGroups(vs);
    var ext := vs + [v];
    assert ext[..|ext| - 1] == vs;
    assert Keys(ext)[..|ext| - 1] == Keys(vs);
    var cs := Categories(vs);
    var r := ReferenceGroups(ext);
    forall c ensures OfCategory(ext, c) == OfCategory(vs, c) + (if v.category == c then [v] else []) {
      OfCategorySnoc(vs, v, c);
    }
    match FirstIndex(gs, GroupHasCategory(v.category))
    case Some(i) =>
      assert cs[i] == v.category;
      assert Categories(ext) == cs;
      forall j | 0 <= j < |cs| ensures AddToGroups(gs, v)[j] == r[j] {
      }
    case None =>
      assert v.category !in cs;
      CategoriesComplete(vs, v.category);
      OfAbsentCategory(vs, v.category);
      assert Categories(ext) == cs + [v.category];
      forall j | 0 <= j < |cs| + 1 ensures AddToGroups(gs, v)[j] == r[j] {
      }
  }

  /** The fold computes the reference grouping. */
  lemma {:induction false} GroupByIsReference(vs: seq<TemplateVariable>)
    ensures GroupByCategory(vs) == ReferenceGroups(vs)
    decreases |vs|
  {
    if |vs| > 0 {
      var init := vs[..|vs| - 1];
      GroupByIsReference(init);
      AddToReference(init, vs[|vs| - 1]);
      assert init + [vs[|vs| - 1]] == vs;
    }
  }

  /** The number of variables listed under all the groups together. */
  function TotalVariables(gs: seq<CategoryGroup>): nat
    decreases |gs|
  {
    if |gs| == 0 then 0 else |gs[0].variables| + TotalVariables(gs[1..])
  }

  lemma {:induction false} TotalVariablesSnoc(gs: seq<CategoryGroup>, g: CategoryGroup)
    ensures TotalVariables(gs + [g]) == TotalVariables(gs) + |g.variables|
    decreases |gs|
  {
    if |gs| > 0 {
      assert (gs + [g])[1..] == gs[1..] + [g];
      TotalVariablesSnoc(gs[1..], g);
    }
  }

  lemma {:induction false} TotalVariablesUpdate(gs: seq<CategoryGroup>, i: nat, g: CategoryGroup)
    requires i < |gs|
    ensures TotalVariables(gs[i := g]) + |gs[i].variables| == TotalVariables(gs) + |g.variables|
    decreases |gs|
  {
    if i > 0 {
      assert gs[i := g][1..] == gs[1..][i - 1 := g];
      TotalVariablesUpdate(gs[1..], i - 1, g);
    } else {
      assert gs[i := g][1..] == gs[1..];
    }
  }

  /** Each step of the fold lists exactly one more variable. */
  lemma AddToGroupsCount(gs: seq<CategoryGroup>, v: TemplateVariable)
    ensures TotalVariables(AddToGroups(gs, v)) == TotalVariables(gs) + 1
  {
    match FirstIndex(gs, GroupHasCategory(v.category))
    case Some(i) =>
      TotalVariablesUpdate(gs, i, gs[i].(variables := gs[i].variables + [v]));
    case None =>
      TotalVariablesSnoc(gs, CategoryGroup(v.category, [v]));
  }

  lemma {:induction false} GroupByCount(vs: seq<TemplateVariable>)
    ensures TotalVariables(GroupByCategory(vs)) == |vs|
    decreases |vs|
  {
    if |vs| > 0 {
      GroupByCount(vs[..|vs| - 1]);
      AddToGroupsCount(GroupByCategory(vs[..|vs| - 1]), vs[|vs| - 1]);
    }
  }

  /** What the panel shows: one heading per category, in order of first
      occurrence, none of them empty, each listing exactly the variables of
      its category in catalogue order, and every variable listed once. */
  lemma GroupByCategorySound(vs: seq<TemplateVariable>)
    ensures |GroupByCategory(vs)| == |Categories(vs)|
    ensures forall i :: 0 <= i < |GroupByCategory(vs)| ==> GroupByCategory(vs)[i].category == Categories(vs)[i]
    ensures forall i, j :: 0 <= i < j < |GroupByCategory(vs)| ==>
              GroupByCategory(vs)[i].category != GroupByCategory(vs)[j].category
    ensures forall i :: 0 <= i < |GroupByCategory(vs)| ==>
              GroupByCategory(vs)[i].variables == OfCategory(vs, GroupByCategory(vs)[i].category)
    ensures forall i :: 0 <= i < |GroupByCategory(vs)| ==> |GroupByCategory(vs)[i].variables| > 0
    ensures forall k :: 0 <= k < |vs| ==> vs[k].category in Categories(vs)
    ensures TotalVariables(GroupByCategory(vs)) == |vs|
  {
    GroupByIsReference(vs);
    GroupByCount(vs);
    var cs := Categories(vs);
    forall i | 0 <= i < |cs| ensures |OfCategory(vs, cs[i])| > 0 {
      CategoriesComplete(vs, cs[i]);
      var k :| 0 <= k < |vs| && vs[k].category == cs[i];
      assert vs[k] in OfCategory(vs, cs[i]);
    }
    forall k | 0 <= k < |vs| ensures vs[k].category in cs {
      CategoriesComplete(vs, vs[k].category);
    }
  }

  /** The catalogue lists 30 variables and the panel shows all of them. */
  lemma CatalogFullyListed()
    ensures |Catalog| == 30
    ensures TotalVariables(GroupByCategory(Catalog)) == 30
  {
    GroupByCount(Catalog);
  }

  /** The "Incident" heading gathers the first four entries and then the
      eight further down, in catalogue order. */
  lemma IncidentGroup()
    ensures OfCategory(Catalog, "Incident") == Catalog[0..4] + Catalog[16..24]
  {
    assert forall k :: 0 <= k < |Catalog| ==> (Catalog[k].category == "Incident" <==> 0 <= k < 4 || 16 <= k < 24);
    FilterTwoRuns(Catalog, InCategory("Incident"), 0, 4, 16, 24);
  }

  /** No two variables share a name, so the panel's cards, keyed by name,
      are told apart. */
  lemma CatalogNamesDistinct()
    ensures forall i, j :: 0 <= i < j < |Catalog| ==> Catalog[i].name != Catalog[j].name
  {
    NamesDistinctFirstHalf();
    NamesDistinctAcrossHalves();
    NamesDistinctSecondHalf();
  }

  lemma NamesDistinctFirstHalf()
    ensures forall i, j :: 0 <= i < j < 15 ==> Catalog[i].name != Catalog[j].name
  {
  }

  lemma NamesDistinctAcrossHalves()
    ensures forall i, j :: 0 <= i < 15 <= j < 30 ==> Catalog[i].name != Catalog[j].name
  {
  }

  lemma NamesDistinctSecondHalf()
    ensures forall i, j :: 15 <= i < j < 30 ==> Catalog[i].name != Catalog[j].name
  {
  }
}
