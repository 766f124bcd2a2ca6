# Email template editor: a Dafny model

This project models the state logic of EmailTemplateCreator, a browser
editor for notification e-mails. A template is a list of sections. Each
section holds columns and each column holds elements: text, text area,
image, button or variable placeholder. The editor also keeps three
selections: a section, a column of it, and an element addressed by its
(section id, column id, element id) path.

The model covers:

- the edits the editor makes to that document: adding, removing, moving
  and reordering sections; recolouring; splitting a section into equal
  columns and merging them back; dropping, editing and removing elements;
  the column-width editor; the lookup of the selected element;
- the `href`/`companyId` agreement of buttons through the `companyID=`
  query parameter, with JavaScript's `match`/`replace` semantics for
  `/companyID=([^&]+)/`, and `Number.parseInt` as ECMAScript defines it;
- the string steps of HTML export: the rewrite of multi-line text into
  `<br/>`-separated lines, the three global clean-ups of the serialised
  markup, and the fixed XHTML document shell;
- the grouping of the placeholder-variable catalogue by category, and the
  catalogue itself;
- the template the editor opens with.

Every operation is a pure function from the old document (or editor
state) to the new one. `Math.random()` element ids and the footer's year
are parameters. Modules follow the source:

- `Types`: the records of `lib/types.ts`.
- `Editor`: the editor state and the element lookup.
- `SectionOps`, `ColumnOps`, `ElementOps`: the edits.
- `CompanyIdParam`: the query parameter.
- `JsNumber`: `parseInt`.
- `Strings`: the JavaScript string helpers the export uses.
- `Export`: the export steps.
- `Variables`: the catalogue and its grouping.
- `InitialData`: the opening template.
- `Optional`: `Option`, `find`, `findIndex` and `filter`.

## Model

| member | source | states |
|---|---|---|
| Types.TypeTagInjective | lib/types.ts:1-7 | Two kinds have the same enum string exactly when they are the same kind, so a palette item's `type` names one kind. |
| Types.Overlay | components/email-template-creator.tsx:151 | Spreading an update over an element: every field the update carries wins, and every other field keeps the element's value. |
| Types.OverlayNothing | components/email-template-creator.tsx:151 | An update that carries no field leaves the element as it was. |
| Types.FlattenAppend | components/email-template-creator.tsx:219 | Gathering the elements of two column lists in turn gives the elements of both, in order. |
| Optional.FirstIndex | components/email-template-creator.tsx:462 | `findIndex` returns the first position that satisfies the test, and None exactly when no position does. |
| Optional.Find | components/email-template-creator.tsx:449 | `find` returns an element that satisfies the test with none before it, and nothing exactly when no element satisfies it. |
| Optional.FilterTwice | components/email-template-creator.tsx:176 | Filtering twice with the same test keeps what filtering once keeps. |
| Editor.GetActiveElementDetails | components/email-template-creator.tsx:445-459 | A lookup result is the selected path's section, column and element, each carrying the id the path names. Each is the FIRST match at its level: no earlier section, no earlier column of that section, and no earlier element of that column carries the id. |
| Editor.DetailsFoundWhenResolved | components/email-template-creator.tsx:445-459 | With unique section ids, and unique column ids within each section, a path that names an existing element is found, in the section and column it names; when no earlier element of that column has the id, the element found is that one. |
| SectionOps.NextSectionId | components/email-template-creator.tsx:46 | The new id is 0 for an empty document. Otherwise it is one more than some existing id and larger than every existing id. |
| SectionOps.AddSection | components/email-template-creator.tsx:44-51 | One section is appended and the old ones are kept. It has an id no other section has, a white background and one empty full-width column with id 0. The selections do not change. |
| SectionOps.AddSectionKeepsIdsDistinct | components/email-template-creator.tsx:44-51 | If ids were unique before an addition, they are unique after it. |
| SectionOps.WithoutSectionInOrder | components/email-template-creator.tsx:54 | The removal works section by section, in order: it distributes over concatenation, drops a section with the id, and keeps any other. |
| SectionOps.RemoveSection | components/email-template-creator.tsx:53-59 | The document keeps exactly the sections whose id differs, in their order. Section and column selections are cleared exactly when the removed id was selected. The element selection is never touched. |
| SectionOps.RemoveUndoesAdd | components/email-template-creator.tsx:44-59 | Removing the section just added, by its id, gives back the original sections. |
| SectionOps.WithoutSectionKeepsIdsDistinct | components/email-template-creator.tsx:54 | Removal keeps ids unique. |
| SectionOps.MoveTarget | components/email-template-creator.tsx:461-472 | A move has a target exactly when a section has the id and its neighbour in the direction is inside the list; the move starts at the first section with the id. |
| SectionOps.MoveSection | components/email-template-creator.tsx:461-479 | A move permutes the sections. With a target it swaps the section and the neighbour and changes nothing else; without a target it changes nothing. |
| SectionOps.MoveUpThenDown | components/email-template-creator.tsx:461-479 | A successful move up followed by a move down restores the list. |
| SectionOps.MoveDownThenUp | components/email-template-creator.tsx:461-479 | With unique ids, a successful move down followed by a move up restores the list. |
| SectionOps.MoveKeepsIdsDistinct | components/email-template-creator.tsx:461-479 | A move keeps ids unique. |
| SectionOps.HandleDragEnd | components/email-template-creator.tsx:61-69 | A drop without a destination changes nothing. Otherwise the sections are permuted and the dragged section lands at the destination, or last when the destination is past the end; taking it out of that place again leaves the other sections in their old order. |
| SectionOps.DragBack | components/email-template-creator.tsx:61-69 | Dragging a section back to where it came from restores the list. |
| SectionOps.UpdateSectionBackground | components/email-template-creator.tsx:197-206 | Every section with the id takes the colour and keeps its id and columns; every other section is unchanged. |
| SectionOps.BackgroundLastWins | components/email-template-creator.tsx:197-206 | After two colour changes of one section, only the second is visible. |
| SectionOps.BackgroundUnchanged | components/email-template-creator.tsx:197-206 | Setting the colour the section already has changes nothing. |
| ColumnOps.MaxColumnId | components/email-template-creator.tsx:231 | `Math.max(...ids, 0)` is at least 0 and at least every column id, and it is 0 or one of the ids. |
| ColumnOps.SplitColumns | components/email-template-creator.tsx:208-235 | A split into n gives n columns, each `100 / n` wide, with pairwise distinct ids. The first has id 0 and all old elements in order. The rest are empty, with ids `max + 1` to `max + n - 1`. |
| ColumnOps.SplitKeepsContent | components/email-template-creator.tsx:213-235 | A split keeps every element, in order, and its widths add up to the full width. |
| ColumnOps.SplitSection | components/email-template-creator.tsx:208-245 | Every section with the id gets the split columns, keeping its id and colour; every other section is unchanged. |
| ColumnOps.MergeColumns | components/email-template-creator.tsx:247-271 | Every section with the id is left with one full-width column, id 0, holding all its old elements in order. Other sections are unchanged. The column selection is always cleared and the others are kept. |
| ColumnOps.MergeAfterSplit | components/email-template-creator.tsx:208-271 | Merging after a split gives what merging alone gives: the split loses nothing. |
| ColumnOps.MergeIdempotent | components/email-template-creator.tsx:247-271 | A second merge changes nothing. |
| ColumnOps.SplitIntoOneIsMerge | components/email-template-creator.tsx:208-271 | Splitting into one column gives the sections that merging gives. |
| ColumnOps.SplitMergeKeepIdsDistinct | components/email-template-creator.tsx:208-271 | Splitting and merging keep section ids and per-section column ids unique. |
| ColumnOps.AcceptedWidth | components/email-template-creator.tsx:640-641 | Input is accepted exactly when `parseInt` reads a number from it in 10..100, and the accepted width is that number. |
| ColumnOps.SetColumnWidth | components/email-template-creator.tsx:639-661 | An accepted width goes into the selected column of the selected section, and every other column and field is kept. Rejected input, or a missing section or column selection, changes nothing. |
| ColumnOps.EditedWidthInRange | components/email-template-creator.tsx:641 | Any width the editor changes ends up in 10..100. |
| ColumnOps.WidthFromDecimal | components/email-template-creator.tsx:640-641 | Typing a whole number in 10..100, with any text after it that does not extend the numeral, is accepted as that number. Typing a number outside the range changes nothing. |
| ColumnOps.SetColumnWidthIdempotent | components/email-template-creator.tsx:639-661 | Entering the same input twice is entering it once. |
| JsNumber.TrimStart | components/email-template-creator.tsx:640 | The leading whitespace is removed: the result is a suffix that starts with a non-space, and everything cut off is whitespace. |
| JsNumber.DecimalValue | lib/initial-data.ts:120 | Used by the footer, whose template literal writes the year with `String`: the written year is all decimal digits, and those digits denote the year. |
| JsNumber.ParseDecimal | components/email-template-creator.tsx:640 | `parseInt` of a decimal numeral gives its number back, when the text after it neither continues the digits nor makes a `0x` prefix. |
| JsNumber.ParseNegative | components/email-template-creator.tsx:640 | A leading minus sign negates the number read. |
| JsNumber.ParseBareHexPrefix | components/email-template-creator.tsx:640 | `parseInt("0x")` is `NaN`, not 0. |
| JsNumber.ParseSkipsLeadingSpace | components/email-template-creator.tsx:640 | Leading whitespace never changes the result. |
| JsNumber.ParseRejectsNonNumeric | components/email-template-creator.tsx:640-641 | Text that starts with something other than whitespace, a sign or a digit is `NaN`, so the editor rejects it. |
| CompanyIdParam.Extract | components/email-template-creator.tsx:139-140 | A captured company id is non-empty and free of `&`. It follows the leftmost `companyID=` that has a non-`&` character after it, and it runs up to the next `&` or the end. Nothing is captured exactly when there is no such occurrence. |
| CompanyIdParam.ReplaceFirst | components/email-template-creator.tsx:147 | A link without a match is returned unchanged. Otherwise the first captured value is replaced by the new one, and everything before and after it is kept. |
| CompanyIdParam.ExtractAfterReplace | components/email-template-creator.tsx:139-148 | After the first company id is replaced by a non-empty value without `&`, the match is at the same place and captures exactly that value. |
| CompanyIdParam.ReplaceWithOwnValue | components/email-template-creator.tsx:147 | Writing back the company id a link already carries changes nothing. |
| CompanyIdParam.ReplaceTwice | components/email-template-creator.tsx:147 | After two successive replacements only the last is visible. |
| CompanyIdParam.ExtractAfterPlainPrefix | components/email-template-creator.tsx:139 | In a link whose part before `companyID=` has no `y` and ends in `&`, the captured id is the value written after the key. |
| ElementOps.DefaultHrefInSync | components/email-template-creator.tsx:99-101 | The default button link carries exactly the default company id. |
| ElementOps.NewElement | components/email-template-creator.tsx:72-102 | A dropped element has the given id and kind. Only a variable starts empty; only a button gets a link and a company id, and they agree; only an image gets a width and height; only a button gets a background colour. |
| ElementOps.HandleDrop | components/email-template-creator.tsx:71-123 | The new element is appended to every addressed column. Every other column and section, and the layout, is unchanged. |
| ElementOps.RemoveElementFrom | components/email-template-creator.tsx:166-185 | The addressed columns keep exactly their elements without the id, in order. Every other column and section, and the layout, is unchanged. |
| ElementOps.RemoveElement | components/email-template-creator.tsx:166-195 | The element selection is cleared exactly when it named this very path. The section and column selections are kept. |
| ElementOps.RemoveUndoesDrop | components/email-template-creator.tsx:71-185 | Removing a freshly dropped element by its id, when the id was not already in the column, gives back the document from before the drop. |
| ElementOps.RemoveElementTwice | components/email-template-creator.tsx:166-185 | A second removal of the same path removes nothing more. |
| ElementOps.MergeUpdate | components/email-template-creator.tsx:136-151 | Merging one update as written. A link in the update that carries a company id sets the element's company id to it. If the element already had a link, that OLD link gets the id written in and the new link is dropped. When no company id comes from the link, a non-empty company id in the update is stored and written into the existing link, if there is one; otherwise the update's link is stored, even an empty one. An empty or missing company id leaves the link to the update, or to the element when the update has none. Fields other than the link and company id come from the update or the element. |
| ElementOps.MergeKeepsSync | components/email-template-creator.tsx:137-151 | If the element's link and company id agreed and the company id written is non-empty and free of `&`, they agree after the merge. |
| ElementOps.UpdateInElements | components/email-template-creator.tsx:135-154 | Within one column, elements with other ids are unchanged. Elements with the id take the update's plain fields. The mutated update passed on keeps the caller's plain fields and stays safe to write into a link. |
| ElementOps.UpdateElement | components/email-template-creator.tsx:125-164 | Only elements with the id in the addressed columns can change, and the layout and element counts stay as they were. Every such element takes the update's id, kind, content and style where the update has them. The first such element, in the first addressed section and column, is merged with the update exactly as the caller passed it. |
| ElementOps.UpdateElementKeepsSync | components/email-template-creator.tsx:125-164 | An edit whose company id is non-empty and free of `&` keeps every element's link and company id in agreement. |
| ElementOps.UpdateElementUnique | components/email-template-creator.tsx:125-164 | With unique ids along the path, the addressed element is merged with the update exactly as the caller passed it. |
| ElementOps.HrefEditDiscarded | components/email-template-creator.tsx:137-151 | An element linked to `companyID=1`, with its link edited to `companyID=2&x`, stores `companyID=2` and loses the `&x`; the corrected merge stores the edited link. |
| ElementOps.SharedUpdateReachesDuplicate | components/email-template-creator.tsx:138-151 | The update object is shared: with two elements of one id in a column, the link the first element's merge writes into the update reaches the second element, which had no link. |
| ElementOps.MergeIntended | components/email-template-creator.tsx:137-151 | Corrected merge. An update with a non-empty link stores that link, and its company id when it carries one. Without a link the merge is the one the source performs. |
| ElementOps.MergeIntendedKeepsSync | components/email-template-creator.tsx:137-151 | The corrected merge keeps link and company id in agreement, under the same condition as the merge as written. |
| ElementOps.MergeIntendedIdempotent | components/email-template-creator.tsx:137-151 | Applying the same corrected edit twice is applying it once. |
| ElementOps.UpdateElementIntended | components/email-template-creator.tsx:125-164 | With the corrected merge, each element with the id in an addressed column is merged with the update as passed, and every other element is unchanged. |
| ElementOps.UpdateElementIntendedKeepsSync | components/email-template-creator.tsx:125-164 | The corrected edit keeps every element's link and company id in agreement. |
| Strings.JoinSplit | components/email-template-creator.tsx:293-299 | Joining the pieces of a split with the separator gives back the text. |
| Strings.SplitPiecesAreSeparatorFree | components/email-template-creator.tsx:293 | No piece of a split contains the separator. |
| Strings.SplitCharCount | components/email-template-creator.tsx:293 | Splitting on one character gives one more piece than the character's number of occurrences. |
| Export.EscapeAngles | components/email-template-creator.tsx:296 | An escaped line holds no `<` or `>`, and a line without them is unchanged. Escaping never makes a line blank or non-blank, and it adds no line break. |
| Export.EscapeAnglesIsTwoReplaces | components/email-template-creator.tsx:296 | The one-pass escape equals the two global replaces of the source: `<` by `&lt;`, then `>` by `&gt;`, each a split on the character joined with its entity. |
| Export.EscapeAnglesAppend | components/email-template-creator.tsx:296 | The escape distributes over concatenation: it works character by character. |
| Export.EscapeAnglesChar | components/email-template-creator.tsx:296 | `<` becomes `&lt;`, `>` becomes `&gt;`, and any other character is kept. |
| Export.EscapeAnglesLosesReference | components/email-template-creator.tsx:296 | As written, `&` is not escaped: the text `&lt;` is written as `<` is, and the parser reads it back as `<`. |
| Export.EscapeText | components/email-template-creator.tsx:296 | Corrected escape: the parser reads back exactly the text, and on text without `&` it equals the escape as written. |
| Export.RenderLineIntended | components/email-template-creator.tsx:295-298 | Corrected line rendering: a blank line gives `&nbsp;`, any other line is read back as itself, and a line without `&` renders as it does in the source. |
| Export.RenderLine | components/email-template-creator.tsx:295-298 | A blank line renders as `&nbsp;`. A non-blank line renders as its escape, so a plain one renders as itself. No rendering holds `<` or `>`. |
| Export.BreakLinesMarkup | components/email-template-creator.tsx:293-299 | The markup holds one `<` and one `>` per line break of the text, those of the `<br/>` joints, and no raw line break. |
| Export.BreakLinesAround | components/email-template-creator.tsx:293-299 | A line break in the text becomes exactly one `<br/>` between the markup of the text before it and the text after it. |
| Export.BlankLineKept | components/email-template-creator.tsx:293-299 | In the string written into the `div`, an empty line between two line breaks survives as `<br/>&nbsp;<br/>`. |
| Export.PlainLinesAroundBlank | components/email-template-creator.tsx:293-299 | In the string written into the `div`, two plain lines around an empty one come out as themselves, joined by `<br/>&nbsp;<br/>`. |
| Export.BreakLinesSingleLine | components/email-template-creator.tsx:293-299 | A text without line breaks renders as its one line. |
| Export.EnsurePreWrap | components/email-template-creator.tsx:304-306 | The resulting style mentions `white-space` and extends the old one. It equals the old style exactly when that already mentioned `white-space`; otherwise it is the old style followed by `; white-space: pre-wrap;`. |
| Export.EnsurePreWrapIdempotent | components/email-template-creator.tsx:304-306 | The pre-wrap declaration is never appended twice. |
| Export.RewriteMultilineDiv | components/email-template-creator.tsx:289-306 | Only a `div` with no child elements whose text holds a line break is rewritten. Its new inner HTML is the text's lines, escaped or `&nbsp;`, joined with `<br/>`, so it has as many `<br/>` as the text has line breaks, at least one. Its style is the old one (`""` when absent) made pre-wrap. |
| Export.DeleteAllKeepsPieces | components/email-template-creator.tsx:327-328 | Deleting every occurrence of a literal leaves exactly the pieces between the occurrences, in order. |
| Export.DeleteAllUnchangedIff | components/email-template-creator.tsx:327-328 | Deletion changes the markup exactly when the literal occurs in it. |
| Export.CollapseSpaceBeforeGt | components/email-template-creator.tsx:329 | The collapse keeps exactly the characters that are not whitespace in a run ending at a `>`, in order: whitespace elsewhere, text and `$…$` tokens pass through. Afterwards no whitespace stands directly before a `>`. |
| Export.CollapseRemovesOnlySpace | components/email-template-creator.tsx:329 | The collapse removes only whitespace: every other character survives, in order. |
| Export.CollapseUnchangedIff | components/email-template-creator.tsx:329 | The collapse changes the markup exactly when some whitespace stands before a `>`. |
| Export.CollapseIdempotent | components/email-template-creator.tsx:329 | Collapsing twice is collapsing once. |
| Export.CleanMarkup | components/email-template-creator.tsx:326-329 | Cleaned markup is the reference collapse of the pieces left between the empty `style` attributes of the pieces left between the empty `class` attributes. It has no whitespace before a `>`. |
| Export.CleanMarkupIdentity | components/email-template-creator.tsx:326-329 | Markup that is already clean passes through unchanged. |
| Export.WrapDocument | components/email-template-creator.tsx:332-414 | The markup can be recovered from the document it is placed in. |
| Export.UnwrapIffWrap | components/email-template-creator.tsx:332-414 | A document yields some markup exactly when it is that markup in the shell, so the markup is spliced in once, whole, at one place. |
| Export.DocTypeFirst | components/email-template-creator.tsx:332-333 | Every exported document starts with a line break, two spaces and the strict XHTML 1.0 doctype. |
| Export.ExportHtml | components/email-template-creator.tsx:326-416 | The exported document holds exactly the cleaned markup inside its container, with no whitespace before a `>`. |
| Variables.CategoriesComplete | lib/variables.ts:69-72 | A category is listed exactly when some variable has it. |
| Variables.AddToReference | components/email-template-creator.tsx:1146-1155 | One reduce step on the reference grouping gives the reference grouping of the catalogue one entry longer. The step pushes onto the entry's own category, or opens that category last. |
| Variables.GroupByIsReference | lib/variables.ts:65-76 | The fold over the catalogue computes the reference grouping: one group per distinct category, in order of first occurrence, each holding exactly the variables of that category. |
| Variables.GroupByCount | lib/variables.ts:65-76 | The groups together list as many variables as the catalogue has. |
| Variables.GroupByCategorySound | lib/variables.ts:65-76 | The groups are keyed by the distinct categories, in order of first occurrence, and none is empty. Each lists exactly its category's variables in catalogue order, every variable's category is a key, and all variables are listed once in total. |
| Variables.CatalogFullyListed | lib/variables.ts:3-76 | The catalogue has 30 entries and the grouping lists all 30. |
| Variables.IncidentGroup | lib/variables.ts:5-54 | The "Incident" group is the first four entries followed by the eight further down, in catalogue order. |
| Variables.CatalogNamesDistinct | lib/variables.ts:3-63 | No two catalogue entries share a name, so the variable cards, keyed by name, are told apart. |
| InitialData.InitialShape | lib/initial-data.ts:3-134 | The opening template has five sections with ids 0 to 4 in order. Each has one full-width column, id 0, holding one element with id 1. Ids are unique. |
| InitialData.FirstAddedSection | lib/initial-data.ts:3-134 | The first section added to the opening template gets id 5. |
| InitialData.InitialInSync | lib/initial-data.ts:91-94 | The review button's company id is the one its link carries, and the whole opening template is in sync. |
| InitialData.InitialElementsAreDropDefaults | lib/initial-data.ts:12-104 | The opening button is what a palette drop makes, with its own caption. The opening image is a dropped image without the line height. |
| InitialData.IntroBlankLineExported | lib/initial-data.ts:66-67 | The blank line after the notification's first paragraph becomes `<br/>&nbsp;<br/>` in the string written into the text's `div`. |
| InitialData.FooterYearReadable | lib/initial-data.ts:120 | The footer starts with `© ` followed by the year, which `parseInt` reads back. |

## Left out

- The DOM work of export: cloning the preview, removing controls and
  buttons, stripping classes, and removing empty `div`s. This depends on
  the browser's parser and serialiser. The model starts from the serialised
  markup, and from a `div`'s text, style and child count.
- The browser's parse and re-serialisation of a rewritten `div`. The model
  states the string written into `innerHTML`. The parser decodes every
  character reference in that string: the rewrite's own `&lt;`, `&gt;` and
  `&nbsp;`, and any reference the text already held. Serialising then
  writes `<br/>` as `<br>`, U+00A0 as `&nbsp;`, `<` and `>` as `&lt;` and
  `&gt;`, and a bare `&` as `&amp;`. So the exported document holds
  `<br>&nbsp;<br>` for a blank line. `Export.DecodeReferences` models the
  parser's decoding of `&amp;`, `&lt;` and `&gt;` only, which is all that
  the escape's output can hold.
- The clipboard, the download and the `alert`s. These are browser I/O.
- React rendering, drag-and-drop wiring and the modal chrome.
- The properties panel's reads of `sections[activeSection]` by position.
  These are display logic, not edits of the document.
- `Math.random()` element ids and `new Date().getFullYear()`. They are
  parameters.
- Column widths are exact reals, not IEEE doubles: `100 / 3` is exact here.
- `$` patterns in the replacement text of `replace` (`$&`, `$1`, `$$`) are
  not interpreted. The company id is inserted literally.
- The concrete list of catalogue headings is not computed for the 30-entry
  literal. Its order follows from `Variables.GroupByCategorySound`. No
  category looks like an integer, so `Object.entries` keeps insertion order
  as that lemma assumes.
- The catalogue names `showFileUrl` and `"objectListPlaceholder": true,`
  are not `$…$` tokens, so no lemma claims every name is one.
- ColumnOps.SplitColumns: requires `n >= 1`. The only caller passes 1 to 5
  from a fixed selector. The source's `n = 0` case, one column of infinite
  width, is not modelled.
- ColumnOps.SplitSection: requires `n >= 1`, for the same reason.
- SectionOps.HandleDragEnd: requires the source position to be inside the
  list, as the drag library reports it. An out-of-range `splice` is not
  modelled.
- Editor.DetailsFoundWhenResolved: states the lookup's success only for
  documents with unique section ids and unique column ids per section. With
  duplicates, `find` stops at the first match, which may lack the element.
- SectionOps.MoveDownThenUp: states the round trip only for unique ids. The
  counterexample is described at the lemma.

## Findings

| source | as written | input that shows it | evidently intended | confidence | as-written member | corrected member |
|---|---|---|---|---|---|---|
| components/email-template-creator.tsx:137-151 | When the edited `href` carries `companyID=X` and the element already has a link, the stored `href` is the OLD link with X written in; the rest of the edit is dropped (the "Full URL" box at line 834-840 sends `{ href }`) | element link `companyID=1`, edit `{ href: "companyID=2&x" }`: stored link `companyID=2` | the edited link is stored, and the company id is taken from it | high, not executed | ElementOps.HrefEditDiscarded | ElementOps.MergeIntended |
| components/email-template-creator.tsx:296 | The line is escaped with `replace(/</g, "&lt;").replace(/>/g, "&gt;")`, which leaves `&` alone, and the result is written into `innerHTML` | a multi-line text holding `a &lt; b` is written as `a &lt; b`, which the parser reads as `a < b`: the email shows `<` where the editor showed `&lt;` | `&` becomes `&amp;` first, so the written string reads back as the text | medium, not executed | Export.EscapeAnglesLosesReference | Export.EscapeText |
