/** The template the editor opens with: five one-column sections holding an
    image, a greeting, the notification text, a review button and a
    footer. The footer's year comes from the clock, so it is a parameter. */
module InitialData {
  import opened Optional
  import opened Strings
  import opened Types
  import opened Editor
  import opened JsNumber
  import opened CompanyIdParam
  import opened Export
  import opened SectionOps
  import opened ElementOps

  const FooterBackground := "#0c7bbf"

  function Style(color: string, fontSize: string, fontWeight: string, textAlign: string, lineHeight: Option<string>): ElementStyle {
    ElementStyle(color, fontSize, fontWeight, textAlign, "10px", None, None, None, lineHeight)
  }

  /** The first paragraph of the notification and the lines after it. */
  const IntroLead := "A new complaint has been created. " + "Please review it by clicking the button below."
  const IntroDetails := "Client: $client_name$\n\nTicket ID: $incident_number$\n\n"
    + "Location: $emoSignature_Location$\n\n" + "Category: $incident_customFields_category$\n\n"
    + "Comment: $incident_customFields_customerComment$"
  const IntroText := IntroLead + "\n\n" + IntroDetails

  function FooterText(year: nat): string {
    "© " + DecimalString(year) + " Emojot. All rights reserved."
  }

  /** A section with the id and colour and one full-width column, id 0,
      holding the single element. */
  function OneElementSection(id: int, color: string, e: Element): Section {
    Section(id, color, [Column(0, [e], FullWidth)])
  }

  const LogoImage := Element(1.0, Image, ImageUrl,
    ElementStyle("#000000", "16px", "normal", "left", "10px", Some("auto"), Some("100px"), None, None), None, None)
  const Greeting := Element(1.0, Text, "Hi Admin,", Style("#000000", "18px", "bold", "left", Some("1.5")), None, None)
  const Intro := Element(1.0, TextArea, IntroText, Style("#000000", "16px", "normal", "left", Some("1.5")), None, None)
  const ReviewButton := Element(1.0, Button, "Click here to review",
    ElementStyle("#ffffff", "16px", "bold", "center", "10px", None, None, Some("#0c7bbf"), Some("1.5")),
    Some(DefaultButtonHref), Some(DefaultCompanyId))

  function Footer(year: nat): Element {
    Element(1.0, Text, FooterText(year), Style("#ffffff", "14px", "normal", "center", Some("1.5")), None, None)
  }

  /** `initialSections`, with the current year given. */
  function InitialSections(year: nat): seq<Section> {
    [ OneElementSection(0, DefaultBackground, LogoImage),
      OneElementSection(1, DefaultBackground, Greeting),
      OneElementSection(2, DefaultBackground, Intro),
      OneElementSection(3, DefaultBackground, ReviewButton),
      OneElementSection(4, FooterBackground, Footer(year)) ]
  }

  /** The editor right after it opens: nothing selected. */
  function InitialState(year: nat): EditorState {
    EditorState(InitialSections(year), None, None, None)
  }

  /** Sections are numbered 0 to 4 in order, each has one full-width column
      with id 0 holding one element with id 1, and ids are unique where the
      editor needs them to be. */
  lemma InitialShape(year: nat)
    ensures |InitialSections(year)| == 5
    ensures forall k :: 0 <= k < 5 ==> InitialSections(year)[k].id == k
    ensures forall k :: 0 <= k < 5 ==>
              |InitialSections(year)[k].columns| == 1
              && InitialSections(year)[k].columns[0].id == 0
              && InitialSections(year)[k].columns[0].width == FullWidth
              && |InitialSections(year)[k].columns[0].elements| == 1
              && InitialSections(year)[k].columns[0].elements[0].id == 1.0
    ensures IdsDistinct(InitialSections(year))
  {
  }

  /** The first section added to the opening template gets id 5. */
  lemma FirstAddedSection(year: nat)
    ensures NextSectionId(InitialSections(year)) == 5
    ensures AddSection(InitialState(year)).sections[5].id == 5
  {
    InitialShape(year);
    assert InitialSections(year)[4].id == 4;
  }

  /** The review button's link carries its company id, and no other element
      has a link, so the opening template is in sync. */
  lemma InitialInSync(year: nat)
    ensures Extract(ReviewButton.href.value) == ReviewButton.companyId
    ensures DocInSync(InitialSections(year))
  {
    DefaultHrefInSync();
    InitialShape(year);
    var ss := InitialSections(year);
    assert LinkInSync(ReviewButton);
    forall k, j, m | 0 <= k < |ss| && 0 <= j < |ss[k].columns| && 0 <= m < |ss[k].columns[j].elements|
      ensures LinkInSync(ss[k].columns[j].elements[m])
    {
      assert j == 0 && m == 0;
      var e := ss[k].columns[0].elements[0];
      if k == 0 {
        assert e == LogoImage;
      } else if k == 1 {
        assert e == Greeting;
      } else if k == 2 {
        assert e == Intro;
      } else if k == 3 {
        assert e == ReviewButton;
      } else {
        assert e == Footer(year);
      }
    }
  }

  /** The opening button is the one a palette drop makes, with its own
      caption; the opening image lacks the drop's line height. */
  lemma InitialElementsAreDropDefaults()
    ensures ReviewButton == NewElement(Button, 1.0).(content := "Click here to review")
    ensures LogoImage == NewElement(Image, 1.0).(style := NewElement(Image, 1.0).style.(lineHeight := None))
  {
  }

  /** The blank line after the first paragraph of the notification becomes
      an `&nbsp;` line of its own in the string written into its `div`. */
  lemma IntroBlankLineExported()
    ensures BreakLines(IntroText) == BreakLines(IntroLead) + LineBreak + NonBreakingSpace + LineBreak + BreakLines(IntroDetails)
  {
    BlankLineKept(IntroLead, IntroDetails);
  }

  /** The footer names the year it was given: reading a number right after
      the copyright sign gives it back. */
  lemma FooterYearReadable(year: nat)
    ensures FooterText(year)[..2] == "© "
    ensures ParseInt(FooterText(year)[2..]) == Some(year)
  {
    var rest := " Emojot. All rights reserved.";
    assert FooterText(year)[2..] == DecimalString(year) + rest;
    assert EndsNumeral(rest);
    ParseDecimal(year, rest);
  }
}
