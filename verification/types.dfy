/** The template's data model: element kinds, styles, elements, columns,
    sections and catalog variables, with optional properties as `Option`. */
module Types {
  import opened Optional

  /** The five element kinds a palette item can create. */
  datatype ElementType = Text | TextArea | Image | Button | Variable

  /** The string value each kind carries in the enum. */
  function TypeTag(t: ElementType): string {
    match t
    case Text => "text"
    case TextArea => "textarea"
    case Image => "image"
    case Button => "button"
    case Variable => "variable"
  }

  /** The five enum values are pairwise distinct strings, so a palette
      item's `type` names exactly one kind. */
  lemma TypeTagInjective(a: ElementType, b: ElementType)
    ensures TypeTag(a) == TypeTag(b) <==> a == b
  {
    if a != b {
      assert TypeTag(a)[0] != TypeTag(b)[0] || TypeTag(a)[1] != TypeTag(b)[1] || |TypeTag(a)| != |TypeTag(b)|;
    }
  }

  /** Five required style strings and four optional ones. */
  datatype ElementStyle = ElementStyle(
    color: string,
    fontSize: string,
    fontWeight: string,
    textAlign: string,
    padding: string,
    width: Option<string>,
    height: Option<string>,
    backgroundColor: Option<string>,
    lineHeight: Option<string>)

  /** An element. Its id is a JavaScript number drawn from `Math.random()`,
      hence `real`; `href` and `companyId` may be present on any kind. */
  datatype Element = Element(
    id: real,
    kind: ElementType,
    content: string,
    style: ElementStyle,
    href: Option<string>,
    companyId: Option<string>)

  /** A column: its width is an unconstrained number (a split can make it
      fractional). */
  datatype Column = Column(id: int, elements: seq<Element>, width: real)

  datatype Section = Section(id: int, backgroundColor: string, columns: seq<Column>)

  /** The `Variable` interface: an entry of the placeholder-variable catalog. */
  datatype TemplateVariable = TemplateVariable(name: string, description: string, category: string)

  /** `Partial<Element>`: each present field overrides the element's. */
  datatype ElementUpdate = ElementUpdate(
    id: Option<real>,
    kind: Option<ElementType>,
    content: Option<string>,
    style: Option<ElementStyle>,
    href: Option<string>,
    companyId: Option<string>)

  /** The update that sets nothing. */
  const NoUpdate := ElementUpdate(None, None, None, None, None, None)

  /** `{ ...element, ...updates }`: the fields the update carries win, every
      other field keeps the element's value. */
  function Overlay(e: Element, u: ElementUpdate): (r: Element)
    ensures r.id == u.id.GetOr(e.id) && r.kind == u.kind.GetOr(e.kind)
    ensures r.content == u.content.GetOr(e.content) && r.style == u.style.GetOr(e.style)
    ensures r.href == (if u.href.Some? then u.href else e.href)
    ensures r.companyId == (if u.companyId.Some? then u.companyId else e.companyId)
  {
    Element(
      u.id.GetOr(e.id),
      u.kind.GetOr(e.kind),
      u.content.GetOr(e.content),
      u.style.GetOr(e.style),
      if u.href.Some? then u.href else e.href,
      if u.companyId.Some? then u.companyId else e.companyId)
  }

  /** An empty update changes nothing. */
  lemma OverlayNothing(e: Element)
    ensures Overlay(e, NoUpdate) == e
  {
  }

  /** JavaScript truthiness of an optional string: present and non-empty. */
  predicate Truthy(s: Option<string>) {
    s.Some? && |s.value| > 0
  }

  /** The elements of all columns, column after column (`flatMap`). */
  function Flatten(cols: seq<Column>): (r: seq<Element>)
    ensures |cols| == 0 ==> r == []
    decreases |cols|
  {
    if |cols| == 0 then [] else cols[0].elements + Flatten(cols[1..])
  }

  lemma {:induction false} FlattenAppend(a: seq<Column>, b: seq<Column>)
    ensures Flatten(a + b) == Flatten(a) + Flatten(b)
    decreases |a|
  {
    if |a| == 0 {
      assert a + b == b;
    } else {
      assert (a + b)[1..] == a[1..] + b;
      FlattenAppend(a[1..], b);
    }
  }
}
