/** The Lumi document representation: sections, contents, spans and the
    inner tags that annotate a span's text with codepoint offsets.
    Identifiers handed out by the unique-id supply are modelled as `nat`s
    (see `LumiDoc.Id`); identifiers that the pipeline spells out itself,
    such as `concept-3`, stay strings. */
module LumiDoc {
  import opened Wrappers

  /** An identifier drawn from the injected unique-id supply. */
  type Id = nat

  datatype Position = Position(startIndex: int, endIndex: int)

  datatype Heading = Heading(headingLevel: int, text: string)

  datatype Label = Label(id: string, labelText: string)

  datatype ConceptContent = ConceptContent(labelText: string, value: string)

  datatype LumiConcept = LumiConcept(
    id: string,
    name: string,
    contents: seq<ConceptContent>,
    inTextCitations: seq<Label>)

  /** The closed set of inline annotation kinds. */
  datatype InnerTagName =
    | Bold | Italic | Strong | Em | Underline | Math | MathDisplay
    | Reference | SpanReference | Concept | A | Code | Footnote

  /** The string value each tag name carries in the stored document. */
  function TagNameValue(n: InnerTagName): string
  {
    match n
    case Bold => "b"
    case Italic => "i"
    case Strong => "strong"
    case Em => "em"
    case Underline => "u"
    case Math => "math"
    case MathDisplay => "math_display"
    case Reference => "ref"
    case SpanReference => "spanref"
    case Concept => "concept"
    case A => "a"
    case Code => "code"
    case Footnote => "footnote"
  }

  /** An annotation over `[position.startIndex, position.endIndex)` of the
      text it belongs to. A child's position is relative to the start of its
      parent's inner text as parsed. */
  datatype InnerTag = InnerTag(
    id: Id,
    tagName: InnerTagName,
    metadata: map<string, string>,
    position: Position,
    children: seq<InnerTag>)

  datatype LumiSpan = LumiSpan(id: Id, text: string, innerTags: seq<InnerTag>)

  datatype TextContent = TextContent(tagName: string, spans: seq<LumiSpan>)

  datatype ImageContent = ImageContent(
    storagePath: string,
    latexPath: string,
    altText: string,
    width: real,
    height: real,
    caption: Option<LumiSpan>)

  datatype FigureContent = FigureContent(images: seq<ImageContent>, caption: Option<LumiSpan>)

  datatype HtmlFigureContent = HtmlFigureContent(html: string, caption: Option<LumiSpan>)

  datatype ListContent = ListContent(listItems: seq<ListItem>, isOrdered: bool)

  datatype ListItem = ListItem(spans: seq<LumiSpan>, subListContent: Option<ListContent>)

  /** A block of a section; at most one of the variants is normally set. */
  datatype LumiContent = LumiContent(
    id: Id,
    textContent: Option<TextContent>,
    imageContent: Option<ImageContent>,
    figureContent: Option<FigureContent>,
    htmlFigureContent: Option<HtmlFigureContent>,
    listContent: Option<ListContent>)

  function TextBlock(id: Id, t: TextContent): LumiContent
  {
    LumiContent(id, Some(t), None, None, None, None)
  }

  function ListBlock(id: Id, l: ListContent): LumiContent
  {
    LumiContent(id, None, None, None, None, Some(l))
  }

  /** A section; absent sub-sections are read as none by every reader, so
      they are an empty sequence here. */
  datatype LumiSection = LumiSection(
    id: Id,
    heading: Heading,
    contents: seq<LumiContent>,
    subSections: seq<LumiSection>)

  datatype LumiReference = LumiReference(id: Id, span: LumiSpan)

  datatype LumiFootnote = LumiFootnote(id: Id, span: LumiSpan)

  datatype LumiAbstract = LumiAbstract(contents: seq<LumiContent>)

  datatype LumiSummary = LumiSummary(id: string, summary: LumiSpan)

  datatype LumiSummaries = LumiSummaries(
    sectionSummaries: seq<LumiSummary>,
    contentSummaries: seq<LumiSummary>,
    spanSummaries: seq<LumiSummary>,
    abstractExcerptSpanId: Option<string>)

  datatype LumiDocument = LumiDocument(
    markdown: string,
    sections: seq<LumiSection>,
    concepts: seq<LumiConcept>,
    abstractPart: Option<LumiAbstract>,
    references: Option<seq<LumiReference>>,
    footnotes: Option<seq<LumiFootnote>>,
    summaries: Option<LumiSummaries>)
}
