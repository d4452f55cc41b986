/** Helpers that turn a Lumi document into prompt material and a model's
    answer back into labels (`prompt_utils.py`): formatting spans, collecting
    every span of a document in reading order, and reading labels out of a
    JSON answer. `json.loads` is a parameter. */
module PromptUtils {
  import opened Wrappers
  import opened Text
  import opened LumiDoc
  import StringUtils

  // ---------------------------------------------------------------------
  // get_formatted_spans_list
  // ---------------------------------------------------------------------

  const EntryOpen: string := "{ id: "
  const EntryMiddle: string := ", text: "
  const EntryClose: string := "}"

  /** `"{{ id: {id}, text: {text}}}".format(...)`. */
  function FormatEntry(id: nat, text: string): string
  {
    EntryOpen + NatToString(id) + EntryMiddle + text + EntryClose
  }

  function FormatSpan(s: LumiSpan): string
  {
    FormatEntry(s.id, s.text)
  }

  /** `get_formatted_spans_list`: one entry per span, in order. */
  function FormattedSpansList(spans: seq<LumiSpan>): (r: seq<string>)
    ensures |r| == |spans|
    ensures forall i :: 0 <= i < |spans| ==> StartsWith(r[i], EntryOpen) && EndsWith(r[i], EntryClose)
  {
    seq(|spans|, i requires 0 <= i < |spans| => FormatSpan(spans[i]))
  }

  /** Reads an entry back: the digits before the first `,` are the id and
      everything after `, text: ` up to the closing brace is the text. */
  function ParseEntry(e: string): Option<(nat, string)>
  {
    if |e| < |EntryOpen| + |EntryClose| || !StartsWith(e, EntryOpen) || !EndsWith(e, EntryClose) then None
    else
      var body := e[|EntryOpen|..|e| - |EntryClose|];
      var k := Find(body, ",", 0);
      if k <= 0 || !AllDigits(body[..k]) || !StartsWith(body[k..], EntryMiddle) then None
      else Some((DigitsValue(body[..k]), body[k + |EntryMiddle|..]))
  }

  /** A run of digits has no `,`, so the first `,` is the separator's. */
  lemma {:induction false} FirstCommaAfterDigits(digits: string, rest: string, comma: string)
    requires comma == "," && AllDigits(digits) && StartsWith(rest, comma)
    ensures Find(digits + rest, comma, 0) == |digits|
  {
    var s := digits + rest;
    forall k | 0 <= k < |digits|
      ensures !OccursAt(s, comma, k)
    {
      FirstCharMismatch(s, comma, k);
    }
    assert s[|digits|..|digits| + 1] == rest[..1];
    FindAt(s, comma, 0, |digits|);
  }

  lemma {:induction false} EntryBody(s: LumiSpan, e: string, open: string, middle: string, close: string)
    requires open == EntryOpen && middle == EntryMiddle && close == EntryClose
    requires e == FormatSpan(s)
    ensures |e| >= |open| + |close| && StartsWith(e, open) && EndsWith(e, close)
    ensures e[|open|..|e| - |close|] == NatToString(s.id) + (middle + s.text)
  {
    var id := NatToString(s.id);
    assert e == open + (id + (middle + s.text)) + close;
    assert e[..|open|] == open;
  }

  /** Formatting loses nothing: the id and the text can be read back from
      the entry, whatever characters the text holds. */
  lemma {:induction false} FormatRoundTrip(s: LumiSpan)
    ensures ParseEntry(FormatSpan(s)) == Some((s.id, s.text))
  {
    var e := FormatSpan(s);
    EntryBody(s, e, EntryOpen, EntryMiddle, EntryClose);
    var id := NatToString(s.id);
    var body := id + (EntryMiddle + s.text);
    assert StartsWith(EntryMiddle + s.text, ",");
    FirstCommaAfterDigits(id, EntryMiddle + s.text, ",");
    assert body[..|id|] == id;
    assert body[|id|..] == EntryMiddle + s.text;
    assert body[|id| + |EntryMiddle|..] == s.text;
    NatToStringValue(s.id);
  }

  /** Different spans never share an entry. */
  lemma {:induction false} FormatInjective(a: LumiSpan, b: LumiSpan)
    requires FormatSpan(a) == FormatSpan(b)
    ensures a.id == b.id && a.text == b.text
  {
    FormatRoundTrip(a);
    FormatRoundTrip(b);
  }

  // ---------------------------------------------------------------------
  // Collecting spans
  // ---------------------------------------------------------------------

  /** `_extract_spans_from_list`: an item's spans, then its sub-list's,
      item by item. */
  function ListSpans(l: ListContent): seq<LumiSpan>
    decreases l, 2
  {
    ItemsSpans(l, 0)
  }

  /** The spans of the items of `l` from index `i` on. */
  function ItemsSpans(l: ListContent, i: nat): seq<LumiSpan>
    decreases l, 1, |l.listItems| - i
  {
    if i >= |l.listItems| then [] else ItemSpans(l.listItems[i]) + ItemsSpans(l, i + 1)
  }

  /** One item: its own spans, then its sub-list's. */
  function ItemSpans(item: ListItem): seq<LumiSpan>
    decreases item, 0
  {
    item.spans + (if item.subListContent.Some? then ListSpans(item.subListContent.value) else [])
  }

  /** A caption, when there is one, as a run of at most one span. */
  function OptionalCaption(caption: Option<LumiSpan>): seq<LumiSpan>
  {
    if caption.Some? then [caption.value] else []
  }

  function ImageCaption(c: LumiContent): seq<LumiSpan>
  {
    if c.imageContent.Some? then OptionalCaption(c.imageContent.value.caption) else []
  }

  function FigureCaption(c: LumiContent): seq<LumiSpan>
  {
    if c.figureContent.Some? then OptionalCaption(c.figureContent.value.caption) else []
  }

  function HtmlFigureCaption(c: LumiContent): seq<LumiSpan>
  {
    if c.htmlFigureContent.Some? then OptionalCaption(c.htmlFigureContent.value.caption) else []
  }

  /** The text spans, or else the list spans. */
  function BodySpans(c: LumiContent): seq<LumiSpan>
  {
    if c.textContent.Some? then c.textContent.value.spans
    else if c.listContent.Some? then ListSpans(c.listContent.value)
    else []
  }

  /** `_extract_spans_from_content`: text spans, or else list spans, then
      the captions: image, figure, HTML figure. */
  function ContentSpans(c: LumiContent): seq<LumiSpan>
  {
    BodySpans(c) + ImageCaption(c) + FigureCaption(c) + HtmlFigureCaption(c)
  }

  /** The spans of `contents[i..]`. */
  function ContentsSpans(contents: seq<LumiContent>, i: nat): seq<LumiSpan>
    decreases |contents| - i
  {
    if i >= |contents| then [] else ContentSpans(contents[i]) + ContentsSpans(contents, i + 1)
  }

  /** A section's contents, then its sub-sections, recursively: pre-order. */
  function SectionSpans(s: LumiSection): seq<LumiSpan>
    decreases s, 1
  {
    ContentsSpans(s.contents, 0) + SectionsSpans(s, 0)
  }

  /** The spans of the sub-sections of `s` from index `i` on. */
  function SectionsSpans(s: LumiSection, i: nat): seq<LumiSpan>
    decreases s, 0, |s.subSections| - i
  {
    if i >= |s.subSections| then [] else SectionSpans(s.subSections[i]) + SectionsSpans(s, i + 1)
  }

  /** The spans of top-level sections `sections[i..]`. */
  function RootsSpans(sections: seq<LumiSection>, i: nat): seq<LumiSpan>
    decreases |sections| - i
  {
    if i >= |sections| then [] else SectionSpans(sections[i]) + RootsSpans(sections, i + 1)
  }

  function ReferenceSpans(refs: seq<LumiReference>): (r: seq<LumiSpan>)
    ensures |r| == |refs| && forall i :: 0 <= i < |refs| ==> r[i] == refs[i].span
  {
    seq(|refs|, i requires 0 <= i < |refs| => refs[i].span)
  }

  function FootnoteSpans(notes: seq<LumiFootnote>): (r: seq<LumiSpan>)
    ensures |r| == |notes| && forall i :: 0 <= i < |notes| ==> r[i] == notes[i].span
  {
    seq(|notes|, i requires 0 <= i < |notes| => notes[i].span)
  }

  /** `get_all_spans_from_doc`: abstract, sections in pre-order,
      references, footnotes. */
  function DocSpans(d: LumiDocument): seq<LumiSpan>
  {
    AbstractSpans(d) + RootsSpans(d.sections, 0) + ReferencesOf(d) + FootnotesOf(d)
  }

  function AbstractSpans(d: LumiDocument): seq<LumiSpan>
  {
    if d.abstractPart.Some? then ContentsSpans(d.abstractPart.value.contents, 0) else []
  }

  function ReferencesOf(d: LumiDocument): seq<LumiSpan>
  {
    if d.references.Some? then ReferenceSpans(d.references.value) else []
  }

  function FootnotesOf(d: LumiDocument): seq<LumiSpan>
  {
    if d.footnotes.Some? then FootnoteSpans(d.footnotes.value) else []
  }

  /** The loop of `_extract_spans_from_list`, recursing into sub-lists. */
  method ExtractSpansFromList(l: ListContent) returns (spans: seq<LumiSpan>)
    ensures spans == ListSpans(l)
    decreases l
  {
    spans := [];
    var i := 0;
    while i < |l.listItems|
      invariant 0 <= i <= |l.listItems|
      invariant spans + ItemsSpans(l, i) == ListSpans(l)
    {
      var item := l.listItems[i];
      var sub: seq<LumiSpan> := [];
      if item.subListContent.Some? {
        sub := ExtractSpansFromList(item.subListContent.value);
      }
      assert item.spans + sub == ItemSpans(item);
      spans := spans + item.spans + sub;
      i := i + 1;
    }
  }

  /** `_extract_spans_from_content`. */
  method ExtractSpansFromContent(c: LumiContent) returns (spans: seq<LumiSpan>)
    ensures spans == ContentSpans(c)
  {
    spans := [];
    if c.textContent.Some? {
      spans := spans + c.textContent.value.spans;
    } else if c.listContent.Some? {
      var fromList := ExtractSpansFromList(c.listContent.value);
      spans := spans + fromList;
    }
    assert spans == BodySpans(c);
    if c.imageContent.Some? && c.imageContent.value.caption.Some? {
      spans := spans + [c.imageContent.value.caption.value];
    }
    assert spans == BodySpans(c) + ImageCaption(c);
    if c.figureContent.Some? && c.figureContent.value.caption.Some? {
      spans := spans + [c.figureContent.value.caption.value];
    }
    assert spans == BodySpans(c) + ImageCaption(c) + FigureCaption(c);
    if c.htmlFigureContent.Some? && c.htmlFigureContent.value.caption.Some? {
      spans := spans + [c.htmlFigureContent.value.caption.value];
    }
  }

  /** Appends the spans of `contents`, block by block. */
  method AppendContents(acc: seq<LumiSpan>, contents: seq<LumiContent>) returns (acc': seq<LumiSpan>)
    ensures acc' == acc + ContentsSpans(contents, 0)
  {
    acc' := acc;
    var j := 0;
    while j < |contents|
      invariant 0 <= j <= |contents|
      invariant acc' + ContentsSpans(contents, j) == acc + ContentsSpans(contents, 0)
    {
      var fromContent := ExtractSpansFromContent(contents[j]);
      assert ContentsSpans(contents, j) == fromContent + ContentsSpans(contents, j + 1);
      acc' := acc' + fromContent;
      j := j + 1;
    }
  }

  /** The nested `_extract_spans_from_sections` for one section: its
      contents, then each sub-section in turn. */
  method AppendSection(acc: seq<LumiSpan>, s: LumiSection) returns (acc': seq<LumiSpan>)
    ensures acc' == acc + SectionSpans(s)
    decreases s, 1
  {
    var afterContents := AppendContents(acc, s.contents);
    acc' := AppendSubsections(afterContents, s);
  }

  /** The recursive call on `section.sub_sections`. */
  method AppendSubsections(acc: seq<LumiSpan>, s: LumiSection) returns (acc': seq<LumiSpan>)
    ensures acc' == acc + SectionsSpans(s, 0)
    decreases s, 0
  {
    acc' := acc;
    var k := 0;
    while k < |s.subSections|
      invariant 0 <= k <= |s.subSections|
      invariant acc' + SectionsSpans(s, k) == acc + SectionsSpans(s, 0)
    {
      acc' := AppendSection(acc', s.subSections[k]);
      assert SectionsSpans(s, k) == SectionSpans(s.subSections[k]) + SectionsSpans(s, k + 1);
      k := k + 1;
    }
  }

  /** The loop over the top-level sections. */
  method AppendRoots(acc: seq<LumiSpan>, sections: seq<LumiSection>) returns (acc': seq<LumiSpan>)
    ensures acc' == acc + RootsSpans(sections, 0)
  {
    acc' := acc;
    var i := 0;
    while i < |sections|
      invariant 0 <= i <= |sections|
      invariant acc' + RootsSpans(sections, i) == acc + RootsSpans(sections, 0)
    {
      acc' := AppendSection(acc', sections[i]);
      assert RootsSpans(sections, i) == SectionSpans(sections[i]) + RootsSpans(sections, i + 1);
      i := i + 1;
    }
  }

  /** The loop over the references. */
  method AppendReferences(acc: seq<LumiSpan>, refs: seq<LumiReference>) returns (acc': seq<LumiSpan>)
    ensures acc' == acc + ReferenceSpans(refs)
  {
    acc' := acc;
    var k := 0;
    while k < |refs|
      invariant 0 <= k <= |refs|
      invariant acc' == acc + ReferenceSpans(refs[..k])
    {
      assert ReferenceSpans(refs[..k + 1]) == ReferenceSpans(refs[..k]) + [refs[k].span];
      acc' := acc' + [refs[k].span];
      k := k + 1;
    }
    assert refs[..k] == refs;
  }

  /** The loop over the footnotes. */
  method AppendFootnotes(acc: seq<LumiSpan>, notes: seq<LumiFootnote>) returns (acc': seq<LumiSpan>)
    ensures acc' == acc + FootnoteSpans(notes)
  {
    acc' := acc;
    var k := 0;
    while k < |notes|
      invariant 0 <= k <= |notes|
      invariant acc' == acc + FootnoteSpans(notes[..k])
    {
      assert FootnoteSpans(notes[..k + 1]) == FootnoteSpans(notes[..k]) + [notes[k].span];
      acc' := acc' + [notes[k].span];
      k := k + 1;
    }
    assert notes[..k] == notes;
  }

  /** `get_all_spans_from_doc`. */
  method GetAllSpansFromDoc(d: LumiDocument) returns (all: seq<LumiSpan>)
    ensures all == DocSpans(d)
  {
    all := [];
    if d.abstractPart.Some? {
      all := AppendContents(all, d.abstractPart.value.contents);
    }
    assert all == AbstractSpans(d);
    all := AppendRoots(all, d.sections);
    if d.references.Some? {
      all := AppendReferences(all, d.references.value);
    }
    assert all == AbstractSpans(d) + RootsSpans(d.sections, 0) + ReferencesOf(d);
    if d.footnotes.Some? {
      all := AppendFootnotes(all, d.footnotes.value);
    }
  }

  // ---------------------------------------------------------------------
  // What the collected list holds
  // ---------------------------------------------------------------------

  /** A document with nothing in it has no spans. */
  lemma {:induction false} EmptyDocHasNoSpans(d: LumiDocument)
    requires d.abstractPart.None? && d.sections == []
    requires d.references.None? || d.references.value == []
    requires d.footnotes.None? || d.footnotes.value == []
    ensures DocSpans(d) == []
  {
  }

  /** Every span of an item, and of its sub-list, is collected from the list. */
  lemma {:induction false} ItemInList(l: ListContent, i: nat, k: nat, x: LumiSpan)
    requires i <= k < |l.listItems|
    requires x in l.listItems[k].spans
      || (l.listItems[k].subListContent.Some? && x in ListSpans(l.listItems[k].subListContent.value))
    ensures x in ItemsSpans(l, i)
    decreases k - i
  {
    var head, tail := ItemSpans(l.listItems[i]), ItemsSpans(l, i + 1);
    if i < k {
      ItemInList(l, i + 1, k, x);
      InConcat(head, tail, x);
    } else {
      InConcat(head, tail, x);
    }
  }

  /** A span at any depth of a nested list is collected. */
  lemma {:induction false} NestedItemInList(l: ListContent, k: nat, m: nat, x: LumiSpan)
    requires k < |l.listItems| && l.listItems[k].subListContent.Some?
    requires m < |l.listItems[k].subListContent.value.listItems|
    requires x in l.listItems[k].subListContent.value.listItems[m].spans
    ensures x in ListSpans(l)
  {
    ItemInList(l.listItems[k].subListContent.value, 0, m, x);
    ItemInList(l, 0, k, x);
  }

  /** Text spans and every caption of a content block are collected. */
  lemma {:induction false} CaptionsInContent(c: LumiContent, x: LumiSpan)
    requires (c.textContent.Some? && x in c.textContent.value.spans)
      || (c.imageContent.Some? && c.imageContent.value.caption == Some(x))
      || (c.figureContent.Some? && c.figureContent.value.caption == Some(x))
      || (c.htmlFigureContent.Some? && c.htmlFigureContent.value.caption == Some(x))
    ensures x in ContentSpans(c)
  {
  }

  lemma {:induction false} ContentInContents(contents: seq<LumiContent>, i: nat, k: nat, x: LumiSpan)
    requires i <= k < |contents| && x in ContentSpans(contents[k])
    ensures x in ContentsSpans(contents, i)
    decreases k - i
  {
    var head, tail := ContentSpans(contents[i]), ContentsSpans(contents, i + 1);
    if i < k {
      ContentInContents(contents, i + 1, k, x);
      InConcat(head, tail, x);
    } else {
      InConcat(head, tail, x);
    }
  }

  lemma {:induction false} SubsectionInSections(s: LumiSection, i: nat, k: nat, x: LumiSpan)
    requires i <= k < |s.subSections| && x in SectionSpans(s.subSections[k])
    ensures x in SectionsSpans(s, i)
    decreases k - i
  {
    var head, tail := SectionSpans(s.subSections[i]), SectionsSpans(s, i + 1);
    if i < k {
      SubsectionInSections(s, i + 1, k, x);
      InConcat(head, tail, x);
    } else {
      InConcat(head, tail, x);
    }
  }

  lemma {:induction false} InConcat(a: seq<LumiSpan>, b: seq<LumiSpan>, x: LumiSpan)
    requires x in a || x in b
    ensures x in a + b
  {
  }

  lemma {:induction false} SectionInRoots(sections: seq<LumiSection>, i: nat, k: nat, x: LumiSpan)
    requires i <= k < |sections| && x in SectionSpans(sections[k])
    ensures x in RootsSpans(sections, i)
    decreases |sections| - i
  {
    var head, tail := SectionSpans(sections[i]), RootsSpans(sections, i + 1);
    if i < k {
      SectionInRoots(sections, i + 1, k, x);
      InConcat(head, tail, x);
    } else {
      InConcat(head, tail, x);
    }
  }

  /** A section collects the spans of its own contents and of every
      sub-section. */
  lemma {:induction false} PartsInSection(s: LumiSection, x: LumiSpan)
    requires (exists k :: 0 <= k < |s.contents| && x in ContentSpans(s.contents[k]))
      || (exists k :: 0 <= k < |s.subSections| && x in SectionSpans(s.subSections[k]))
    ensures x in SectionSpans(s)
  {
    if k :| 0 <= k < |s.contents| && x in ContentSpans(s.contents[k]) {
      ContentInContents(s.contents, 0, k, x);
    } else {
      var k :| 0 <= k < |s.subSections| && x in SectionSpans(s.subSections[k]);
      SubsectionInSections(s, 0, k, x);
    }
  }

  /** Nothing reachable from the document is missed: the spans of every
      top-level section (and so, by `PartsInSection`, of every nested one),
      of the abstract, every reference and every footnote. */
  lemma {:induction false} PartsInDoc(d: LumiDocument, x: LumiSpan)
    requires (exists k :: 0 <= k < |d.sections| && x in SectionSpans(d.sections[k]))
      || (d.abstractPart.Some? && InSomeContent(d.abstractPart.value.contents, x))
      || (d.references.Some? && exists k :: 0 <= k < |d.references.value| && d.references.value[k].span == x)
      || (d.footnotes.Some? && exists k :: 0 <= k < |d.footnotes.value| && d.footnotes.value[k].span == x)
    ensures x in DocSpans(d)
  {
    var a, r, f, n := AbstractSpans(d), RootsSpans(d.sections, 0), ReferencesOf(d), FootnotesOf(d);
    assert DocSpans(d) == a + r + f + n;
    if k :| 0 <= k < |d.sections| && x in SectionSpans(d.sections[k]) {
      SectionInRoots(d.sections, 0, k, x);
    } else if d.abstractPart.Some? && InSomeContent(d.abstractPart.value.contents, x) {
      var k :| 0 <= k < |d.abstractPart.value.contents| && x in ContentSpans(d.abstractPart.value.contents[k]);
      ContentInContents(d.abstractPart.value.contents, 0, k, x);
    } else if d.references.Some? && exists k :: 0 <= k < |d.references.value| && d.references.value[k].span == x {
      var k :| 0 <= k < |d.references.value| && d.references.value[k].span == x;
      assert f[k] == x;
    } else {
      var k :| 0 <= k < |d.footnotes.value| && d.footnotes.value[k].span == x;
      assert n[k] == x;
    }
  }

  predicate InSomeContent(contents: seq<LumiContent>, x: LumiSpan)
  {
    exists k :: 0 <= k < |contents| && x in ContentSpans(contents[k])
  }

  /** The footnotes close the list, in their own order. */
  lemma {:induction false} FootnotesLast(d: LumiDocument)
    requires d.footnotes.Some?
    ensures var all, n := DocSpans(d), |d.footnotes.value|;
      |all| >= n && all[|all| - n..] == FootnoteSpans(d.footnotes.value)
  {
    var before := AbstractSpans(d) + RootsSpans(d.sections, 0) + ReferencesOf(d);
    var notes := FootnoteSpans(d.footnotes.value);
    assert DocSpans(d) == before + notes;
    EndsWithSecond(before, notes);
  }

  lemma {:induction false} EndsWithSecond(a: seq<LumiSpan>, b: seq<LumiSpan>)
    ensures (a + b)[|a|..] == b
  {
  }

  // ---------------------------------------------------------------------
  // get_json_from_response, get_labels_from_response
  // ---------------------------------------------------------------------

  /** A decoded JSON value. Numbers keep only whether they are zero, which
      is all the truth test looks at. */
  datatype Json =
    | JNull
    | JBool(b: bool)
    | JNumber(isZero: bool)
    | JString(s: string)
    | JArray(items: seq<Json>)
    | JObject(fields: map<string, Json>)

  /** Python's truth value of a decoded value. */
  predicate Truthy(j: Json)
  {
    match j
    case JNull => false
    case JBool(b) => b
    case JNumber(isZero) => !isZero
    case JString(s) => s != []
    case JArray(items) => items != []
    case JObject(fields) => fields != map[]
  }

  /** `get_json_from_response`: the first output, stripped of its code
      fence and decoded; `{}` when there is no output or it does not decode.
      `decode` stands for `json.loads` (`None` for a decoding error). */
  function GetJsonFromResponse(modelOutput: Option<seq<string>>, decode: string -> Option<Json>): (r: Json)
    ensures modelOutput.None? || modelOutput.value == [] ==> r == JObject(map[])
    ensures modelOutput.Some? && modelOutput.value != [] ==>
      var decoded := decode(StringUtils.ExtractJsonFromDecorator(modelOutput.value[0]));
      r == if decoded.Some? then decoded.value else JObject(map[])
  {
    if modelOutput.None? || modelOutput.value == [] then JObject(map[])
    else
      match decode(StringUtils.ExtractJsonFromDecorator(modelOutput.value[0]))
      case None => JObject(map[])
      case Some(j) => j
  }

  /** A label as read from the answer; the values are whatever JSON the
      answer held under `"id"` and `"label"`. */
  datatype ParsedLabel = ParsedLabel(id: Json, labelValue: Json)

  /** The exceptions the label comprehension raises. */
  datatype LabelError =
    | KeyError(key: string)  // an object without that key
    | TypeError              // an entry that is not an object

  predicate HasLabelKeys(j: Json)
  {
    j.JObject? && "id" in j.fields && "label" in j.fields
  }

  /** What reading one entry raises: `label["id"]` is evaluated first. */
  function EntryError(j: Json): LabelError
  {
    if !j.JObject? then TypeError
    else if "id" !in j.fields then KeyError("id")
    else KeyError("label")
  }

  /** The comprehension `[Label(id=l["id"], label=l["label"]) for l in
      labels]`: the first entry without both keys raises. */
  function MakeLabels(entries: seq<Json>): (r: Result<seq<ParsedLabel>, LabelError>)
    ensures r.Success? <==> forall i :: 0 <= i < |entries| ==> HasLabelKeys(entries[i])
    ensures r.Success? ==>
      (|r.value| == |entries|
         && forall i :: 0 <= i < |entries| ==>
              r.value[i] == ParsedLabel(entries[i].fields["id"], entries[i].fields["label"]))
    ensures r.Failure? ==>
      (exists k :: 0 <= k < |entries| && !HasLabelKeys(entries[k]) && r.error == EntryError(entries[k])
         && (forall i :: 0 <= i < k ==> HasLabelKeys(entries[i])))
  {
    if entries == [] then Success([])
    else
      var e := entries[0];
      if !HasLabelKeys(e) then Failure(EntryError(e))
      else
        match MakeLabels(entries[1..])
        case Failure(err) => Failure(err)
        case Success(rest) => Success([ParsedLabel(e.fields["id"], e.fields["label"])] + rest)
  }

  /** The entries the comprehension walks: a list as it is, anything else
      wrapped in a one-element list. */
  function Entries(j: Json): (r: seq<Json>)
    ensures j.JArray? ==> r == j.items
    ensures !j.JArray? ==> r == [j]
  {
    if j.JArray? then j.items else [j]
  }

  /** `get_labels_from_response`. */
  function GetLabelsFromResponse(modelOutput: Option<seq<string>>, decode: string -> Option<Json>): (r: Result<seq<ParsedLabel>, LabelError>)
    ensures modelOutput.None? || modelOutput.value == [] ==> r == Success([])
  {
    if modelOutput.None? || modelOutput.value == [] then Success([])
    else
      var labels := GetJsonFromResponse(modelOutput, decode);
      if Truthy(labels) then MakeLabels(Entries(labels)) else Success([])
  }

  /** An answer that does not decode, or decodes to something false
      (`[]`, `{}`, `""`, `0`, `null`, `false`), gives no labels. */
  lemma {:induction false} FalsyAnswerGivesNoLabels(modelOutput: Option<seq<string>>, decode: string -> Option<Json>)
    requires !Truthy(GetJsonFromResponse(modelOutput, decode))
    ensures GetLabelsFromResponse(modelOutput, decode) == Success([])
  {
  }

  /** A list of objects that all have both keys gives one label per
      object, in order; a single such object gives one label. */
  lemma {:induction false} LabelsFromAnswer(modelOutput: Option<seq<string>>, decode: string -> Option<Json>)
    requires modelOutput.Some? && modelOutput.value != []
    requires var j := GetJsonFromResponse(modelOutput, decode);
      Truthy(j) && forall e :: e in Entries(j) ==> HasLabelKeys(e)
    ensures var entries := Entries(GetJsonFromResponse(modelOutput, decode));
      var r := GetLabelsFromResponse(modelOutput, decode);
      r.Success? && |r.value| == |entries|
      && forall i :: 0 <= i < |entries| ==>
           r.value[i] == ParsedLabel(entries[i].fields["id"], entries[i].fields["label"])
  {
  }

  /** The call raises exactly when the answer is truthy and some entry is
      not an object with both keys; the error is the first such entry's. */
  lemma {:induction false} LabelsFailIff(modelOutput: Option<seq<string>>, decode: string -> Option<Json>)
    requires modelOutput.Some? && modelOutput.value != []
    ensures var j := GetJsonFromResponse(modelOutput, decode);
      var r := GetLabelsFromResponse(modelOutput, decode);
      (r.Failure? <==> (Truthy(j) && exists k :: 0 <= k < |Entries(j)| && !HasLabelKeys(Entries(j)[k])))
  {
  }
}
