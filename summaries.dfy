/** The pure parts of summary generation (`summaries.py`): which spans and
    texts are shown to the model for spans, content blocks and sections,
    which entries are long enough to be summarised, how the work is cut
    into batches, and which generators a request runs. The model calls
    themselves are parameters. */
module Summaries {
  import opened Wrappers
  import opened Text
  import opened LumiDoc
  import PromptUtils

  /** Entries whose text is at most this long are left out of the prompts. */
  const MinCharacterLength: nat := 100

  const SpanSummariesBatchSize: nat := 500
  const SectionSummariesBatchSize: nat := 50
  const ContentSummariesBatchSize: nat := 100

  // ---------------------------------------------------------------------
  // Spans and text of a content block
  // ---------------------------------------------------------------------

  /** `_get_spans_from_content`: the text spans, or else the list spans in
      depth-first order. Unlike the prompt collector it takes no caption. */
  method GetSpansFromContent(c: LumiContent) returns (spans: seq<LumiSpan>)
    ensures spans == PromptUtils.BodySpans(c)
  {
    spans := [];
    if c.textContent.Some? {
      spans := spans + c.textContent.value.spans;
    } else if c.listContent.Some? {
      var fromList := PromptUtils.ExtractSpansFromList(c.listContent.value);
      spans := spans + fromList;
    }
  }

  /** A block that is only an image or a figure gives no span, whatever
      captions it has. */
  lemma {:induction false} CaptionsNeverIncluded(c: LumiContent)
    requires c.textContent.None? && c.listContent.None?
    ensures PromptUtils.BodySpans(c) == []
    ensures |PromptUtils.ContentSpans(c)| <= 3
  {
  }

  function SpanTexts(spans: seq<LumiSpan>): (r: seq<string>)
    ensures |r| == |spans| && forall i :: 0 <= i < |spans| ==> r[i] == spans[i].text
  {
    seq(|spans|, i requires 0 <= i < |spans| => spans[i].text)
  }

  /** `_get_text_from_content`: the span texts joined by single spaces. */
  function ContentText(c: LumiContent): string
  {
    Join(SpanTexts(PromptUtils.BodySpans(c)), " ")
  }

  /** The join loses nothing when no span text holds a space: splitting
      the content text on spaces gives the span texts back. */
  lemma {:induction false} ContentTextSplits(c: LumiContent)
    requires PromptUtils.BodySpans(c) != []
    requires forall x :: x in PromptUtils.BodySpans(c) ==> Lacks(x.text, ' ')
    ensures Split(ContentText(c), " ") == SpanTexts(PromptUtils.BodySpans(c))
  {
    var spans := PromptUtils.BodySpans(c);
    var ws := SpanTexts(spans);
    forall i | 0 <= i < |ws| ensures Lacks(ws[i], " "[0]) {
      assert spans[i] in spans;
    }
    SplitJoin(ws, " ");
  }

  /** Each part of a join occurs in it. */
  lemma {:induction false} JoinContainsPart(parts: seq<string>, sep: string, i: nat)
    requires i < |parts|
    ensures Contains(Join(parts, sep), parts[i])
    decreases i
  {
    var s := Join(parts, sep);
    if |parts| == 1 {
      assert OccursAt(s, parts[i], 0);
    } else if i == 0 {
      assert s == parts[0] + (sep + Join(parts[1..], sep));
      assert s[0..|parts[0]|] == parts[0];
      assert OccursAt(s, parts[i], 0);
    } else {
      var rest := Join(parts[1..], sep);
      JoinContainsPart(parts[1..], sep, i - 1);
      var p :| 0 <= p <= |rest| && OccursAt(rest, parts[i], p);
      var pre := parts[0] + sep;
      assert s == pre + rest;
      assert s[|pre| + p..|pre| + p + |parts[i]|] == rest[p..p + |parts[i]|];
      assert OccursAt(s, parts[i], |pre| + p);
    }
  }

  lemma {:induction false} ContainsTransitive(a: string, b: string, c: string)
    requires Contains(a, b) && Contains(b, c)
    ensures Contains(a, c)
  {
    var i :| 0 <= i <= |a| && OccursAt(a, b, i);
    var j :| 0 <= j <= |b| && OccursAt(b, c, j);
    SliceOfSlice(a, i, i + |b|, j, j + |c|);
    assert OccursAt(a, c, i + j);
  }

  /** Every span's text is part of its block's text. */
  lemma {:induction false} SpanTextInContentText(c: LumiContent, k: nat)
    requires k < |PromptUtils.BodySpans(c)|
    ensures Contains(ContentText(c), PromptUtils.BodySpans(c)[k].text)
  {
    JoinContainsPart(SpanTexts(PromptUtils.BodySpans(c)), " ", k);
  }

  // ---------------------------------------------------------------------
  // Text of a section
  // ---------------------------------------------------------------------

  function ContentTexts(contents: seq<LumiContent>): (r: seq<string>)
    ensures |r| == |contents| && forall i :: 0 <= i < |contents| ==> r[i] == ContentText(contents[i])
  {
    seq(|contents|, i requires 0 <= i < |contents| => ContentText(contents[i]))
  }

  /** `_get_text_from_section`: the texts of its blocks, then of its
      sub-sections, joined by single spaces. */
  function SectionText(s: LumiSection): string
    decreases s, 1
  {
    Join(ContentTexts(s.contents) + SubsectionTexts(s), " ")
  }

  function SubsectionTexts(s: LumiSection): (r: seq<string>)
    ensures |r| == |s.subSections|
    decreases s, 0
  {
    seq(|s.subSections|, j requires 0 <= j < |s.subSections| => SectionText(s.subSections[j]))
  }

  /** A block's text is part of its section's text. */
  lemma {:induction false} ContentTextInSection(s: LumiSection, i: nat)
    requires i < |s.contents|
    ensures Contains(SectionText(s), ContentText(s.contents[i]))
  {
    var parts := ContentTexts(s.contents) + SubsectionTexts(s);
    assert parts[i] == ContentText(s.contents[i]);
    JoinContainsPart(parts, " ", i);
  }

  /** A sub-section's text is part of its parent's text. */
  lemma {:induction false} SubsectionTextInSection(s: LumiSection, j: nat)
    requires j < |s.subSections|
    ensures Contains(SectionText(s), SectionText(s.subSections[j]))
  {
    var texts := SubsectionTexts(s);
    assert texts[j] == SectionText(s.subSections[j]);
    var parts := ContentTexts(s.contents) + texts;
    assert parts[|s.contents| + j] == texts[j];
    JoinContainsPart(parts, " ", |s.contents| + j);
  }

  /** So the text of a span of a block of a sub-section is in the text of
      the enclosing section. */
  lemma {:induction false} NestedSpanTextInSection(s: LumiSection, j: nat, i: nat, k: nat)
    requires j < |s.subSections| && i < |s.subSections[j].contents|
    requires k < |PromptUtils.BodySpans(s.subSections[j].contents[i])|
    ensures Contains(SectionText(s), PromptUtils.BodySpans(s.subSections[j].contents[i])[k].text)
  {
    var sub := s.subSections[j];
    var c := sub.contents[i];
    SpanTextInContentText(c, k);
    ContentTextInSection(sub, i);
    ContainsTransitive(SectionText(sub), ContentText(c), PromptUtils.BodySpans(c)[k].text);
    SubsectionTextInSection(s, j);
    ContainsTransitive(SectionText(s), SectionText(sub), PromptUtils.BodySpans(c)[k].text);
  }

  // ---------------------------------------------------------------------
  // _get_all_sections_with_text
  // ---------------------------------------------------------------------

  /** One `{"id": ..., "text": ...}` dictionary. */
  datatype Entry = Entry(id: Id, text: string)

  function SectionEntry(s: LumiSection): Entry
  {
    Entry(s.id, SectionText(s))
  }

  /** The entries of a section tree in pre-order: the section's own, then
      each sub-section's tree in turn. */
  function TreeEntries(s: LumiSection): seq<Entry>
    decreases s, 1
  {
    [SectionEntry(s)] + SubtreeEntries(s, 0)
  }

  function SubtreeEntries(s: LumiSection, i: nat): seq<Entry>
    decreases s, 0, |s.subSections| - i
  {
    if i >= |s.subSections| then [] else TreeEntries(s.subSections[i]) + SubtreeEntries(s, i + 1)
  }

  /** The entries of the top-level sections `sections[i..]`. */
  function ForestEntries(sections: seq<LumiSection>, i: nat): seq<Entry>
    decreases |sections| - i
  {
    if i >= |sections| then [] else TreeEntries(sections[i]) + ForestEntries(sections, i + 1)
  }

  /** The body of `_collect_recursive` for one section. */
  method CollectSection(acc: seq<Entry>, s: LumiSection) returns (acc': seq<Entry>)
    ensures acc' == acc + TreeEntries(s)
    decreases s, 1
  {
    var withSelf := acc + [Entry(s.id, SectionText(s))];
    acc' := CollectSubsections(withSelf, s);
  }

  /** The recursive call on the sub-sections. */
  method CollectSubsections(acc: seq<Entry>, s: LumiSection) returns (acc': seq<Entry>)
    ensures acc' == acc + SubtreeEntries(s, 0)
    decreases s, 0
  {
    acc' := acc;
    var k := 0;
    while k < |s.subSections|
      invariant 0 <= k <= |s.subSections|
      invariant acc' + SubtreeEntries(s, k) == acc + SubtreeEntries(s, 0)
    {
      ghost var before := acc';
      acc' := CollectSection(acc', s.subSections[k]);
      SubtreeStep(before, s, k);
      k := k + 1;
    }
  }

  lemma {:induction false} SubtreeStep(acc: seq<Entry>, s: LumiSection, k: nat)
    requires k < |s.subSections|
    ensures (acc + TreeEntries(s.subSections[k])) + SubtreeEntries(s, k + 1) == acc + SubtreeEntries(s, k)
  {
    assert SubtreeEntries(s, k) == TreeEntries(s.subSections[k]) + SubtreeEntries(s, k + 1);
  }

  lemma {:induction false} ForestStep(acc: seq<Entry>, sections: seq<LumiSection>, i: nat)
    requires i < |sections|
    ensures (acc + TreeEntries(sections[i])) + ForestEntries(sections, i + 1) == acc + ForestEntries(sections, i)
  {
    assert ForestEntries(sections, i) == TreeEntries(sections[i]) + ForestEntries(sections, i + 1);
  }

  /** `_get_all_sections_with_text`: one entry per section, in pre-order. */
  method GetAllSectionsWithText(d: LumiDocument) returns (data: seq<Entry>)
    ensures data == ForestEntries(d.sections, 0)
  {
    data := [];
    var i := 0;
    while i < |d.sections|
      invariant 0 <= i <= |d.sections|
      invariant data + ForestEntries(d.sections, i) == ForestEntries(d.sections, 0)
    {
      ghost var before := data;
      data := CollectSection(data, d.sections[i]);
      ForestStep(before, d.sections, i);
      i := i + 1;
    }
  }

  lemma {:induction false} InConcat(a: seq<Entry>, b: seq<Entry>, x: Entry)
    requires x in a || x in b
    ensures x in a + b
  {
  }

  lemma {:induction false} SubtreeInSubtrees(s: LumiSection, i: nat, k: nat, x: Entry)
    requires i <= k < |s.subSections| && x in TreeEntries(s.subSections[k])
    ensures x in SubtreeEntries(s, i)
    decreases k - i
  {
    var head, tail := TreeEntries(s.subSections[i]), SubtreeEntries(s, i + 1);
    if i < k {
      SubtreeInSubtrees(s, i + 1, k, x);
    }
    InConcat(head, tail, x);
  }

  lemma {:induction false} TreeInForest(sections: seq<LumiSection>, i: nat, k: nat, x: Entry)
    requires i <= k < |sections| && x in TreeEntries(sections[k])
    ensures x in ForestEntries(sections, i)
    decreases k - i
  {
    var head, tail := TreeEntries(sections[i]), ForestEntries(sections, i + 1);
    if i < k {
      TreeInForest(sections, i + 1, k, x);
    }
    InConcat(head, tail, x);
  }

  /** Pre-order: a section's entry comes first in its tree, and the tree
      holds every entry of every sub-tree, so entries of sections at any
      depth are collected. */
  lemma {:induction false} SubtreeInTree(s: LumiSection, j: nat, x: Entry)
    requires j < |s.subSections| && x in TreeEntries(s.subSections[j])
    ensures TreeEntries(s)[0] == SectionEntry(s)
    ensures x in TreeEntries(s)
  {
    SubtreeInSubtrees(s, 0, j, x);
    InConcat([SectionEntry(s)], SubtreeEntries(s, 0), x);
  }

  /** Every top-level section, and every entry of its tree, is in the
      collected list. */
  lemma {:induction false} EverySectionHasEntry(d: LumiDocument, k: nat, x: Entry)
    requires k < |d.sections| && (x == SectionEntry(d.sections[k]) || x in TreeEntries(d.sections[k]))
    ensures x in ForestEntries(d.sections, 0)
  {
    assert TreeEntries(d.sections[k])[0] == SectionEntry(d.sections[k]);
    TreeInForest(d.sections, 0, k, x);
  }

  /** A section with `n` sub-sections, none with further sub-sections,
      gives `n + 1` entries: itself, then its sub-sections in order. */
  lemma {:induction false} FlatSubsections(s: LumiSection, i: nat)
    requires i <= |s.subSections|
    requires forall j :: 0 <= j < |s.subSections| ==> s.subSections[j].subSections == []
    ensures |SubtreeEntries(s, i)| == |s.subSections| - i
    ensures forall j :: i <= j < |s.subSections| ==> SubtreeEntries(s, i)[j - i] == SectionEntry(s.subSections[j])
    decreases |s.subSections| - i
  {
    if i < |s.subSections| {
      FlatSubsections(s, i + 1);
      var sub := s.subSections[i];
      var here, rest := SubtreeEntries(s, i), SubtreeEntries(s, i + 1);
      assert TreeEntries(sub) == [SectionEntry(sub)];
      assert here == [SectionEntry(sub)] + rest;
      forall j | i <= j < |s.subSections| ensures here[j - i] == SectionEntry(s.subSections[j]) {
        if j > i {
          assert here[j - i] == rest[j - (i + 1)];
        }
      }
    }
  }

  // ---------------------------------------------------------------------
  // _get_all_contents_with_text
  // ---------------------------------------------------------------------

  /** Blocks with text or a list are the ones summarised. */
  predicate Textual(c: LumiContent)
  {
    c.textContent.Some? || c.listContent.Some?
  }

  function ContentEntry(c: LumiContent): Entry
  {
    Entry(c.id, ContentText(c))
  }

  /** The entries of the textual blocks of `contents`, in order. */
  function BlockEntries(contents: seq<LumiContent>): seq<Entry>
  {
    if contents == [] then []
    else
      var last := contents[|contents| - 1];
      BlockEntries(contents[..|contents| - 1]) + (if Textual(last) then [ContentEntry(last)] else [])
  }

  /** An entry comes from a text or list block. */
  ghost predicate FromTextualBlock(e: Entry)
  {
    exists c :: Textual(c) && e == ContentEntry(c)
  }

  /** `BlockEntries` keeps exactly the textual blocks. */
  lemma {:induction false} BlockEntriesMeaning(contents: seq<LumiContent>)
    ensures forall e :: e in BlockEntries(contents) ==> FromTextualBlock(e)
    ensures forall c :: c in contents && Textual(c) ==> ContentEntry(c) in BlockEntries(contents)
    decreases |contents|
  {
    if contents != [] {
      var init, last := contents[..|contents| - 1], contents[|contents| - 1];
      BlockEntriesMeaning(init);
      assert contents == init + [last];
      forall e | e in BlockEntries(contents) ensures FromTextualBlock(e) {
        if e !in BlockEntries(init) {
          assert Textual(last) && e == ContentEntry(last);
        }
      }
    }
  }

  function TreeBlockEntries(s: LumiSection): seq<Entry>
    decreases s, 1
  {
    BlockEntries(s.contents) + SubtreeBlockEntries(s, 0)
  }

  function SubtreeBlockEntries(s: LumiSection, i: nat): seq<Entry>
    decreases s, 0, |s.subSections| - i
  {
    if i >= |s.subSections| then [] else TreeBlockEntries(s.subSections[i]) + SubtreeBlockEntries(s, i + 1)
  }

  function ForestBlockEntries(sections: seq<LumiSection>, i: nat): seq<Entry>
    decreases |sections| - i
  {
    if i >= |sections| then [] else TreeBlockEntries(sections[i]) + ForestBlockEntries(sections, i + 1)
  }

  /** The inner loop over one section's blocks. */
  method CollectBlocks(acc: seq<Entry>, contents: seq<LumiContent>) returns (acc': seq<Entry>)
    ensures acc' == acc + BlockEntries(contents)
  {
    acc' := acc;
    var j := 0;
    while j < |contents|
      invariant 0 <= j <= |contents|
      invariant acc' == acc + BlockEntries(contents[..j])
    {
      var c := contents[j];
      assert contents[..j + 1][..j] == contents[..j];
      if Textual(c) {
        acc' := acc' + [Entry(c.id, ContentText(c))];
      }
      j := j + 1;
    }
    assert contents[..j] == contents;
  }

  method CollectSectionBlocks(acc: seq<Entry>, s: LumiSection) returns (acc': seq<Entry>)
    ensures acc' == acc + TreeBlockEntries(s)
    decreases s, 1
  {
    var own := CollectBlocks(acc, s.contents);
    acc' := CollectSubsectionBlocks(own, s);
  }

  method CollectSubsectionBlocks(acc: seq<Entry>, s: LumiSection) returns (acc': seq<Entry>)
    ensures acc' == acc + SubtreeBlockEntries(s, 0)
    decreases s, 0
  {
    acc' := acc;
    var k := 0;
    while k < |s.subSections|
      invariant 0 <= k <= |s.subSections|
      invariant acc' + SubtreeBlockEntries(s, k) == acc + SubtreeBlockEntries(s, 0)
    {
      acc' := CollectSectionBlocks(acc', s.subSections[k]);
      assert SubtreeBlockEntries(s, k) == TreeBlockEntries(s.subSections[k]) + SubtreeBlockEntries(s, k + 1);
      k := k + 1;
    }
  }

  /** `_get_all_contents_with_text`: one entry per text or list block, in
      pre-order of the sections. */
  method GetAllContentsWithText(d: LumiDocument) returns (data: seq<Entry>)
    ensures data == ForestBlockEntries(d.sections, 0)
  {
    data := [];
    var i := 0;
    while i < |d.sections|
      invariant 0 <= i <= |d.sections|
      invariant data + ForestBlockEntries(d.sections, i) == ForestBlockEntries(d.sections, 0)
    {
      data := CollectSectionBlocks(data, d.sections[i]);
      assert ForestBlockEntries(d.sections, i) == TreeBlockEntries(d.sections[i]) + ForestBlockEntries(d.sections, i + 1);
      i := i + 1;
    }
  }

  lemma {:induction false} TreeBlocksTextual(s: LumiSection, e: Entry)
    requires e in TreeBlockEntries(s)
    ensures FromTextualBlock(e)
    decreases s, 1
  {
    if e in BlockEntries(s.contents) {
      BlockEntriesMeaning(s.contents);
    } else {
      SubtreeBlocksTextual(s, 0, e);
    }
  }

  lemma {:induction false} SubtreeBlocksTextual(s: LumiSection, i: nat, e: Entry)
    requires e in SubtreeBlockEntries(s, i)
    ensures FromTextualBlock(e)
    decreases s, 0, |s.subSections| - i
  {
    if e in TreeBlockEntries(s.subSections[i]) {
      TreeBlocksTextual(s.subSections[i], e);
    } else {
      SubtreeBlocksTextual(s, i + 1, e);
    }
  }

  /** Only text and list blocks are kept, at any depth. */
  lemma {:induction false} OnlyTextualKept(sections: seq<LumiSection>, i: nat, e: Entry)
    requires e in ForestBlockEntries(sections, i)
    ensures FromTextualBlock(e)
    decreases |sections| - i
  {
    if e in TreeBlockEntries(sections[i]) {
      TreeBlocksTextual(sections[i], e);
    } else {
      OnlyTextualKept(sections, i + 1, e);
    }
  }

  /** Every text or list block of a top-level section is kept. */
  lemma {:induction false} TopLevelBlocksKept(sections: seq<LumiSection>, i: nat, k: nat, c: LumiContent)
    requires i <= k < |sections| && c in sections[k].contents && Textual(c)
    ensures ContentEntry(c) in ForestBlockEntries(sections, i)
    decreases k - i
  {
    var head, tail := TreeBlockEntries(sections[i]), ForestBlockEntries(sections, i + 1);
    if i < k {
      TopLevelBlocksKept(sections, i + 1, k, c);
    } else {
      BlockEntriesMeaning(sections[k].contents);
      InConcat(BlockEntries(sections[k].contents), SubtreeBlockEntries(sections[k], 0), ContentEntry(c));
    }
    InConcat(head, tail, ContentEntry(c));
  }

  // ---------------------------------------------------------------------
  // Prompt filter
  // ---------------------------------------------------------------------

  /** The entries the section and content prompts show: those whose text
      is longer than `MinCharacterLength`, in order. */
  function LongEntries(data: seq<Entry>): (r: seq<Entry>)
    ensures forall e :: e in r ==> e in data && |e.text| > MinCharacterLength
    ensures forall e :: e in data && |e.text| > MinCharacterLength ==> e in r
  {
    if data == [] then []
    else
      var last := data[|data| - 1];
      assert data == data[..|data| - 1] + [last];
      LongEntries(data[..|data| - 1]) + (if |last.text| > MinCharacterLength then [last] else [])
  }

  /** The formatted lines of a section or content prompt. */
  function PromptLines(data: seq<Entry>): (r: seq<string>)
    ensures |r| == |LongEntries(data)|
  {
    var long := LongEntries(data);
    seq(|long|, k requires 0 <= k < |long| => PromptUtils.FormatEntry(long[k].id, long[k].text))
  }

  /** Each prompt line reads back as an entry whose text is long enough. */
  lemma {:induction false} PromptLineMeaning(data: seq<Entry>, k: nat)
    requires k < |PromptLines(data)|
    ensures var e := LongEntries(data)[k];
      PromptUtils.ParseEntry(PromptLines(data)[k]) == Some((e.id, e.text))
      && e in data && |e.text| > MinCharacterLength
  {
    var e := LongEntries(data)[k];
    PromptUtils.FormatRoundTrip(LumiSpan(e.id, e.text, []));
  }

  // ---------------------------------------------------------------------
  // Batching
  // ---------------------------------------------------------------------

  /** `range(0, len(xs), size)` slices `xs[i : i + size]`. */
  function Batches<T>(xs: seq<T>, size: nat): seq<seq<T>>
    requires size > 0
    decreases |xs|
  {
    if xs == [] then []
    else if |xs| <= size then [xs]
    else [xs[..size]] + Batches(xs[size..], size)
  }

  function Flatten<T>(bs: seq<seq<T>>): seq<T>
  {
    if bs == [] then [] else bs[0] + Flatten(bs[1..])
  }

  /** The batches cover every item exactly once, in order. */
  lemma {:induction false} BatchesCover<T>(xs: seq<T>, size: nat)
    requires size > 0
    ensures Flatten(Batches(xs, size)) == xs
    decreases |xs|
  {
    if xs != [] && |xs| > size {
      BatchesCover(xs[size..], size);
      assert xs == xs[..size] + xs[size..];
    }
  }

  predicate WellSized<T>(bs: seq<seq<T>>, size: nat)
  {
    forall k :: 0 <= k < |bs| ==> 0 < |bs[k]| <= size && (k < |bs| - 1 ==> |bs[k]| == size)
  }

  /** Every batch is non-empty and at most `size` long; all but the last
      are exactly `size` long. */
  lemma {:induction false} BatchSizes<T>(xs: seq<T>, size: nat)
    requires size > 0
    ensures WellSized(Batches(xs, size), size)
    decreases |xs|
  {
    if xs != [] && |xs| > size {
      BatchSizes(xs[size..], size);
      var bs, tail := Batches(xs, size), Batches(xs[size..], size);
      assert bs == [xs[..size]] + tail;
      forall k | 0 <= k < |bs|
        ensures 0 < |bs[k]| <= size && (k < |bs| - 1 ==> |bs[k]| == size)
      {
        if k > 0 {
          assert bs[k] == tail[k - 1];
        }
      }
    } else if xs != [] {
      assert Batches(xs, size) == [xs];
    }
  }

  /** The number of batches is `len(xs) / size` rounded up. */
  lemma {:induction false} BatchCount<T>(xs: seq<T>, size: nat)
    requires size > 0
    ensures |Batches(xs, size)| * size >= |xs|
    ensures |Batches(xs, size)| * size < |xs| + size
    decreases |xs|
  {
    if xs != [] && |xs| > size {
      BatchCount(xs[size..], size);
      var n := |Batches(xs[size..], size)|;
      assert |Batches(xs, size)| == n + 1;
      assert (n + 1) * size == n * size + size;
    }
  }

  datatype BatchError = ZeroStep  // `range` rejects a step of 0

  function DropFrom<T>(xs: seq<T>, i: nat): seq<T>
  {
    if i >= |xs| then [] else xs[i..]
  }

  /** One turn of the batching loop takes the next slice. */
  lemma {:induction false} BatchStep<T>(xs: seq<T>, i: nat, size: nat)
    requires i < |xs| && size > 0
    ensures var end := if i + size < |xs| then i + size else |xs|;
      Batches(DropFrom(xs, i), size) == [xs[i..end]] + Batches(DropFrom(xs, i + size), size)
  {
    var rest := xs[i..];
    assert DropFrom(xs, i) == rest;
    if i + size < |xs| {
      assert rest[..size] == xs[i..i + size];
      assert rest[size..] == xs[i + size..];
      assert Batches(rest, size) == [rest[..size]] + Batches(rest[size..], size);
    } else {
      assert DropFrom(xs, i + size) == [];
      assert Batches(rest, size) == [rest];
      assert xs[i..|xs|] == rest;
    }
  }

  /** The batching loop of the three `generate_*_summaries`. A negative
      size gives an empty range, so no batch. */
  method MakeBatches<T>(xs: seq<T>, size: int) returns (r: Result<seq<seq<T>>, BatchError>)
    ensures size == 0 <==> r.Failure?
    ensures size < 0 ==> r == Success([])
    ensures size > 0 ==> r == Success(Batches(xs, size))
  {
    if size == 0 {
      r := Failure(ZeroStep);
    } else if size < 0 {
      r := Success([]);
    } else {
      var batches := SliceBatches(xs, size);
      r := Success(batches);
    }
  }

  /** `for i in range(0, len(xs), size): xs[i : i + size]`. */
  method SliceBatches<T>(xs: seq<T>, size: nat) returns (batches: seq<seq<T>>)
    requires size > 0
    ensures batches == Batches(xs, size)
  {
    batches := [];
    var i: nat := 0;
    assert DropFrom(xs, 0) == xs;
    while i < |xs|
      invariant batches + Batches(DropFrom(xs, i), size) == Batches(xs, size)
      decreases |xs| - i
    {
      var end := if i + size < |xs| then i + size else |xs|;
      BatchStep(xs, i, size);
      ConcatAssoc(batches, [xs[i..end]], Batches(DropFrom(xs, i + size), size));
      batches := batches + [xs[i..end]];
      i := i + size;
    }
    assert Batches(DropFrom(xs, i), size) == [];
    assert batches + [] == batches;
  }

  // ---------------------------------------------------------------------
  // generate_lumi_summaries
  // ---------------------------------------------------------------------

  datatype SummaryOptions = SummaryOptions(
    includeSectionSummaries: bool,
    includeContentSummaries: bool,
    includeSpanSummaries: bool,
    includeAbstractExcerpt: bool)

  /** The spans of the abstract, as `_select_abstract_excerpt` gathers them. */
  function AbstractSpans(a: LumiAbstract): seq<LumiSpan>
  {
    Flatten(seq(|a.contents|, i requires 0 <= i < |a.contents| => PromptUtils.BodySpans(a.contents[i])))
  }

  /** `_select_abstract_excerpt`: the model is asked only when there is an
      abstract with at least one span; an empty or missing answer gives
      none. `response` is the id the model returns. The second component
      says whether the model was asked. */
  function SelectAbstractExcerpt(d: LumiDocument, response: Option<string>): (r: (Option<string>, bool))
    ensures r.0.Some? ==> r.1 && response.Some? && r.0.value == response.value && response.value != []
    ensures r.1 <==> d.abstractPart.Some? && AbstractSpans(d.abstractPart.value) != []
  {
    if d.abstractPart.None? then (None, false)
    else if AbstractSpans(d.abstractPart.value) == [] then (None, false)
    else if response.Some? && response.value != [] then (Some(response.value), true)
    else (None, true)
  }

  /** The generators a request runs, in order. */
  datatype Generator = SectionGenerator | ContentGenerator | SpanGenerator | ExcerptGenerator

  /** The place of a generator in the order the requests are issued. */
  function Rank(g: Generator): nat
  {
    match g
    case SectionGenerator => 0
    case ContentGenerator => 1
    case SpanGenerator => 2
    case ExcerptGenerator => 3
  }

  /** Each generator runs at most once, and in the fixed order of `Rank`. */
  predicate InRunOrder(calls: seq<Generator>)
  {
    forall i, j :: 0 <= i < j < |calls| ==> Rank(calls[i]) < Rank(calls[j])
  }

  /** The generator `g` when it is switched on, nothing otherwise. */
  function RunIf(on: bool, g: Generator): (r: seq<Generator>)
    ensures forall h :: h in r <==> on && h == g
  {
    if on then [g] else []
  }

  /** Every generator in `calls` comes before rank `k`. */
  predicate RanksBelow(calls: seq<Generator>, k: nat)
  {
    forall i :: 0 <= i < |calls| ==> Rank(calls[i]) < k
  }

  /** Running `g` after generators that all come before it keeps the run order. */
  lemma {:induction false} AppendInRunOrder(calls: seq<Generator>, on: bool, g: Generator)
    requires InRunOrder(calls) && RanksBelow(calls, Rank(g))
    ensures InRunOrder(calls + RunIf(on, g)) && RanksBelow(calls + RunIf(on, g), Rank(g) + 1)
  {
    var all := calls + RunIf(on, g);
    forall i, j | 0 <= i < j < |all| ensures Rank(all[i]) < Rank(all[j]) {
      assert all[i] == calls[i];
      if j < |calls| {
        assert all[j] == calls[j];
      } else {
        assert all[j] == g;
      }
    }
    forall i | 0 <= i < |all| ensures Rank(all[i]) < Rank(g) + 1 {
      if i < |calls| {
        assert all[i] == calls[i];
      }
    }
  }

  /** The generators `generate_lumi_summaries` runs, in the order it runs
      them, given which of them are switched on. */
  function Calls(section: bool, content: bool, span: bool, excerpt: bool): (calls: seq<Generator>)
    ensures SectionGenerator in calls <==> section
    ensures ContentGenerator in calls <==> content
    ensures SpanGenerator in calls <==> span
    ensures ExcerptGenerator in calls <==> excerpt
  {
    RunIf(section, SectionGenerator) + RunIf(content, ContentGenerator)
    + RunIf(span, SpanGenerator) + RunIf(excerpt, ExcerptGenerator)
  }

  /** The requests go out in the order section, content, span, excerpt,
      each at most once. */
  lemma {:induction false} CallsInRunOrder(section: bool, content: bool, span: bool, excerpt: bool)
    ensures InRunOrder(Calls(section, content, span, excerpt))
  {
    var c1 := RunIf(section, SectionGenerator);
    var c2 := c1 + RunIf(content, ContentGenerator);
    var c3 := c2 + RunIf(span, SpanGenerator);
    AppendInRunOrder(c1, content, ContentGenerator);
    AppendInRunOrder(c2, span, SpanGenerator);
    AppendInRunOrder(c3, excerpt, ExcerptGenerator);
  }

  /** `generate_lumi_summaries`, with the results of the three generators
      and of the excerpt request as parameters. */
  function GenerateLumiSummaries(d: LumiDocument, options: SummaryOptions,
                                 sections: seq<LumiSummary>, contents: seq<LumiSummary>,
                                 spans: seq<LumiSummary>, excerpt: Option<string>): (r: (LumiSummaries, seq<Generator>))
    ensures r.0.sectionSummaries == (if options.includeSectionSummaries then sections else [])
    ensures r.0.contentSummaries == (if options.includeContentSummaries then contents else [])
    ensures r.0.spanSummaries == (if options.includeSpanSummaries then spans else [])
    ensures r.0.abstractExcerptSpanId.Some? ==> options.includeAbstractExcerpt && d.abstractPart.Some?
    ensures SectionGenerator in r.1 <==> options.includeSectionSummaries
    ensures ContentGenerator in r.1 <==> options.includeContentSummaries
    ensures SpanGenerator in r.1 <==> options.includeSpanSummaries
    ensures ExcerptGenerator in r.1 <==> options.includeAbstractExcerpt && d.abstractPart.Some?
    ensures InRunOrder(r.1)
  {
    CallsInRunOrder(options.includeSectionSummaries, options.includeContentSummaries,
                    options.includeSpanSummaries, options.includeAbstractExcerpt && d.abstractPart.Some?);
    var calls := Calls(options.includeSectionSummaries, options.includeContentSummaries,
                       options.includeSpanSummaries, options.includeAbstractExcerpt && d.abstractPart.Some?);
    var excerptId :=
      if options.includeAbstractExcerpt && d.abstractPart.Some? then SelectAbstractExcerpt(d, excerpt).0 else None;
    (LumiSummaries(
       if options.includeSectionSummaries then sections else [],
       if options.includeContentSummaries then contents else [],
       if options.includeSpanSummaries then spans else [],
       excerptId),
     calls)
  }

  /** With every option off nothing is generated and nothing is run. */
  lemma {:induction false} AllOptionsOff(d: LumiDocument, sections: seq<LumiSummary>, contents: seq<LumiSummary>,
                      spans: seq<LumiSummary>, excerpt: Option<string>)
    ensures GenerateLumiSummaries(d, SummaryOptions(false, false, false, false), sections, contents, spans, excerpt)
      == (LumiSummaries([], [], [], None), [])
  {
    var r := GenerateLumiSummaries(d, SummaryOptions(false, false, false, false), sections, contents, spans, excerpt);
    assert r.1 == [];
  }
}
