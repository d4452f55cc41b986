/** The parts of the import pipeline that work on the model output and on
    the finished document: collecting every image of a document, the flat
    storage path an image is uploaded under, and the pre-processing step
    that cuts figure, HTML-figure and image blocks out of the model output,
    stores each as a content under a fresh placeholder key and leaves the
    key in the text in its place. */
module ImportPipeline {
  import opened Wrappers
  import opened Text
  import opened LumiDoc
  import opened HtmlTree
  import opened ImportTags
  import opened BlockPatterns
  import opened StoragePaths
  import opened ConvertListContent
  import opened ConvertHtmlToLumi

  // ---------------------------------------------------------------------
  // Collecting the images of a document (`_collect_image_contents`)
  // ---------------------------------------------------------------------

  /** The images one content holds: its own image, then the images of its
      figure. */
  function ContentImages(c: LumiContent): seq<ImageContent>
  {
    (if c.imageContent.Some? then [c.imageContent.value] else [])
      + (if c.figureContent.Some? then c.figureContent.value.images else [])
  }

  /** The images of `contents[i..]`, content by content. */
  function ContentsImages(contents: seq<LumiContent>, i: nat): seq<ImageContent>
    decreases |contents| - i
  {
    if i >= |contents| then [] else ContentImages(contents[i]) + ContentsImages(contents, i + 1)
  }

  /** The images of a section tree: its own contents, then each
      sub-section's tree in turn. */
  function TreeImages(s: LumiSection): seq<ImageContent>
    decreases s, 1
  {
    ContentsImages(s.contents, 0) + SubtreeImages(s, 0)
  }

  function SubtreeImages(s: LumiSection, i: nat): seq<ImageContent>
    decreases s, 0, |s.subSections| - i
  {
    if i >= |s.subSections| then [] else TreeImages(s.subSections[i]) + SubtreeImages(s, i + 1)
  }

  /** The images of the top-level sections `sections[i..]`. */
  function ForestImages(sections: seq<LumiSection>, i: nat): seq<ImageContent>
    decreases |sections| - i
  {
    if i >= |sections| then [] else TreeImages(sections[i]) + ForestImages(sections, i + 1)
  }

  function AbstractImages(d: LumiDocument): seq<ImageContent>
  {
    if d.abstractPart.Some? then ContentsImages(d.abstractPart.value.contents, 0) else []
  }

  /** Every image of the document: the abstract's first, then the
      sections' in pre-order. */
  function DocImages(d: LumiDocument): seq<ImageContent>
  {
    AbstractImages(d) + ForestImages(d.sections, 0)
  }

  /** `collect_from_contents`. */
  method CollectFromContents(acc: seq<ImageContent>, contents: seq<LumiContent>) returns (acc': seq<ImageContent>)
    ensures acc' == acc + ContentsImages(contents, 0)
  {
    acc' := acc;
    var k := 0;
    while k < |contents|
      invariant 0 <= k <= |contents|
      invariant acc' + ContentsImages(contents, k) == acc + ContentsImages(contents, 0)
    {
      ghost var before := acc';
      var content := contents[k];
      if content.imageContent.Some? {
        acc' := acc' + [content.imageContent.value];
      }
      if content.figureContent.Some? {
        acc' := acc' + content.figureContent.value.images;
      }
      assert acc' == before + ContentImages(content);
      ContentsStep(before, contents, k);
      k := k + 1;
    }
  }

  lemma {:induction false} ContentsStep(acc: seq<ImageContent>, contents: seq<LumiContent>, k: nat)
    requires k < |contents|
    ensures (acc + ContentImages(contents[k])) + ContentsImages(contents, k + 1) == acc + ContentsImages(contents, k)
  {
    assert ContentsImages(contents, k) == ContentImages(contents[k]) + ContentsImages(contents, k + 1);
  }

  /** `collect_from_sections` on one section. */
  method CollectFromSection(acc: seq<ImageContent>, s: LumiSection) returns (acc': seq<ImageContent>)
    ensures acc' == acc + TreeImages(s)
    decreases s, 1
  {
    var own := CollectFromContents(acc, s.contents);
    acc' := CollectFromSubsections(own, s);
  }

  /** The recursive call on the sub-sections of `s`. */
  method CollectFromSubsections(acc: seq<ImageContent>, s: LumiSection) returns (acc': seq<ImageContent>)
    ensures acc' == acc + SubtreeImages(s, 0)
    decreases s, 0
  {
    acc' := acc;
    var k := 0;
    while k < |s.subSections|
      invariant 0 <= k <= |s.subSections|
      invariant acc' + SubtreeImages(s, k) == acc + SubtreeImages(s, 0)
    {
      ghost var before := acc';
      acc' := CollectFromSection(acc', s.subSections[k]);
      SubtreeStep(before, s, k);
      k := k + 1;
    }
  }

  lemma {:induction false} SubtreeStep(acc: seq<ImageContent>, s: LumiSection, k: nat)
    requires k < |s.subSections|
    ensures (acc + TreeImages(s.subSections[k])) + SubtreeImages(s, k + 1) == acc + SubtreeImages(s, k)
  {
    assert SubtreeImages(s, k) == TreeImages(s.subSections[k]) + SubtreeImages(s, k + 1);
  }

  lemma {:induction false} ForestStep(acc: seq<ImageContent>, sections: seq<LumiSection>, i: nat)
    requires i < |sections|
    ensures (acc + TreeImages(sections[i])) + ForestImages(sections, i + 1) == acc + ForestImages(sections, i)
  {
    assert ForestImages(sections, i) == TreeImages(sections[i]) + ForestImages(sections, i + 1);
  }

  /** `_collect_image_contents`. */
  method CollectImageContents(d: LumiDocument) returns (images: seq<ImageContent>)
    ensures images == DocImages(d)
  {
    images := [];
    if d.abstractPart.Some? {
      images := CollectFromContents(images, d.abstractPart.value.contents);
    }
    assert images == AbstractImages(d);
    var i := 0;
    while i < |d.sections|
      invariant 0 <= i <= |d.sections|
      invariant images + ForestImages(d.sections, i) == DocImages(d)
    {
      ghost var before := images;
      images := CollectFromSection(images, d.sections[i]);
      ForestStep(before, d.sections, i);
      i := i + 1;
    }
  }

  lemma {:induction false} InConcat(a: seq<ImageContent>, b: seq<ImageContent>, x: ImageContent)
    requires x in a || x in b
    ensures x in a + b
  {
  }

  lemma {:induction false} ContentInContents(contents: seq<LumiContent>, i: nat, k: nat, x: ImageContent)
    requires i <= k < |contents| && x in ContentImages(contents[k])
    ensures x in ContentsImages(contents, i)
    decreases k - i
  {
    var head, tail := ContentImages(contents[i]), ContentsImages(contents, i + 1);
    if i < k {
      ContentInContents(contents, i + 1, k, x);
    }
    InConcat(head, tail, x);
  }

  lemma {:induction false} SubtreeInSubtrees(s: LumiSection, i: nat, k: nat, x: ImageContent)
    requires i <= k < |s.subSections| && x in TreeImages(s.subSections[k])
    ensures x in SubtreeImages(s, i)
    decreases k - i
  {
    var head, tail := TreeImages(s.subSections[i]), SubtreeImages(s, i + 1);
    if i < k {
      SubtreeInSubtrees(s, i + 1, k, x);
    }
    InConcat(head, tail, x);
  }

  lemma {:induction false} TreeInForest(sections: seq<LumiSection>, i: nat, k: nat, x: ImageContent)
    requires i <= k < |sections| && x in TreeImages(sections[k])
    ensures x in ForestImages(sections, i)
    decreases k - i
  {
    var head, tail := TreeImages(sections[i]), ForestImages(sections, i + 1);
    if i < k {
      TreeInForest(sections, i + 1, k, x);
    }
    InConcat(head, tail, x);
  }

  /** A section's tree holds the images of its own contents and of every
      sub-section's tree, so images at any depth are collected. */
  lemma {:induction false} PartsInTree(s: LumiSection, x: ImageContent)
    requires (exists k :: 0 <= k < |s.contents| && x in ContentImages(s.contents[k]))
      || (exists j :: 0 <= j < |s.subSections| && x in TreeImages(s.subSections[j]))
    ensures x in TreeImages(s)
  {
    if k :| 0 <= k < |s.contents| && x in ContentImages(s.contents[k]) {
      ContentInContents(s.contents, 0, k, x);
    } else {
      var j :| 0 <= j < |s.subSections| && x in TreeImages(s.subSections[j]);
      SubtreeInSubtrees(s, 0, j, x);
    }
    InConcat(ContentsImages(s.contents, 0), SubtreeImages(s, 0), x);
  }

  /** An image of an abstract content, or of any top-level section's tree,
      is collected. */
  lemma {:induction false} ImagesInDoc(d: LumiDocument, x: ImageContent)
    requires (d.abstractPart.Some?
                && exists k :: 0 <= k < |d.abstractPart.value.contents|
                                && x in ContentImages(d.abstractPart.value.contents[k]))
      || (exists j :: 0 <= j < |d.sections| && x in TreeImages(d.sections[j]))
    ensures x in DocImages(d)
  {
    if d.abstractPart.Some? && exists k :: 0 <= k < |d.abstractPart.value.contents|
                                          && x in ContentImages(d.abstractPart.value.contents[k]) {
      var k :| 0 <= k < |d.abstractPart.value.contents| && x in ContentImages(d.abstractPart.value.contents[k]);
      ContentInContents(d.abstractPart.value.contents, 0, k, x);
    } else {
      var j :| 0 <= j < |d.sections| && x in TreeImages(d.sections[j]);
      TreeInForest(d.sections, 0, j, x);
    }
    InConcat(AbstractImages(d), ForestImages(d.sections, 0), x);
  }

  /** The abstract's images come first, in the order of its contents. */
  lemma {:induction false} AbstractImagesFirst(d: LumiDocument)
    requires d.abstractPart.Some?
    ensures var a := ContentsImages(d.abstractPart.value.contents, 0);
      |a| <= |DocImages(d)| && DocImages(d)[..|a|] == a
  {
    var a := ContentsImages(d.abstractPart.value.contents, 0);
    assert DocImages(d) == a + ForestImages(d.sections, 0);
  }

  /** A content with only a figure contributes exactly the figure's images,
      in order; one with an image and a figure puts its own image first. */
  lemma {:induction false} FigureImagesInOrder(c: LumiContent)
    requires c.figureContent.Some?
    ensures c.imageContent.None? ==> ContentImages(c) == c.figureContent.value.images
    ensures c.imageContent.Some? ==> ContentImages(c) == [c.imageContent.value] + c.figureContent.value.images
  {
  }

  // ---------------------------------------------------------------------
  // Placeholder keys
  // ---------------------------------------------------------------------

  /** `_get_placeholder_id`: the key a block is stored under and left in
      the text in its place. */
  function Key(uid: Id): string
  {
    PlaceholderPrefix + NatToString(uid) + PlaceholderSuffix
  }

  function Keys(uids: seq<Id>): (r: seq<string>)
    ensures |r| == |uids| && forall j :: 0 <= j < |uids| ==> r[j] == Key(uids[j])
  {
    seq(|uids|, j requires 0 <= j < |uids| => Key(uids[j]))
  }

  /** Distinct ids give distinct keys. */
  lemma {:induction false} KeyInjective(a: Id, b: Id)
    requires Key(a) == Key(b)
    ensures a == b
  {
    var n := |PlaceholderPrefix|;
    var ka, kb := Key(a), Key(b);
    assert ka[n..|ka| - |PlaceholderSuffix|] == NatToString(a);
    assert kb[n..|kb| - |PlaceholderSuffix|] == NatToString(b);
    NatToStringInjective(a, b);
  }

  /** The character at index `i >= 2` of a key is never `[`. */
  lemma {:induction false} KeyCharNotBracket(uid: Id, i: nat)
    requires 2 <= i < |Key(uid)|
    ensures Key(uid)[i] != '['
  {
    var key, digits := Key(uid), NatToString(uid);
    var n := |PlaceholderPrefix|;
    if i < n {
      assert key[i] == PlaceholderPrefix[i];
    } else if i < n + |digits| {
      assert key[i] == digits[i - n];
      assert IsDigit(digits[i - n]);
    } else {
      assert key[i] == PlaceholderSuffix[i - n - |digits|];
    }
  }

  /** The block markers all start with `[[l`. */
  predicate MarkerOpen(sh: Shape)
  {
    |sh.open| >= 3 && sh.open[0] == '[' && sh.open[1] == '[' && sh.open[2] == 'l'
  }

  lemma {:induction false} ShapesOpenWithMarker()
    ensures MarkerOpen(FigureShape) && MarkerOpen(HtmlShape) && MarkerOpen(ImageShape)
  {
  }

  /** No block marker occurs at any position of a key. */
  lemma {:induction false} NoMarkerInKey(uid: Id, sh: Shape, p: nat)
    requires MarkerOpen(sh)
    ensures !OccursAt(Key(uid), sh.open, p)
  {
    var key := Key(uid);
    if OccursAt(key, sh.open, p) {
      assert key[p..p + |sh.open|] == sh.open;
      assert key[p] == '[' && key[p + 1] == '[' && key[p + 2] == 'l';
      if p > 0 {
        KeyCharNotBracket(uid, p + 1);
      }
    }
  }

  /** No block pattern matches anywhere in a key: a key left in the text
      by one pass is copied unchanged by the later passes. */
  lemma {:induction false} KeyInert(uid: Id, sh: Shape)
    requires MarkerOpen(sh)
    ensures Scan(Key(uid), sh) == Scanned([Key(uid)], [])
  {
    var key := Key(uid);
    var r := NextMatch(key, sh, 0);
    if r.Some? {
      NoMarkerInKey(uid, sh, r.value.start);
    }
    assert key[0..] == key;
  }

  /** The block splitter reads a key back as one whole placeholder. */
  lemma {:induction false} KeyReadBack(uid: Id)
    ensures PlaceholderEndAt(Key(uid), 0) == Some(|Key(uid)|)
  {
    var key, digits := Key(uid), NatToString(uid);
    var n := |PlaceholderPrefix|;
    assert OccursAt(key, PlaceholderPrefix, 0) by {
      assert key[0..n] == PlaceholderPrefix;
    }
    var j := n + |digits|;
    forall k | n <= k < j ensures !OccursAt(key, PlaceholderSuffix, k) {
      assert key[k] == digits[k - n];
      assert IsDigit(digits[k - n]);
      FirstCharMismatch(key, PlaceholderSuffix, k);
    }
    assert key[j..j + 2] == PlaceholderSuffix;
    FindAt(key, PlaceholderSuffix, n, j);
    assert key[n..j] == digits;
    assert NoLineBreak(digits) by {
      forall k | 0 <= k < |digits| ensures digits[k] != '\n' {
        assert IsDigit(digits[k]);
      }
    }
  }

  // ---------------------------------------------------------------------
  // The replacements
  // ---------------------------------------------------------------------

  /** The conversions the replacement steps call and that this model takes
      as given: Markdown to HTML nodes and the span hooks used by
      `convert_raw_output_to_spans`, and `postprocess_content_text`. */
  datatype Conversion = Conversion(toNodes: string -> seq<Node>, hooks: Hooks, postprocessContent: string -> string)

  /** `(group or "").strip()`. */
  function CaptionText(m: Match): string
  {
    if m.caption.Some? then Strip(m.caption.value) else []
  }

  /** `_create_caption_span`: no span for an empty caption; otherwise the
      first span of the caption converted without sentence splitting. */
  method CreateCaptionSpan(captionText: string, conv: Conversion, nextId: Id) returns (span: Option<LumiSpan>, idsAfter: Id)
    ensures captionText == [] ==> span == None && idsAfter == nextId
    ensures conv.toNodes(captionText) == [] ==> span == None
    ensures captionText != [] && conv.toNodes(captionText) != [] ==>
      var t := conv.hooks.getText(conv.toNodes(captionText)[0]);
      && (IsBlank(t) && NoTagFrom(t, 0) ==> span == None)
      && (!IsBlank(t) && NoTagFrom(t, 0) ==>
            span.Some? && span.value.text == conv.hooks.postprocess(t, false) && span.value.innerTags == [])
    ensures nextId <= idsAfter
  {
    if captionText == [] {
      return None, nextId;
    }
    var spans;
    spans, idsAfter := ConvertRawOutputToSpans(captionText, true, false, conv.toNodes, conv.hooks, nextId);
    span := if spans != [] then Some(spans[0]) else None;
  }

  /** What `_create_image_content` builds for `path` and its caption. */
  predicate ImageFor(img: ImageContent, fileId: string, path: string, captionText: string)
  {
    img.latexPath == path && img.storagePath == StoragePath(fileId, path)
      && img.altText == [] && img.width == 0.0 && img.height == 0.0
      && (captionText == [] ==> img.caption.None?)
  }

  /** `_create_image_content`. */
  method CreateImageContent(imagePath: string, captionText: string, fileId: string, conv: Conversion, nextId: Id)
    returns (img: ImageContent, idsAfter: Id)
    ensures ImageFor(img, fileId, imagePath, captionText)
    ensures nextId <= idsAfter && (captionText == [] ==> idsAfter == nextId)
  {
    var caption;
    caption, idsAfter := CreateCaptionSpan(captionText, conv, nextId);
    var flattened := FlatName(imagePath);
    var storagePath := fileId + ImagesDirectory + flattened;
    img := ImageContent(storagePath, imagePath, [], 0.0, 0.0, caption);
  }

  /** Each image match of a figure body gives its image, in order. */
  predicate SubImagesFor(images: seq<ImageContent>, fileId: string, hits: seq<Match>)
  {
    |images| == |hits|
      && forall j :: 0 <= j < |hits| ==> ImageFor(images[j], fileId, hits[j].id, CaptionText(hits[j]))
  }

  /** The loop over `IMAGE_AND_CAPTION_PATTERN.finditer` in a figure body. */
  method CollectSubImages(hits: seq<Match>, fileId: string, conv: Conversion, nextId: Id)
    returns (images: seq<ImageContent>, idsAfter: Id)
    ensures SubImagesFor(images, fileId, hits)
    ensures nextId <= idsAfter
  {
    images := [];
    idsAfter := nextId;
    var j := 0;
    while j < |hits|
      invariant 0 <= j <= |hits| && nextId <= idsAfter
      invariant SubImagesFor(images, fileId, hits[..j])
    {
      var img;
      img, idsAfter := CreateImageContent(hits[j].id, CaptionText(hits[j]), fileId, conv, idsAfter);
      images := images + [img];
      j := j + 1;
    }
    assert hits[..j] == hits;
  }

  /** Only the given kind of content is set. */
  predicate OnlyImage(c: LumiContent)
  {
    c.imageContent.Some? && c.textContent.None? && c.figureContent.None?
      && c.htmlFigureContent.None? && c.listContent.None?
  }

  predicate OnlyFigure(c: LumiContent)
  {
    c.figureContent.Some? && c.textContent.None? && c.imageContent.None?
      && c.htmlFigureContent.None? && c.listContent.None?
  }

  predicate OnlyHtmlFigure(c: LumiContent)
  {
    c.htmlFigureContent.Some? && c.textContent.None? && c.imageContent.None?
      && c.figureContent.None? && c.listContent.None?
  }

  /** The three kinds of block, in the order they are replaced. */
  datatype BlockKind = FigureBlocks | HtmlFigureBlocks | ImageBlocks

  function ShapeOf(kind: BlockKind): (sh: Shape)
    ensures MarkerOpen(sh)
  {
    match kind
    case FigureBlocks => FigureShape
    case HtmlFigureBlocks => HtmlShape
    case ImageBlocks => ImageShape
  }

  /** The content a replacer stores for the match `m`. An image block is
      an image whose path is the match's path; a figure holds one image
      per image match of its body, in order; an HTML figure holds the
      post-processed, stripped body. An empty caption gives no caption. */
  predicate Replaces(kind: BlockKind, fileId: string, conv: Conversion, m: Match, c: LumiContent)
  {
    match kind
    case ImageBlocks =>
      OnlyImage(c) && ImageFor(c.imageContent.value, fileId, m.id, CaptionText(m))
    case FigureBlocks =>
      && OnlyFigure(c)
      && SubImagesFor(c.figureContent.value.images, fileId, Scan(m.body, ImageShape).hits)
      && (CaptionText(m) == [] ==> c.figureContent.value.caption.None?)
    case HtmlFigureBlocks =>
      && OnlyHtmlFigure(c)
      && c.htmlFigureContent.value.html == conv.postprocessContent(Strip(m.body))
      && (CaptionText(m) == [] ==> c.htmlFigureContent.value.caption.None?)
  }

  /** `image_replacer`, without the map update: the id is taken first,
      then the caption converted. */
  method ReplaceImage(m: Match, fileId: string, conv: Conversion, nextId: Id) returns (c: LumiContent, idsAfter: Id)
    ensures c.id == nextId && Replaces(ImageBlocks, fileId, conv, m, c)
    ensures nextId < idsAfter
  {
    var id := nextId;
    var img;
    img, idsAfter := CreateImageContent(m.id, CaptionText(m), fileId, conv, nextId + 1);
    c := LumiContent(id, None, Some(img), None, None, None);
  }

  /** `figure_replacer`, without the map update. */
  method ReplaceFigure(m: Match, fileId: string, conv: Conversion, nextId: Id) returns (c: LumiContent, idsAfter: Id)
    ensures c.id == nextId && Replaces(FigureBlocks, fileId, conv, m, c)
    ensures nextId < idsAfter
  {
    var id := nextId;
    var caption, ids := CreateCaptionSpan(CaptionText(m), conv, nextId + 1);
    var images;
    images, idsAfter := CollectSubImages(Scan(m.body, ImageShape).hits, fileId, conv, ids);
    c := LumiContent(id, None, None, Some(FigureContent(images, caption)), None, None);
  }

  /** `html_figure_replacer`, without the map update. */
  method ReplaceHtmlFigure(m: Match, fileId: string, conv: Conversion, nextId: Id) returns (c: LumiContent, idsAfter: Id)
    ensures c.id == nextId && Replaces(HtmlFigureBlocks, fileId, conv, m, c)
    ensures nextId < idsAfter
  {
    var id := nextId;
    var caption;
    caption, idsAfter := CreateCaptionSpan(CaptionText(m), conv, nextId + 1);
    var html := conv.postprocessContent(Strip(m.body));
    c := LumiContent(id, None, None, None, Some(HtmlFigureContent(html, caption)), None);
  }

  method Replace(kind: BlockKind, m: Match, fileId: string, conv: Conversion, nextId: Id) returns (c: LumiContent, idsAfter: Id)
    ensures c.id == nextId && Replaces(kind, fileId, conv, m, c)
    ensures nextId < idsAfter
  {
    match kind {
      case FigureBlocks => c, idsAfter := ReplaceFigure(m, fileId, conv, nextId);
      case HtmlFigureBlocks => c, idsAfter := ReplaceHtmlFigure(m, fileId, conv, nextId);
      case ImageBlocks => c, idsAfter := ReplaceImage(m, fileId, conv, nextId);
    }
  }

  // ---------------------------------------------------------------------
  // The placeholder map
  // ---------------------------------------------------------------------

  /** `placeholders` after storing `contents[k]` under `Key(uids[k])` for
      each `k` in turn. */
  function Stored(placeholders: map<string, LumiContent>, uids: seq<Id>, contents: seq<LumiContent>): map<string, LumiContent>
    requires |uids| == |contents|
    decreases |uids|
  {
    if uids == [] then placeholders
    else
      var n := |uids| - 1;
      Stored(placeholders, uids[..n], contents[..n])[Key(uids[n]) := contents[n]]
  }

  /** The ids lie in `[lo, hi)` and strictly increase. */
  predicate Ascending(uids: seq<Id>, lo: Id, hi: Id)
  {
    && lo <= hi
    && (forall j :: 0 <= j < |uids| ==> lo <= uids[j] < hi)
    && (forall i, j :: 0 <= i < j < |uids| ==> uids[i] < uids[j])
  }

  /** One `pattern.sub(replacer, text)` pass: its input and output, and the
      id and content of each replaced block in order. */
  datatype Pass = Pass(input: string, output: string, uids: seq<Id>, contents: seq<LumiContent>)

  /** `contents[k]`, with id `uids[k]`, is what the replacer builds for
      `hits[k]`, stated from the last block back. */
  predicate Replacements(kind: BlockKind, fileId: string, conv: Conversion, hits: seq<Match>,
                         uids: seq<Id>, contents: seq<LumiContent>)
    decreases |hits|
  {
    && |uids| == |hits| && |contents| == |hits|
    && (hits != [] ==>
          var n := |hits| - 1;
          && Replacements(kind, fileId, conv, hits[..n], uids[..n], contents[..n])
          && contents[n].id == uids[n] && Replaces(kind, fileId, conv, hits[n], contents[n]))
  }

  /** Each match of the pass's pattern is replaced by the key of a content
      the replacer built for it; the text between matches is kept. */
  predicate PassDone(p: Pass, kind: BlockKind, fileId: string, conv: Conversion)
  {
    var sc := Scan(p.input, ShapeOf(kind));
    && Replacements(kind, fileId, conv, sc.hits, p.uids, p.contents)
    && p.output == Reassembled(sc.literals, Keys(p.uids))
  }

  /** The placeholder map: a dictionary the caller owns, which the
      replacers fill in place, one entry per replaced block. */
  class PlaceholderMap {
    var entries: map<string, LumiContent>
  }

  /** `pattern.sub(replacer, text)` with one of the three replacers: each
      match, left to right, gets a fresh id, its content is stored in the
      map under the key, and the key replaces it in the text. */
  method ReplaceBlocks(text: string, kind: BlockKind, fileId: string, conv: Conversion,
                       placeholders: PlaceholderMap, nextId: Id)
    returns (out: string, uids: seq<Id>, contents: seq<LumiContent>, idsAfter: Id)
    modifies placeholders
    ensures PassDone(Pass(text, out, uids, contents), kind, fileId, conv)
    ensures Ascending(uids, nextId, idsAfter)
    ensures placeholders.entries == Stored(old(placeholders.entries), uids, contents)
  {
    var sc := Scan(text, ShapeOf(kind));
    out, uids, contents, idsAfter := ReplaceHits(sc.literals, sc.hits, kind, fileId, conv, placeholders, nextId);
  }

  /** The loop of `sub` over the matches already found. */
  method ReplaceHits(literals: seq<string>, hits: seq<Match>, kind: BlockKind, fileId: string, conv: Conversion,
                     placeholders: PlaceholderMap, nextId: Id)
    returns (out: string, uids: seq<Id>, contents: seq<LumiContent>, idsAfter: Id)
    requires |literals| == |hits| + 1
    modifies placeholders
    ensures Replacements(kind, fileId, conv, hits, uids, contents)
    ensures out == Reassembled(literals, Keys(uids))
    ensures Ascending(uids, nextId, idsAfter)
    ensures placeholders.entries == Stored(old(placeholders.entries), uids, contents)
  {
    ghost var initial := placeholders.entries;
    out := literals[0];
    uids, contents := [], [];
    idsAfter := nextId;
    var k := 0;
    while k < |hits|
      invariant 0 <= k <= |hits|
      invariant Replacements(kind, fileId, conv, hits[..k], uids, contents)
      invariant out == Reassembled(literals[..k + 1], Keys(uids))
      invariant Ascending(uids, nextId, idsAfter)
      invariant placeholders.entries == Stored(initial, uids, contents)
    {
      var c, ids := Replace(kind, hits[k], fileId, conv, idsAfter);
      HitStep(literals, hits, kind, fileId, conv, initial, nextId, k, out, placeholders.entries, uids, contents,
              idsAfter, c, ids);
      placeholders.entries := placeholders.entries[Key(idsAfter) := c];
      out := out + Key(idsAfter) + literals[k + 1];
      uids := uids + [idsAfter];
      contents := contents + [c];
      idsAfter := ids;
      k := k + 1;
    }
    assert literals[..k + 1] == literals;
    assert hits[..k] == hits;
  }

  /** One step of the loop keeps its invariants. */
  lemma {:induction false} HitStep(literals: seq<string>, hits: seq<Match>, kind: BlockKind, fileId: string, conv: Conversion,
                placeholders: map<string, LumiContent>, nextId: Id, k: nat, out: string,
                placeholdersAfter: map<string, LumiContent>, uids: seq<Id>, contents: seq<LumiContent>,
                u: Id, c: LumiContent, ids: Id)
    requires |literals| == |hits| + 1 && k < |hits|
    requires Replacements(kind, fileId, conv, hits[..k], uids, contents)
    requires out == Reassembled(literals[..k + 1], Keys(uids))
    requires Ascending(uids, nextId, u) && u < ids
    requires placeholdersAfter == Stored(placeholders, uids, contents)
    requires c.id == u && Replaces(kind, fileId, conv, hits[k], c)
    ensures Replacements(kind, fileId, conv, hits[..k + 1], uids + [u], contents + [c])
    ensures out + Key(u) + literals[k + 1] == Reassembled(literals[..k + 2], Keys(uids + [u]))
    ensures Ascending(uids + [u], nextId, ids)
    ensures placeholdersAfter[Key(u) := c] == Stored(placeholders, uids + [u], contents + [c])
  {
    StoredSnoc(placeholders, uids, contents, u, c);
    ReplacementsSnoc(kind, fileId, conv, hits, k, uids, contents, u, c);
    KeysSnoc(uids, u);
    ReassembledSnoc(literals[..k + 1], Keys(uids), literals[k + 1], Key(u));
    PrefixSnoc(literals, k + 1);
    AscendingSnoc(uids, nextId, u, ids);
  }

  lemma {:induction false} ReplacementsSnoc(kind: BlockKind, fileId: string, conv: Conversion, hits: seq<Match>, k: nat,
                         uids: seq<Id>, contents: seq<LumiContent>, u: Id, c: LumiContent)
    requires k < |hits| && Replacements(kind, fileId, conv, hits[..k], uids, contents)
    requires c.id == u && Replaces(kind, fileId, conv, hits[k], c)
    ensures Replacements(kind, fileId, conv, hits[..k + 1], uids + [u], contents + [c])
  {
    var hs, us, cs := hits[..k + 1], uids + [u], contents + [c];
    assert hs[..k] == hits[..k] && us[..k] == uids && cs[..k] == contents;
  }

  lemma {:induction false} KeysSnoc(uids: seq<Id>, u: Id)
    ensures Keys(uids + [u]) == Keys(uids) + [Key(u)]
  {
  }

  lemma {:induction false} PrefixSnoc<T>(s: seq<T>, n: nat)
    requires n < |s|
    ensures s[..n + 1] == s[..n] + [s[n]]
  {
  }

  lemma {:induction false} AscendingSnoc(uids: seq<Id>, lo: Id, u: Id, hi: Id)
    requires Ascending(uids, lo, u) && u < hi
    ensures Ascending(uids + [u], lo, hi)
  {
  }

  lemma {:induction false} StoredSnoc(placeholders: map<string, LumiContent>, uids: seq<Id>, contents: seq<LumiContent>, u: Id, c: LumiContent)
    requires |uids| == |contents|
    ensures Stored(placeholders, uids + [u], contents + [c]) == Stored(placeholders, uids, contents)[Key(u) := c]
  {
    assert (uids + [u])[..|uids|] == uids;
    assert (contents + [c])[..|contents|] == contents;
  }

  lemma {:induction false} ReassembledSnoc(literals: seq<string>, parts: seq<string>, l: string, x: string)
    requires |literals| == |parts| + 1
    ensures Reassembled(literals + [l], parts + [x]) == Reassembled(literals, parts) + x + l
    decreases |parts|
  {
    if parts == [] {
      assert (literals + [l])[1..] == [l];
      assert (parts + [x])[1..] == [];
    } else {
      ReassembledSnoc(literals[1..], parts[1..], l, x);
      assert (literals + [l])[1..] == literals[1..] + [l];
      assert (parts + [x])[1..] == parts[1..] + [x];
    }
  }

  // ---------------------------------------------------------------------
  // `preprocess_and_replace_figures`
  // ---------------------------------------------------------------------

  function AllUids(passes: seq<Pass>): seq<Id>
    requires |passes| == 3
  {
    passes[0].uids + passes[1].uids + passes[2].uids
  }

  function AllContents(passes: seq<Pass>): seq<LumiContent>
    requires |passes| == 3
  {
    passes[0].contents + passes[1].contents + passes[2].contents
  }

  /** The three passes, figures first, then HTML figures, then images,
      each on the text the previous one produced; every id is fresh and
      the map ends up with every replaced block stored under its key. */
  predicate Preprocessed(raw: string, fileId: string, conv: Conversion, placeholders: map<string, LumiContent>,
                         nextId: Id, processed: string, placeholdersAfter: map<string, LumiContent>,
                         passes: seq<Pass>, idsAfter: Id)
  {
    && |passes| == 3
    && passes[0].input == raw && passes[1].input == passes[0].output
    && passes[2].input == passes[1].output && processed == passes[2].output
    && PassDone(passes[0], FigureBlocks, fileId, conv)
    && PassDone(passes[1], HtmlFigureBlocks, fileId, conv)
    && PassDone(passes[2], ImageBlocks, fileId, conv)
    && Ascending(AllUids(passes), nextId, idsAfter)
    && |AllUids(passes)| == |AllContents(passes)|
    && placeholdersAfter == Stored(placeholders, AllUids(passes), AllContents(passes))
  }

  /** `preprocess_and_replace_figures`. Figures are replaced before images,
      so the images inside a figure become part of the figure and get no
      entry of their own. `passes` records the intermediate texts and the
      blocks each pass replaced. */
  method PreprocessAndReplaceFigures(raw: string, fileId: string, conv: Conversion,
                                     placeholders: PlaceholderMap, nextId: Id)
    returns (processed: string, ghost passes: seq<Pass>, idsAfter: Id)
    modifies placeholders
    ensures Preprocessed(raw, fileId, conv, old(placeholders.entries), nextId, processed, placeholders.entries,
                         passes, idsAfter)
  {
    ghost var m0 := placeholders.entries;
    var afterFigures, u1, c1, i1 := ReplaceBlocks(raw, FigureBlocks, fileId, conv, placeholders, nextId);
    ghost var m1 := placeholders.entries;
    var afterHtml, u2, c2, i2 := ReplaceBlocks(afterFigures, HtmlFigureBlocks, fileId, conv, placeholders, i1);
    ghost var m2 := placeholders.entries;
    var u3, c3;
    processed, u3, c3, idsAfter := ReplaceBlocks(afterHtml, ImageBlocks, fileId, conv, placeholders, i2);
    ghost var p1, p2, p3 := Pass(raw, afterFigures, u1, c1), Pass(afterFigures, afterHtml, u2, c2), Pass(afterHtml, processed, u3, c3);
    ThreePasses(m0, nextId, p1, p2, p3, m1, m2, placeholders.entries, i1, i2, idsAfter);
    passes := [p1, p2, p3];
  }

  /** The ids and the map entries of three chained passes add up. */
  lemma {:induction false} ThreePasses(placeholders: map<string, LumiContent>, nextId: Id, p1: Pass, p2: Pass, p3: Pass,
                    m1: map<string, LumiContent>, m2: map<string, LumiContent>, m3: map<string, LumiContent>,
                    i1: Id, i2: Id, i3: Id)
    requires |p1.uids| == |p1.contents| && |p2.uids| == |p2.contents| && |p3.uids| == |p3.contents|
    requires Ascending(p1.uids, nextId, i1) && m1 == Stored(placeholders, p1.uids, p1.contents)
    requires Ascending(p2.uids, i1, i2) && m2 == Stored(m1, p2.uids, p2.contents)
    requires Ascending(p3.uids, i2, i3) && m3 == Stored(m2, p3.uids, p3.contents)
    ensures Ascending(AllUids([p1, p2, p3]), nextId, i3)
    ensures m3 == Stored(placeholders, AllUids([p1, p2, p3]), AllContents([p1, p2, p3]))
  {
    AscendingAppend(p1.uids, p2.uids, nextId, i1, i2);
    AscendingAppend(p1.uids + p2.uids, p3.uids, nextId, i2, i3);
    StoredAppend(placeholders, p1.uids, p1.contents, p2.uids, p2.contents);
    StoredAppend(placeholders, p1.uids + p2.uids, p1.contents + p2.contents, p3.uids, p3.contents);
  }

  lemma {:induction false} AscendingAppend(a: seq<Id>, b: seq<Id>, lo: Id, mid: Id, hi: Id)
    requires Ascending(a, lo, mid) && Ascending(b, mid, hi)
    ensures Ascending(a + b, lo, hi)
  {
    var ab := a + b;
    forall i, j | 0 <= i < j < |ab| ensures ab[i] < ab[j] {
      if j < |a| {
        assert ab[i] == a[i] && ab[j] == a[j];
      } else if i < |a| {
        assert ab[i] == a[i] && ab[j] == b[j - |a|];
      } else {
        assert ab[i] == b[i - |a|] && ab[j] == b[j - |a|];
      }
    }
  }

  lemma {:induction false} StoredAppend(placeholders: map<string, LumiContent>, a: seq<Id>, x: seq<LumiContent>,
                                        b: seq<Id>, y: seq<LumiContent>)
    requires |a| == |x| && |b| == |y|
    ensures Stored(Stored(placeholders, a, x), b, y) == Stored(placeholders, a + b, x + y)
    decreases |b|
  {
    if b == [] {
      assert a + b == a && x + y == x;
    } else {
      var n := |b| - 1;
      StoredAppend(placeholders, a, x, b[..n], y[..n]);
      assert (a + b)[..|a + b| - 1] == a + b[..n];
      assert (x + y)[..|x + y| - 1] == x + y[..n];
    }
  }

  /** With distinct ids, `contents[k]` is found under `Key(uids[k])`. */
  lemma {:induction false} StoredLookup(placeholders: map<string, LumiContent>, uids: seq<Id>, contents: seq<LumiContent>, k: nat)
    requires |uids| == |contents| && k < |uids|
    requires forall i, j :: 0 <= i < j < |uids| ==> uids[i] < uids[j]
    ensures Key(uids[k]) in Stored(placeholders, uids, contents)
    ensures Stored(placeholders, uids, contents)[Key(uids[k])] == contents[k]
    decreases |uids|
  {
    var n := |uids| - 1;
    if k < n {
      StoredLookup(placeholders, uids[..n], contents[..n], k);
      if Key(uids[n]) == Key(uids[k]) {
        KeyInjective(uids[n], uids[k]);
      }
    }
  }

  /** `key` is the key of one of the ids. */
  predicate KeyOfSome(key: string, uids: seq<Id>)
  {
    exists j :: 0 <= j < |uids| && key == Key(uids[j])
  }

  lemma {:induction false} KeyOfSomeSnoc(key: string, uids: seq<Id>)
    requires uids != []
    ensures KeyOfSome(key, uids) <==> KeyOfSome(key, uids[..|uids| - 1]) || key == Key(uids[|uids| - 1])
  {
    var n := |uids| - 1;
    if KeyOfSome(key, uids) {
      var j :| 0 <= j < |uids| && key == Key(uids[j]);
      if j < n {
        assert uids[..n][j] == uids[j];
      }
    }
    if KeyOfSome(key, uids[..n]) {
      var j :| 0 <= j < n && key == Key(uids[..n][j]);
      assert uids[j] == uids[..n][j];
    }
  }

  /** Every key of the map after storing is a key from before or the key
      of one of the ids. */
  lemma {:induction false} StoredKeys(placeholders: map<string, LumiContent>, uids: seq<Id>, contents: seq<LumiContent>, key: string)
    requires |uids| == |contents|
    ensures key in Stored(placeholders, uids, contents) <==> key in placeholders || KeyOfSome(key, uids)
    decreases |uids|
  {
    if uids != [] {
      var n := |uids| - 1;
      StoredKeys(placeholders, uids[..n], contents[..n], key);
      KeyOfSomeSnoc(key, uids);
    }
  }

  /** No key from before is the key of an id from `lo` on. */
  ghost predicate FreshFrom(placeholders: map<string, LumiContent>, lo: Id)
  {
    forall u: Id :: lo <= u ==> Key(u) !in placeholders
  }

  /** Storing under fresh, distinct keys adds one entry per id. */
  lemma {:induction false} StoredSize(placeholders: map<string, LumiContent>, uids: seq<Id>, contents: seq<LumiContent>, lo: Id, hi: Id)
    requires |uids| == |contents| && Ascending(uids, lo, hi) && FreshFrom(placeholders, lo)
    ensures |Stored(placeholders, uids, contents)| == |placeholders| + |uids|
    decreases |uids|
  {
    if uids != [] {
      var n := |uids| - 1;
      var prefix := uids[..n];
      assert Ascending(prefix, lo, hi);
      StoredSize(placeholders, prefix, contents[..n], lo, hi);
      var key := Key(uids[n]);
      StoredKeys(placeholders, prefix, contents[..n], key);
      if exists j :: 0 <= j < n && key == Key(prefix[j]) {
        var j :| 0 <= j < n && key == Key(prefix[j]);
        KeyInjective(uids[n], prefix[j]);
        assert false;
      }
    }
  }

  /** Starting from a map with no key of an id from `nextId` on (an empty
      one, as the import does), the map gains exactly one entry per
      replaced block, and each block's content is found under its key. */
  lemma {:induction false} OneEntryPerBlock(raw: string, fileId: string, conv: Conversion, placeholders: map<string, LumiContent>,
                         nextId: Id, processed: string, placeholdersAfter: map<string, LumiContent>,
                         passes: seq<Pass>, idsAfter: Id)
    requires Preprocessed(raw, fileId, conv, placeholders, nextId, processed, placeholdersAfter, passes, idsAfter)
    requires FreshFrom(placeholders, nextId)
    ensures |placeholdersAfter| == |placeholders| + |passes[0].uids| + |passes[1].uids| + |passes[2].uids|
    ensures forall k :: 0 <= k < |AllUids(passes)| ==>
      Key(AllUids(passes)[k]) in placeholdersAfter && placeholdersAfter[Key(AllUids(passes)[k])] == AllContents(passes)[k]
  {
    var uids, contents := AllUids(passes), AllContents(passes);
    StoredSize(placeholders, uids, contents, nextId, idsAfter);
    forall k | 0 <= k < |uids|
      ensures Key(uids[k]) in placeholdersAfter && placeholdersAfter[Key(uids[k])] == contents[k]
    {
      StoredLookup(placeholders, uids, contents, k);
    }
  }

  // ---------------------------------------------------------------------
  // A figure with images inside
  // ---------------------------------------------------------------------

  /** A pass over a text that holds no match leaves it as it is. */
  lemma {:induction false} NothingToReplace(p: Pass, kind: BlockKind, fileId: string, conv: Conversion)
    requires PassDone(p, kind, fileId, conv) && Scan(p.input, ShapeOf(kind)) == Scanned([p.input], [])
    ensures p.output == p.input && p.uids == [] && p.contents == []
  {
  }

  /** A later pass over a text that is one key leaves it as it is. */
  lemma {:induction false} KeyPassIdle(p: Pass, kind: BlockKind, fileId: string, conv: Conversion, u: Id)
    requires PassDone(p, kind, fileId, conv) && p.input == Key(u)
    ensures p.output == p.input && p.uids == [] && p.contents == []
  {
    ShapesOpenWithMarker();
    KeyInert(u, ShapeOf(kind));
    NothingToReplace(p, kind, fileId, conv);
  }

  /** A figure pass over a text that is one figure block leaves one key
      and builds one figure content for the block. */
  lemma {:induction false} OneFigurePass(p: Pass, fileId: string, conv: Conversion, m: Match)
    requires PassDone(p, FigureBlocks, fileId, conv) && Scan(p.input, FigureShape) == Scanned(["", ""], [m])
    ensures |p.uids| == 1 && |p.contents| == 1 && p.output == Key(p.uids[0])
    ensures var c := p.contents[0];
      OnlyFigure(c) && SubImagesFor(c.figureContent.value.images, fileId, Scan(m.body, ImageShape).hits)
  {
    OneKey(p.uids, p.output);
    OneFigure(fileId, conv, m, p.uids, p.contents);
  }

  /** Replacing one block that fills the text leaves just its key. */
  lemma {:induction false} OneKey(uids: seq<Id>, output: string)
    requires |uids| == 1 && output == Reassembled(["", ""], Keys(uids))
    ensures output == Key(uids[0])
  {
    assert Keys(uids) == [Key(uids[0])];
    assert Reassembled([""], []) == "";
  }

  /** The one content built for one figure match. */
  lemma {:induction false} OneFigure(fileId: string, conv: Conversion, m: Match, uids: seq<Id>, contents: seq<LumiContent>)
    requires Replacements(FigureBlocks, fileId, conv, [m], uids, contents)
    ensures |uids| == 1 && |contents| == 1
    ensures var c := contents[0];
      OnlyFigure(c) && SubImagesFor(c.figureContent.value.images, fileId, Scan(m.body, ImageShape).hits)
  {
    assert [m][..0] == [];
  }

  /** Figures are replaced first: a text that the figure pattern reads as
      one whole block `m`, whatever images its body holds, ends up as a
      single key, and the map gains that one entry, a figure holding one
      image per image of the block's body. The images get no entry of
      their own. */
  lemma {:induction false} FigureSwallowsImages(raw: string, m: Match, fileId: string, conv: Conversion,
                             placeholders: map<string, LumiContent>, nextId: Id, processed: string,
                             placeholdersAfter: map<string, LumiContent>, passes: seq<Pass>, idsAfter: Id)
    requires Scan(raw, FigureShape) == Scanned(["", ""], [m])
    requires Preprocessed(raw, fileId, conv, placeholders, nextId, processed, placeholdersAfter, passes, idsAfter)
    ensures |AllUids(passes)| == 1 && processed == Key(AllUids(passes)[0])
    ensures placeholdersAfter == placeholders[Key(AllUids(passes)[0]) := AllContents(passes)[0]]
    ensures var c := AllContents(passes)[0];
      OnlyFigure(c) && SubImagesFor(c.figureContent.value.images, fileId, Scan(m.body, ImageShape).hits)
  {
    var p0 := passes[0];
    OneFigurePass(p0, fileId, conv, m);
    var u := p0.uids[0];
    KeyPassIdle(passes[1], HtmlFigureBlocks, fileId, conv, u);
    KeyPassIdle(passes[2], ImageBlocks, fileId, conv, u);
    assert AllUids(passes) == [u];
    assert AllContents(passes) == p0.contents;
    assert Stored(placeholders, [u], p0.contents) == placeholders[Key(u) := p0.contents[0]];
  }
}
