/** Turning tagged text into spans: the tag parser strips the inline markup
    and records where each annotation lies in the cleaned text, and the span
    builder cuts the cleaned text into sentences and moves every annotation
    into the sentences it overlaps. */
module ConvertLumiSpans {
  import opened Wrappers
  import opened Text
  import opened LumiDoc
  import opened ImportTags
  import opened Tokenize

  // ---------------------------------------------------------------------
  // Shapes of tag trees
  // ---------------------------------------------------------------------

  /** Every tag lies within `text`, and its children lie within the tag's own
      stretch of `text` (their positions count from the tag's start). */
  predicate TagsWellFormed(tags: seq<InnerTag>, text: string)
    decreases tags
  {
    forall k :: 0 <= k < |tags| ==>
      0 <= tags[k].position.startIndex <= tags[k].position.endIndex <= |text|
      && TagsWellFormed(tags[k].children, text[tags[k].position.startIndex..tags[k].position.endIndex])
  }

  /** Top-level tags do not overlap and come in text order. */
  predicate InTextOrder(tags: seq<InnerTag>)
  {
    forall j, k :: 0 <= j < k < |tags| ==> tags[j].position.endIndex <= tags[k].position.startIndex
  }

  /** At every depth, a tag's start does not exceed its end. */
  predicate StartsBeforeEnds(tags: seq<InnerTag>)
    decreases tags
  {
    forall k :: 0 <= k < |tags| ==>
      tags[k].position.startIndex <= tags[k].position.endIndex && StartsBeforeEnds(tags[k].children)
  }

  /** At every depth, positions lie in `[0, len]`. */
  predicate WithinLength(tags: seq<InnerTag>, len: int)
    decreases tags
  {
    forall k :: 0 <= k < |tags| ==>
      0 <= tags[k].position.startIndex <= tags[k].position.endIndex <= len
      && WithinLength(tags[k].children, len)
  }

  /** The ids of the tree were drawn from the supply in post-order
      (children before their parent, siblings left to right), all from
      `[lo, hi)`; so no id occurs twice anywhere in the tree. */
  predicate IdsAllocated(tags: seq<InnerTag>, lo: int, hi: int)
    decreases tags
  {
    if tags == [] then lo <= hi
    else
      lo <= tags[0].id < hi
      && IdsAllocated(tags[0].children, lo, tags[0].id)
      && IdsAllocated(tags[1..], tags[0].id + 1, hi)
  }

  predicate IsMarkerName(n: InnerTagName)
  {
    n == Reference || n == Footnote || n == SpanReference
  }

  /** `key` is the one key of `m`. */
  predicate OnlyKey(m: map<string, string>, key: string)
  {
    key in m && |m| == 1
  }

  /** The metadata each kind of tag carries. */
  predicate MetadataFits(t: InnerTag)
  {
    if t.tagName == Concept || IsMarkerName(t.tagName) then OnlyKey(t.metadata, "id")
    else if t.tagName == A then OnlyKey(t.metadata, "href")
    else t.metadata == map[]
  }

  lemma {:induction false} WellFormedExtend(tags: seq<InnerTag>, text: string, more: string)
    requires TagsWellFormed(tags, text)
    ensures TagsWellFormed(tags, text + more)
  {
    forall k | 0 <= k < |tags|
      ensures TagsWellFormed(tags[k].children,
        (text + more)[tags[k].position.startIndex..tags[k].position.endIndex])
    {
      var a, b := tags[k].position.startIndex, tags[k].position.endIndex;
      assert (text + more)[a..b] == text[a..b];
    }
  }

  lemma {:induction false} WellFormedSnoc(tags: seq<InnerTag>, t: InnerTag, text: string)
    requires TagsWellFormed(tags, text)
    requires 0 <= t.position.startIndex <= t.position.endIndex <= |text|
    requires TagsWellFormed(t.children, text[t.position.startIndex..t.position.endIndex])
    ensures TagsWellFormed(tags + [t], text)
  {
    var all := tags + [t];
    forall k | 0 <= k < |all|
      ensures 0 <= all[k].position.startIndex <= all[k].position.endIndex <= |text|
      ensures TagsWellFormed(all[k].children, text[all[k].position.startIndex..all[k].position.endIndex])
    {
      if k < |tags| { assert all[k] == tags[k]; } else { assert all[k] == t; }
    }
  }

  lemma {:induction false} WellFormedAppendTag(tags: seq<InnerTag>, text: string, before: string, inner: string, t: InnerTag)
    requires TagsWellFormed(tags, text)
    requires t.position == Position(|text| + |before|, |text| + |before| + |inner|)
    requires TagsWellFormed(t.children, inner)
    ensures TagsWellFormed(tags + [t], text + before + inner)
  {
    var all := text + before + inner;
    WellFormedExtend(tags, text, before + inner);
    assert text + (before + inner) == all;
    assert all[|text| + |before|..|all|] == inner;
    WellFormedSnoc(tags, t, all);
  }

  lemma {:induction false} IdsAllocatedSnoc(tags: seq<InnerTag>, t: InnerTag, lo: int, mid: int)
    requires IdsAllocated(tags, lo, mid)
    requires mid <= t.id && IdsAllocated(t.children, mid, t.id)
    ensures IdsAllocated(tags + [t], lo, t.id + 1)
    decreases tags
  {
    if tags == [] {
      assert [t][1..] == [];
      IdsAllocatedWiden(t.children, lo, mid, t.id);
    } else {
      assert (tags + [t])[0] == tags[0];
      assert (tags + [t])[1..] == tags[1..] + [t];
      IdsAllocatedSnoc(tags[1..], t, tags[0].id + 1, mid);
    }
  }

  lemma {:induction false} IdsAllocatedWiden(tags: seq<InnerTag>, lo: int, mid: int, hi: int)
    requires lo <= mid && IdsAllocated(tags, mid, hi)
    ensures IdsAllocated(tags, lo, hi)
    decreases tags
  {
    if tags != [] {
      IdsAllocatedWiden(tags[0].children, lo, mid, tags[0].id);
    }
  }

  lemma {:induction false} IdsAllocatedBounds(tags: seq<InnerTag>, lo: int, hi: int)
    requires IdsAllocated(tags, lo, hi)
    ensures lo <= hi
    ensures forall k :: 0 <= k < |tags| ==> lo <= tags[k].id < hi
    decreases tags
  {
    if tags != [] {
      IdsAllocatedBounds(tags[1..], tags[0].id + 1, hi);
      forall k | 1 <= k < |tags| ensures lo <= tags[k].id < hi {
        assert tags[k] == tags[1..][k - 1];
      }
    }
  }

  /** Sibling ids strictly increase, so top-level ids are distinct. */
  lemma {:induction false} IdsAllocatedIncreasing(tags: seq<InnerTag>, lo: int, hi: int)
    requires IdsAllocated(tags, lo, hi)
    ensures forall j, k :: 0 <= j < k < |tags| ==> tags[j].id < tags[k].id
    decreases tags
  {
    if tags != [] {
      IdsAllocatedBounds(tags[1..], tags[0].id + 1, hi);
      IdsAllocatedIncreasing(tags[1..], tags[0].id + 1, hi);
      forall j, k | 0 <= j < k < |tags| ensures tags[j].id < tags[k].id {
        assert tags[k] == tags[1..][k - 1];
        if j > 0 { assert tags[j] == tags[1..][j - 1]; }
      }
    }
  }

  /** Well-formed positions have their starts before their ends. */
  lemma {:induction false} WellFormedStartsBeforeEnds(tags: seq<InnerTag>, text: string)
    requires TagsWellFormed(tags, text)
    ensures StartsBeforeEnds(tags)
    decreases tags
  {
    forall k | 0 <= k < |tags| ensures StartsBeforeEnds(tags[k].children) {
      var a, b := tags[k].position.startIndex, tags[k].position.endIndex;
      WellFormedStartsBeforeEnds(tags[k].children, text[a..b]);
    }
  }

  // ---------------------------------------------------------------------
  // The tag parser
  // ---------------------------------------------------------------------

  /** What the parser returns: the cleaned text, the top-level tags found
      in it, and the next id of the supply. */
  datatype Extraction = Extraction(cleaned: string, tags: seq<InnerTag>, next: Id)

  /** The text a match's `content` group captured; empty for the marker
      rows, which have no such group. */
  function ContentOf(m: RegexMatch): string
  {
    if m.content.Some? then m.content.value else ""
  }

  /** The id the supply hands out after `id`. */
  function Succ(id: Id): Id
  {
    id + 1
  }

  /** The parser on `raw` with ids drawn from `nextId`: its loop, started at
      the beginning with nothing cleaned and no tags. */
  function Parse(raw: string, nextId: Id): Extraction
    decreases |raw|, |raw| + 1, 0
  {
    ParseLoop(raw, 0, Extraction([], [], nextId))
  }

  /** The parser loop at cursor `pos` with `acc` built so far; it stops at
      the end of the text. */
  function ParseLoop(raw: string, pos: nat, acc: Extraction): Extraction
    decreases |raw|, |raw| - pos, 2
  {
    if pos >= |raw| then acc else TakeEarliest(raw, pos, acc)
  }

  /** One turn of the loop: the earliest tag is taken and the loop resumes
      right after its match; without a tag the rest of the text is copied
      as it is. */
  function TakeEarliest(raw: string, pos: nat, acc: Extraction): Extraction
    requires pos < |raw|
    decreases |raw|, |raw| - pos, 1
  {
    match EarliestTag(raw, pos)
    case None => acc.(cleaned := acc.cleaned + raw[pos..])
    case Some(p) =>
      PickFits(raw, pos);
      ParseLoop(raw, p.m.end, Taken(raw, pos, p, acc))
  }

  /** What taking the pick `p` adds: the text before its match and the
      recursively cleaned content are copied, and the tag is recorded over
      that content, its id drawn after its children's. */
  function Taken(raw: string, pos: nat, p: Pick, acc: Extraction): Extraction
    requires p.row < |TagDefinitions| && pos <= p.m.start < p.m.end <= |raw|
    requires p.m.content.Some? ==> |p.m.content.value| < p.m.end - p.m.start
    decreases |raw|, |raw| - pos, 0
  {
    var upto := acc.cleaned + raw[pos..p.m.start];
    var sub := Parse(ContentOf(p.m), acc.next);
    var def := TagDefinitions[p.row];
    var tag := InnerTag(sub.next, def.name, Metadata(def, p.m), Position(|upto|, |upto + sub.cleaned|), sub.tags);
    Extraction(upto + sub.cleaned, acc.tags + [tag], Succ(sub.next))
  }

  /** Strips every inline tag of the table from `raw`, recursively inside
      tag contents, and returns the cleaned text with the tags found. Each
      step takes the earliest match among all rows (the first row on a tie),
      copies the text before it, then the recursively cleaned content, and
      resumes right after the match. Ids are drawn from the supply starting
      at `nextId`; a tag's id is drawn after its children's. */
  method ParseTextAndExtractInnerTags(raw: string, nextId: Id)
    returns (cleaned: string, tags: seq<InnerTag>, idsAfter: Id)
    ensures |cleaned| <= |raw|
    ensures tags == [] <==> NoTagFrom(raw, 0)
    ensures NoTagFrom(raw, 0) ==> cleaned == raw
    ensures ParsedTags(tags, cleaned, nextId, idsAfter)
    ensures Extraction(cleaned, tags, idsAfter) == Parse(raw, nextId)
    decreases |raw|, 2
  {
    cleaned, tags, idsAfter := [], [], nextId;
    var pos := 0;
    while pos < |raw|
      invariant 0 <= pos <= |raw|
      invariant |cleaned| <= pos
      invariant tags == [] ==> cleaned == [] && pos == 0
      invariant tags != [] ==> !NoTagFrom(raw, 0)
      invariant ParsedTags(tags, cleaned, nextId, idsAfter)
      invariant ParseLoop(raw, pos, Extraction(cleaned, tags, idsAfter)) == Parse(raw, nextId)
      decreases |raw| - pos
    {
      var found, d, m := FindEarliest(raw, pos);
      if !found {
        WellFormedExtend(tags, cleaned, raw[pos..]);
        cleaned := cleaned + raw[pos..];
        break;
      }
      ParseLoopTakes(raw, pos, Pick(d, m), Extraction(cleaned, tags, idsAfter));
      cleaned, tags, idsAfter := ParseStep(raw, pos, d, m, cleaned, tags, nextId, idsAfter);
      pos := m.end;
    }
    if tags == [] && !NoTagFrom(raw, 0) {
      NoTagInEmpty(0);
    }
  }

  /** What the parser promises of the tags it returns for `cleaned`. */
  predicate ParsedTags(tags: seq<InnerTag>, cleaned: string, lo: Id, hi: Id)
  {
    TagsWellFormed(tags, cleaned)
    && InTextOrder(tags)
    && IdsAllocated(tags, lo, hi)
    && forall t <- tags :: TagFits(t)
  }

  /** One iteration of the parser loop for the pick `(d, m)`: the text
      between the cursor and the match, then the tag with its cleaned
      content. */
  method ParseStep(raw: string, pos: nat, d: nat, m: RegexMatch,
                   cleaned: string, tags: seq<InnerTag>, nextId: Id, ids: Id)
    returns (cleaned': string, tags': seq<InnerTag>, ids': Id)
    requires d < |TagDefinitions| && pos <= m.start < m.end <= |raw|
    requires m.content.None? <==> TagDefinitions[d].pattern.IdMarker?
    requires m.content.Some? ==> |m.content.value| < m.end - m.start
    requires |cleaned| <= pos
    requires ParsedTags(tags, cleaned, nextId, ids)
    ensures |cleaned'| <= m.end
    ensures tags' != []
    ensures ParsedTags(tags', cleaned', nextId, ids')
    ensures Extraction(cleaned', tags', ids') == Taken(raw, pos, Pick(d, m), Extraction(cleaned, tags, ids))
    decreases |raw|, 1
  {
    var before := raw[pos..m.start];
    var start := |cleaned| + |before|;
    var innerCleaned, tag, idsNext := BuildTag(raw, d, m, start, ids);
    cleaned' := cleaned + before + innerCleaned;
    tags' := tags + [tag];
    ids' := idsNext;
    assert ParsedTags(tags', cleaned', nextId, ids') by {
      ParsedTagsSnoc(tags, cleaned, before, innerCleaned, tag, nextId, ids);
    }
    assert |cleaned + before| == start && |cleaned + before + innerCleaned| == start + |innerCleaned|;
    TakenRecords(raw, pos, Pick(d, m), Extraction(cleaned, tags, ids), tag);
  }

  /** Taking a pick records the tag built for it after the text before
      the match and the cleaned content. */
  lemma {:induction false} TakenRecords(raw: string, pos: nat, p: Pick, acc: Extraction, tag: InnerTag)
    requires p.row < |TagDefinitions| && pos <= p.m.start < p.m.end <= |raw|
    requires p.m.content.Some? ==> |p.m.content.value| < p.m.end - p.m.start
    requires var upto := acc.cleaned + raw[pos..p.m.start];
      var sub := Parse(ContentOf(p.m), acc.next);
      tag == InnerTag(sub.next, TagDefinitions[p.row].name, Metadata(TagDefinitions[p.row], p.m),
                      Position(|upto|, |upto + sub.cleaned|), sub.tags)
    ensures Taken(raw, pos, p, acc)
      == Extraction(acc.cleaned + raw[pos..p.m.start] + Parse(ContentOf(p.m), acc.next).cleaned, acc.tags + [tag], tag.id + 1)
  {
  }

  /** The loop's step on the earliest tag. */
  lemma {:induction false} ParseLoopTakes(raw: string, pos: nat, p: Pick, acc: Extraction)
    requires pos < |raw| && EarliestTag(raw, pos) == Some(p)
    requires pos <= p.m.start < p.m.end <= |raw| && p.row < |TagDefinitions|
    requires p.m.content.Some? ==> |p.m.content.value| < p.m.end - p.m.start
    ensures ParseLoop(raw, pos, acc) == ParseLoop(raw, p.m.end, Taken(raw, pos, p, acc))
  {
  }

  /** The picks the parser loop takes from `pos` on, in order. */
  function Picks(raw: string, pos: nat): (ps: seq<Pick>)
    decreases |raw| - pos
  {
    if pos >= |raw| then []
    else match EarliestTag(raw, pos)
      case None => []
      case Some(p) => PickFits(raw, pos); [p] + Picks(raw, p.m.end)
  }

  /** The id drawn before the tag at index `i`. */
  function IdBefore(tags: seq<InnerTag>, first: Id, i: nat): Id
    requires i <= |tags|
  {
    if i == 0 then first else Succ(tags[i - 1].id)
  }

  /** Past the first tag, the id before tag `i` does not depend on the
      first id. */
  lemma IdBeforeIgnoresFirst(tags: seq<InnerTag>, a: Id, b: Id, i: nat)
    requires 0 < i <= |tags|
    ensures IdBefore(tags, a, i) == IdBefore(tags, b, i)
  {
  }

  /** Tag `i` of `r` records pick `p`: its kind and metadata are the
      matched row's, its span of the cleaned text is the recursively
      cleaned content of the match, its children are the tags found in that
      content, and its id is drawn right after theirs. */
  predicate RecordsPick(r: Extraction, i: nat, p: Pick, base: Id)
    requires i < |r.tags|
  {
    var t := r.tags[i];
    p.row < |TagDefinitions|
    && t.tagName == TagDefinitions[p.row].name
    && t.metadata == Metadata(TagDefinitions[p.row], p.m)
    && 0 <= t.position.startIndex <= t.position.endIndex <= |r.cleaned|
    && Parse(ContentOf(p.m), base)
       == Extraction(r.cleaned[t.position.startIndex..t.position.endIndex], t.children, t.id)
  }

  /** The tags of `Parse(raw, nextId)` are the picks of the loop, one
      each and in order: each carries its row's kind and metadata, spans
      the recursively cleaned content of its match and holds the tags
      found in that content. */
  lemma {:induction false} ParseMeaning(raw: string, nextId: Id)
    ensures var r := Parse(raw, nextId);
      var ps := Picks(raw, 0);
      |r.tags| == |ps|
      && forall i :: 0 <= i < |ps| ==> RecordsPick(r, i, ps[i], IdBefore(r.tags, nextId, i))
  {
    ParseLoopMeaning(raw, 0, Extraction([], [], nextId));
  }

  /** The loop from `pos` with `acc` taken so far keeps `acc` as a prefix
      and records each later pick in order. */
  lemma {:induction false} ParseLoopMeaning(raw: string, pos: nat, acc: Extraction)
    requires acc.tags == [] || acc.next == Succ(acc.tags[|acc.tags| - 1].id)
    ensures var r := ParseLoop(raw, pos, acc);
      var ps := Picks(raw, pos);
      |r.tags| == |acc.tags| + |ps| && r.tags[..|acc.tags|] == acc.tags
      && acc.cleaned <= r.cleaned
      && forall k :: 0 <= k < |ps| ==>
           RecordsPick(r, |acc.tags| + k, ps[k], IdBefore(r.tags, acc.next, |acc.tags| + k))
    decreases |raw| - pos
  {
    if pos < |raw| {
      match EarliestTag(raw, pos)
      case None =>
      case Some(p) =>
        PickFits(raw, pos);
        ParseLoopTakes(raw, pos, p, acc);
        var acc' := Taken(raw, pos, p, acc);
        ParseLoopMeaning(raw, p.m.end, acc');
        var r := ParseLoop(raw, p.m.end, acc');
        TakenShape(raw, pos, p, acc);
        TakenRecorded(raw, pos, p, acc, r);
        MeaningStep(p, acc, acc', r, Picks(raw, p.m.end));
    }
  }

  /** Taking a pick appends one tag, extends the cleaned text and draws
      the next id after the new tag's. */
  lemma {:induction false} TakenShape(raw: string, pos: nat, p: Pick, acc: Extraction)
    requires p.row < |TagDefinitions| && pos <= p.m.start < p.m.end <= |raw|
    requires p.m.content.Some? ==> |p.m.content.value| < p.m.end - p.m.start
    ensures var e := Taken(raw, pos, p, acc);
      |e.tags| == |acc.tags| + 1 && e.tags[..|acc.tags|] == acc.tags
      && e.next == Succ(e.tags[|acc.tags|].id) && acc.cleaned <= e.cleaned
  {
    var e := Taken(raw, pos, p, acc);
    assert e.tags[..|acc.tags|] == acc.tags;
    assert e.cleaned[..|acc.cleaned|] == acc.cleaned;
  }

  /** The tag appended by taking `p` records `p` in any result that keeps
      the tags and the text taken so far. */
  lemma {:induction false} TakenRecorded(raw: string, pos: nat, p: Pick, acc: Extraction, r: Extraction)
    requires p.row < |TagDefinitions| && pos <= p.m.start < p.m.end <= |raw|
    requires p.m.content.Some? ==> |p.m.content.value| < p.m.end - p.m.start
    requires acc.tags == [] || acc.next == Succ(acc.tags[|acc.tags| - 1].id)
    requires var e := Taken(raw, pos, p, acc);
      |e.tags| <= |r.tags| && r.tags[..|e.tags|] == e.tags && e.cleaned <= r.cleaned
    ensures |acc.tags| < |r.tags|
    ensures RecordsPick(r, |acc.tags|, p, IdBefore(r.tags, acc.next, |acc.tags|))
  {
    var e := Taken(raw, pos, p, acc);
    var lo := |acc.tags|;
    var upto := acc.cleaned + raw[pos..p.m.start];
    var sub := Parse(ContentOf(p.m), acc.next);
    assert r.tags[lo] == e.tags[lo];
    assert r.cleaned[|upto|..|upto + sub.cleaned|] == sub.cleaned by {
      assert r.cleaned[..|e.cleaned|] == upto + sub.cleaned;
    }
    if lo > 0 {
      assert r.tags[lo - 1] == e.tags[lo - 1];
    }
  }

  /** A recorded head pick followed by the records of the rest gives the
      records of the whole. */
  lemma {:induction false} MeaningStep(p: Pick, acc: Extraction, acc': Extraction, r: Extraction, ps': seq<Pick>)
    requires |acc'.tags| == |acc.tags| + 1 && acc'.tags[..|acc.tags|] == acc.tags
    requires acc'.next == Succ(acc'.tags[|acc.tags|].id) && acc.cleaned <= acc'.cleaned
    requires |r.tags| == |acc'.tags| + |ps'| && r.tags[..|acc'.tags|] == acc'.tags
    requires acc'.cleaned <= r.cleaned
    requires RecordsPick(r, |acc.tags|, p, IdBefore(r.tags, acc.next, |acc.tags|))
    requires forall k :: 0 <= k < |ps'| ==>
           RecordsPick(r, |acc'.tags| + k, ps'[k], IdBefore(r.tags, acc'.next, |acc'.tags| + k))
    ensures var ps := [p] + ps';
      |r.tags| == |acc.tags| + |ps| && r.tags[..|acc.tags|] == acc.tags
      && acc.cleaned <= r.cleaned
      && forall k :: 0 <= k < |ps| ==>
           RecordsPick(r, |acc.tags| + k, ps[k], IdBefore(r.tags, acc.next, |acc.tags| + k))
  {
    var ps := [p] + ps';
    var lo := |acc.tags|;
    assert r.tags[..lo] == acc.tags by {
      assert r.tags[..lo] == r.tags[..lo + 1][..lo];
    }
    forall k | 0 <= k < |ps|
      ensures RecordsPick(r, lo + k, ps[k], IdBefore(r.tags, acc.next, lo + k))
    {
      if k > 0 {
        var j := k - 1;
        assert RecordsPick(r, |acc'.tags| + j, ps'[j], IdBefore(r.tags, acc'.next, |acc'.tags| + j));
        IdBeforeIgnoresFirst(r.tags, acc.next, acc'.next, lo + k);
        assert ps[k] == ps'[j] && lo + k == |acc'.tags| + j;
      }
    }
    assert acc.cleaned <= r.cleaned by {
      assert r.cleaned[..|acc'.cleaned|] == acc'.cleaned;
      assert acc'.cleaned[..|acc.cleaned|] == acc.cleaned;
    }
  }
  /** Appending the tag built for the next match, after the text before
      it, keeps the parsed tags well formed, in order and with their ids
      allocated. */
  lemma {:induction false} ParsedTagsSnoc(tags: seq<InnerTag>, cleaned: string, before: string, inner: string,
                       tag: InnerTag, nextId: Id, ids: Id)
    requires ParsedTags(tags, cleaned, nextId, ids)
    requires tag.position == Position(|cleaned| + |before|, |cleaned| + |before| + |inner|)
    requires TagsWellFormed(tag.children, inner)
    requires ids <= tag.id && IdsAllocated(tag.children, ids, tag.id)
    requires TagFits(tag)
    ensures ParsedTags(tags + [tag], cleaned + before + inner, nextId, tag.id + 1)
  {
    WellFormedAppendTag(tags, cleaned, before, inner, tag);
    IdsAllocatedSnoc(tags, tag, nextId, ids);
    var all := tags + [tag];
    forall j, k | 0 <= j < k < |all| ensures all[j].position.endIndex <= all[k].position.startIndex {
      assert all[j] == tags[j];
      if k < |tags| {
        assert all[k] == tags[k];
      }
    }
  }

  /** A top-level tag carries the metadata of its kind, and the marker
      kinds (citation, footnote marker, span reference) are zero-width and
      childless. */
  predicate TagFits(t: InnerTag)
  {
    MetadataFits(t)
    && (IsMarkerName(t.tagName) ==> t.position.startIndex == t.position.endIndex && t.children == [])
  }

  /** One parser step: the tag for match `m` of row `d`, placed at `start`
      in the cleaned text, with its content cleaned recursively. */
  method BuildTag(raw: string, d: nat, m: RegexMatch, start: nat, nextId: Id)
    returns (innerCleaned: string, tag: InnerTag, idsAfter: Id)
    requires d < |TagDefinitions| && m.start < m.end <= |raw|
    requires m.content.None? <==> TagDefinitions[d].pattern.IdMarker?
    requires m.content.Some? ==> |m.content.value| < m.end - m.start
    ensures |innerCleaned| < m.end - m.start
    ensures tag.tagName == TagDefinitions[d].name
    ensures tag.position == Position(start, start + |innerCleaned|)
    ensures TagsWellFormed(tag.children, innerCleaned)
    ensures nextId <= tag.id && idsAfter == tag.id + 1
    ensures IdsAllocated(tag.children, nextId, tag.id)
    ensures TagFits(tag)
    ensures var sub := Parse(ContentOf(m), nextId);
      innerCleaned == sub.cleaned && tag.id == sub.next && tag.children == sub.tags
      && tag.metadata == Metadata(TagDefinitions[d], m)
    decreases |raw|, 0
  {
    var def := TagDefinitions[d];
    RowShape(d);
    var innerRaw := if m.content.Some? then m.content.value else "";
    var children, idAfterChildren;
    innerCleaned, children, idAfterChildren := ParseTextAndExtractInnerTags(innerRaw, nextId);
    if innerRaw == [] {
      NoTagInEmpty(0);
    }
    IdsAllocatedBounds(children, nextId, idAfterChildren);
    tag := InnerTag(idAfterChildren, def.name, Metadata(def, m), Position(start, start + |innerCleaned|), children);
    idsAfter := idAfterChildren + 1;
  }

  /** What each row of the table produces: the marker rows have no content
      group, and the metadata key follows the tag name. */
  lemma {:induction false} RowShape(d: nat)
    requires d < |TagDefinitions|
    ensures ValidPattern(TagDefinitions[d].pattern)
    ensures IsMarkerName(TagDefinitions[d].name) <==> TagDefinitions[d].pattern.IdMarker?
    ensures TagDefinitions[d].name == Concept || IsMarkerName(TagDefinitions[d].name) ==>
      TagDefinitions[d].metadataKey == Some("id")
    ensures TagDefinitions[d].name == A ==> TagDefinitions[d].metadataKey == Some("href")
    ensures TagDefinitions[d].name != A && TagDefinitions[d].name != Concept && !IsMarkerName(TagDefinitions[d].name) ==>
      TagDefinitions[d].metadataKey.None?
  {
  }

  // ---------------------------------------------------------------------
  // Moving tags into sentences
  // ---------------------------------------------------------------------

  function Max(a: int, b: int): int { if a < b then b else a }

  function Min(a: int, b: int): int { if a < b then a else b }

  /** A tag over `[a, b]` of the cleaned text touches the sentence over
      `[s, s + len]`; meeting at an end point counts. */
  predicate Touches(a: int, b: int, s: int, len: int)
  {
    a <= s + len && b >= s
  }

  /** The tags, read with their positions counted from `origin`, that touch
      the sentence at `s` of length `len`, in their order, with positions
      made relative to the sentence and clamped to it; the children are
      treated alike, counted from their parent's absolute start. */
  function Adjusted(tags: seq<InnerTag>, origin: int, s: int, len: int): seq<InnerTag>
    decreases tags
  {
    if tags == [] then []
    else
      var t := tags[|tags| - 1];
      var a, b := origin + t.position.startIndex, origin + t.position.endIndex;
      Adjusted(tags[..|tags| - 1], origin, s, len)
      + (if Touches(a, b, s, len)
         then [t.(position := Position(Max(0, a - s), Min(len, b - s)), children := Adjusted(t.children, a, s, len))]
         else [])
  }

  /** Adjusts every tag, at every depth, to the sentence at `s` of length
      `len`, keeping only the tags that touch it. */
  method AdjustTagsForSentence(tags: seq<InnerTag>, origin: int, s: int, len: int) returns (result: seq<InnerTag>)
    ensures result == Adjusted(tags, origin, s, len)
    decreases tags
  {
    result := [];
    for k := 0 to |tags|
      invariant result == Adjusted(tags[..k], origin, s, len)
    {
      var t := tags[k];
      assert tags[..k + 1][..k] == tags[..k];
      var a := origin + t.position.startIndex;
      var b := origin + t.position.endIndex;
      if a <= s + len && b >= s {
        var children := t.children;
        if children != [] {
          children := AdjustTagsForSentence(t.children, a, s, len);
        }
        result := result + [t.(position := Position(Max(0, a - s), Min(len, b - s)), children := children)];
      }
    }
    assert tags[..|tags|] == tags;
  }

  /** The ids of a list of tags (top level only). */
  function Ids(tags: seq<InnerTag>): set<Id>
  {
    set t <- tags :: t.id
  }

  /** The ids of the top-level tags that touch the sentence. */
  function TouchingIds(tags: seq<InnerTag>, origin: int, s: int, len: int): set<Id>
  {
    set t <- tags | Touches(origin + t.position.startIndex, origin + t.position.endIndex, s, len) :: t.id
  }

  lemma {:induction false} IdsSnoc(tags: seq<InnerTag>, t: InnerTag)
    ensures Ids(tags + [t]) == Ids(tags) + {t.id}
  {
    assert forall u <- tags + [t] :: u in tags || u == t;
  }

  lemma {:induction false} TouchingIdsSnoc(init: seq<InnerTag>, t: InnerTag, origin: int, s: int, len: int)
    ensures var a, b := origin + t.position.startIndex, origin + t.position.endIndex;
      Touches(a, b, s, len) ==>
      TouchingIds(init + [t], origin, s, len) == TouchingIds(init, origin, s, len) + {t.id}
    ensures var a, b := origin + t.position.startIndex, origin + t.position.endIndex;
      !Touches(a, b, s, len) ==>
      TouchingIds(init + [t], origin, s, len) == TouchingIds(init, origin, s, len)
  {
    assert forall u <- init + [t] :: u in init || u == t;
  }

  /** A tag lands in a sentence exactly when it touches it: no touching tag
      is dropped and no other tag is added. */
  lemma {:induction false} AdjustedIds(tags: seq<InnerTag>, origin: int, s: int, len: int)
    ensures Ids(Adjusted(tags, origin, s, len)) == TouchingIds(tags, origin, s, len)
    decreases tags
  {
    if tags != [] {
      var init, t := tags[..|tags| - 1], tags[|tags| - 1];
      assert tags == init + [t];
      AdjustedIds(init, origin, s, len);
      TouchingIdsSnoc(init, t, origin, s, len);
      var a, b := origin + t.position.startIndex, origin + t.position.endIndex;
      if Touches(a, b, s, len) {
        var u := t.(position := Position(Max(0, a - s), Min(len, b - s)), children := Adjusted(t.children, a, s, len));
        assert Adjusted(tags, origin, s, len) == Adjusted(init, origin, s, len) + [u];
        IdsSnoc(Adjusted(init, origin, s, len), u);
      } else {
        assert Adjusted(tags, origin, s, len) == Adjusted(init, origin, s, len) + [];
      }
    }
  }

  lemma {:induction false} WithinLengthSnoc(tags: seq<InnerTag>, t: InnerTag, len: int)
    requires WithinLength(tags, len)
    requires 0 <= t.position.startIndex <= t.position.endIndex <= len && WithinLength(t.children, len)
    ensures WithinLength(tags + [t], len)
  {
    assert forall k :: 0 <= k < |tags| ==> (tags + [t])[k] == tags[k];
  }

  /** Every adjusted position, at every depth, lies within the sentence. */
  lemma {:induction false} AdjustedWithinSentence(tags: seq<InnerTag>, origin: int, s: int, len: int)
    requires StartsBeforeEnds(tags) && 0 <= len
    ensures WithinLength(Adjusted(tags, origin, s, len), len)
    decreases tags
  {
    if tags != [] {
      var init, t := tags[..|tags| - 1], tags[|tags| - 1];
      assert forall k :: 0 <= k < |init| ==> init[k] == tags[k];
      AdjustedWithinSentence(init, origin, s, len);
      var a, b := origin + t.position.startIndex, origin + t.position.endIndex;
      if Touches(a, b, s, len) {
        AdjustedWithinSentence(t.children, a, s, len);
        var u := t.(position := Position(Max(0, a - s), Min(len, b - s)), children := Adjusted(t.children, a, s, len));
        WithinLengthSnoc(Adjusted(init, origin, s, len), u, len);
      } else {
        assert Adjusted(tags, origin, s, len) == Adjusted(init, origin, s, len) + [];
      }
    }
  }

  /** A tag lying wholly inside the sentence keeps its extent, shifted to
      count from the sentence start. */
  lemma {:induction false} AdjustedInside(tags: seq<InnerTag>, origin: int, s: int, len: int, k: nat)
    requires k < |tags|
    requires s <= origin + tags[k].position.startIndex <= origin + tags[k].position.endIndex <= s + len
    ensures exists u <- Adjusted(tags, origin, s, len) ::
      u.id == tags[k].id && u.tagName == tags[k].tagName
      && u.position == Position(origin + tags[k].position.startIndex - s, origin + tags[k].position.endIndex - s)
    decreases tags
  {
    var init, t := tags[..|tags| - 1], tags[|tags| - 1];
    if k < |init| {
      assert init[k] == tags[k];
      AdjustedInside(init, origin, s, len, k);
      var r := Adjusted(init, origin, s, len);
      var u :| u in r && u.id == tags[k].id && u.tagName == tags[k].tagName
        && u.position == Position(origin + tags[k].position.startIndex - s, origin + tags[k].position.endIndex - s);
      assert u in Adjusted(tags, origin, s, len);
    } else {
      var a, b := origin + t.position.startIndex, origin + t.position.endIndex;
      var u := t.(position := Position(Max(0, a - s), Min(len, b - s)), children := Adjusted(t.children, a, s, len));
      assert u == Adjusted(tags, origin, s, len)[|Adjusted(tags, origin, s, len)| - 1];
    }
  }

  /** Children come out relative to the sentence, not to their parent: a
      bold tag over [17, 39] with a math child over [18, 22] of the bold
      text, cut to the sentence at 28 of length 11, becomes [0, 11] with
      the child at [7, 11]; inside a sentence at 0, a tag over [5, 15] with a
      child over [2, 4] keeps the child only as [7, 9]. */
  lemma {:induction false} AdjustedChildrenAreSentenceRelative()
    ensures Adjusted([InnerTag(2, Bold, map[], Position(17, 39), [InnerTag(1, Math, map[], Position(18, 22), [])])], 0, 28, 11)
      == [InnerTag(2, Bold, map[], Position(0, 11), [InnerTag(1, Math, map[], Position(7, 11), [])])]
    ensures Adjusted([InnerTag(2, Em, map[], Position(5, 15), [InnerTag(1, Code, map[], Position(2, 4), [])])], 0, 0, 20)
      == [InnerTag(2, Em, map[], Position(5, 15), [InnerTag(1, Code, map[], Position(7, 9), [])])]
  {
    var child := InnerTag(1, Math, map[], Position(18, 22), []);
    assert Adjusted([child], 17, 28, 11) == [child.(position := Position(7, 11))];
    var child' := InnerTag(1, Code, map[], Position(2, 4), []);
    assert Adjusted([child'], 5, 0, 20) == [child'.(position := Position(7, 9))];
  }

  // ---------------------------------------------------------------------
  // The span builder
  // ---------------------------------------------------------------------

  /** A sentence located in the cleaned text. */
  datatype Window = Window(start: nat, sentence: string)

  /** Locates the sentences from index `i` on, each searched from `offset`,
      which moves to the end of every sentence found; a sentence that is not
      found is skipped. `acc` holds the windows located so far. */
  function LocateFrom(text: string, sentences: seq<string>, i: nat, offset: nat, acc: seq<Window>): seq<Window>
    decreases |sentences| - i
  {
    if i >= |sentences| then acc
    else
      var k := Find(text, sentences[i], offset);
      if k == -1 then LocateFrom(text, sentences, i + 1, offset, acc)
      else LocateFrom(text, sentences, i + 1, k + |sentences[i]|, acc + [Window(k, sentences[i])])
  }

  function Locate(text: string, sentences: seq<string>): seq<Window>
  {
    LocateFrom(text, sentences, 0, 0, [])
  }

  /** Each window holds its sentence, and the windows follow one another
      without overlapping. */
  predicate WindowsInOrder(text: string, ws: seq<Window>)
  {
    (forall k :: 0 <= k < |ws| ==> OccursAt(text, ws[k].sentence, ws[k].start))
    && forall j, k :: 0 <= j < k < |ws| ==> ws[j].start + |ws[j].sentence| <= ws[k].start
  }

  predicate EndsBy(ws: seq<Window>, offset: nat)
  {
    forall k :: 0 <= k < |ws| ==> ws[k].start + |ws[k].sentence| <= offset
  }

  lemma {:induction false} WindowsSnoc(text: string, acc: seq<Window>, offset: nat, w: Window)
    requires WindowsInOrder(text, acc) && EndsBy(acc, offset)
    requires OccursAt(text, w.sentence, w.start) && offset <= w.start
    ensures WindowsInOrder(text, acc + [w]) && EndsBy(acc + [w], w.start + |w.sentence|)
  {
    var acc' := acc + [w];
    assert forall j :: 0 <= j < |acc| ==> acc'[j] == acc[j];
  }

  lemma {:induction false} LocateFromInOrder(text: string, sentences: seq<string>, i: nat, offset: nat, acc: seq<Window>,
                                             r: seq<Window>)
    requires WindowsInOrder(text, acc) && EndsBy(acc, offset)
    requires r == LocateFrom(text, sentences, i, offset, acc)
    ensures WindowsInOrder(text, r)
    ensures |r| <= |acc| + |sentences| - i || i > |sentences|
    ensures forall w <- r :: w in acc || w.sentence in sentences[i..]
    decreases |sentences| - i
  {
    if i < |sentences| {
      var k := Find(text, sentences[i], offset);
      assert forall x <- sentences[i + 1..] :: x in sentences[i..];
      if k == -1 {
        assert r == LocateFrom(text, sentences, i + 1, offset, acc);
        LocateFromInOrder(text, sentences, i + 1, offset, acc, r);
      } else {
        var w := Window(k, sentences[i]);
        WindowsSnoc(text, acc, offset, w);
        assert r == LocateFrom(text, sentences, i + 1, k + |sentences[i]|, acc + [w]);
        LocateFromInOrder(text, sentences, i + 1, k + |sentences[i]|, acc + [w], r);
        assert w.sentence in sentences[i..];
      }
    }
  }

  /** The located sentences occur at their windows, in order and without
      overlap, and each is one of the tokenizer's sentences. */
  lemma {:induction false} LocateInOrder(text: string, sentences: seq<string>)
    ensures WindowsInOrder(text, Locate(text, sentences))
    ensures |Locate(text, sentences)| <= |sentences|
    ensures forall w <- Locate(text, sentences) :: w.sentence in sentences
  {
    LocateFromInOrder(text, sentences, 0, 0, [], Locate(text, sentences));
    assert sentences[0..] == sentences;
  }

  /** The ids of the tags placed in the sentences of `ws`. */
  function PlacedIds(tags: seq<InnerTag>, ws: seq<Window>): set<Id>
  {
    if ws == [] then {}
    else
      var w := ws[|ws| - 1];
      PlacedIds(tags, ws[..|ws| - 1]) + Ids(Adjusted(tags, 0, w.start, |w.sentence|))
  }

  /** A tag is placed exactly when it touches one of the sentences. */
  lemma {:induction false} PlacedIdsTouch(tags: seq<InnerTag>, ws: seq<Window>)
    ensures forall id :: id in PlacedIds(tags, ws) <==>
      exists w <- ws :: id in TouchingIds(tags, 0, w.start, |w.sentence|)
  {
    if ws != [] {
      var init, w := ws[..|ws| - 1], ws[|ws| - 1];
      PlacedIdsTouch(tags, init);
      AdjustedIds(tags, 0, w.start, |w.sentence|);
      assert forall v <- ws :: v in init || v == w;
    }
  }

  /** A copy of a tag with an empty extent and no children, for a span with
      no text. */
  function Cleared(t: InnerTag): InnerTag
  {
    t.(position := Position(0, 0), children := [])
  }

  /** The tags whose id was placed in no sentence, cleared, in their order. */
  function Unplaced(tags: seq<InnerTag>, placed: set<Id>): seq<InnerTag>
  {
    if tags == [] then []
    else
      var t := tags[|tags| - 1];
      Unplaced(tags[..|tags| - 1], placed) + (if t.id in placed then [] else [Cleared(t)])
  }

  /** Exactly the tags left out of every sentence come back, cleared. */
  lemma {:induction false} UnplacedExactly(tags: seq<InnerTag>, placed: set<Id>)
    ensures forall t <- tags :: t.id !in placed ==> Cleared(t) in Unplaced(tags, placed)
    ensures forall u <- Unplaced(tags, placed) :: u.id !in placed && exists t <- tags :: u == Cleared(t)
    ensures |Unplaced(tags, placed)| <= |tags|
  {
    if tags != [] {
      var init, t := tags[..|tags| - 1], tags[|tags| - 1];
      UnplacedExactly(init, placed);
      assert forall v <- tags :: v in init || v == t;
      assert forall v <- init :: v in tags;
    }
  }

  /** The text and tags of one span to be built. */
  datatype Piece = Piece(text: string, innerTags: seq<InnerTag>)

  function SentencePieces(tags: seq<InnerTag>, ws: seq<Window>, postprocess: string -> string): (r: seq<Piece>)
    ensures |r| == |ws|
  {
    seq(|ws|, k requires 0 <= k < |ws| => Piece(postprocess(ws[k].sentence), Adjusted(tags, 0, ws[k].start, |ws[k].sentence|)))
  }

  function UnplacedPieces(us: seq<InnerTag>): (r: seq<Piece>)
    ensures |r| == |us|
  {
    seq(|us|, k requires 0 <= k < |us| => Piece("", [us[k]]))
  }

  /** The sentences the builder works from: none when tokenizing is skipped,
      otherwise the tokenizer's sentences with split math rejoined. */
  function Sentences(cleaned: string, tags: seq<InnerTag>, skipTokenize: bool, sentTokenize: string -> seq<string>): seq<string>
  {
    if skipTokenize then [] else Rejoined(sentTokenize(cleaned), cleaned, tags)
  }

  /** The spans of `cleaned`, in order: nothing for blank text without
      tags; the whole text as one span when tokenizing is skipped or yields
      nothing; otherwise one span per located sentence with the tags
      adjusted to it, then one empty span per tag placed in no sentence. */
  function Pieces(cleaned: string, tags: seq<InnerTag>, skipTokenize: bool,
                  sentTokenize: string -> seq<string>, postprocess: string -> string): seq<Piece>
  {
    if IsBlank(cleaned) && tags == [] then []
    else
      var sentences := Sentences(cleaned, tags, skipTokenize, sentTokenize);
      if sentences == [] then [Piece(postprocess(cleaned), tags)]
      else
        var ws := Locate(cleaned, sentences);
        SentencePieces(tags, ws, postprocess) + UnplacedPieces(Unplaced(tags, PlacedIds(tags, ws)))
  }

  /** The spans carry the pieces, with ids drawn in order from `nextId`. */
  predicate Carries(spans: seq<LumiSpan>, pieces: seq<Piece>, nextId: Id)
  {
    |spans| == |pieces|
    && forall k :: 0 <= k < |spans| ==> spans[k] == LumiSpan(nextId + k, pieces[k].text, pieces[k].innerTags)
  }

  /** `spans` are the spans created from `text`: its inline tags are
      extracted with ids drawn from `k`, and the cleaned text and the tags
      are cut into pieces that the spans carry. */
  predicate SpansOfText(spans: seq<LumiSpan>, text: string, k: Id, skipTokenize: bool,
                        sentTokenize: string -> seq<string>, postprocess: string -> string)
  {
    var x := Parse(text, k);
    Carries(spans, Pieces(x.cleaned, x.tags, skipTokenize, sentTokenize, postprocess), x.next)
  }

  lemma {:induction false} CarriesOne(p: Piece, nextId: Id)
    ensures Carries([LumiSpan(nextId, p.text, p.innerTags)], [p], nextId)
  {
  }

  /** Splits `cleaned` into sentence spans and distributes `tags` (positions
      relative to `cleaned`) over them; ids are drawn from the supply from
      `nextId`. The sentence splitter and the text post-processing are
      parameters. */
  method CreateLumiSpans(cleaned: string, tags: seq<InnerTag>, skipTokenize: bool,
                         sentTokenize: string -> seq<string>, postprocess: string -> string, nextId: Id)
    returns (spans: seq<LumiSpan>, idsAfter: Id)
    ensures Carries(spans, Pieces(cleaned, tags, skipTokenize, sentTokenize, postprocess), nextId)
    ensures idsAfter == nextId + |spans|
  {
    ghost var pieces := Pieces(cleaned, tags, skipTokenize, sentTokenize, postprocess);
    StripEmptyIffBlank(cleaned);
    if Strip(cleaned) == [] && tags == [] {
      assert pieces == [];
      return [], nextId;
    }
    var sentences := [];
    if !skipTokenize {
      sentences := TokenizeSentences(cleaned, tags, sentTokenize);
    }
    assert sentences == Sentences(cleaned, tags, skipTokenize, sentTokenize);
    if sentences == [] || skipTokenize {
      assert pieces == [Piece(postprocess(cleaned), tags)];
      CarriesOne(Piece(postprocess(cleaned), tags), nextId);
      return [LumiSpan(nextId, postprocess(cleaned), tags)], nextId + 1;
    }
    var processed;
    ghost var ws;
    spans, processed, ws := SentenceSpans(cleaned, sentences, tags, postprocess, nextId);
    assert pieces == SentencePieces(tags, ws, postprocess) + UnplacedPieces(Unplaced(tags, processed));
    spans := AppendUnplacedSpans(spans, tags, processed, nextId, SentencePieces(tags, ws, postprocess));
    idsAfter := nextId + |spans|;
  }

  /** The loop over the sentences: locate each, adjust the tags to it and
      record the ids placed. */
  method SentenceSpans(cleaned: string, sentences: seq<string>, tags: seq<InnerTag>,
                       postprocess: string -> string, nextId: Id)
    returns (spans: seq<LumiSpan>, processed: set<Id>, ghost ws: seq<Window>)
    ensures ws == Locate(cleaned, sentences)
    ensures Carries(spans, SentencePieces(tags, ws, postprocess), nextId)
    ensures processed == PlacedIds(tags, ws)
  {
    spans := [];
    var offset: nat := 0;
    processed := {};
    ws := [];
    for i := 0 to |sentences|
      invariant LocateFrom(cleaned, sentences, i, offset, ws) == Locate(cleaned, sentences)
      invariant Carries(spans, SentencePieces(tags, ws, postprocess), nextId)
      invariant processed == PlacedIds(tags, ws)
    {
      var sentence := sentences[i];
      var start := Find(cleaned, sentence, offset);
      if start == -1 {
        LocateFromMiss(cleaned, sentences, i, offset, ws);
        continue;
      }
      var len := |sentence|;
      var adjusted := AdjustTagsForSentence(tags, 0, start, len);
      var before := processed;
      for j := 0 to |adjusted|
        invariant processed == before + Ids(adjusted[..j])
      {
        IdsPrefixSnoc(adjusted, j);
        processed := processed + {adjusted[j].id};
      }
      assert adjusted[..|adjusted|] == adjusted;
      var w := Window(start, sentence);
      SentenceStep(cleaned, sentences, tags, postprocess, nextId, i, offset, ws, spans, w, adjusted);
      spans := spans + [LumiSpan(nextId + |spans|, postprocess(sentence), adjusted)];
      ws := ws + [w];
      offset := w.start + |w.sentence|;
    }
  }

  /** A sentence not found from `offset` on adds no window. */
  lemma {:induction false} LocateFromMiss(text: string, sentences: seq<string>, i: nat, offset: nat, acc: seq<Window>)
    requires i < |sentences| && Find(text, sentences[i], offset) == -1
    requires LocateFrom(text, sentences, i, offset, acc) == Locate(text, sentences)
    ensures LocateFrom(text, sentences, i + 1, offset, acc) == Locate(text, sentences)
  {
  }

  lemma {:induction false} IdsPrefixSnoc(tags: seq<InnerTag>, j: nat)
    requires j < |tags|
    ensures Ids(tags[..j + 1]) == Ids(tags[..j]) + {tags[j].id}
  {
    assert tags[..j + 1] == tags[..j] + [tags[j]];
    IdsSnoc(tags[..j], tags[j]);
  }

  /** One located sentence: the window, span and placed ids it adds keep
      the loop's invariants. */
  lemma {:induction false} SentenceStep(cleaned: string, sentences: seq<string>, tags: seq<InnerTag>, postprocess: string -> string,
                     nextId: Id, i: nat, offset: nat, ws: seq<Window>, spans: seq<LumiSpan>, w: Window,
                     adjusted: seq<InnerTag>)
    requires i < |sentences| && w.sentence == sentences[i] && w.start == Find(cleaned, sentences[i], offset)
    requires adjusted == Adjusted(tags, 0, w.start, |w.sentence|)
    requires LocateFrom(cleaned, sentences, i, offset, ws) == Locate(cleaned, sentences)
    requires Carries(spans, SentencePieces(tags, ws, postprocess), nextId)
    ensures LocateFrom(cleaned, sentences, i + 1, w.start + |w.sentence|, ws + [w]) == Locate(cleaned, sentences)
    ensures Carries(spans + [LumiSpan(nextId + |spans|, postprocess(w.sentence), adjusted)], SentencePieces(tags, ws + [w], postprocess), nextId)
    ensures PlacedIds(tags, ws + [w]) == PlacedIds(tags, ws) + Ids(adjusted)
  {
    LocateFromHit(cleaned, sentences, i, offset, ws, w);
    PiecesSnoc(tags, ws, w, postprocess);
    assert (ws + [w])[..|ws|] == ws;
  }

  /** A sentence found at `w.start` adds its window, and the search goes
      on after it. */
  lemma {:induction false} LocateFromHit(text: string, sentences: seq<string>, i: nat, offset: nat, acc: seq<Window>, w: Window)
    requires i < |sentences| && w.sentence == sentences[i] && w.start == Find(text, sentences[i], offset)
    ensures LocateFrom(text, sentences, i + 1, w.start + |w.sentence|, acc + [w]) == LocateFrom(text, sentences, i, offset, acc)
  {
  }

  lemma {:induction false} PiecesSnoc(tags: seq<InnerTag>, ws: seq<Window>, w: Window, postprocess: string -> string)
    ensures SentencePieces(tags, ws + [w], postprocess)
      == SentencePieces(tags, ws, postprocess) + [Piece(postprocess(w.sentence), Adjusted(tags, 0, w.start, |w.sentence|))]
  {
  }

  /** The loop over the tags: one empty span for each tag placed in no
      sentence. */
  method AppendUnplacedSpans(spans: seq<LumiSpan>, tags: seq<InnerTag>, processed: set<Id>, nextId: Id, ghost pieces: seq<Piece>)
    returns (spans': seq<LumiSpan>)
    requires Carries(spans, pieces, nextId)
    ensures Carries(spans', pieces + UnplacedPieces(Unplaced(tags, processed)), nextId)
  {
    spans' := spans;
    for k := 0 to |tags|
      invariant |spans'| == |spans| + |Unplaced(tags[..k], processed)|
      invariant spans'[..|spans|] == spans
      invariant forall j :: 0 <= j < |Unplaced(tags[..k], processed)| ==>
        spans'[|spans| + j] == LumiSpan(nextId + |spans| + j, "", [Unplaced(tags[..k], processed)[j]])
    {
      var t := tags[k];
      assert tags[..k + 1][..k] == tags[..k];
      if t.id !in processed {
        spans' := spans' + [LumiSpan(nextId + |spans'|, "", [Cleared(t)])];
      }
    }
    assert tags[..|tags|] == tags;
  }

  /** No top-level tag is lost: each one's id is among the top-level tags
      of some span. */
  lemma {:induction false} NoTagLost(cleaned: string, tags: seq<InnerTag>, skipTokenize: bool,
                  sentTokenize: string -> seq<string>, postprocess: string -> string)
    ensures forall t <- tags :: exists p <- Pieces(cleaned, tags, skipTokenize, sentTokenize, postprocess) :: t.id in Ids(p.innerTags)
  {
    var pieces := Pieces(cleaned, tags, skipTokenize, sentTokenize, postprocess);
    var sentences := Sentences(cleaned, tags, skipTokenize, sentTokenize);
    if tags != [] && sentences != [] {
      var ws := Locate(cleaned, sentences);
      var placed := PlacedIds(tags, ws);
      var sp := SentencePieces(tags, ws, postprocess);
      var up := UnplacedPieces(Unplaced(tags, placed));
      assert pieces == sp + up;
      PlacedIdsTouch(tags, ws);
      UnplacedExactly(tags, placed);
      forall t <- tags ensures exists p <- pieces :: t.id in Ids(p.innerTags) {
        if t.id in placed {
          var w :| w in ws && t.id in TouchingIds(tags, 0, w.start, |w.sentence|);
          var k :| 0 <= k < |ws| && ws[k] == w;
          AdjustedIds(tags, 0, w.start, |w.sentence|);
          assert sp[k] in pieces;
        } else {
          var u := Cleared(t);
          var us := Unplaced(tags, placed);
          var k :| 0 <= k < |us| && us[k] == u;
          assert up[k] in pieces;
          assert u in up[k].innerTags;
        }
      }
    }
  }

  /** On the sentence path, the spans are the located sentences followed by
      the unplaced tags: every sentence span's tags lie within its sentence
      at every depth, and every other span is empty text with one cleared
      tag. */
  lemma {:induction false} PiecesWithinSentences(cleaned: string, tags: seq<InnerTag>, skipTokenize: bool,
                              sentTokenize: string -> seq<string>, postprocess: string -> string)
    requires StartsBeforeEnds(tags)
    requires !(IsBlank(cleaned) && tags == [])
    requires Sentences(cleaned, tags, skipTokenize, sentTokenize) != []
    ensures var ws := Locate(cleaned, Sentences(cleaned, tags, skipTokenize, sentTokenize));
      var pieces := Pieces(cleaned, tags, skipTokenize, sentTokenize, postprocess);
      |ws| <= |pieces| <= |ws| + |tags|
      && (forall k :: 0 <= k < |ws| ==>
            pieces[k].text == postprocess(ws[k].sentence) && WithinLength(pieces[k].innerTags, |ws[k].sentence|))
      && (forall k :: |ws| <= k < |pieces| ==>
            pieces[k].text == "" && |pieces[k].innerTags| == 1 && WithinLength(pieces[k].innerTags, 0))
  {
    var sentences := Sentences(cleaned, tags, skipTokenize, sentTokenize);
    var ws := Locate(cleaned, sentences);
    var placed := PlacedIds(tags, ws);
    UnplacedExactly(tags, placed);
    var us := Unplaced(tags, placed);
    forall k | 0 <= k < |us| ensures us[k].position == Position(0, 0) && us[k].children == [] {
      assert us[k] in us;
    }
    SentenceThenUnplaced(tags, ws, us, postprocess);
  }

  /** The sentence pieces carry tags within their sentences; the unplaced
      pieces are empty, with one cleared tag each. */
  lemma {:induction false} SentenceThenUnplaced(tags: seq<InnerTag>, ws: seq<Window>, us: seq<InnerTag>, postprocess: string -> string)
    requires StartsBeforeEnds(tags)
    requires forall k :: 0 <= k < |us| ==> us[k].position == Position(0, 0) && us[k].children == []
    ensures var sp, up := SentencePieces(tags, ws, postprocess), UnplacedPieces(us);
      var pieces := sp + up;
      (forall k :: 0 <= k < |ws| ==>
         pieces[k].text == postprocess(ws[k].sentence) && WithinLength(pieces[k].innerTags, |ws[k].sentence|))
      && (forall k :: |ws| <= k < |pieces| ==>
         pieces[k].text == "" && |pieces[k].innerTags| == 1 && WithinLength(pieces[k].innerTags, 0))
  {
    var sp, up := SentencePieces(tags, ws, postprocess), UnplacedPieces(us);
    var pieces := sp + up;
    forall k | 0 <= k < |ws|
      ensures pieces[k].text == postprocess(ws[k].sentence) && WithinLength(pieces[k].innerTags, |ws[k].sentence|)
    {
      assert pieces[k] == sp[k];
      AdjustedWithinSentence(tags, 0, ws[k].start, |ws[k].sentence|);
    }
    forall k | |ws| <= k < |pieces|
      ensures pieces[k].text == "" && |pieces[k].innerTags| == 1 && WithinLength(pieces[k].innerTags, 0)
    {
      assert pieces[k] == up[k - |ws|];
    }
  }

  // ---------------------------------------------------------------------
  // A worked example: escaped dollars
  // ---------------------------------------------------------------------

  /** `\$1+\$2` holds no unescaped `$`. */
  lemma {:induction false} ExampleDollarsEscaped(s: string)
    requires s == "\\$1+\\$2"
    ensures forall j :: 0 <= j ==> !MathDelimAt(s, j)
  {
    forall j | 0 <= j
      ensures !MathDelimAt(s, j)
    {
      if j < |s| {
        assert j == 0 || j == 1 || j == 2 || j == 3 || j == 4 || j == 5 || j == 6;
      }
    }
  }

  /** Text in which no tag is found is its own cleaned text, and no id is
      drawn. */
  lemma {:induction false} ParseUntagged(raw: string, k: Id)
    requires NoTagFrom(raw, 0)
    ensures Parse(raw, k) == Extraction(raw, [], k)
  {
    if raw != [] {
      assert raw[0..] == raw;
      assert TakeEarliest(raw, 0, Extraction([], [], k)) == Extraction(raw, [], k);
    }
  }

  /** Untagged, non-blank text that the tokenizer keeps whole is one piece
      with no tags. */
  lemma {:induction false} PiecesOneSentence(text: string, sentTokenize: string -> seq<string>, postprocess: string -> string)
    requires !IsBlank(text) && sentTokenize(text) == [text]
    ensures Pieces(text, [], false, sentTokenize, postprocess) == [Piece(postprocess(text), [])]
  {
    assert Sentences(text, [], false, sentTokenize) == [text];
    assert text[0..|text|] == text;
    assert Find(text, text, 0) == 0;
    var ws := [Window(0, text)];
    assert LocateFrom(text, [text], 1, |text|, ws) == ws;
    assert [text][0] == text && [] + ws == ws;
    assert LocateFrom(text, [text], 0, 0, []) == LocateFrom(text, [text], 1, |text|, ws);
    assert SentencePieces([], ws, postprocess) == [Piece(postprocess(text), [])];
    assert Unplaced([], PlacedIds([], ws)) == [];
  }

  /** Both dollars of `\$1+\$2` are escaped, so no math is found: the text
      is its own cleaned text, and a tokenizer that keeps it whole yields
      exactly one span, which carries it without inner tags. */
  lemma {:induction false} EscapedDollarsExample(s: string, k: Id, sentTokenize: string -> seq<string>,
                              postprocess: string -> string, spans: seq<LumiSpan>)
    requires s == "\\$1+\\$2" && sentTokenize(s) == [s]
    ensures Parse(s, k) == Extraction(s, [], k)
    ensures SpansOfText(spans, s, k, false, sentTokenize, postprocess) <==> spans == [LumiSpan(k, postprocess(s), [])]
  {
    ExampleDollarsEscaped(s);
    PlainTextHasNoTag(s, 0);
    ParseUntagged(s, k);
    assert !IsBlank(s) by { assert !IsSpace(s[0]); }
    PiecesOneSentence(s, sentTokenize, postprocess);
  }

  // ---------------------------------------------------------------------
  // A worked example: a tag across a sentence boundary
  // ---------------------------------------------------------------------

  /** The sentences `Ab.` and `Cd.` lie at 0 and 4 of `Ab. Cd.`. */
  lemma {:induction false} ExampleTwoWindows(text: string, sentences: seq<string>)
    requires text == "Ab. Cd." && sentences == ["Ab.", "Cd."]
    ensures Locate(text, sentences) == [Window(0, "Ab."), Window(4, "Cd.")]
  {
    assert text[0..3] == sentences[0];
    assert Find(text, sentences[0], 0) == 0;
    FirstCharMismatch(text, sentences[1], 3);
    assert text[4..7] == sentences[1];
    FindAt(text, sentences[1], 3, 4);
    var ws := [Window(0, "Ab."), Window(4, "Cd.")];
    assert LocateFrom(text, sentences, 2, 7, ws) == ws;
    assert [Window(0, "Ab.")] + [Window(4, sentences[1])] == ws;
    assert LocateFrom(text, sentences, 1, 3, [Window(0, "Ab.")]) == ws;
    assert [] + [Window(0, sentences[0])] == [Window(0, "Ab.")];
    assert LocateFrom(text, sentences, 0, 0, []) == LocateFrom(text, sentences, 1, 3, [Window(0, "Ab.")]);
  }

  /** A bold tag over `b. C` in `Ab. Cd.` touches both sentences: each
      sentence's span carries a copy of it, clamped to the sentence and
      counted from the sentence's start, under the same id, and no empty
      span is added for it. */
  lemma {:induction false} TagAcrossSentencesExample(text: string, t: InnerTag, sentTokenize: string -> seq<string>,
                                  postprocess: string -> string)
    requires text == "Ab. Cd." && sentTokenize(text) == ["Ab.", "Cd."]
    requires t.tagName == Bold && t.position == Position(1, 5) && t.children == []
    ensures Pieces(text, [t], false, sentTokenize, postprocess)
      == [Piece(postprocess("Ab."), [t.(position := Position(1, 3))]),
          Piece(postprocess("Cd."), [t.(position := Position(0, 1))])]
  {
    assert !IsBlank(text) by { assert !IsSpace(text[0]); }
    assert MathTags([t]) == [];
    assert Sentences(text, [t], false, sentTokenize) == ["Ab.", "Cd."];
    ExampleTwoWindows(text, ["Ab.", "Cd."]);
    var ws := [Window(0, "Ab."), Window(4, "Cd.")];
    assert Adjusted([t], 0, 0, 3) == [t.(position := Position(1, 3))];
    assert Adjusted([t], 0, 4, 3) == [t.(position := Position(0, 1))];
    assert PlacedIds([t], ws[..1]) == {t.id};
    assert PlacedIds([t], ws) == {t.id};
    assert Unplaced([t], {t.id}) == [];
  }
}
