/** Turning the concepts a language model extracted from an abstract into
    Lumi concepts, and tagging every whole-word, case-insensitive occurrence
    of a concept name in a list of spans (`extract_concepts.py`). The model
    call itself is not part of this module: its parsed answer is an input. */
module ExtractConcepts {
  import opened Wrappers
  import opened Text
  import opened LumiDoc

  /** One concept as the model returns it. */
  datatype ExtractedConcept = ExtractedConcept(name: string, contents: seq<ConceptContent>)

  /** The structured answer of the model. */
  datatype ResponseSchema = ResponseSchema(concepts: seq<ExtractedConcept>)

  /** The id a parsed concept receives from its position: `concept-<i>`. */
  function ConceptId(i: nat): (r: string)
    ensures StartsWith(r, "concept-") && AllDigits(r[8..])
  {
    "concept-" + NatToString(i)
  }

  /** Concepts at different positions get different ids. */
  lemma {:induction false} ConceptIdInjective(i: nat, j: nat)
    requires ConceptId(i) == ConceptId(j)
    ensures i == j
  {
    assert ConceptId(i)[8..] == NatToString(i);
    assert ConceptId(j)[8..] == NatToString(j);
    NatToStringInjective(i, j);
  }

  /** `parse_lumi_concepts`: no answer, or an answer without concepts,
      gives no concepts; otherwise each extracted concept becomes a Lumi
      concept with a positional id, its name and contents, and no in-text
      citations, in order. */
  method ParseLumiConcepts(parsed: Option<ResponseSchema>) returns (r: seq<LumiConcept>)
    ensures parsed.None? || parsed.value.concepts == [] ==> r == []
    ensures parsed.Some? ==> |r| == |parsed.value.concepts|
    ensures parsed.Some? ==> forall i :: 0 <= i < |r| ==>
      r[i] == LumiConcept(ConceptId(i), parsed.value.concepts[i].name, parsed.value.concepts[i].contents, [])
  {
    if parsed.None? || parsed.value.concepts == [] {
      return [];
    }
    var concepts := parsed.value.concepts;
    r := [];
    var i := 0;
    while i < |concepts|
      invariant 0 <= i <= |concepts| && |r| == i
      invariant forall k :: 0 <= k < i ==>
        r[k] == LumiConcept(ConceptId(k), concepts[k].name, concepts[k].contents, [])
    {
      r := r + [LumiConcept(ConceptId(i), concepts[i].name, concepts[i].contents, [])];
      i := i + 1;
    }
  }

  /** The parsed concepts have pairwise distinct ids. */
  lemma {:induction false} ParsedIdsDistinct(r: seq<LumiConcept>, concepts: seq<ExtractedConcept>)
    requires |r| == |concepts|
    requires forall i :: 0 <= i < |r| ==>
      r[i] == LumiConcept(ConceptId(i), concepts[i].name, concepts[i].contents, [])
    ensures forall i, j :: 0 <= i < j < |r| ==> r[i].id != r[j].id
  {
    forall i, j | 0 <= i < j < |r|
      ensures r[i].id != r[j].id
    {
      if r[i].id == r[j].id {
        ConceptIdInjective(i, j);
      }
    }
  }

  // ---------------------------------------------------------------------
  // Whole-word, case-insensitive search: `\b<escaped name>\b` with
  // `re.IGNORECASE`, enumerated by `re.finditer`
  // ---------------------------------------------------------------------

  /** A character of `\w` (ASCII letters, digits and `_`). */
  predicate WordChar(c: char)
  {
    IsAlpha(c) || IsDigit(c) || c == '_'
  }

  /** `\b` at `q`: a word character on exactly one side. */
  predicate Boundary(s: string, q: nat)
  {
    (0 < q <= |s| && WordChar(s[q - 1])) != (q < |s| && WordChar(s[q]))
  }

  /** Equal up to letter case. */
  predicate SameIgnoringCase(a: string, b: string)
  {
    |a| == |b| && forall i :: 0 <= i < |a| ==> LowerChar(a[i]) == LowerChar(b[i])
  }

  /** The pattern matches at `p`. */
  predicate WordMatchAt(text: string, name: string, p: nat)
  {
    p + |name| <= |text|
      && SameIgnoringCase(text[p..p + |name|], name)
      && Boundary(text, p)
      && Boundary(text, p + |name|)
  }

  /** Where the search resumes after a match at `p`: at its end, or one
      further on after an empty match. */
  function Step(name: string): (r: nat)
    ensures r >= 1 && r >= |name|
  {
    if name == [] then 1 else |name|
  }

  /** The start of each match `re.finditer` reports from `from` on:
      leftmost first, then resuming after the match. */
  function Occurrences(text: string, name: string, from: nat): (r: seq<nat>)
    ensures forall k :: 0 <= k < |r| ==> from <= r[k]
    decreases |text| + 1 - from
  {
    if from > |text| then []
    else if WordMatchAt(text, name, from) then [from] + Occurrences(text, name, from + Step(name))
    else Occurrences(text, name, from + 1)
  }

  /** Every reported start is a match. */
  lemma {:induction false} OccurrencesSound(text: string, name: string, from: nat, k: nat)
    requires k < |Occurrences(text, name, from)|
    ensures WordMatchAt(text, name, Occurrences(text, name, from)[k])
    decreases |text| + 1 - from
  {
    if WordMatchAt(text, name, from) {
      if k > 0 {
        OccurrencesSound(text, name, from + Step(name), k - 1);
      }
    } else {
      OccurrencesSound(text, name, from + 1, k);
    }
  }

  /** Each start at least `step` after every earlier one. */
  predicate Spaced(r: seq<nat>, step: nat)
  {
    forall k, l :: 0 <= k < l < |r| ==> r[k] + step <= r[l]
  }

  /** Reported matches do not overlap: each starts at or after the end
      of the one before. */
  lemma {:induction false} OccurrencesSpaced(text: string, name: string, from: nat)
    ensures Spaced(Occurrences(text, name, from), Step(name))
    decreases |text| + 1 - from
  {
    if from <= |text| {
      if WordMatchAt(text, name, from) {
        OccurrencesSpaced(text, name, from + Step(name));
        var rest := Occurrences(text, name, from + Step(name));
        var r := [from] + rest;
        assert Occurrences(text, name, from) == r;
        forall k, l | 0 <= k < l < |r|
          ensures r[k] + Step(name) <= r[l]
        {
          assert r[l] == rest[l - 1];
          if k > 0 {
            assert r[k] == rest[k - 1];
          }
        }
      } else {
        OccurrencesSpaced(text, name, from + 1);
        assert Occurrences(text, name, from) == Occurrences(text, name, from + 1);
      }
    }
  }

  /** A match at `p` is hidden only by an earlier reported match it
      overlaps. */
  predicate Covered(r: seq<nat>, name: string, p: nat)
  {
    p in r || exists k :: 0 <= k < |r| && r[k] < p < r[k] + |name|
  }

  lemma {:induction false} CoveredCons(q: nat, rest: seq<nat>, name: string, p: nat)
    requires Covered(rest, name, p)
    ensures Covered([q] + rest, name, p)
  {
    var r := [q] + rest;
    if p in rest {
      assert p in r;
    } else {
      var k :| 0 <= k < |rest| && rest[k] < p < rest[k] + |name|;
      assert r[k + 1] == rest[k];
    }
  }

  /** Every match from `from` on is reported or overlaps a reported one. */
  lemma {:induction false} OccurrencesComplete(text: string, name: string, from: nat, p: nat)
    requires from <= p && WordMatchAt(text, name, p)
    ensures Covered(Occurrences(text, name, from), name, p)
    decreases |text| + 1 - from
  {
    var r := Occurrences(text, name, from);
    if p == from {
      assert r[0] == from;
    } else if WordMatchAt(text, name, from) {
      assert r == [from] + Occurrences(text, name, from + Step(name));
      if p >= from + Step(name) {
        OccurrencesComplete(text, name, from + Step(name), p);
        CoveredCons(from, Occurrences(text, name, from + Step(name)), name, p);
      } else {
        assert r[0] < p < r[0] + |name|;
      }
    } else {
      assert r == Occurrences(text, name, from + 1);
      OccurrencesComplete(text, name, from + 1, p);
    }
  }

  /** No match anywhere from `from` on means nothing is reported, and
      conversely. */
  lemma {:induction false} NoMatchNoOccurrence(text: string, name: string, from: nat)
    ensures Occurrences(text, name, from) == []
      <==> forall p: nat :: from <= p ==> !WordMatchAt(text, name, p)
  {
    var r := Occurrences(text, name, from);
    if r != [] {
      OccurrencesSound(text, name, from, 0);
    }
    if exists p: nat :: from <= p && WordMatchAt(text, name, p) {
      var p: nat :| from <= p && WordMatchAt(text, name, p);
      OccurrencesComplete(text, name, from, p);
    }
  }

  /** Only the letters of the name matter, not their case. */
  lemma {:induction false} OccurrencesIgnoreCase(text: string, a: string, b: string, from: nat)
    requires SameIgnoringCase(a, b)
    ensures Occurrences(text, a, from) == Occurrences(text, b, from)
    decreases |text| + 1 - from
  {
    if from <= |text| {
      if from + |a| <= |text| {
        assert SameIgnoringCase(text[from..from + |a|], a) == SameIgnoringCase(text[from..from + |b|], b);
      }
      assert WordMatchAt(text, a, from) == WordMatchAt(text, b, from);
      if WordMatchAt(text, a, from) {
        OccurrencesIgnoreCase(text, a, b, from + Step(a));
      } else {
        OccurrencesIgnoreCase(text, a, b, from + 1);
      }
    }
  }

  // ---------------------------------------------------------------------
  // Annotation
  // ---------------------------------------------------------------------

  /** Where a concept tag goes: the concept and the matched span. */
  datatype Site = Site(conceptId: string, start: nat, end: nat)

  /** The tag added for a match. */
  function ConceptTag(id: Id, site: Site): InnerTag
  {
    InnerTag(id, Concept, map["concept_id" := site.conceptId], Position(site.start, site.end), [])
  }

  /** The matches of one concept in one text, in order. */
  function SitesFor(text: string, c: LumiConcept): (r: seq<Site>)
    ensures |r| == |Occurrences(text, c.name, 0)|
  {
    var occ := Occurrences(text, c.name, 0);
    seq(|occ|, k requires 0 <= k < |occ| => Site(c.id, occ[k], occ[k] + |c.name|))
  }

  /** The matches of every concept in one text, concept by concept. */
  function SpanSites(text: string, concepts: seq<LumiConcept>): seq<Site>
    decreases |concepts|
  {
    if concepts == [] then []
    else SpanSites(text, concepts[..|concepts| - 1]) + SitesFor(text, concepts[|concepts| - 1])
  }

  /** Tags for a run of sites, numbered from `firstId`. */
  function TagsFrom(sites: seq<Site>, firstId: Id): (r: seq<InnerTag>)
    ensures |r| == |sites|
  {
    seq(|sites|, k requires 0 <= k < |sites| => ConceptTag(firstId + k, sites[k]))
  }

  /** One span with its concept tags appended. */
  function AnnotateSpan(s: LumiSpan, concepts: seq<LumiConcept>, firstId: Id): LumiSpan
  {
    s.(innerTags := s.innerTags + TagsFrom(SpanSites(s.text, concepts), firstId))
  }

  /** How many tags the spans receive in total. */
  function SitesCount(spans: seq<LumiSpan>, concepts: seq<LumiConcept>): nat
    decreases |spans|
  {
    if spans == [] then 0
    else SitesCount(spans[..|spans| - 1], concepts) + |SpanSites(spans[|spans| - 1].text, concepts)|
  }

  /** The first id given to span `i`'s tags. */
  function IdBase(spans: seq<LumiSpan>, concepts: seq<LumiConcept>, firstId: Id, i: nat): Id
    requires i <= |spans|
  {
    firstId + SitesCount(spans[..i], concepts)
  }

  /** Every span annotated, ids drawn in span order. */
  function AnnotateSpans(spans: seq<LumiSpan>, concepts: seq<LumiConcept>, firstId: Id): (r: seq<LumiSpan>)
    ensures |r| == |spans|
  {
    seq(|spans|, i requires 0 <= i < |spans| => AnnotateSpan(spans[i], concepts, IdBase(spans, concepts, firstId, i)))
  }

  /** The next span's ids start where this span's stop. */
  lemma {:induction false} IdBaseStep(spans: seq<LumiSpan>, concepts: seq<LumiConcept>, firstId: Id, i: nat)
    requires i < |spans|
    ensures IdBase(spans, concepts, firstId, i + 1)
      == IdBase(spans, concepts, firstId, i) + |SpanSites(spans[i].text, concepts)|
  {
    assert spans[..i + 1][..i] == spans[..i];
  }

  lemma {:induction false} TagsFromSnoc(sites: seq<Site>, x: Site, firstId: Id)
    ensures TagsFrom(sites + [x], firstId) == TagsFrom(sites, firstId) + [ConceptTag(firstId + |sites|, x)]
  {
    var l := TagsFrom(sites + [x], firstId);
    var r := TagsFrom(sites, firstId) + [ConceptTag(firstId + |sites|, x)];
    forall k | 0 <= k < |l|
      ensures l[k] == r[k]
    {
      if k < |sites| {
        assert (sites + [x])[k] == sites[k];
      }
    }
  }

  /** Each site of a concept is one of its whole-word matches. */
  lemma {:induction false} SitesForSound(text: string, c: LumiConcept, site: Site)
    requires site in SitesFor(text, c)
    ensures site.conceptId == c.id && site.end == site.start + |c.name|
    ensures WordMatchAt(text, c.name, site.start)
  {
    var occ := Occurrences(text, c.name, 0);
    var k :| 0 <= k < |occ| && SitesFor(text, c)[k] == site;
    OccurrencesSound(text, c.name, 0, k);
  }

  /** Every site names one of the concepts and lies on one of its
      whole-word matches. */
  lemma {:induction false} SpanSitesSound(text: string, concepts: seq<LumiConcept>, site: Site)
    requires site in SpanSites(text, concepts)
    ensures exists j :: (0 <= j < |concepts| && site.conceptId == concepts[j].id
      && site.end == site.start + |concepts[j].name|
      && WordMatchAt(text, concepts[j].name, site.start))
    decreases |concepts|
  {
    var n := |concepts| - 1;
    if site in SitesFor(text, concepts[n]) {
      SitesForSound(text, concepts[n], site);
    } else {
      SpanSitesSound(text, concepts[..n], site);
      var j :| 0 <= j < n && site.conceptId == concepts[..n][j].id
        && site.end == site.start + |concepts[..n][j].name|
        && WordMatchAt(text, concepts[..n][j].name, site.start);
      assert concepts[..n][j] == concepts[j];
    }
  }

  /** A match is reported at its start or lies inside an earlier match of
      the same concept. */
  predicate SiteCovers(site: Site, c: LumiConcept, p: nat)
  {
    site.conceptId == c.id && (site.start == p || site.start < p < site.end)
  }

  lemma {:induction false} SitesForComplete(text: string, c: LumiConcept, p: nat)
    requires WordMatchAt(text, c.name, p)
    ensures exists site :: site in SitesFor(text, c) && SiteCovers(site, c, p)
  {
    OccurrencesComplete(text, c.name, 0, p);
    var occ := Occurrences(text, c.name, 0);
    var sites := SitesFor(text, c);
    if p in occ {
      var k :| 0 <= k < |occ| && occ[k] == p;
      assert sites[k] in sites && SiteCovers(sites[k], c, p);
    } else {
      var k :| 0 <= k < |occ| && occ[k] < p < occ[k] + |c.name|;
      assert sites[k] in sites && SiteCovers(sites[k], c, p);
    }
  }

  /** Every whole-word match of every concept is tagged, unless it lies
      inside an earlier match of the same concept. */
  lemma {:induction false} SpanSitesComplete(text: string, concepts: seq<LumiConcept>, j: nat, p: nat)
    requires j < |concepts| && WordMatchAt(text, concepts[j].name, p)
    ensures exists site :: site in SpanSites(text, concepts) && SiteCovers(site, concepts[j], p)
    decreases |concepts|
  {
    var n := |concepts| - 1;
    var all := SpanSites(text, concepts);
    assert all == SpanSites(text, concepts[..n]) + SitesFor(text, concepts[n]);
    if j == n {
      SitesForComplete(text, concepts[n], p);
      var site :| site in SitesFor(text, concepts[n]) && SiteCovers(site, concepts[n], p);
      assert site in all;
    } else {
      assert concepts[..n][j] == concepts[j];
      SpanSitesComplete(text, concepts[..n], j, p);
      var site :| site in SpanSites(text, concepts[..n]) && SiteCovers(site, concepts[j], p);
      assert site in all;
    }
  }

  /** Without any whole-word match of any concept, nothing is added. */
  lemma {:induction false} SpanSitesEmpty(text: string, concepts: seq<LumiConcept>)
    requires forall j, p: nat :: 0 <= j < |concepts| ==> !WordMatchAt(text, concepts[j].name, p)
    ensures SpanSites(text, concepts) == []
    decreases |concepts|
  {
    if concepts != [] {
      var n := |concepts| - 1;
      NoMatchNoOccurrence(text, concepts[n].name, 0);
      SpanSitesEmpty(text, concepts[..n]);
    }
  }

  /** Annotation only appends: the spans keep their ids, texts and
      existing tags, in order, and gain the tags of their sites. */
  lemma {:induction false} AnnotateOnlyAppends(spans: seq<LumiSpan>, concepts: seq<LumiConcept>, firstId: Id)
    ensures var r := AnnotateSpans(spans, concepts, firstId);
      |r| == |spans|
      && forall i :: 0 <= i < |r| ==>
        r[i].id == spans[i].id && r[i].text == spans[i].text
        && r[i].innerTags == spans[i].innerTags + TagsFrom(SpanSites(spans[i].text, concepts),
                                                          IdBase(spans, concepts, firstId, i))
  {
  }

  /** The tags added to one span are concept tags on whole-word matches of
      the concepts, numbered consecutively. */
  lemma {:induction false} AddedTagMeaning(text: string, concepts: seq<LumiConcept>, firstId: Id, k: nat)
    requires k < |SpanSites(text, concepts)|
    ensures var t := TagsFrom(SpanSites(text, concepts), firstId)[k];
      t.id == firstId + k && t.tagName == Concept && t.children == []
      && exists j :: (0 <= j < |concepts|
        && t.metadata == map["concept_id" := concepts[j].id]
        && t.position == Position(t.position.startIndex, t.position.startIndex + |concepts[j].name|)
        && t.position.startIndex >= 0
        && WordMatchAt(text, concepts[j].name, t.position.startIndex))
  {
    var site := SpanSites(text, concepts)[k];
    SpanSitesSound(text, concepts, site);
  }

  /** No whole-word match of any concept in any span: the spans come back
      unchanged. */
  lemma {:induction false} NoMatchUnchanged(spans: seq<LumiSpan>, concepts: seq<LumiConcept>, firstId: Id)
    requires forall i, j, p: nat :: 0 <= i < |spans| && 0 <= j < |concepts| ==>
      !WordMatchAt(spans[i].text, concepts[j].name, p)
    ensures AnnotateSpans(spans, concepts, firstId) == spans
  {
    var r := AnnotateSpans(spans, concepts, firstId);
    forall i | 0 <= i < |spans|
      ensures r[i] == spans[i]
    {
      SpanSitesEmpty(spans[i].text, concepts);
      assert spans[i].innerTags + [] == spans[i].innerTags;
    }
  }

  /** The innermost loop: one tag per match of `concept`, appended to
      `tags` with ids counting up from `nextId`. */
  method AppendMatchTags(text: string, concept: LumiConcept, tags: seq<InnerTag>, nextId: Id)
    returns (tags': seq<InnerTag>, nextId': Id)
    ensures tags' == tags + TagsFrom(SitesFor(text, concept), nextId)
    ensures nextId' == nextId + |SitesFor(text, concept)|
  {
    var occ := Occurrences(text, concept.name, 0);
    ghost var sites := SitesFor(text, concept);
    tags', nextId' := tags, nextId;
    var k := 0;
    while k < |occ|
      invariant 0 <= k <= |occ|
      invariant tags' == tags + TagsFrom(sites[..k], nextId)
      invariant nextId' == nextId + k
    {
      var site := Site(concept.id, occ[k], occ[k] + |concept.name|);
      assert sites[k] == site;
      assert sites[..k + 1] == sites[..k] + [site];
      TagsFromSnoc(sites[..k], site, nextId);
      tags' := tags' + [ConceptTag(nextId', site)];
      nextId' := nextId' + 1;
      k := k + 1;
    }
    assert sites[..k] == sites;
  }

  lemma {:induction false} TagsFromConcat(a: seq<Site>, b: seq<Site>, firstId: Id)
    ensures TagsFrom(a + b, firstId) == TagsFrom(a, firstId) + TagsFrom(b, firstId + |a|)
  {
    var l := TagsFrom(a + b, firstId);
    var r := TagsFrom(a, firstId) + TagsFrom(b, firstId + |a|);
    forall k | 0 <= k < |l|
      ensures l[k] == r[k]
    {
      if k < |a| {
        assert (a + b)[k] == a[k];
      } else {
        assert (a + b)[k] == b[k - |a|];
      }
    }
  }

  /** The loop over concepts for one span. */
  method AnnotateSpanTags(span: LumiSpan, concepts: seq<LumiConcept>, firstId: Id)
    returns (tagged: LumiSpan, nextId: Id)
    ensures tagged == AnnotateSpan(span, concepts, firstId)
    ensures nextId == firstId + |SpanSites(span.text, concepts)|
  {
    var tags := span.innerTags;
    nextId := firstId;
    var j := 0;
    while j < |concepts|
      invariant 0 <= j <= |concepts|
      invariant tags == span.innerTags + TagsFrom(SpanSites(span.text, concepts[..j]), firstId)
      invariant nextId == firstId + |SpanSites(span.text, concepts[..j])|
    {
      ghost var before := SpanSites(span.text, concepts[..j]);
      ghost var sites := SitesFor(span.text, concepts[j]);
      ghost var tagsBefore := tags;
      tags, nextId := AppendMatchTags(span.text, concepts[j], tags, nextId);
      assert concepts[..j + 1][..j] == concepts[..j];
      assert SpanSites(span.text, concepts[..j + 1]) == before + sites;
      TagsFromConcat(before, sites, firstId);
      j := j + 1;
    }
    assert concepts[..j] == concepts;
    tagged := span.(innerTags := tags);
  }

  /** Entry `k` of `annotated` is span `k` annotated. */
  predicate AnnotatedAt(annotated: seq<LumiSpan>, spans: seq<LumiSpan>, concepts: seq<LumiConcept>, firstId: Id, k: nat)
  {
    k < |annotated| && k < |spans|
      && annotated[k] == AnnotateSpan(spans[k], concepts, IdBase(spans, concepts, firstId, k))
  }

  lemma {:induction false} AnnotatedEverywhere(annotated: seq<LumiSpan>, spans: seq<LumiSpan>, concepts: seq<LumiConcept>, firstId: Id)
    requires |annotated| == |spans|
    requires forall k :: 0 <= k < |spans| ==> AnnotatedAt(annotated, spans, concepts, firstId, k)
    ensures annotated == AnnotateSpans(spans, concepts, firstId)
  {
    var r := AnnotateSpans(spans, concepts, firstId);
    forall k | 0 <= k < |spans|
      ensures annotated[k] == r[k]
    {
      assert AnnotatedAt(annotated, spans, concepts, firstId, k);
    }
  }

  /** `annotate_concepts_in_place`: for each span of the caller's list, for
      each concept, for each match, append a concept tag with a fresh id.
      The list is updated where it lies. The unique-id supply is the counter
      `firstId`; `nextId` is where it stops. */
  method AnnotateConceptsInPlace(spans: array<LumiSpan>, concepts: seq<LumiConcept>, firstId: Id)
    returns (nextId: Id)
    modifies spans
    ensures spans[..] == AnnotateSpans(old(spans[..]), concepts, firstId)
    ensures nextId == firstId + SitesCount(old(spans[..]), concepts)
  {
    ghost var original := spans[..];
    nextId := firstId;
    var i := 0;
    while i < spans.Length
      invariant 0 <= i <= spans.Length
      invariant forall k :: 0 <= k < i ==> AnnotatedAt(spans[..], original, concepts, firstId, k)
      invariant forall k :: i <= k < spans.Length ==> spans[k] == original[k]
      invariant nextId == IdBase(original, concepts, firstId, i)
    {
      var tagged;
      IdBaseStep(original, concepts, firstId, i);
      tagged, nextId := AnnotateSpanTags(spans[i], concepts, nextId);
      ghost var before := spans[..];
      spans[i] := tagged;
      forall k | 0 <= k <= i
        ensures AnnotatedAt(spans[..], original, concepts, firstId, k)
      {
        if k < i {
          assert AnnotatedAt(before, original, concepts, firstId, k);
          assert spans[..][k] == before[k];
        }
      }
      i := i + 1;
    }
    AnnotatedEverywhere(spans[..], original, concepts, firstId);
    assert original[..i] == original;
  }
}
