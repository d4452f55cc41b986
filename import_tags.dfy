/** The inline tag table: the literal markers, the patterns that recognise
    each kind of inline annotation, and their order of precedence.

    Every pattern of the table is a lazy regular expression compiled with
    DOTALL. Each is written out here as an explicit matcher that follows
    the regular-expression engine's backtracking order: a match is tried
    at one start position, the lazy groups take the shortest extent that
    lets the rest of the pattern match, and a search returns the match at
    the leftmost start position. A lookbehind `(?<!\\)` may look at the
    character just before the position where the search began. */
module ImportTags {
  import opened Wrappers
  import opened Text
  import opened LumiDoc

  // Inline item markers.
  const ConceptStartPrefix: string := "[[l-conc-"
  const ConceptEnd: string := "]]"
  const CitationStartPrefix: string := "[[l-cit-"
  const CitationEnd: string := "]]"
  const FootnoteMarkerPrefix: string := "[[l-foot-"
  const FootnoteMarkerEnd: string := "]]"
  const SpanRefStartPrefix: string := "[[l-sref-"
  const SpanRefEnd: string := "]]"

  // Figure and image markers, consumed before the text is parsed.
  const ImageStartPrefix: string := "[[l-image_"
  const ImageEnd: string := "]]"
  const ImageCaptionStartPrefix: string := "[[l-image_cap_"
  const ImageCaptionEnd: string := "]]"
  const HtmlStartPrefix: string := "[[l-html_"
  const HtmlEnd: string := "]]"
  const HtmlCaptionStartPrefix: string := "[[l-html_cap_"
  const HtmlCaptionEnd: string := "]]"
  const FigureStartPrefix: string := "[[l-fig-start-"
  const FigureEndPrefix: string := "[[l-fig-end-"
  const FigureEnd: string := "]]"
  const FigureCaptionStartPrefix: string := "[[l-fig-cap-"
  const FigureCaptionEnd: string := "]]"

  /** The shapes of the inline patterns. */
  datatype Pattern =
    | ConceptPattern                          // PREFIX id ]] content PREFIX id ]]
    | IdMarker(prefix: string, close: string) // prefix id close, no content group
    | AnchorPattern                           // <a href="href">content</a>
    | Enclosed(open: string, close: string)   // open content close
    | MathDisplayPattern                      // $$content$$, neither `$` escaped
    | MathPattern                             // $content$, neither `$` escaped

  predicate ValidPattern(p: Pattern)
  {
    match p
    case IdMarker(prefix, _) => |prefix| > 0
    case Enclosed(open, _) => |open| > 0
    case _ => true
  }

  /** A successful match: the matched extent `[start, end)`, the text of the
      `content` group when the pattern has one, and the text of the `id` or
      `href` group (empty when the pattern has neither). */
  datatype RegexMatch = RegexMatch(start: nat, end: nat, content: Option<string>, group: string)

  /** One row of the table: the tag name it produces, its pattern, and the
      metadata key under which the `id`/`href` group is recorded. */
  datatype TagDef = TagDef(name: InnerTagName, pattern: Pattern, metadataKey: Option<string>)

  /** The table, in precedence order: at equal start positions the earlier
      row wins. */
  const TagDefinitions: seq<TagDef> := [
    TagDef(Concept, ConceptPattern, Some("id")),
    TagDef(Reference, IdMarker(CitationStartPrefix, CitationEnd), Some("id")),
    TagDef(Footnote, IdMarker(FootnoteMarkerPrefix, FootnoteMarkerEnd), Some("id")),
    TagDef(SpanReference, IdMarker(SpanRefStartPrefix, SpanRefEnd), Some("id")),
    TagDef(A, AnchorPattern, Some("href")),
    TagDef(Code, Enclosed("<code>", "</code>"), None),
    TagDef(Bold, Enclosed("<b>", "</b>"), None),
    TagDef(Strong, Enclosed("<strong>", "</strong>"), None),
    TagDef(Italic, Enclosed("<i>", "</i>"), None),
    TagDef(Em, Enclosed("<em>", "</em>"), None),
    TagDef(Underline, Enclosed("<u>", "</u>"), None),
    TagDef(MathDisplay, MathDisplayPattern, None),
    TagDef(Math, MathPattern, None)
  ]

  /** The metadata a row's extractor builds from a match. */
  function Metadata(d: TagDef, m: RegexMatch): (r: map<string, string>)
    ensures d.metadataKey.None? ==> r == map[]
    ensures d.metadataKey.Some? ==> r.Keys == {d.metadataKey.value} && r[d.metadataKey.value] == m.group
  {
    if d.metadataKey.Some? then map[d.metadataKey.value := m.group] else map[]
  }

  /** The `$` at `i` is not preceded by a backslash. */
  predicate NotEscaped(s: string, i: nat)
    requires i < |s|
  {
    i == 0 || s[i - 1] != '\\'
  }

  predicate MathDelimAt(s: string, j: nat)
  {
    j < |s| && s[j] == '$' && NotEscaped(s, j)
  }

  predicate DisplayDelimAt(s: string, j: nat)
  {
    MathDelimAt(s, j) && MathDelimAt(s, j + 1)
  }

  /** The first unescaped `$` at or after `j`, or -1. */
  function MathCloseFrom(s: string, j: nat): (r: int)
    ensures r == -1 || (j <= r < |s| && MathDelimAt(s, r))
    ensures forall k :: j <= k && (r == -1 || k < r) ==> !MathDelimAt(s, k)
    decreases |s| - j
  {
    if j >= |s| then -1
    else if MathDelimAt(s, j) then j
    else MathCloseFrom(s, j + 1)
  }

  /** The first unescaped `$$` at or after `j`, or -1. */
  function DisplayCloseFrom(s: string, j: nat): (r: int)
    ensures r == -1 || (j <= r && r + 1 < |s| && DisplayDelimAt(s, r))
    ensures forall k :: j <= k && (r == -1 || k < r) ==> !DisplayDelimAt(s, k)
    decreases |s| - j
  {
    if j >= |s| then -1
    else if DisplayDelimAt(s, j) then j
    else DisplayCloseFrom(s, j + 1)
  }

  /** Backtracking over the lazy concept id: the id is `s[a..a+k]` for the
      smallest `k` such that `]]` follows it and the closing marker with the
      same id occurs later. */
  function ConceptTry(s: string, i: nat, k: nat): (r: Option<RegexMatch>)
    requires OccursAt(s, ConceptStartPrefix, i)
    ensures r.Some? ==> r.value.start == i && i < r.value.end <= |s|
    ensures r.Some? ==> r.value.content.Some? && |r.value.content.value| < r.value.end - i
    decreases |s| - (i + |ConceptStartPrefix| + k)
  {
    var a := i + |ConceptStartPrefix|;
    if a + k > |s| then None
    else if OccursAt(s, ConceptEnd, a + k) then
      var id := s[a..a + k];
      var closing := ConceptStartPrefix + id + ConceptEnd;
      var c := Find(s, closing, a + k + |ConceptEnd|);
      if c != -1 then Some(RegexMatch(i, c + |closing|, Some(s[a + k + |ConceptEnd|..c]), id))
      else ConceptTry(s, i, k + 1)
    else ConceptTry(s, i, k + 1)
  }

  /** Backtracking over the lazy `href`: the smallest extent followed by
      `">` such that `</a>` occurs later. */
  function AnchorTry(s: string, i: nat, k: nat): (r: Option<RegexMatch>)
    requires OccursAt(s, "<a href=\"", i)
    ensures r.Some? ==> r.value.start == i && i < r.value.end <= |s|
    ensures r.Some? ==> r.value.content.Some? && |r.value.content.value| < r.value.end - i
    decreases |s| - (i + 9 + k)
  {
    var a := i + 9;
    if a + k > |s| then None
    else if OccursAt(s, "\">", a + k) then
      var c := Find(s, "</a>", a + k + 2);
      if c != -1 then Some(RegexMatch(i, c + 4, Some(s[a + k + 2..c]), s[a..a + k]))
      else AnchorTry(s, i, k + 1)
    else AnchorTry(s, i, k + 1)
  }

  /** The match of `p` anchored at position `i`, if any. */
  function MatchAt(p: Pattern, s: string, i: nat): (r: Option<RegexMatch>)
    requires ValidPattern(p)
    ensures r.Some? ==> r.value.start == i && i < r.value.end <= |s|
    ensures r.Some? && r.value.content.Some? ==> |r.value.content.value| < r.value.end - i
  {
    match p
    case ConceptPattern =>
      if OccursAt(s, ConceptStartPrefix, i) then ConceptTry(s, i, 0) else None
    case IdMarker(prefix, close) =>
      if !OccursAt(s, prefix, i) then None
      else
        var c := Find(s, close, i + |prefix|);
        if c == -1 then None
        else Some(RegexMatch(i, c + |close|, None, s[i + |prefix|..c]))
    case AnchorPattern =>
      if OccursAt(s, "<a href=\"", i) then AnchorTry(s, i, 0) else None
    case Enclosed(open, close) =>
      if !OccursAt(s, open, i) then None
      else
        var c := Find(s, close, i + |open|);
        if c == -1 then None
        else Some(RegexMatch(i, c + |close|, Some(s[i + |open|..c]), ""))
    case MathDisplayPattern =>
      if !DisplayDelimAt(s, i) then None
      else
        var c := DisplayCloseFrom(s, i + 2);
        if c == -1 then None
        else Some(RegexMatch(i, c + 2, Some(s[i + 2..c]), ""))
    case MathPattern =>
      if !MathDelimAt(s, i) then None
      else
        var c := MathCloseFrom(s, i + 1);
        if c == -1 then None
        else Some(RegexMatch(i, c + 1, Some(s[i + 1..c]), ""))
  }

  /** `pattern.search(s, from)`: the match at the leftmost start `>= from`. */
  function Search(p: Pattern, s: string, from: nat): (r: Option<RegexMatch>)
    requires ValidPattern(p)
    ensures r.Some? ==> from <= r.value.start && MatchAt(p, s, r.value.start) == r
    ensures forall j :: from <= j && (r.None? || j < r.value.start) ==> MatchAt(p, s, j).None?
    decreases |s| - from
  {
    if from >= |s| then None
    else
      var m := MatchAt(p, s, from);
      if m.Some? then m else Search(p, s, from + 1)
  }

  lemma {:induction false} TableIsValid()
    ensures |TagDefinitions| == 13
    ensures forall d :: 0 <= d < |TagDefinitions| ==> ValidPattern(TagDefinitions[d].pattern)
  {
  }

  /** The parser's pick: a row of the table and its match. */
  datatype Pick = Pick(row: nat, m: RegexMatch)

  /** Row `e` replaces the current pick only when its match starts strictly
      earlier. */
  function PickEarlier(s: string, from: nat, e: nat, best: Option<Pick>): Option<Pick>
    requires e < |TagDefinitions| && ValidPattern(TagDefinitions[e].pattern)
  {
    var r := Search(TagDefinitions[e].pattern, s, from);
    if r.Some? && (best.None? || r.value.start < best.value.m.start) then Some(Pick(e, r.value)) else best
  }

  /** The pick after rows `e..` have been tried, starting from `best`. */
  function EarliestFrom(s: string, from: nat, e: nat, best: Option<Pick>): Option<Pick>
    decreases |TagDefinitions| - e
  {
    if e >= |TagDefinitions| || !ValidPattern(TagDefinitions[e].pattern) then best
    else EarliestFrom(s, from, e + 1, PickEarlier(s, from, e, best))
  }

  /** The earliest tag match at or after `from`, first row on a tie. */
  function EarliestTag(s: string, from: nat): Option<Pick>
  {
    EarliestFrom(s, from, 0, None)
  }

  /** No row of the table matches anywhere at or after `from`. */
  predicate NoTagFrom(s: string, from: nat)
  {
    EarliestTag(s, from).None?
  }

  /** Every row's search from `from`, in table order. */
  function Rows(s: string, from: nat): (rs: seq<Option<RegexMatch>>)
    ensures |rs| == |TagDefinitions|
    ensures forall d :: 0 <= d < |rs| && ValidPattern(TagDefinitions[d].pattern) ==>
      rs[d] == Search(TagDefinitions[d].pattern, s, from)
  {
    seq(|TagDefinitions|, d requires 0 <= d < |TagDefinitions| =>
      if ValidPattern(TagDefinitions[d].pattern) then Search(TagDefinitions[d].pattern, s, from) else None)
  }

  /** `best` is the leftmost of the results `rs[..e]`, the first row
      winning a tie. */
  predicate LeftmostAmong(rs: seq<Option<RegexMatch>>, e: nat, best: Option<Pick>)
    requires e <= |rs|
  {
    (best.None? ==> forall d :: 0 <= d < e ==> rs[d].None?)
    && (best.Some? ==>
      best.value.row < e && rs[best.value.row] == Some(best.value.m)
      && forall d :: 0 <= d < e ==>
        rs[d].None? || best.value.m.start < rs[d].value.start
        || (best.value.m.start == rs[d].value.start && best.value.row <= d))
  }

  /** `PickEarlier` on the results of all rows. */
  function PickRow(rs: seq<Option<RegexMatch>>, e: nat, best: Option<Pick>): Option<Pick>
    requires e < |rs|
  {
    if rs[e].Some? && (best.None? || rs[e].value.start < best.value.m.start) then Some(Pick(e, rs[e].value)) else best
  }

  lemma {:induction false} PickRowStep(rs: seq<Option<RegexMatch>>, e: nat, best: Option<Pick>)
    requires e < |rs| && LeftmostAmong(rs, e, best)
    ensures LeftmostAmong(rs, e + 1, PickRow(rs, e, best))
  {
  }

  /** `best` is the right pick among rows `0..e`. */
  predicate EarliestAmong(s: string, from: nat, e: nat, best: Option<Pick>)
    requires e <= |TagDefinitions|
  {
    LeftmostAmong(Rows(s, from), e, best)
  }

  lemma {:induction false} EarliestFromCorrect(s: string, from: nat, e: nat, best: Option<Pick>)
    requires e <= |TagDefinitions|
    requires forall d :: 0 <= d < |TagDefinitions| ==> ValidPattern(TagDefinitions[d].pattern)
    requires EarliestAmong(s, from, e, best)
    ensures EarliestAmong(s, from, |TagDefinitions|, EarliestFrom(s, from, e, best))
    decreases |TagDefinitions| - e
  {
    if e < |TagDefinitions| {
      EarliestStep(s, from, e, best);
      EarliestFromCorrect(s, from, e + 1, PickEarlier(s, from, e, best));
    }
  }

  /** Trying row `e` keeps the pick right for rows `0..e`. */
  lemma {:induction false} EarliestStep(s: string, from: nat, e: nat, best: Option<Pick>)
    requires e < |TagDefinitions| && ValidPattern(TagDefinitions[e].pattern)
    requires EarliestAmong(s, from, e, best)
    ensures EarliestAmong(s, from, e + 1, PickEarlier(s, from, e, best))
  {
    var rs := Rows(s, from);
    assert rs[e] == Search(TagDefinitions[e].pattern, s, from);
    assert PickEarlier(s, from, e, best) == PickRow(rs, e, best);
    PickRowStep(rs, e, best);
  }

  /** Row `d` and its match `m` are the parser's pick at `from`: `m` starts
      earliest among all rows' matches, and among rows matching at that same
      start `d` comes first. */
  predicate IsEarliest(s: string, from: nat, d: nat, m: RegexMatch)
  {
    d < |TagDefinitions| && ValidPattern(TagDefinitions[d].pattern)
    && Search(TagDefinitions[d].pattern, s, from) == Some(m)
    && forall e :: 0 <= e < |TagDefinitions| ==>
      ValidPattern(TagDefinitions[e].pattern) &&
      var r := Search(TagDefinitions[e].pattern, s, from);
      r.None? || m.start < r.value.start || (m.start == r.value.start && d <= e)
  }

  /** The pick is the leftmost match, the earliest row winning a tie; and
      there is no pick exactly when no row matches. */
  lemma {:induction false} EarliestTagCorrect(s: string, from: nat)
    ensures NoTagFrom(s, from) <==>
      forall d :: 0 <= d < |TagDefinitions| ==> Search(TagDefinitions[d].pattern, s, from).None?
    ensures EarliestTag(s, from).Some? ==>
      IsEarliest(s, from, EarliestTag(s, from).value.row, EarliestTag(s, from).value.m)
  {
    TableIsValid();
    EarliestFromCorrect(s, from, 0, None);
  }

  /** What the parser needs of a pick: a real match of its row, starting at
      or after `from`. */
  lemma {:induction false} EarliestTagMatches(s: string, from: nat)
    requires EarliestTag(s, from).Some?
    ensures var p := EarliestTag(s, from).value;
      p.row < |TagDefinitions| && ValidPattern(TagDefinitions[p.row].pattern)
      && MatchAt(TagDefinitions[p.row].pattern, s, p.m.start) == Some(p.m)
      && from <= p.m.start < p.m.end <= |s|
  {
    EarliestTagCorrect(s, from);
  }

  /** The extent of the pick: a row of the table whose match lies at or
      after `from`, with its content shorter than the match. */
  lemma {:induction false} PickFits(s: string, from: nat)
    requires EarliestTag(s, from).Some?
    ensures var p := EarliestTag(s, from).value;
      p.row < |TagDefinitions| && from <= p.m.start < p.m.end <= |s|
      && (p.m.content.Some? ==> |p.m.content.value| < p.m.end - p.m.start)
  {
    EarliestTagMatches(s, from);
  }

  /** The inner loop of the parser: every row is searched from `from`, and a
      row replaces the current pick only when its match starts strictly
      earlier. */
  method FindEarliest(s: string, from: nat) returns (found: bool, d: nat, m: RegexMatch)
    ensures found <==> EarliestTag(s, from).Some?
    ensures found ==> EarliestTag(s, from) == Some(Pick(d, m))
    ensures found ==> d < |TagDefinitions| && from <= m.start < m.end <= |s|
    ensures found ==> (m.content.None? <==> TagDefinitions[d].pattern.IdMarker?)
    ensures found && m.content.Some? ==> |m.content.value| < m.end - m.start
  {
    TableIsValid();
    var best: Option<Pick> := None;
    for e := 0 to |TagDefinitions|
      invariant EarliestFrom(s, from, e, best) == EarliestTag(s, from)
    {
      var r := Search(TagDefinitions[e].pattern, s, from);
      if r.Some? && (best.None? || r.value.start < best.value.m.start) {
        best := Some(Pick(e, r.value));
      }
    }
    found := best.Some?;
    d, m := if found then best.value.row else 0, if found then best.value.m else RegexMatch(0, 0, None, "");
    if found {
      EarliestTagMatches(s, from);
      MatchContent(TagDefinitions[d].pattern, s, m.start);
    }
  }

  /** Exactly the marker patterns have no content group. */
  lemma {:induction false} MatchContent(p: Pattern, s: string, i: nat)
    requires ValidPattern(p) && MatchAt(p, s, i).Some?
    ensures MatchAt(p, s, i).value.content.None? <==> p.IdMarker?
  {
  }

  /** Nothing matches in an empty string. */
  lemma {:induction false} NoTagInEmpty(from: nat)
    ensures NoTagFrom("", from)
  {
    EarliestTagCorrect("", from);
  }

  /** `m` is delimited by two concept markers carrying the id `m.group`:
      the opening `[[l-conc-ID]]` at its start and the closing one at its end. */
  predicate ConceptBalanced(s: string, i: nat, m: RegexMatch)
  {
    var marker := ConceptStartPrefix + m.group + ConceptEnd;
    OccursAt(s, marker, i) && m.end >= i + 2 * |marker| && OccursAt(s, marker, m.end - |marker|)
  }

  /** Two markers carrying `id`, the second after the first, delimit a
      balanced match. */
  lemma {:induction false} MarkersBalanced(s: string, i: nat, id: string, c: nat, m: RegexMatch)
    requires OccursAt(s, ConceptStartPrefix + id + ConceptEnd, i)
    requires OccursAt(s, ConceptStartPrefix + id + ConceptEnd, c)
    requires c >= i + |ConceptStartPrefix + id + ConceptEnd|
    requires m.group == id && m.end == c + |ConceptStartPrefix + id + ConceptEnd|
    ensures ConceptBalanced(s, i, m)
  {
  }

  /** With `]]` right after the candidate id and a closing marker later, the
      lazy id stops there. */
  lemma {:induction false} ConceptTryHit(s: string, i: nat, k: nat, c: int)
    requires OccursAt(s, ConceptStartPrefix, i)
    requires i + |ConceptStartPrefix| + k <= |s|
    requires OccursAt(s, ConceptEnd, i + |ConceptStartPrefix| + k)
    requires c == Find(s, ConceptStartPrefix + s[i + |ConceptStartPrefix|..i + |ConceptStartPrefix| + k] + ConceptEnd,
                       i + |ConceptStartPrefix| + k + |ConceptEnd|)
    requires c != -1
    ensures ConceptTry(s, i, k).Some?
    ensures ConceptTry(s, i, k).value.group == s[i + |ConceptStartPrefix|..i + |ConceptStartPrefix| + k]
    ensures ConceptTry(s, i, k).value.end == c + |ConceptStartPrefix| + k + |ConceptEnd|
  {
  }

  /** Without `]]` right after the candidate id, or without a closing marker
      later, the lazy id grows by one character. */
  lemma {:induction false} ConceptTryMiss(s: string, i: nat, k: nat)
    requires OccursAt(s, ConceptStartPrefix, i)
    ensures var a := i + |ConceptStartPrefix|;
      a + k > |s| ==> ConceptTry(s, i, k).None?
    ensures var a := i + |ConceptStartPrefix|;
      a + k <= |s| && !(OccursAt(s, ConceptEnd, a + k)
        && Find(s, ConceptStartPrefix + s[a..a + k] + ConceptEnd, a + k + |ConceptEnd|) != -1) ==>
      ConceptTry(s, i, k) == ConceptTry(s, i, k + 1)
  {
  }

  lemma {:induction false} ConceptHitBalanced(s: string, i: nat, k: nat, c: int)
    requires OccursAt(s, ConceptStartPrefix, i)
    requires i + |ConceptStartPrefix| + k <= |s|
    requires OccursAt(s, ConceptEnd, i + |ConceptStartPrefix| + k)
    requires c == Find(s, ConceptStartPrefix + s[i + |ConceptStartPrefix|..i + |ConceptStartPrefix| + k] + ConceptEnd,
                       i + |ConceptStartPrefix| + k + |ConceptEnd|)
    requires c != -1
    ensures ConceptTry(s, i, k).Some? && ConceptBalanced(s, i, ConceptTry(s, i, k).value)
  {
    var a := i + |ConceptStartPrefix|;
    var id := s[a..a + k];
    ConceptTryHit(s, i, k, c);
    assert OccursAt(s, id, a);
    OccursConcat(s, ConceptStartPrefix, id, ConceptEnd, i);
    MarkersBalanced(s, i, id, c, ConceptTry(s, i, k).value);
  }

  lemma {:induction false} ConceptMarkersAgree(s: string, i: nat, k: nat, r: Option<RegexMatch>)
    requires OccursAt(s, ConceptStartPrefix, i)
    requires r == ConceptTry(s, i, k) && r.Some?
    ensures ConceptBalanced(s, i, r.value)
    decreases |s| - (i + |ConceptStartPrefix| + k)
  {
    var a := i + |ConceptStartPrefix|;
    ConceptTryMiss(s, i, k);
    if a + k > |s| {
      assert false;
    } else if OccursAt(s, ConceptEnd, a + k)
      && Find(s, ConceptStartPrefix + s[a..a + k] + ConceptEnd, a + k + |ConceptEnd|) != -1
    {
      ConceptHitBalanced(s, i, k, Find(s, ConceptStartPrefix + s[a..a + k] + ConceptEnd, a + k + |ConceptEnd|));
    } else {
      assert r == ConceptTry(s, i, k + 1);
      ConceptMarkersAgree(s, i, k + 1, r);
    }
  }

  /** A concept tag matches only between an opening and a closing marker
      that carry the same id. */
  lemma {:induction false} ConceptMatchIsBalanced(s: string, i: nat)
    requires MatchAt(ConceptPattern, s, i).Some?
    ensures ConceptBalanced(s, i, MatchAt(ConceptPattern, s, i).value)
  {
    ConceptMarkersAgree(s, i, 0, MatchAt(ConceptPattern, s, i));
  }

  /** Citation, footnote-marker and span-reference rows have no content
      group: their matches carry no inner text. */
  lemma {:induction false} MarkerRowsHaveNoContent(s: string, i: nat, d: nat)
    requires d < |TagDefinitions|
    requires TagDefinitions[d].name in {Reference, Footnote, SpanReference}
    requires ValidPattern(TagDefinitions[d].pattern)
    ensures MatchAt(TagDefinitions[d].pattern, s, i).Some? ==> MatchAt(TagDefinitions[d].pattern, s, i).value.content.None?
  {
  }

  /** Every other row has a content group. */
  lemma {:induction false} ContentRowsHaveContent(s: string, i: nat, d: nat)
    requires d < |TagDefinitions|
    requires TagDefinitions[d].name !in {Reference, Footnote, SpanReference}
    requires ValidPattern(TagDefinitions[d].pattern)
    ensures MatchAt(TagDefinitions[d].pattern, s, i).Some? ==> MatchAt(TagDefinitions[d].pattern, s, i).value.content.Some?
  {
  }

  /** Inline math opens and closes only on an unescaped `$`, and its content
      contains no unescaped `$` (the lazy group stops at the first one). */
  lemma {:induction false} InlineMathDelimiters(s: string, i: nat)
    requires MatchAt(MathPattern, s, i).Some?
    ensures var m := MatchAt(MathPattern, s, i).value;
      m.end >= i + 2 && MathDelimAt(s, i) && MathDelimAt(s, m.end - 1)
      && m.content == Some(s[i + 1..m.end - 1])
      && forall k :: i + 1 <= k < m.end - 1 ==> !MathDelimAt(s, k)
  {
  }

  /** An escaped `\$` never opens inline or display math. */
  lemma {:induction false} EscapedDollarOpensNothing(s: string, i: nat)
    requires 0 < i < |s| && s[i - 1] == '\\'
    ensures MatchAt(MathPattern, s, i).None? && MatchAt(MathDisplayPattern, s, i).None?
  {
  }

  /** Every row other than the math rows opens with `[` or `<`. */
  predicate OpensWithBracket(p: Pattern)
  {
    match p
    case ConceptPattern => ConceptStartPrefix[0] == '['
    case IdMarker(prefix, _) => prefix != [] && prefix[0] == '['
    case AnchorPattern => true
    case Enclosed(open, _) => open != [] && open[0] == '<'
    case _ => true
  }

  lemma {:induction false} TableOpensWithBrackets()
    ensures forall d :: 0 <= d < |TagDefinitions| ==> OpensWithBracket(TagDefinitions[d].pattern)
  {
  }

  /** Without `[`, `<` and unescaped `$`, no pattern matches at `j`. */
  lemma {:induction false} NoMatchInPlainText(p: Pattern, s: string, j: nat)
    requires ValidPattern(p) && OpensWithBracket(p)
    requires '[' !in s && '<' !in s && !MathDelimAt(s, j)
    ensures MatchAt(p, s, j).None?
  {
    match p
    case ConceptPattern =>
      if j < |s| { FirstCharMismatch(s, ConceptStartPrefix, j); }
    case IdMarker(prefix, _) =>
      if j < |s| { FirstCharMismatch(s, prefix, j); }
    case AnchorPattern =>
      if j < |s| { FirstCharMismatch(s, "<a href=\"", j); }
    case Enclosed(open, _) =>
      if j < |s| { FirstCharMismatch(s, open, j); }
    case MathDisplayPattern =>
    case MathPattern =>
  }

  /** Text with no `[`, no `<` and no unescaped `$` from `from` on holds no
      tag there. */
  lemma {:induction false} PlainTextHasNoTag(s: string, from: nat)
    requires '[' !in s && '<' !in s
    requires forall k :: from <= k ==> !MathDelimAt(s, k)
    ensures NoTagFrom(s, from)
  {
    TableIsValid();
    TableOpensWithBrackets();
    forall d | 0 <= d < |TagDefinitions|
      ensures Search(TagDefinitions[d].pattern, s, from).None?
    {
      var p := TagDefinitions[d].pattern;
      var r := Search(p, s, from);
      if r.Some? {
        NoMatchInPlainText(p, s, r.value.start);
      }
    }
    EarliestTagCorrect(s, from);
  }

  /** Display math opens and closes on an unescaped `$$`. */
  lemma {:induction false} DisplayMathDelimiters(s: string, i: nat)
    requires MatchAt(MathDisplayPattern, s, i).Some?
    ensures var m := MatchAt(MathDisplayPattern, s, i).value;
      m.end >= i + 4 && DisplayDelimAt(s, i) && DisplayDelimAt(s, m.end - 2)
      && m.content == Some(s[i + 2..m.end - 2])
  {
  }

  /** Wherever display math matches, inline math matches at the same start
      too (as the empty formula `$$`), so only the table order makes `$$…$$`
      display math. */
  lemma {:induction false} DisplayShadowsInline(s: string, i: nat)
    requires MatchAt(MathDisplayPattern, s, i).Some?
    ensures MatchAt(MathPattern, s, i).Some?
    ensures MatchAt(MathPattern, s, i).value.end == i + 2
  {
    assert MathDelimAt(s, i + 1);
  }

  /** Hence the parser never picks inline math where display math starts:
      the display row precedes the inline row. */
  lemma {:induction false} EarliestPrefersDisplay(s: string, from: nat, d: nat, m: RegexMatch)
    requires IsEarliest(s, from, d, m)
    requires MatchAt(MathDisplayPattern, s, m.start).Some?
    ensures TagDefinitions[d].name != Math
  {
    assert TagDefinitions[11].pattern == MathDisplayPattern;
    var r := Search(MathDisplayPattern, s, from);
    assert r.Some? && r.value.start <= m.start;
    assert d <= 11;
  }
}
