/** The three block patterns of the import pipeline, written out as the
    lazy regular expressions they are, and the scan `re.sub` and
    `re.finditer` make with them: the leftmost match, then the next one
    after its end, and so on. */
module BlockPatterns {
  import opened Wrappers
  import opened Text
  import opened ImportTags

  // ---------------------------------------------------------------------
  // The block patterns
  // ---------------------------------------------------------------------

  /** The shape of one block pattern. A block opens with `open`, the
      block's id (an image path for images) and `idEnd`; a block with a
      body ends with `bodyClose`, the same id and `idEnd`; an optional
      caption follows after white space, enclosed between two copies of
      `capOpen`, the id and `capEnd`. The ids and the body and caption
      texts are lazy groups that may hold any character. */
  datatype Shape = Shape(open: string, idEnd: string, bodyClose: Option<string>, capOpen: string, capEnd: string)

  const ImageShape := Shape(ImageStartPrefix, ImageEnd, None, ImageCaptionStartPrefix, ImageCaptionEnd)
  const HtmlShape := Shape(HtmlStartPrefix, HtmlEnd, Some(HtmlStartPrefix), HtmlCaptionStartPrefix, HtmlCaptionEnd)
  const FigureShape := Shape(FigureStartPrefix, FigureEnd, Some(FigureEndPrefix), FigureCaptionStartPrefix, FigureCaptionEnd)

  /** One match of a block pattern: where it starts and ends, the text it
      covers, the id, the body (empty for an image) and the caption group,
      `None` when the optional caption did not match. */
  datatype Match = Match(start: nat, end: nat, text: string, id: string, body: string, caption: Option<string>)

  /** The first index at or after `i` that is not white space. */
  function SkipSpaces(s: string, i: nat): (r: nat)
    requires i <= |s|
    ensures i <= r <= |s| && (r < |s| ==> !IsSpace(s[r]))
    ensures forall k :: i <= k < r ==> IsSpace(s[k])
    decreases |s| - i
  {
    if i < |s| && IsSpace(s[i]) then SkipSpaces(s, i + 1) else i
  }

  /** The block `s[start..e]` with the optional caption tried after it.
      Every caption marker starts with `[`, so the white space before it
      is taken whole; the caption is the shortest text up to the second
      caption marker, and without one the block ends at `e`. */
  function WithCaption(s: string, sh: Shape, start: nat, id: string, body: string, e: nat): (m: Match)
    requires start <= e <= |s|
    ensures m.start == start && e <= m.end <= |s| && m.text == s[start..m.end]
    ensures m.id == id && m.body == body
  {
    var marker := sh.capOpen + id + sh.capEnd;
    var w := SkipSpaces(s, e);
    var j := if OccursAt(s, marker, w) then Find(s, marker, w + |marker|) else -1;
    if j < 0 then Match(start, e, s[start..e], id, body, None)
    else Match(start, j + |marker|, s[start..j + |marker|], id, body, Some(s[w + |marker|..j]))
  }

  /** A block with a body, opening at `i`: the id is the shortest text
      ending at an `idEnd` at or after `from` for which the closing marker
      with that id occurs later; the body is the shortest text up to it. */
  function BodyMatchFrom(s: string, sh: Shape, i: nat, from: nat): (r: Option<Match>)
    requires sh.bodyClose.Some? && i + |sh.open| <= from
    ensures r.Some? ==> r.value.start == i && from <= r.value.end <= |s| && r.value.text == s[i..r.value.end]
    decreases |s| + 1 - from
  {
    var k := Find(s, sh.idEnd, from);
    if k < 0 then None
    else
      var id := s[i + |sh.open|..k];
      var close := sh.bodyClose.value + id + sh.idEnd;
      var j := Find(s, close, k + |sh.idEnd|);
      if j < 0 then BodyMatchFrom(s, sh, i, k + 1)
      else Some(WithCaption(s, sh, i, id, s[k + |sh.idEnd|..j], j + |close|))
  }

  /** The match of the pattern at position `i`, if any. */
  function BlockAt(s: string, sh: Shape, i: nat): (r: Option<Match>)
    ensures r.Some? ==> (OccursAt(s, sh.open, i) && r.value.start == i
                          && i + |sh.open| <= r.value.end <= |s| && r.value.text == s[i..r.value.end])
  {
    if !OccursAt(s, sh.open, i) then None
    else if sh.bodyClose.None? then
      var k := Find(s, sh.idEnd, i + |sh.open|);
      if k < 0 then None
      else Some(WithCaption(s, sh, i, s[i + |sh.open|..k], [], k + |sh.idEnd|))
    else BodyMatchFrom(s, sh, i, i + |sh.open|)
  }

  /** The leftmost match starting at or after `from`. */
  function NextMatch(s: string, sh: Shape, from: nat): (r: Option<Match>)
    ensures r.Some? ==> from <= r.value.start && BlockAt(s, sh, r.value.start) == r
    decreases |s| + 1 - from
  {
    if from > |s| then None
    else match BlockAt(s, sh, from)
      case Some(m) => Some(m)
      case None => NextMatch(s, sh, from + 1)
  }

  /** The match found is the leftmost one: none starts between `from` and
      it, and none at all from `from` on when nothing is found. */
  lemma {:induction false} NextMatchLeftmost(s: string, sh: Shape, from: nat)
    ensures var r := NextMatch(s, sh, from);
      forall p :: from <= p && (r.None? || p < r.value.start) ==> BlockAt(s, sh, p).None?
    decreases |s| + 1 - from
  {
    var r := NextMatch(s, sh, from);
    if from > |s| {
      forall p | from <= p ensures BlockAt(s, sh, p).None? {
        var b := BlockAt(s, sh, p);
      }
    } else if BlockAt(s, sh, from).None? {
      NextMatchLeftmost(s, sh, from + 1);
      assert r == NextMatch(s, sh, from + 1);
    }
  }

  /** The text cut by the successive matches: `literals[k]` precedes
      `hits[k]`, and the last literal follows the last match. */
  datatype Scanned = Scanned(literals: seq<string>, hits: seq<Match>)

  /** The non-overlapping matches from `from` on, each the leftmost after
      the previous one, as `re.sub` and `re.finditer` find them. */
  function ScanFrom(s: string, sh: Shape, from: nat): (r: Scanned)
    requires from <= |s| && |sh.open| > 0
    ensures |r.literals| == |r.hits| + 1
    decreases |s| - from
  {
    match NextMatch(s, sh, from)
    case None => Scanned([s[from..]], [])
    case Some(m) =>
      var rest := ScanFrom(s, sh, m.end);
      Scanned([s[from..m.start]] + rest.literals, [m] + rest.hits)
  }

  function Scan(s: string, sh: Shape): (r: Scanned)
    requires |sh.open| > 0
    ensures |r.literals| == |r.hits| + 1
  {
    ScanFrom(s, sh, 0)
  }

  /** The literals with `parts[k]` put back between `literals[k]` and
      `literals[k + 1]`. */
  function Reassembled(literals: seq<string>, parts: seq<string>): string
    requires |literals| == |parts| + 1
  {
    if parts == [] then literals[0] else literals[0] + parts[0] + Reassembled(literals[1..], parts[1..])
  }

  function Texts(hits: seq<Match>): (r: seq<string>)
    ensures |r| == |hits| && forall k :: 0 <= k < |hits| ==> r[k] == hits[k].text
  {
    seq(|hits|, k requires 0 <= k < |hits| => hits[k].text)
  }

  /** `ScanFrom` when the next match is `m`. */
  lemma {:induction false} ScanFromSome(s: string, sh: Shape, from: nat, m: Match)
    requires from <= |s| && |sh.open| > 0 && NextMatch(s, sh, from) == Some(m)
    ensures from <= m.start && m.start + |sh.open| <= m.end <= |s| && m.text == s[m.start..m.end]
    ensures BlockAt(s, sh, m.start) == Some(m)
    ensures ScanFrom(s, sh, from).literals == [s[from..m.start]] + ScanFrom(s, sh, m.end).literals
    ensures ScanFrom(s, sh, from).hits == [m] + ScanFrom(s, sh, m.end).hits
  {
  }

  lemma {:induction false} ReassembledCons(literals: seq<string>, parts: seq<string>, l: string, x: string)
    requires |literals| == |parts| + 1
    ensures Reassembled([l] + literals, [x] + parts) == l + x + Reassembled(literals, parts)
  {
    assert ([l] + literals)[1..] == literals;
    assert ([x] + parts)[1..] == parts;
  }

  lemma {:induction false} TextsCons(m: Match, hits: seq<Match>)
    ensures Texts([m] + hits) == [m.text] + Texts(hits)
  {
  }

  lemma {:induction false} JoinThree(s: string, a: nat, b: nat, c: nat)
    requires a <= b <= c <= |s|
    ensures s[a..] == s[a..b] + s[b..c] + s[c..]
  {
    SuffixSplit(s, a, b);
    SuffixSplit(s, b, c);
  }

  /** Putting the matched texts back between the literals gives the input:
      text outside the matches is kept as it is. */
  lemma {:induction false} ScanCoversInput(s: string, sh: Shape, from: nat)
    requires from <= |s| && |sh.open| > 0
    ensures var r := ScanFrom(s, sh, from); Reassembled(r.literals, Texts(r.hits)) == s[from..]
    decreases |s| - from
  {
    var n := NextMatch(s, sh, from);
    if n.Some? {
      var m := n.value;
      ScanFromSome(s, sh, from, m);
      var rest := ScanFrom(s, sh, m.end);
      ScanCoversInput(s, sh, m.end);
      TextsCons(m, rest.hits);
      ReassembledCons(rest.literals, Texts(rest.hits), s[from..m.start], m.text);
      JoinThree(s, from, m.start, m.end);
    }
  }

  /** Every hit is the pattern's match at its own start, at or after
      `from`. */
  predicate AllMatches(s: string, sh: Shape, from: nat, hits: seq<Match>) {
    forall k :: 0 <= k < |hits| ==> from <= hits[k].start && BlockAt(s, sh, hits[k].start) == Some(hits[k])
  }

  lemma {:induction false} ConsMatches(s: string, sh: Shape, from: nat, m: Match, hits: seq<Match>)
    requires from <= m.start <= m.end && BlockAt(s, sh, m.start) == Some(m)
    requires AllMatches(s, sh, m.end, hits)
    ensures AllMatches(s, sh, from, [m] + hits)
  {
    var r := [m] + hits;
    forall k | 0 <= k < |r| ensures from <= r[k].start && BlockAt(s, sh, r[k].start) == Some(r[k]) {
      if k > 0 {
        assert r[k] == hits[k - 1];
      }
    }
  }

  lemma {:induction false} ScanHitsAreMatches(s: string, sh: Shape, from: nat)
    requires from <= |s| && |sh.open| > 0
    ensures AllMatches(s, sh, from, ScanFrom(s, sh, from).hits)
    decreases |s| - from
  {
    var n := NextMatch(s, sh, from);
    if n.Some? {
      var m := n.value;
      ScanFromSome(s, sh, from, m);
      ScanHitsAreMatches(s, sh, m.end);
      ConsMatches(s, sh, from, m, ScanFrom(s, sh, m.end).hits);
    }
  }

  /** Each hit starts at or after the end of the previous one. */
  predicate InOrder(hits: seq<Match>) {
    forall k :: 0 <= k < |hits| - 1 ==> hits[k].end <= hits[k + 1].start
  }

  lemma {:induction false} ConsInOrder(m: Match, hits: seq<Match>)
    requires InOrder(hits) && (hits != [] ==> m.end <= hits[0].start)
    ensures InOrder([m] + hits)
  {
    var r := [m] + hits;
    forall k | 0 <= k < |r| - 1 ensures r[k].end <= r[k + 1].start {
      assert r[k + 1] == hits[k];
      if k > 0 {
        assert r[k] == hits[k - 1];
      }
    }
  }

  /** The hits of a scan do not overlap and come in input order. */
  lemma {:induction false} ScanHitsInOrder(s: string, sh: Shape, from: nat)
    requires from <= |s| && |sh.open| > 0
    ensures InOrder(ScanFrom(s, sh, from).hits)
    decreases |s| - from
  {
    var n := NextMatch(s, sh, from);
    if n.Some? {
      var m := n.value;
      ScanFromSome(s, sh, from, m);
      ScanHitsInOrder(s, sh, m.end);
      var n' := NextMatch(s, sh, m.end);
      if n'.Some? {
        ScanFromSome(s, sh, m.end, n'.value);
      }
      ConsInOrder(m, ScanFrom(s, sh, m.end).hits);
    }
  }

  /** No match of the pattern starts inside the text before the first
      hit. */
  lemma {:induction false} ScanSkipsNoMatch(s: string, sh: Shape, from: nat)
    requires from <= |s| && |sh.open| > 0
    ensures var r := ScanFrom(s, sh, from);
      forall p :: from <= p < from + |r.literals[0]| ==> BlockAt(s, sh, p).None?
  {
    NextMatchLeftmost(s, sh, from);
    var n := NextMatch(s, sh, from);
    if n.Some? {
      ScanFromSome(s, sh, from, n.value);
    }
  }
}
