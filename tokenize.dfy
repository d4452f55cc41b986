/** Sentence splitting that keeps math together: the sentence splitter
    (a parameter here) may cut inside a formula, and the rejoin pass glues
    the following sentences back onto the sentence where a math tag starts
    until the tag's end is covered. */
module Tokenize {
  import opened Text
  import opened LumiDoc

  predicate IsMathTag(t: InnerTag)
  {
    t.tagName == Math || t.tagName == MathDisplay
  }

  /** The top-level math tags, in order; children are not inspected. */
  function MathTags(tags: seq<InnerTag>): seq<InnerTag>
  {
    if tags == [] then []
    else (if IsMathTag(tags[0]) then [tags[0]] else []) + MathTags(tags[1..])
  }

  /** The filter keeps exactly the math and display-math tags. */
  lemma {:induction false} MathTagsFilter(tags: seq<InnerTag>)
    ensures forall t <- MathTags(tags) :: t in tags && IsMathTag(t)
    ensures forall t <- tags :: IsMathTag(t) ==> t in MathTags(tags)
  {
    if tags != [] {
      MathTagsFilter(tags[1..]);
      assert tags == [tags[0]] + tags[1..];
    }
  }

  /** The state of one merge: the sentence built so far, where it ends in
      the text, and how many following sentences it has absorbed. */
  datatype MergeState = MergeState(merged: string, endPos: int, numMerged: nat)

  /** The inner loop: absorb sentences from index `next` on, each after one
      space, while the merged sentence ends before `tagEnd`. */
  function AbsorbFollowing(sentences: seq<string>, next: nat, tagEnd: int, st: MergeState): (r: MergeState)
    ensures r.numMerged >= st.numMerged
    decreases |sentences| - next
  {
    if st.endPos < tagEnd && next < |sentences| then
      AbsorbFollowing(sentences, next + 1, tagEnd,
        MergeState(st.merged + " " + sentences[next], st.endPos + |sentences[next]| + 1, st.numMerged + 1))
    else st
  }

  /** A math tag triggers a merge when it starts inside the merged sentence
      and ends after it. */
  predicate Crosses(t: InnerTag, start: int, endPos: int)
  {
    start <= t.position.startIndex < endPos && t.position.endIndex > endPos
  }

  /** The loop over the math tags, as written: for every triggering tag the
      absorption restarts at the sentence right after the current one. */
  function MergeForTags(sentences: seq<string>, idx: nat, start: int, tags: seq<InnerTag>, st: MergeState): (r: MergeState)
    ensures r.numMerged >= st.numMerged
    decreases |tags|
  {
    if tags == [] then st
    else
      var st' := if Crosses(tags[0], start, st.endPos) then AbsorbFollowing(sentences, idx + 1, tags[0].position.endIndex, st) else st;
      MergeForTags(sentences, idx, start, tags[1..], st')
  }

  /** The outer loop, from sentence `idx` with the text searched from
      `offset`, after the output `acc` built so far. */
  function RejoinFrom(sentences: seq<string>, text: string, tags: seq<InnerTag>, idx: nat, offset: nat, acc: seq<string>): (r: seq<string>)
    decreases |sentences| - idx
  {
    if idx >= |sentences| then acc
    else
      var cur := sentences[idx];
      var st := Find(text, cur, offset);
      if st == -1 then RejoinFrom(sentences, text, tags, idx + 1, offset + |cur|, acc + [cur])
      else
        var m := MergeForTags(sentences, idx, st, tags, MergeState(cur, st + |cur|, 0));
        RejoinFrom(sentences, text, tags, idx + 1 + m.numMerged, st + |cur|, acc + [m.merged])
  }

  /** The rejoin pass as written. */
  function Rejoined(sentences: seq<string>, text: string, tags: seq<InnerTag>): seq<string>
  {
    if sentences == [] then []
    else if MathTags(tags) == [] then sentences
    else RejoinFrom(sentences, text, MathTags(tags), 0, 0, [])
  }

  /** The rejoin loop: every input sentence is visited once, in order; a
      sentence not found from the current offset is passed through and the
      offset moves on by its length. */
  method RejoinSplitSentences(sentences: seq<string>, text: string, tags: seq<InnerTag>) returns (result: seq<string>)
    ensures result == Rejoined(sentences, text, tags)
  {
    if sentences == [] {
      return [];
    }
    var mathTags := MathTags(tags);
    if mathTags == [] {
      return sentences;
    }
    result := [];
    var idx := 0;
    var offset: nat := 0;
    while idx < |sentences|
      invariant RejoinFrom(sentences, text, mathTags, idx, offset, result) == Rejoined(sentences, text, tags)
      decreases |sentences| - idx
    {
      var cur := sentences[idx];
      var start := Find(text, cur, offset);
      if start == -1 {
        result := result + [cur];
        offset := offset + |cur|;
        idx := idx + 1;
      } else {
        var m := MergeSentence(sentences, idx, start, mathTags);
        result := result + [m.merged];
        offset := start + |cur|;
        idx := idx + 1 + m.numMerged;
      }
    }
  }

  lemma {:induction false} RejoinFromFound(sentences: seq<string>, text: string, tags: seq<InnerTag>, idx: nat, offset: nat, acc: seq<string>, start: nat, m: MergeState)
    requires idx < |sentences| && Find(text, sentences[idx], offset) == start
    requires m == MergeForTags(sentences, idx, start, tags, MergeState(sentences[idx], start + |sentences[idx]|, 0))
    ensures RejoinFrom(sentences, text, tags, idx, offset, acc)
      == RejoinFrom(sentences, text, tags, idx + 1 + m.numMerged, start + |sentences[idx]|, acc + [m.merged])
  {
  }

  /** The merge of the sentence at `idx`, found at `start`, with the
      sentences the math tags pull in. */
  method MergeSentence(sentences: seq<string>, idx: nat, start: int, mathTags: seq<InnerTag>)
    returns (m: MergeState)
    requires idx < |sentences|
    ensures m == MergeForTags(sentences, idx, start, mathTags, MergeState(sentences[idx], start + |sentences[idx]|, 0))
  {
    var cur := sentences[idx];
    var endPos := start + |cur|;
    var merged := cur;
    var numMerged := 0;
    for k := 0 to |mathTags|
      invariant MergeForTags(sentences, idx, start, mathTags[k..], MergeState(merged, endPos, numMerged))
        == MergeForTags(sentences, idx, start, mathTags, MergeState(cur, start + |cur|, 0))
    {
      var t := mathTags[k];
      assert mathTags[k..][1..] == mathTags[k + 1..];
      if start <= t.position.startIndex < endPos && t.position.endIndex > endPos {
        var next := idx + 1;
        while endPos < t.position.endIndex && next < |sentences|
          invariant MergeForTags(sentences, idx, start, mathTags[k + 1..],
              AbsorbFollowing(sentences, next, t.position.endIndex, MergeState(merged, endPos, numMerged)))
            == MergeForTags(sentences, idx, start, mathTags, MergeState(cur, start + |cur|, 0))
          decreases |sentences| - next
        {
          merged := merged + " " + sentences[next];
          endPos := endPos + |sentences[next]| + 1;
          numMerged := numMerged + 1;
          next := next + 1;
        }
      }
    }
    assert mathTags[|mathTags|..] == [];
    m := MergeState(merged, endPos, numMerged);
  }

  /** The sentence tokenizer with the math rejoin; the underlying splitter
      is a parameter. */
  method TokenizeSentences(text: string, tags: seq<InnerTag>, sentTokenize: string -> seq<string>)
    returns (result: seq<string>)
    ensures result == Rejoined(sentTokenize(text), text, tags)
  {
    var initial := sentTokenize(text);
    result := RejoinSplitSentences(initial, text, tags);
  }

  /** Every input sentence yields at most one output sentence, and some
      output exists exactly when some input does. */
  lemma {:induction false} RejoinFromShrinks(sentences: seq<string>, text: string, tags: seq<InnerTag>, idx: nat, offset: nat, acc: seq<string>)
    requires idx <= |sentences|
    ensures |acc| <= |RejoinFrom(sentences, text, tags, idx, offset, acc)| <= |acc| + |sentences| - idx
    ensures |RejoinFrom(sentences, text, tags, idx, offset, acc)| == |acc| <==> idx == |sentences|
    decreases |sentences| - idx
  {
    if idx < |sentences| {
      var cur := sentences[idx];
      var st := Find(text, cur, offset);
      if st == -1 {
        RejoinFromShrinks(sentences, text, tags, idx + 1, offset + |cur|, acc + [cur]);
      } else {
        var m := MergeForTags(sentences, idx, st, tags, MergeState(cur, st + |cur|, 0));
        if idx + 1 + m.numMerged <= |sentences| {
          RejoinFromShrinks(sentences, text, tags, idx + 1 + m.numMerged, st + |cur|, acc + [m.merged]);
        }
      }
    }
  }

  lemma {:induction false} RejoinedShrinks(sentences: seq<string>, text: string, tags: seq<InnerTag>)
    ensures |Rejoined(sentences, text, tags)| <= |sentences|
    ensures Rejoined(sentences, text, tags) == [] <==> sentences == []
  {
    if MathTags(tags) != [] {
      RejoinFromShrinks(sentences, text, MathTags(tags), 0, 0, []);
    }
  }

  // ---------------------------------------------------------------------
  // The corrected rejoin: absorption continues after the sentences already
  // merged, so each sentence lands in exactly one output sentence.

  function MergeForTagsFixed(sentences: seq<string>, idx: nat, start: int, tags: seq<InnerTag>, st: MergeState): (r: MergeState)
    ensures r.numMerged >= st.numMerged
    decreases |tags|
  {
    if tags == [] then st
    else
      var st' := if Crosses(tags[0], start, st.endPos)
        then AbsorbFollowing(sentences, idx + 1 + st.numMerged, tags[0].position.endIndex, st)
        else st;
      MergeForTagsFixed(sentences, idx, start, tags[1..], st')
  }

  /** One step of the corrected outer loop: the output sentence, the index
      of the next unvisited sentence and the next search offset. */
  datatype Step = Step(out: string, next: nat, offset: nat)

  function FixedStep(sentences: seq<string>, text: string, tags: seq<InnerTag>, idx: nat, offset: nat): (r: Step)
    requires idx < |sentences|
    ensures idx < r.next
  {
    var cur := sentences[idx];
    var st := Find(text, cur, offset);
    if st == -1 then Step(cur, idx + 1, offset + |cur|)
    else
      var m := MergeForTagsFixed(sentences, idx, st, tags, MergeState(cur, st + |cur|, 0));
      Step(m.merged, idx + 1 + m.numMerged, st + |cur|)
  }

  function RejoinFixedFrom(sentences: seq<string>, text: string, tags: seq<InnerTag>, idx: nat, offset: nat): seq<string>
    decreases |sentences| - idx
  {
    if idx >= |sentences| then []
    else
      var step := FixedStep(sentences, text, tags, idx, offset);
      [step.out] + RejoinFixedFrom(sentences, text, tags, step.next, step.offset)
  }

  function RejoinedFixed(sentences: seq<string>, text: string, tags: seq<InnerTag>): seq<string>
  {
    if sentences == [] then []
    else if MathTags(tags) == [] then sentences
    else RejoinFixedFrom(sentences, text, MathTags(tags), 0, 0)
  }

  /** The merged sentence is the run of sentences from `idx`, joined by
      single spaces. */
  predicate GroupAt(sentences: seq<string>, idx: nat, st: MergeState)
  {
    idx + 1 + st.numMerged <= |sentences|
    && st.merged == Join(sentences[idx..idx + 1 + st.numMerged], " ")
  }

  lemma {:induction false} AbsorbKeepsGroup(sentences: seq<string>, idx: nat, tagEnd: int, st: MergeState)
    requires GroupAt(sentences, idx, st)
    ensures GroupAt(sentences, idx, AbsorbFollowing(sentences, idx + 1 + st.numMerged, tagEnd, st))
    decreases |sentences| - (idx + 1 + st.numMerged)
  {
    var next := idx + 1 + st.numMerged;
    if st.endPos < tagEnd && next < |sentences| {
      var st' := MergeState(st.merged + " " + sentences[next], st.endPos + |sentences[next]| + 1, st.numMerged + 1);
      assert sentences[idx..next + 1] == sentences[idx..next] + [sentences[next]];
      JoinSnoc(sentences[idx..next], sentences[next], " ");
      AbsorbKeepsGroup(sentences, idx, tagEnd, st');
    }
  }

  lemma {:induction false} MergeFixedKeepsGroup(sentences: seq<string>, idx: nat, start: int, tags: seq<InnerTag>, st: MergeState)
    requires GroupAt(sentences, idx, st)
    ensures GroupAt(sentences, idx, MergeForTagsFixed(sentences, idx, start, tags, st))
    decreases |tags|
  {
    if tags != [] {
      if Crosses(tags[0], start, st.endPos) {
        AbsorbKeepsGroup(sentences, idx, tags[0].position.endIndex, st);
      }
      var st' := if Crosses(tags[0], start, st.endPos)
        then AbsorbFollowing(sentences, idx + 1 + st.numMerged, tags[0].position.endIndex, st)
        else st;
      MergeFixedKeepsGroup(sentences, idx, start, tags[1..], st');
    }
  }

  /** A corrected step emits the next run of sentences, joined by spaces. */
  lemma {:induction false} FixedStepIsGroup(sentences: seq<string>, text: string, tags: seq<InnerTag>, idx: nat, offset: nat)
    requires idx < |sentences|
    ensures var step := FixedStep(sentences, text, tags, idx, offset);
      step.next <= |sentences| && step.out == Join(sentences[idx..step.next], " ")
  {
    var cur := sentences[idx];
    assert sentences[idx..idx + 1] == [cur];
    var st := Find(text, cur, offset);
    if st != -1 {
      MergeFixedKeepsGroup(sentences, idx, st, tags, MergeState(cur, st + |cur|, 0));
    }
  }

  lemma {:induction false} RejoinFixedFromJoin(sentences: seq<string>, text: string, tags: seq<InnerTag>, idx: nat, offset: nat)
    requires idx <= |sentences|
    ensures Join(RejoinFixedFrom(sentences, text, tags, idx, offset), " ") == Join(sentences[idx..], " ")
    ensures |RejoinFixedFrom(sentences, text, tags, idx, offset)| <= |sentences| - idx
    ensures RejoinFixedFrom(sentences, text, tags, idx, offset) == [] <==> idx == |sentences|
    decreases |sentences| - idx
  {
    if idx < |sentences| {
      var step := FixedStep(sentences, text, tags, idx, offset);
      var j := step.next;
      FixedStepIsGroup(sentences, text, tags, idx, offset);
      var rest := RejoinFixedFrom(sentences, text, tags, j, step.offset);
      RejoinFixedFromJoin(sentences, text, tags, j, step.offset);
      if j == |sentences| {
        assert sentences[idx..j] == sentences[idx..];
      } else {
        assert ([step.out] + rest)[1..] == rest;
        JoinSplit(sentences[idx..], j - idx, " ");
        assert sentences[idx..][..j - idx] == sentences[idx..j];
        assert sentences[idx..][j - idx..] == sentences[j..];
      }
    }
  }

  /** The corrected rejoin loses and repeats nothing: joining its output
      with single spaces gives the input sentences joined the same way. */
  lemma {:induction false} RejoinedFixedPreservesText(sentences: seq<string>, text: string, tags: seq<InnerTag>)
    ensures Join(RejoinedFixed(sentences, text, tags), " ") == Join(sentences, " ")
    ensures |RejoinedFixed(sentences, text, tags)| <= |sentences|
  {
    if sentences != [] && MathTags(tags) != [] {
      RejoinFixedFromJoin(sentences, text, MathTags(tags), 0, 0);
      assert sentences[0..] == sentences;
    }
  }

  function MathAt(id: Id, s: int, e: int): InnerTag
  {
    InnerTag(id, Math, map[], Position(s, e), [])
  }

  /** As written, a second math tag that crosses the end of an already
      merged sentence restarts absorption at the next sentence: "b." is
      repeated and "c." is lost, whereas the corrected rejoin keeps the
      text. */
  lemma {:induction false} RejoinRepeatsSentence()
    ensures Rejoined(["a.", "b.", "c."], "a. b. c.", [MathAt(0, 1, 3), MathAt(1, 4, 7)]) == ["a. b. b."]
    ensures RejoinedFixed(["a.", "b.", "c."], "a. b. c.", [MathAt(0, 1, 3), MathAt(1, 4, 7)]) == ["a. b. c."]
  {
    var ss: seq<string> := ["a.", "b.", "c."];
    var text := "a. b. c.";
    var tags := [MathAt(0, 1, 3), MathAt(1, 4, 7)];
    assert MathTags(tags) == tags;
    OccursAtByChars(text, "a.", 0);
    FindAt(text, "a.", 0, 0);
    var init := MergeState("a.", 2, 0);
    var first := MergeState("a. b.", 5, 1);
    assert AbsorbFollowing(ss, 2, 3, first) == first;
    assert AbsorbFollowing(ss, 1, 3, init) == first;
    // as written: the second tag starts absorbing again at "b."
    var twice := MergeState("a. b. b.", 8, 2);
    assert AbsorbFollowing(ss, 2, 7, twice) == twice;
    assert AbsorbFollowing(ss, 1, 7, first) == twice;
    assert MergeForTags(ss, 0, 0, tags[1..], first) == twice;
    assert MergeForTags(ss, 0, 0, tags, init) == twice;
    assert RejoinFrom(ss, text, tags, 0, 0, []) == RejoinFrom(ss, text, tags, 3, 2, ["a. b. b."]);
    // corrected: it continues at "c."
    var all := MergeState("a. b. c.", 8, 2);
    assert AbsorbFollowing(ss, 3, 7, all) == all;
    assert AbsorbFollowing(ss, 2, 7, first) == all;
    assert MergeForTagsFixed(ss, 0, 0, tags[1..], first) == all;
    assert MergeForTagsFixed(ss, 0, 0, tags, init) == all;
    assert FixedStep(ss, text, tags, 0, 0) == Step("a. b. c.", 3, 2);
  }

  const FirstHalf := "This is a sentence with a math block E = m.c^2."
  const SecondHalf := "It continues here."
  const Final := "This is the final sentence."

  lemma {:induction false} SplitMathSearches()
    ensures var text := FirstHalf + " " + SecondHalf + " " + Final;
      Find(text, FirstHalf, 0) == 0 && Find(text, Final, 47) == 67
  {
    var text := FirstHalf + " " + SecondHalf + " " + Final;
    assert text[..|FirstHalf|] == FirstHalf;
    FindAt(text, FirstHalf, 0, 0);
    assert text[67..] == Final;
    forall k | 47 <= k < 67 ensures !OccursAt(text, Final, k) {
      assert text[k] != Final[0];
      assert k + |Final| <= |text| ==> text[k..k + |Final|][0] == text[k];
    }
    FindAt(text, Final, 47, 67);
  }

  /** A formula cut by the splitter is glued back to its sentence: the math
      tag over [34, 65) starts in the first sentence and ends in the
      second. */
  lemma {:induction false} RejoinSplitMath()
    ensures Rejoined([FirstHalf, SecondHalf, Final], FirstHalf + " " + SecondHalf + " " + Final, [MathAt(123, 34, 65)])
      == [FirstHalf + " " + SecondHalf, Final]
  {
    var s1, s2, s3 := FirstHalf, SecondHalf, Final;
    var text := s1 + " " + s2 + " " + s3;
    var ss := [s1, s2, s3];
    var tags := [MathAt(123, 34, 65)];
    assert |s1| == 47 && |s2| == 18 && |s3| == 27;
    assert MathTags(tags) == tags;
    SplitMathSearches();
    var init := MergeState(s1, 47, 0);
    var joined := MergeState(s1 + " " + s2, 66, 1);
    assert AbsorbFollowing(ss, 2, 65, joined) == joined;
    assert AbsorbFollowing(ss, 1, 65, init) == joined;
    assert MergeForTags(ss, 0, 0, tags, init) == joined;
    assert MergeForTags(ss, 2, 67, tags, MergeState(s3, 94, 0)) == MergeState(s3, 94, 0);
    RejoinFromFound(ss, text, tags, 0, 0, [], 0, joined);
    RejoinFromFound(ss, text, tags, 2, 47, [s1 + " " + s2], 67, MergeState(s3, 94, 0));
    assert [s1 + " " + s2] + [s3] == [s1 + " " + s2, s3];
  }
}
