/** arXiv identifiers (`<id>v<version>`), arXiv abstract links, and the
    `json` code fence that model answers are wrapped in. */
module StringUtils {
  import opened Wrappers
  import opened Text

  datatype StringError =
    | EmptyVersion     // "Empty version"
    | EmptyId          // "Empty id"
    | InvalidLink      // "Invalid arxiv link"
    | NotSingleVersion // "Could not parse single id and version"
    | ParsedInvalidId  // "Parsed invalid id"

  const ArxivIdPrefix: string := "http://arxiv.org/abs/"
  const IdVersionDelimiter: string := "v"

  // ---------------------------------------------------------------------
  // Versioned ids
  // ---------------------------------------------------------------------

  /** `get_versioned_id`: the version is checked first, then the id. */
  function GetVersionedId(arxivId: string, version: string): (r: Result<string, StringError>)
    ensures version == [] ==> r == Failure(EmptyVersion)
    ensures version != [] && arxivId == [] ==> r == Failure(EmptyId)
    ensures r.Success? ==>
      && arxivId != [] && version != []
      && r.value == arxivId + IdVersionDelimiter + version
  {
    if version == [] then Failure(EmptyVersion)
    else if arxivId == [] then Failure(EmptyId)
    else Success(arxivId + IdVersionDelimiter + version)
  }

  /** `get_id_and_version`: exactly one `v`, with a non-blank id before it
      and a non-blank version after it. */
  function GetIdAndVersion(versionedId: string): (r: Result<(string, string), StringError>)
    ensures !Contains(versionedId, IdVersionDelimiter) ==> r == Failure(InvalidLink)
    ensures r.Success? ==>
      && versionedId == r.value.0 + IdVersionDelimiter + r.value.1
      && Lacks(r.value.0, 'v') && Lacks(r.value.1, 'v')
      && !IsBlank(r.value.0) && !IsBlank(r.value.1)
  {
    if !Contains(versionedId, IdVersionDelimiter) then Failure(InvalidLink)
    else
      var split := Split(versionedId, IdVersionDelimiter);
      if |split| != 2 then Failure(NotSingleVersion)
      else if IsBlank(split[0]) || IsBlank(split[1]) then Failure(ParsedInvalidId)
      else
        SplitPiecesLack(versionedId, IdVersionDelimiter);
        assert Join(split, IdVersionDelimiter) == split[0] + IdVersionDelimiter + split[1];
        Success((split[0], split[1]))
  }

  /** An id and a version that are non-blank and free of `v` are read back
      from the string `id + "v" + version`. */
  lemma {:induction false} IdAndVersionOf(arxivId: string, version: string)
    requires Lacks(arxivId, 'v') && Lacks(version, 'v')
    requires !IsBlank(arxivId) && !IsBlank(version)
    ensures GetIdAndVersion(arxivId + IdVersionDelimiter + version) == Success((arxivId, version))
  {
    var s := arxivId + IdVersionDelimiter + version;
    var ws := [arxivId, version];
    assert Join(ws, IdVersionDelimiter) == s;
    assert OccursAt(s, IdVersionDelimiter, |arxivId|) by {
      assert s[|arxivId|..|arxivId| + 1] == IdVersionDelimiter;
    }
    SplitJoin(ws, IdVersionDelimiter);
  }

  /** Round trip: the versioned id of a non-blank, `v`-free id and version
      parses back to that id and version. */
  lemma {:induction false} VersionedIdRoundTrip(arxivId: string, version: string)
    requires Lacks(arxivId, 'v') && Lacks(version, 'v')
    requires !IsBlank(arxivId) && !IsBlank(version)
    ensures GetVersionedId(arxivId, version).Success?
    ensures GetIdAndVersion(GetVersionedId(arxivId, version).value) == Success((arxivId, version))
  {
    IdAndVersionOf(arxivId, version);
  }

  /** Parsing succeeds exactly on strings with one `v` between a non-blank
      id and a non-blank version, and then rebuilding gives the string back. */
  lemma {:induction false} IdAndVersionRoundTrip(versionedId: string)
    requires GetIdAndVersion(versionedId).Success?
    ensures var p := GetIdAndVersion(versionedId).value;
      GetVersionedId(p.0, p.1) == Success(versionedId)
  {
  }

  /** `s` is `id + "v" + version`, split at `i`, with both parts
      non-blank and free of `v`. */
  predicate SingleSplitAt(s: string, i: int)
  {
    0 <= i < |s| && s[i] == 'v'
      && Lacks(s[..i], 'v') && Lacks(s[i + 1..], 'v')
      && !IsBlank(s[..i]) && !IsBlank(s[i + 1..])
  }

  /** Parsing succeeds exactly when the string has a single `v` with a
      non-blank part on each side, and it then splits there; so a second
      `v`, a missing `v` or a blank part is always rejected. */
  lemma {:induction false} IdAndVersionSucceedsIff(s: string)
    ensures GetIdAndVersion(s).Success? <==> exists i :: SingleSplitAt(s, i)
    ensures GetIdAndVersion(s).Success? ==> SingleSplitAt(s, |GetIdAndVersion(s).value.0|)
  {
    if GetIdAndVersion(s).Success? {
      var p := GetIdAndVersion(s).value;
      assert s[..|p.0|] == p.0 && s[|p.0| + 1..] == p.1;
      assert SingleSplitAt(s, |p.0|);
    } else if i :| SingleSplitAt(s, i) {
      assert s == s[..i] + IdVersionDelimiter + s[i + 1..];
      IdAndVersionOf(s[..i], s[i + 1..]);
    }
  }

  /** The test identifier `1706.03762v7`. */
  lemma {:induction false} VersionedIdExample(arxivId: string, version: string)
    requires arxivId == "1706.03762" && version == "7"
    ensures GetVersionedId(arxivId, version) == Success("1706.03762v7")
    ensures GetIdAndVersion("1706.03762v7") == Success((arxivId, version))
  {
    assert !IsBlank(arxivId) by {
      assert !IsSpace(arxivId[0]);
    }
    assert !IsBlank(version) by {
      assert !IsSpace(version[0]);
    }
    IdAndVersionOf(arxivId, version);
    assert arxivId + IdVersionDelimiter + version == "1706.03762v7";
  }

  // ---------------------------------------------------------------------
  // arXiv abstract links
  // ---------------------------------------------------------------------

  /** `get_arxiv_versioned_id`: what follows `http://arxiv.org/abs/`. */
  function GetArxivVersionedId(link: string): (r: Result<string, StringError>)
    ensures r.Failure? <==> !StartsWith(link, ArxivIdPrefix)
    ensures r.Failure? ==> r.error == InvalidLink
    ensures r.Success? ==> link == ArxivIdPrefix + r.value
  {
    if !StartsWith(link, ArxivIdPrefix) then Failure(InvalidLink)
    else
      assert link == link[..|ArxivIdPrefix|] + link[|ArxivIdPrefix|..];
      Success(link[|ArxivIdPrefix|..])
  }

  /** Every link built from the prefix gives back what follows it. */
  lemma {:induction false} ArxivLinkRoundTrip(rest: string)
    ensures GetArxivVersionedId(ArxivIdPrefix + rest) == Success(rest)
  {
    var link := ArxivIdPrefix + rest;
    assert link[..|ArxivIdPrefix|] == ArxivIdPrefix;
    assert link[|ArxivIdPrefix|..] == rest;
  }

  // ---------------------------------------------------------------------
  // The ```json fence
  // ---------------------------------------------------------------------

  const JsonOpen: string := "```json"
  const Fence: string := "```"

  /** A match of `r"```json(.*?)```"` (with `re.DOTALL`) starting at `i`:
      the body runs from `i + 7` to the first fence at or after it. */
  function FenceMatchAt(text: string, i: nat): (r: Option<(nat, nat)>)
    ensures r.Some? ==> r.value.0 == i + |JsonOpen| <= r.value.1 && r.value.1 + |Fence| <= |text|
  {
    if !OccursAt(text, JsonOpen, i) then None
    else
      var j := Find(text, Fence, i + |JsonOpen|);
      if j == -1 then None else Some((i + |JsonOpen|, j))
  }

  /** `re.search`: the leftmost start at or after `from` with a match. */
  function SearchFence(text: string, from: nat): (r: Option<(nat, nat)>)
    ensures r.Some? ==> exists i :: from <= i && FenceMatchAt(text, i) == r
    ensures r.None? ==> forall i :: from <= i ==> FenceMatchAt(text, i).None?
    decreases |text| + 1 - from
  {
    if from > |text| then
      assert forall i :: from <= i ==> !OccursAt(text, JsonOpen, i);
      None
    else if FenceMatchAt(text, from).Some? then FenceMatchAt(text, from)
    else SearchFence(text, from + 1)
  }

  /** `extract_json_from_decorator`: the stripped body of the first fenced
      `json` block, or the text itself when there is none. */
  function ExtractJsonFromDecorator(text: string): (r: string)
    ensures (forall i :: FenceMatchAt(text, i).None?) ==> r == text
  {
    match SearchFence(text, 0)
    case None => text
    case Some((b, e)) => Strip(text[b..e])
  }

  /** The body is taken lazily: it holds no complete fence, so it ends at
      the first closing fence. */
  lemma {:induction false} FenceBodyIsLazy(text: string, i: nat)
    requires FenceMatchAt(text, i).Some?
    ensures var m := FenceMatchAt(text, i).value;
      forall k :: m.0 <= k < m.1 ==> !OccursAt(text, Fence, k)
  {
  }

  /** A fenced body with no backtick comes out stripped. */
  lemma {:induction false} FencedBody(body: string)
    requires Lacks(body, '`')
    ensures ExtractJsonFromDecorator(JsonOpen + body + Fence) == Strip(body)
  {
    var text := JsonOpen + body + Fence;
    var e := |JsonOpen| + |body|;
    assert OccursAt(text, JsonOpen, 0) by {
      assert text[..|JsonOpen|] == JsonOpen;
    }
    forall k | |JsonOpen| <= k < e ensures !OccursAt(text, Fence, k) {
      assert text[k] == body[k - |JsonOpen|];
      FirstCharMismatch(text, Fence, k);
    }
    assert OccursAt(text, Fence, e) by {
      assert text[e..e + |Fence|] == Fence;
    }
    FindAt(text, Fence, |JsonOpen|, e);
    assert text[|JsonOpen|..e] == body;
  }

  /** A fenced JSON object (braces at both ends, no backtick inside), such
      as `{"key": "value"}`, comes out exactly as it is. */
  lemma {:induction false} FencedObject(body: string)
    requires |body| >= 2 && body[0] == '{' && body[|body| - 1] == '}'
    requires Lacks(body, '`')
    ensures ExtractJsonFromDecorator(JsonOpen + body + Fence) == body
  {
    StripUnchanged(body);
    FencedBody(body);
  }

  /** Text with no backtick has no fence and is returned unchanged. */
  lemma {:induction false} NoFenceUnchanged(text: string)
    requires Lacks(text, '`')
    ensures ExtractJsonFromDecorator(text) == text
  {
    forall i | 0 <= i ensures FenceMatchAt(text, i).None? {
      if i < |text| {
        FirstCharMismatch(text, JsonOpen, i);
      }
    }
  }

  /** No `json` fence starts anywhere in three backticks, a body free of
      backticks not starting with `j`, and three backticks. */
  lemma {:induction false} NoTaggedFenceAt(body: string, i: nat)
    requires Lacks(body, '`') && (body == [] || body[0] != 'j')
    ensures !OccursAt(Fence + body + Fence, JsonOpen, i)
  {
    var text := Fence + body + Fence;
    if i + |JsonOpen| <= |text| {
      if i == 0 {
        assert text[3] == body[0];
        MismatchAt(text, JsonOpen, i, 3);
      } else if i < 3 {
        assert text[i + 2] == body[i - 1];
        MismatchAt(text, JsonOpen, i, 2);
      } else {
        assert text[i] == body[i - 3];
        MismatchAt(text, JsonOpen, i, 0);
      }
    }
  }

  /** A fence without the `json` tag is not a match: the text is returned
      unchanged. */
  lemma {:induction false} UntaggedFenceUnchanged(body: string)
    requires Lacks(body, '`') && (body == [] || body[0] != 'j')
    ensures ExtractJsonFromDecorator(Fence + body + Fence) == Fence + body + Fence
  {
    forall i: nat ensures FenceMatchAt(Fence + body + Fence, i).None? {
      NoTaggedFenceAt(body, i);
    }
  }
}
