/** Handling of an extracted LaTeX source tree: choosing the root file,
    flattening `\input`, `\include` and `\bibliography` into one text,
    removing comments and inlining custom commands. The file system is a
    value: the directory walk is a sequence of entries, and the files that
    can be read are a map from path to text. */
module LatexUtils {
  import opened Wrappers
  import opened Text
  import opened PosixPath
  import LatexInlineCommand

  datatype LatexError =
    | NoMainFile            // `ValueError`: no candidate root file
    | CompetingMainFiles    // `ValueError`: several candidates, no unique preferred one
    | BibliographyNotFound  // `FileNotFoundError` raised while inlining a bibliography
    | CommandError          // `IndexError` raised while inlining custom commands

  const PreferredMainFileNames: seq<string> := ["main.tex", "ms.tex"]

  const DocumentClass: string := "\\documentclass"

  // ---------------------------------------------------------------------
  // Root file selection (`find_main_tex_file`)
  // ---------------------------------------------------------------------

  /** A file met by the directory walk: its directory, its name, and its
      text, or `None` when it could not be opened. */
  datatype WalkEntry = WalkEntry(root: string, name: string, content: Option<string>)

  /** A `.tex` file that could be read and holds `\documentclass`. */
  predicate IsMainCandidate(e: WalkEntry)
  {
    EndsWith(e.name, ".tex") && e.content.Some? && Find(e.content.value, DocumentClass, 0) != -1
  }

  /** The full paths of the candidates, in walk order. */
  function Candidates(entries: seq<WalkEntry>): (r: seq<string>)
    ensures |r| <= |entries|
  {
    if entries == [] then []
    else
      var last := entries[|entries| - 1];
      Candidates(entries[..|entries| - 1])
        + (if IsMainCandidate(last) then [PathJoin(last.root, last.name)] else [])
  }

  predicate IsPreferred(p: string)
  {
    Basename(p) in PreferredMainFileNames
  }

  /** The tie-breaker's list: the paths named `main.tex` or `ms.tex`, in
      order. */
  function Preferred(paths: seq<string>): (r: seq<string>)
    ensures |r| <= |paths|
  {
    if paths == [] then []
    else (if IsPreferred(paths[0]) then [paths[0]] else []) + Preferred(paths[1..])
  }

  /** The selection rule applied to the candidates. */
  function SelectMain(paths: seq<string>): Result<string, LatexError>
  {
    if |paths| == 0 then Failure(NoMainFile)
    else if |paths| > 1 then
      var preferred := Preferred(paths);
      if |preferred| == 1 then Success(preferred[0]) else Failure(CompetingMainFiles)
    else Success(paths[0])
  }

  /** Exactly one index of `paths` holds a preferred name. */
  predicate UniquePreferredAt(paths: seq<string>, i: nat)
  {
    i < |paths| && IsPreferred(paths[i])
      && forall j :: 0 <= j < |paths| && j != i ==> !IsPreferred(paths[j])
  }

  /** The tie-breaker's list is empty exactly when no index holds a
      preferred name. */
  lemma {:induction false} PreferredEmpty(paths: seq<string>)
    ensures Preferred(paths) == [] <==> forall j :: 0 <= j < |paths| ==> !IsPreferred(paths[j])
  {
    if paths != [] {
      var rest := paths[1..];
      PreferredEmpty(rest);
      if forall j :: 0 <= j < |rest| ==> !IsPreferred(rest[j]) {
        forall j | 0 < j < |paths| ensures !IsPreferred(paths[j]) {
          assert paths[j] == rest[j - 1];
        }
      } else {
        var j :| 0 <= j < |rest| && IsPreferred(rest[j]);
        assert paths[j + 1] == rest[j];
      }
    }
  }

  /** A single index with a preferred name makes the tie-breaker's list
      that one path. */
  lemma {:induction false} PreferredOfUnique(paths: seq<string>, i: nat)
    requires UniquePreferredAt(paths, i)
    ensures Preferred(paths) == [paths[i]]
  {
    var rest := paths[1..];
    if i == 0 {
      PreferredEmpty(rest);
    } else {
      assert UniquePreferredAt(rest, i - 1) by {
        forall j | 0 <= j < |rest| && j != i - 1 ensures !IsPreferred(rest[j]) {
          assert rest[j] == paths[j + 1];
        }
      }
      PreferredOfUnique(rest, i - 1);
    }
  }

  /** A tie-breaker's list of one comes from a single index with a
      preferred name. */
  lemma {:induction false} UniqueOfPreferred(paths: seq<string>) returns (i: nat)
    requires |Preferred(paths)| == 1
    ensures UniquePreferredAt(paths, i)
  {
    var rest := paths[1..];
    if IsPreferred(paths[0]) {
      PreferredEmpty(rest);
      i := 0;
      forall j | 0 < j < |paths| ensures !IsPreferred(paths[j]) {
        assert paths[j] == rest[j - 1];
      }
    } else {
      var k := UniqueOfPreferred(rest);
      i := k + 1;
      forall j | 0 <= j < |paths| && j != i ensures !IsPreferred(paths[j]) {
        if j > 0 {
          assert paths[j] == rest[j - 1];
        }
      }
    }
  }

  /** No candidate is an error; one candidate is the root; among several,
      the root is the one path with a preferred name, and without exactly
      one such path the choice is an error. */
  lemma {:induction false} SelectMainMeaning(paths: seq<string>)
    ensures paths == [] ==> SelectMain(paths) == Failure(NoMainFile)
    ensures |paths| == 1 ==> SelectMain(paths) == Success(paths[0])
    ensures |paths| > 1 ==>
      (SelectMain(paths).Success? <==> exists i: nat :: UniquePreferredAt(paths, i))
    ensures |paths| > 1 ==>
      forall i: nat :: UniquePreferredAt(paths, i) ==> SelectMain(paths) == Success(paths[i])
    ensures |paths| > 1 && SelectMain(paths).Failure? ==> SelectMain(paths).error == CompetingMainFiles
  {
    if |paths| > 1 {
      if |Preferred(paths)| == 1 {
        var i := UniqueOfPreferred(paths);
      }
      forall i: nat | UniquePreferredAt(paths, i) ensures SelectMain(paths) == Success(paths[i]) {
        PreferredOfUnique(paths, i);
      }
    }
  }

  /** Two competing preferred names are an error. */
  lemma {:induction false} MainAndMsCompete()
    ensures SelectMain(["main.tex", "ms.tex"]) == Failure(CompetingMainFiles)
  {
    assert IsPreferred("main.tex") by {
      BasenameIsLastComponent("main.tex", 0);
    }
    assert IsPreferred("ms.tex") by {
      BasenameIsLastComponent("ms.tex", 0);
    }
  }

  /** `find_main_tex_file` over the walk's entries. */
  method FindMainTexFile(entries: seq<WalkEntry>) returns (r: Result<string, LatexError>)
    ensures r == SelectMain(Candidates(entries))
  {
    var validMainPaths: seq<string> := [];
    for i := 0 to |entries|
      invariant validMainPaths == Candidates(entries[..i])
    {
      assert entries[..i + 1][..i] == entries[..i];
      var e := entries[i];
      if EndsWith(e.name, ".tex") {
        var fullPath := PathJoin(e.root, e.name);
        if e.content.Some? && Find(e.content.value, DocumentClass, 0) != -1 {
          validMainPaths := validMainPaths + [fullPath];
        }
      }
    }
    assert entries[..|entries|] == entries;
    if |validMainPaths| == 0 {
      return Failure(NoMainFile);
    }
    if |validMainPaths| > 1 {
      var preferredFiles := Preferred(validMainPaths);
      if |preferredFiles| == 1 {
        return Success(preferredFiles[0]);
      }
      return Failure(CompetingMainFiles);
    }
    r := Success(validMainPaths[0]);
  }

  /** A walk entry is a candidate under its own name: the tie-breaker sees
      the file name the walk reported. */
  lemma {:induction false} CandidateNamesAreFileNames(entries: seq<WalkEntry>, e: WalkEntry)
    requires e in entries && IsMainCandidate(e) && Lacks(e.name, '/')
    ensures PathJoin(e.root, e.name) in Candidates(entries)
    ensures Basename(PathJoin(e.root, e.name)) == e.name
  {
    CandidatesHold(entries, e);
    assert e.name != [] by {
      assert |e.name| >= 4;
    }
    BasenameOfJoin(e.root, e.name);
  }

  lemma {:induction false} CandidatesHold(entries: seq<WalkEntry>, e: WalkEntry)
    requires e in entries && IsMainCandidate(e)
    ensures PathJoin(e.root, e.name) in Candidates(entries)
    decreases |entries|
  {
    var init := entries[..|entries| - 1];
    if e != entries[|entries| - 1] {
      assert e in init by {
        var j :| 0 <= j < |entries| && entries[j] == e;
        assert init[j] == e;
      }
      CandidatesHold(init, e);
    }
  }

  // ---------------------------------------------------------------------
  // Comment removal
  // ---------------------------------------------------------------------

  /** The first `\n` at or after `i`, or the end of `s`. */
  function LineEnd(s: string, i: nat): (r: nat)
    requires i <= |s|
    ensures i <= r <= |s| && (r < |s| ==> s[r] == '\n')
    ensures forall k :: i <= k < r ==> s[k] != '\n'
    decreases |s| - i
  {
    if i == |s| || s[i] == '\n' then i else LineEnd(s, i + 1)
  }

  /** The end of the white-space run (`\s*`) starting at `i`. */
  function SpaceRunEnd(s: string, i: nat): (r: nat)
    requires i <= |s|
    ensures i <= r <= |s| && (r < |s| ==> !IsSpace(s[r]))
    ensures forall k :: i <= k < r ==> IsSpace(s[k])
    decreases |s| - i
  {
    if i == |s| || !IsSpace(s[i]) then i else SpaceRunEnd(s, i + 1)
  }

  /** `^` in multi-line mode. */
  predicate LineStart(s: string, i: nat)
  {
    i == 0 || (i <= |s| && s[i - 1] == '\n')
  }

  /** A `%` not preceded by a backslash. */
  predicate UnescapedPercent(s: string, i: nat)
  {
    i < |s| && s[i] == '%' && (i == 0 || s[i - 1] != '\\')
  }

  /** The pattern `^\s*(?<!\\)%.*?\n` (multi-line) tried at `i`: where the
      match ends, just after the newline closing the comment line. The
      white-space run may cross blank lines. */
  function CommentLineAt(s: string, i: nat): (r: Option<nat>)
    requires i <= |s|
    ensures r.Some? ==> i < r.value <= |s| && s[r.value - 1] == '\n'
  {
    if !LineStart(s, i) then None
    else
      var q := SpaceRunEnd(s, i);
      if UnescapedPercent(s, q) then
        var e := LineEnd(s, q);
        if e < |s| then Some(e + 1) else None
      else None
  }

  /** `re.sub` of that pattern with `""`, from `i` on. */
  function DropCommentLinesFrom(s: string, i: nat): (r: string)
    requires i <= |s|
    ensures |r| <= |s| - i
    decreases |s| - i
  {
    if i == |s| then []
    else match CommentLineAt(s, i)
      case Some(e) => DropCommentLinesFrom(s, e)
      case None => [s[i]] + DropCommentLinesFrom(s, i + 1)
  }

  /** `re.sub(r"(?<!\\)%.*?$", "", s, flags=re.MULTILINE)` from `i` on: an
      unescaped `%` and the rest of its line go, the newline stays. */
  function DropInlineCommentsFrom(s: string, i: nat): (r: string)
    requires i <= |s|
    ensures |r| <= |s| - i
    decreases |s| - i
  {
    if i == |s| then []
    else if UnescapedPercent(s, i) then DropInlineCommentsFrom(s, LineEnd(s, i))
    else [s[i]] + DropInlineCommentsFrom(s, i + 1)
  }

  /** The `remove_comments` step: whole comment lines first, then the
      comments that end the remaining lines. */
  function RemoveComments(s: string): string
  {
    DropInlineCommentsFrom(DropCommentLinesFrom(s, 0), 0)
  }

  /** Every `%` of `r` follows a backslash; a `%` opening `r` is allowed
      when `escaped`. */
  predicate PercentsEscaped(r: string, escaped: bool)
  {
    forall k {:trigger r[k]} :: 0 <= k < |r| && r[k] == '%' ==> (k > 0 && r[k - 1] == '\\') || (k == 0 && escaped)
  }

  /** Every `%` left by the inline pass is escaped; the output from `i` may
      open with a `%` only when that `%` is escaped in `s` itself. */
  lemma {:induction false} InlinePassEscapes(s: string, i: nat)
    requires i <= |s|
    ensures PercentsEscaped(DropInlineCommentsFrom(s, i), i > 0 && s[i - 1] == '\\')
    decreases |s| - i
  {
    if i < |s| {
      if UnescapedPercent(s, i) {
        var e := LineEnd(s, i);
        InlinePassEscapes(s, e);
        if e < |s| {
          assert DropInlineCommentsFrom(s, e) == [s[e]] + DropInlineCommentsFrom(s, e + 1);
        }
      } else {
        InlinePassEscapes(s, i + 1);
        var t := DropInlineCommentsFrom(s, i + 1);
        var r := [s[i]] + t;
        assert DropInlineCommentsFrom(s, i) == r;
        forall k | 0 <= k < |r| && r[k] == '%' ensures (k > 0 && r[k - 1] == '\\') || (k == 0 && i > 0 && s[i - 1] == '\\') {
          if k > 0 {
            assert r[k] == t[k - 1];
            if k > 1 {
              assert r[k - 1] == t[k - 2];
            }
          }
        }
      }
    }
  }

  /** After comment removal no unescaped `%` is left. */
  lemma {:induction false} NoCommentSurvives(s: string)
    ensures forall k :: 0 <= k < |RemoveComments(s)| ==> !UnescapedPercent(RemoveComments(s), k)
  {
    InlinePassEscapes(DropCommentLinesFrom(s, 0), 0);
  }

  /** The number of `c` in `s`. */
  function CountChar(s: string, c: char): nat
  {
    if s == [] then 0 else (if s[0] == c then 1 else 0) + CountChar(s[1..], c)
  }

  lemma {:induction false} CountCharSplit(s: string, c: char, k: nat)
    requires k <= |s|
    ensures CountChar(s, c) == CountChar(s[..k], c) + CountChar(s[k..], c)
  {
    if k > 0 {
      CountCharSplit(s[1..], c, k - 1);
      assert s[1..][..k - 1] == s[..k][1..];
      assert s[1..][k - 1..] == s[k..];
    }
  }

  lemma {:induction false} CountCharNone(s: string, c: char)
    requires Lacks(s, c)
    ensures CountChar(s, c) == 0
  {
    if s != [] {
      CountCharNone(s[1..], c);
    }
  }

  /** The inline pass keeps every newline, so the line structure stays. */
  lemma {:induction false} InlinePassKeepsLines(s: string, i: nat)
    requires i <= |s|
    ensures CountChar(DropInlineCommentsFrom(s, i), '\n') == CountChar(s[i..], '\n')
    decreases |s| - i
  {
    if i < |s| {
      if UnescapedPercent(s, i) {
        var e := LineEnd(s, i);
        InlinePassKeepsLines(s, e);
        NewlineFreeSkip(s, i, e);
      } else {
        InlinePassKeepsLines(s, i + 1);
        assert s[i..][1..] == s[i + 1..];
        assert DropInlineCommentsFrom(s, i) == [s[i]] + DropInlineCommentsFrom(s, i + 1);
        assert ([s[i]] + DropInlineCommentsFrom(s, i + 1))[1..] == DropInlineCommentsFrom(s, i + 1);
      }
    }
  }

  /** Skipping a stretch without newlines skips none. */
  lemma {:induction false} NewlineFreeSkip(s: string, i: nat, e: nat)
    requires i <= e <= |s|
    requires forall k :: i <= k < e ==> s[k] != '\n'
    ensures CountChar(s[i..], '\n') == CountChar(s[e..], '\n')
  {
    CountCharSplit(s[i..], '\n', e - i);
    assert s[i..][..e - i] == s[i..e];
    assert s[i..][e - i..] == s[e..];
    assert Lacks(s[i..e], '\n') by {
      forall k | 0 <= k < e - i ensures s[i..e][k] != '\n' {
        assert s[i..e][k] == s[i + k];
      }
    }
    CountCharNone(s[i..e], '\n');
  }

  /** Text with no comment line is left alone by the first pass. */
  lemma {:induction false} NoCommentLineUnchanged(s: string, i: nat)
    requires i <= |s|
    requires forall k :: i <= k <= |s| ==> CommentLineAt(s, k).None?
    ensures DropCommentLinesFrom(s, i) == s[i..]
    decreases |s| - i
  {
    if i < |s| {
      NoCommentLineUnchanged(s, i + 1);
      assert s[i..] == [s[i]] + s[i + 1..];
    }
  }

  /** Text without `%` is left alone by comment removal. */
  lemma {:induction false} NoPercentUnchanged(s: string)
    requires Lacks(s, '%')
    ensures RemoveComments(s) == s
  {
    forall k | 0 <= k <= |s| ensures CommentLineAt(s, k).None? {
    }
    NoCommentLineUnchanged(s, 0);
    NoInlineCommentUnchanged(s, 0);
  }

  lemma {:induction false} NoInlineCommentUnchanged(s: string, i: nat)
    requires i <= |s| && Lacks(s, '%')
    ensures DropInlineCommentsFrom(s, i) == s[i..]
    decreases |s| - i
  {
    if i < |s| {
      NoInlineCommentUnchanged(s, i + 1);
      assert s[i..] == [s[i]] + s[i + 1..];
    }
  }

  /** The first pass on an example: a comment line goes with its newline,
      and a line with text before its comment stays. */
  lemma {:induction false} CommentLineExample()
    ensures DropCommentLinesFrom("  % y\n" + "a % x\nb \\% c", 0) == "a % x\nb \\% c"
  {
    var s := "  % y\n" + "a % x\nb \\% c";
    ExampleLines(s);
    NoCommentLineUnchanged(s, 6);
  }

  lemma {:induction false} ExampleLines(s: string)
    requires s == "  % y\n" + "a % x\nb \\% c"
    ensures CommentLineAt(s, 0) == Some(6)
    ensures forall k :: 6 <= k <= |s| ==> CommentLineAt(s, k).None?
  {
    assert s[0] == ' ' && s[1] == ' ' && s[2] == '%' && s[5] == '\n';
    assert SpaceRunEnd(s, 2) == 2;
    assert SpaceRunEnd(s, 1) == 2;
    assert SpaceRunEnd(s, 0) == 2;
    assert LineEnd(s, 5) == 5;
    assert LineEnd(s, 4) == 5;
    assert LineEnd(s, 3) == 5;
    assert LineEnd(s, 2) == 5;
    assert s[6] == 'a' && s[11] == '\n' && s[12] == 'b';
    assert SpaceRunEnd(s, 6) == 6;
    assert SpaceRunEnd(s, 12) == 12;
    forall k | 6 < k < 12 ensures !LineStart(s, k) {
    }
    forall k | 12 < k <= |s| ensures !LineStart(s, k) {
    }
  }

  /** The second pass on the same example: a trailing comment goes and
      leaves its newline; an escaped `\%` stays. */
  lemma {:induction false} InlineCommentExample()
    ensures DropInlineCommentsFrom("a % x\nb \\% c", 0) == "a \nb \\% c"
  {
    var t := "a % x\nb \\% c";
    InlineExampleParts(t);
    assert DropInlineCommentsFrom(t, 1) == " " + t[5..];
    assert DropInlineCommentsFrom(t, 0) == "a" + " " + "\nb \\% c";
  }

  lemma {:induction false} InlineExampleParts(t: string)
    requires t == "a % x\nb \\% c"
    ensures LineEnd(t, 2) == 5 && t[5..] == "\nb \\% c"
    ensures DropInlineCommentsFrom(t, 5) == t[5..]
  {
    assert t[2] == '%' && t[3] == ' ' && t[4] == 'x' && t[5] == '\n';
    assert LineEnd(t, 2) == 5;
    forall k | 5 <= k < |t| ensures !UnescapedPercent(t, k) {
    }
    InlineUnchangedFrom(t, 5);
  }

  /** Comment removal on the example as a whole. */
  lemma {:induction false} CommentRemovalExample()
    ensures RemoveComments("  % y\n" + "a % x\nb \\% c") == "a \nb \\% c"
  {
    CommentLineExample();
    InlineCommentExample();
  }

  lemma {:induction false} InlineUnchangedFrom(s: string, i: nat)
    requires i <= |s|
    requires forall k :: i <= k < |s| ==> !UnescapedPercent(s, k)
    ensures DropInlineCommentsFrom(s, i) == s[i..]
    decreases |s| - i
  {
    if i < |s| {
      InlineUnchangedFrom(s, i + 1);
      assert s[i..] == [s[i]] + s[i + 1..];
    }
  }

  // ---------------------------------------------------------------------
  // Inlining of included files (`_inline_tex_files`)
  // ---------------------------------------------------------------------

  /** The file system as the inliner sees it: the readable files by path,
      `os.listdir` (`None` where it raises) and
      `os.path.normpath(os.path.join(dir, rel))`, which is not modelled. */
  datatype Files = Files(
    contents: map<string, string>,
    listing: string -> Option<seq<string>>,
    resolve: (string, string) -> string)

  /** A directive found by the scan: its braced argument and the index just
      after its closing brace. */
  datatype Directive = Directive(arg: string, end: nat)

  /** `(.*?)\}` from `p`: the text up to the first `}` on the same line. */
  function BracedArg(s: string, p: nat): (r: Option<Directive>)
    requires p <= |s|
    ensures r.Some? ==> p < r.value.end <= |s| && r.value.arg == s[p..r.value.end - 1]
    ensures r.Some? ==> Lacks(r.value.arg, '}') && Lacks(r.value.arg, '\n')
    decreases |s| - p
  {
    ArgFrom(s, p, p)
  }

  function ArgFrom(s: string, p: nat, k: nat): (r: Option<Directive>)
    requires p <= k <= |s|
    requires forall j :: p <= j < k ==> s[j] != '}' && s[j] != '\n'
    ensures r.Some? ==> k < r.value.end <= |s| && r.value.arg == s[p..r.value.end - 1]
    ensures r.Some? ==> Lacks(r.value.arg, '}') && Lacks(r.value.arg, '\n')
    decreases |s| - k
  {
    if k == |s| || s[k] == '\n' then None
    else if s[k] == '}' then Some(Directive(s[p..k], k + 1))
    else ArgFrom(s, p, k + 1)
  }

  /** The pattern `\\(?:input|include)\{(.*?)\}` at `i`. */
  function IncludeAt(s: string, i: nat): (r: Option<Directive>)
    requires i <= |s|
    ensures r.Some? ==> i < r.value.end <= |s|
    ensures r.Some? ==> OccursAt(s, "\\input{", i) || OccursAt(s, "\\include{", i)
  {
    if OccursAt(s, "\\input{", i) then BracedArg(s, i + 7)
    else if OccursAt(s, "\\include{", i) then BracedArg(s, i + 9)
    else None
  }

  /** The pattern `\\bibliography\{(.*?)\}` at `i`. */
  function BibliographyAt(s: string, i: nat): (r: Option<Directive>)
    requires i <= |s|
    ensures r.Some? ==> i < r.value.end <= |s| && OccursAt(s, "\\bibliography{", i)
  {
    if OccursAt(s, "\\bibliography{", i) then BracedArg(s, i + 14) else None
  }

  /** An include path gets `.tex` unless it already has it. */
  function WithTexSuffix(p: string): (r: string)
  {
    if EndsWith(p, ".tex") then p else p + ".tex"
  }

  lemma {:induction false} WithTexSuffixMeaning(p: string)
    ensures EndsWith(WithTexSuffix(p), ".tex")
    ensures WithTexSuffix(p) == p <==> EndsWith(p, ".tex")
    ensures StartsWith(WithTexSuffix(p), p)
  {
    var r := WithTexSuffix(p);
    assert r[..|p|] == p;
    if !EndsWith(p, ".tex") {
      assert r[|r| - 4..] == ".tex";
    }
  }

  /** The text of a file, or `""` when it cannot be read (a warning). */
  function ReadOrEmpty(fs: Files, path: string): string
  {
    if path in fs.contents then fs.contents[path] else ""
  }

  /** The names in `names` ending with `suffix`, in order. */
  function NamesEndingWith(names: seq<string>, suffix: string): (r: seq<string>)
    ensures forall n :: n in r <==> n in names && EndsWith(n, suffix)
  {
    if names == [] then []
    else (if EndsWith(names[0], suffix) then [names[0]] else []) + NamesEndingWith(names[1..], suffix)
  }

  /** The file that replaces `\bibliography{name}`: `name.bbl`, then
      `name.bib`, then the first `.bbl`, then the first `.bib` listed in
      the directory; failing all of these, `FileNotFoundError`. */
  function BibliographyText(fs: Files, dir: string, name: string): (r: Result<string, LatexError>)
  {
    var bbl := fs.resolve(dir, name + ".bbl");
    var bib := fs.resolve(dir, name + ".bib");
    if bbl in fs.contents then Success(fs.contents[bbl])
    else if bib in fs.contents then Success(fs.contents[bib])
    else match fs.listing(dir)
      case None => Failure(BibliographyNotFound)
      case Some(names) =>
        var bbls := NamesEndingWith(names, ".bbl");
        var bibs := NamesEndingWith(names, ".bib");
        var chosen := if bbls != [] then bbls[0] else if bibs != [] then bibs[0] else "";
        if bbls == [] && bibs == [] then Failure(BibliographyNotFound)
        else
          var finalPath := PathJoin(dir, chosen);
          if finalPath in fs.contents then Success(fs.contents[finalPath])
          else Failure(BibliographyNotFound)
  }

  /** `_inline_tex_files`: the file at `path` with its includes replaced by
      their own inlining one level deeper (resolved against the directory
      of the root file), its bibliographies replaced by their files
      (resolved against its own directory), and then, as asked, comments
      removed and custom commands inlined. At depth 0 or below the result
      is empty. */
  function InlineTex(fs: Files, main: string, path: string, depth: int, removeComments: bool, inlineCommands: bool): (r: Result<string, LatexError>)
    ensures depth <= 0 ==> r == Success("")
    decreases if depth > 0 then depth else 0, 1, 0
  {
    if depth <= 0 then Success("")
    else
      var content := ReadOrEmpty(fs, path);
      var inlined :- IncludesFrom(fs, main, content, 0, depth, removeComments, inlineCommands);
      var withBibliography :- BibliographiesFrom(fs, Dirname(path), inlined, 0);
      var uncommented := if removeComments then RemoveComments(withBibliography) else withBibliography;
      if inlineCommands then
        match LatexInlineCommand.Inline(uncommented)
        case Success(t) => Success(t)
        case Failure(_) => Failure(CommandError)
      else Success(uncommented)
  }

  /** `input_pattern.sub(input_replacer, content)` from `i` on; a raising
      replacement stops the substitution. */
  function IncludesFrom(fs: Files, main: string, s: string, i: nat, depth: int, removeComments: bool, inlineCommands: bool): (r: Result<string, LatexError>)
    requires i <= |s| && depth > 0
    decreases depth, 0, |s| - i
  {
    if i == |s| then Success([])
    else match IncludeAt(s, i)
      case None =>
        var rest :- IncludesFrom(fs, main, s, i + 1, depth, removeComments, inlineCommands);
        Success([s[i]] + rest)
      case Some(d) =>
        var included := fs.resolve(Dirname(main), WithTexSuffix(d.arg));
        var inner :- InlineTex(fs, main, included, depth - 1, removeComments, inlineCommands);
        var rest :- IncludesFrom(fs, main, s, d.end, depth, removeComments, inlineCommands);
        Success(inner + rest)
  }

  /** `bib_pattern.sub(bib_replacer, content)` from `i` on. */
  function BibliographiesFrom(fs: Files, dir: string, s: string, i: nat): (r: Result<string, LatexError>)
    requires i <= |s|
    decreases |s| - i
  {
    if i == |s| then Success([])
    else match BibliographyAt(s, i)
      case None =>
        var rest :- BibliographiesFrom(fs, dir, s, i + 1);
        Success([s[i]] + rest)
      case Some(d) =>
        var text :- BibliographyText(fs, dir, d.arg);
        var rest :- BibliographiesFrom(fs, dir, s, d.end);
        Success(text + rest)
  }

  /** `inline_tex_files`: the root file is also the first file read. */
  function InlineTexFiles(fs: Files, main: string, maxDepth: int, removeComments: bool, inlineCommands: bool): Result<string, LatexError>
  {
    InlineTex(fs, main, main, maxDepth, removeComments, inlineCommands)
  }

  /** Text without include directives is copied by the include pass. */
  lemma {:induction false} NoIncludeUnchanged(fs: Files, main: string, s: string, i: nat, depth: int, removeComments: bool, inlineCommands: bool)
    requires i <= |s| && depth > 0
    requires forall k :: i <= k ==> !OccursAt(s, "\\input{", k) && !OccursAt(s, "\\include{", k)
    ensures IncludesFrom(fs, main, s, i, depth, removeComments, inlineCommands) == Success(s[i..])
    decreases |s| - i
  {
    if i < |s| {
      NoIncludeUnchanged(fs, main, s, i + 1, depth, removeComments, inlineCommands);
      assert s[i..] == [s[i]] + s[i + 1..];
    }
  }

  /** Text without bibliography directives is copied by the bibliography
      pass. */
  lemma {:induction false} NoBibliographyUnchanged(fs: Files, dir: string, s: string, i: nat)
    requires i <= |s|
    requires forall k :: i <= k ==> !OccursAt(s, "\\bibliography{", k)
    ensures BibliographiesFrom(fs, dir, s, i) == Success(s[i..])
    decreases |s| - i
  {
    if i < |s| {
      assert BibliographyAt(s, i).None?;
      NoBibliographyUnchanged(fs, dir, s, i + 1);
      assert s[i..] == [s[i]] + s[i + 1..];
    }
  }

  /** A file with no directives, inlined with both options off, is its own
      text; an unreadable one is empty. */
  lemma {:induction false} PlainFileUnchanged(fs: Files, main: string, path: string, depth: int)
    requires depth > 0
    requires var t := ReadOrEmpty(fs, path);
      forall k :: !OccursAt(t, "\\input{", k) && !OccursAt(t, "\\include{", k) && !OccursAt(t, "\\bibliography{", k)
    ensures InlineTex(fs, main, path, depth, false, false) == Success(ReadOrEmpty(fs, path))
  {
    var t := ReadOrEmpty(fs, path);
    NoIncludeUnchanged(fs, main, t, 0, depth, false, false);
    NoBibliographyUnchanged(fs, Dirname(path), t, 0);
  }
}
