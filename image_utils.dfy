/** Matching an image reference from the LaTeX source against a file path
    found on disk (`check_target_in_path`). */
module ImageUtils {
  import opened Text
  import opened PosixPath

  /** One character of the normalised path. */
  function SlashChar(c: char): char
  {
    if c == '\\' then '/' else c
  }

  /** Backslashes become forward slashes, character by character. */
  function NormalizeSeparators(s: string): (r: string)
    ensures |r| == |s| && Lacks(r, '\\')
  {
    seq(|s|, i requires 0 <= i < |s| => SlashChar(s[i]))
  }

  /** The normalisation is `str.replace("\\", "/")`: with a one-character
      pattern, replacing every occurrence is a character-wise map. */
  lemma {:induction false} NormalizeIsReplace(s: string)
    ensures NormalizeSeparators(s) == ReplaceAll(s, "\\", "/")
  {
    ReplaceCharPointwise(s, "\\", "/");
  }

  /** No `/` and no `.`: what `[^/.]` accepts. */
  predicate ExtensionChars(s: string)
  {
    forall i :: 0 <= i < |s| ==> s[i] != '/' && s[i] != '.'
  }

  /** What may follow the target: `$` alone (end of text, or a final
      newline), or, when an extension is allowed, `\.[^/.]+$`. A newline
      is itself in `[^/.]`, so an extension may end with one. */
  predicate TailMatches(rest: string, allowExtension: bool)
  {
    rest == [] || rest == "\n"
      || (allowExtension && |rest| >= 2 && rest[0] == '.' && ExtensionChars(rest[1..]))
  }

  /** `(^|/)<target>(\.[^/.]+)?$` matches with the target at `p`. */
  predicate MatchAt(path: string, target: string, p: nat, allowExtension: bool)
  {
    (p == 0 || (p <= |path| && path[p - 1] == '/'))
      && OccursAt(path, target, p)
      && TailMatches(path[p + |target|..], allowExtension)
  }

  /** `re.search`: some start at or after `from` matches. */
  function SearchFrom(path: string, target: string, allowExtension: bool, from: nat): (r: bool)
    ensures r <==> exists p :: from <= p && MatchAt(path, target, p, allowExtension)
    decreases |path| + 1 - from
  {
    if from > |path| then false
    else MatchAt(path, target, from, allowExtension) || SearchFrom(path, target, allowExtension, from + 1)
  }

  /** A target whose base name has no `.` may be followed by an extension. */
  predicate AllowsExtension(target: string)
  {
    Lacks(Basename(target), '.')
  }

  /** `check_target_in_path`: separators normalised, then the target must
      end the path as whole path components. */
  function CheckTargetInPath(fullPath: string, target: string): (r: bool)
  {
    var path := NormalizeSeparators(fullPath);
    var t := NormalizeSeparators(target);
    SearchFrom(path, t, AllowsExtension(t), 0)
  }

  // ---------------------------------------------------------------------
  // Properties
  // ---------------------------------------------------------------------

  lemma {:induction false} NormalizeIdempotent(s: string)
    ensures NormalizeSeparators(NormalizeSeparators(s)) == NormalizeSeparators(s)
  {
  }

  lemma {:induction false} NormalizeConcat(a: string, b: string)
    ensures NormalizeSeparators(a + b) == NormalizeSeparators(a) + NormalizeSeparators(b)
  {
    var l := NormalizeSeparators(a + b);
    var r := NormalizeSeparators(a) + NormalizeSeparators(b);
    var na, nb := NormalizeSeparators(a), NormalizeSeparators(b);
    assert |l| == |r|;
    forall i | 0 <= i < |l| ensures l[i] == r[i] {
      if i < |a| {
        assert (a + b)[i] == a[i];
        assert r[i] == na[i];
      } else {
        assert (a + b)[i] == b[i - |a|];
        assert r[i] == nb[i - |a|];
      }
    }
  }

  lemma {:induction false} NormalizeNoBackslash(s: string)
    requires Lacks(s, '\\')
    ensures NormalizeSeparators(s) == s
  {
  }

  /** Only the normalised inputs matter: Windows and POSIX spellings of
      the same paths give the same answer. */
  lemma {:induction false} SeparatorsDoNotMatter(fullPath: string, target: string)
    ensures CheckTargetInPath(fullPath, target)
      == CheckTargetInPath(NormalizeSeparators(fullPath), NormalizeSeparators(target))
  {
    NormalizeIdempotent(fullPath);
    NormalizeIdempotent(target);
  }

  /** A match is the target as whole trailing components of the path:
      at the start or after a `/`, followed only by what `TailMatches`
      allows. */
  lemma {:induction false} MatchMeaning(fullPath: string, target: string)
    ensures var path, t := NormalizeSeparators(fullPath), NormalizeSeparators(target);
      (CheckTargetInPath(fullPath, target) <==> exists p :: MatchAt(path, t, p, AllowsExtension(t)))
  {
  }

  /** A target with an extension must end the path exactly (up to the
      final newline `$` lets through), right after a `/` or at the start,
      so `my_c.png` and `c.pngg` do not match `c.png`. */
  lemma {:induction false} ExtensionTargetEndsPath(fullPath: string, target: string)
    requires !AllowsExtension(NormalizeSeparators(target))
    requires CheckTargetInPath(fullPath, target)
    ensures var path, t := NormalizeSeparators(fullPath), NormalizeSeparators(target);
      exists p: nat :: p <= |path| && (p == 0 || path[p - 1] == '/')
        && (path[p..] == t || path[p..] == t + "\n")
  {
    var path, t := NormalizeSeparators(fullPath), NormalizeSeparators(target);
    var p: nat :| MatchAt(path, t, p, false);
    MatchWithoutExtension(path, t, p);
  }

  lemma {:induction false} MatchWithoutExtension(path: string, t: string, p: nat)
    requires MatchAt(path, t, p, false)
    ensures path[p..] == t || path[p..] == t + "\n"
  {
    assert path[p..] == path[p..p + |t|] + path[p + |t|..];
  }

  /** A target with an extension never matches a path without any `.`. */
  lemma {:induction false} ExtensionNeedsDot(fullPath: string, target: string)
    requires !AllowsExtension(NormalizeSeparators(target))
    requires Lacks(fullPath, '.')
    ensures !CheckTargetInPath(fullPath, target)
  {
    var path, t := NormalizeSeparators(fullPath), NormalizeSeparators(target);
    var b := Basename(t);
    BasenameIsSuffix(t);
    var j :| 0 <= j < |b| && b[j] == '.';
    var k := |t| - |b| + j;
    assert t[k] == b[j];
  }

  lemma {:induction false} BasenameIsSuffix(p: string)
    ensures EndsWith(p, Basename(p))
    decreases |p|
  {
    if p != [] && p[|p| - 1] != '/' {
      BasenameIsSuffix(p[..|p| - 1]);
    }
  }

  /** The target right after a `/`, followed by an allowed tail, matches
      there. */
  lemma {:induction false} MatchAfterSlash(d: string, t: string, rest: string, allowExtension: bool)
    requires TailMatches(rest, allowExtension)
    ensures MatchAt(d + "/" + t + rest, t, |d| + 1, allowExtension)
  {
    var path := d + "/" + t + rest;
    var p := |d| + 1;
    assert path[p - 1] == '/';
    assert path[p..p + |t|] == t;
    assert path[p + |t|..] == rest;
  }

  /** The target as the whole path matches. */
  lemma {:induction false} WholePathMatches(target: string)
    ensures CheckTargetInPath(target, target)
  {
    var t := NormalizeSeparators(target);
    assert t[0..|t|] == t;
    assert t[|t|..] == [];
    assert MatchAt(t, t, 0, AllowsExtension(t));
  }

  /** A match at any position is enough. */
  lemma {:induction false} MatchGivesCheck(fullPath: string, target: string, p: nat)
    requires var t := NormalizeSeparators(target);
      MatchAt(NormalizeSeparators(fullPath), t, p, AllowsExtension(t))
    ensures CheckTargetInPath(fullPath, target)
  {
  }

  lemma {:induction false} NormalizeSlashJoin(dir: string, target: string, rest: string)
    requires Lacks(rest, '\\')
    ensures NormalizeSeparators(dir + "/" + target + rest)
      == NormalizeSeparators(dir) + "/" + NormalizeSeparators(target) + rest
  {
    var slash: string := "/";
    NormalizeNoBackslash(slash);
    NormalizeNoBackslash(rest);
    NormalizeConcat(dir, slash);
    NormalizeConcat(dir + slash, target);
    NormalizeConcat(dir + slash + target, rest);
  }

  /** The target as the last components of a path matches. */
  lemma {:induction false} TrailingComponentsMatch(dir: string, target: string)
    ensures CheckTargetInPath(dir + "/" + target, target)
  {
    var t := NormalizeSeparators(target);
    assert dir + "/" + target + [] == dir + "/" + target;
    NormalizeSlashJoin(dir, target, []);
    MatchAfterSlash(NormalizeSeparators(dir), t, [], AllowsExtension(t));
    MatchGivesCheck(dir + "/" + target, target, |dir| + 1);
  }

  /** An extensionless target matches the same file with any extension. */
  lemma {:induction false} ExtensionMayFollow(dir: string, target: string, ext: string)
    requires AllowsExtension(NormalizeSeparators(target))
    requires ext != [] && ExtensionChars(ext) && Lacks(ext, '\\')
    ensures CheckTargetInPath(dir + "/" + target + "." + ext, target)
  {
    var t, d := NormalizeSeparators(target), NormalizeSeparators(dir);
    var rest := "." + ext;
    var full := dir + "/" + target + rest;
    assert dir + "/" + target + "." + ext == full;
    assert Lacks(rest, '\\') by {
      assert forall i :: 1 <= i < |rest| ==> rest[i] == ext[i - 1];
    }
    NormalizeSlashJoin(dir, target, rest);
    assert rest[1..] == ext;
    MatchAfterSlash(d, t, rest, true);
    assert NormalizeSeparators(full) == d + "/" + t + rest && |d| == |dir|;
    MatchGivesCheck(full, target, |dir| + 1);
  }
}
