/** Python `str` operations the pipeline relies on, written out over
    `seq<char>`: `find`, `startswith`/`endswith`, `strip`, `isspace`,
    `isalpha`, `isdigit`, `join`, `split`, `replace`, `lower`/`upper`
    and decimal formatting of a non-negative integer. */
module Text {

  /** `pat` occurs in `s` starting at index `i`. */
  predicate OccursAt(s: string, pat: string, i: int)
  {
    0 <= i && i + |pat| <= |s| && s[i..i + |pat|] == pat
  }

  predicate StartsWith(s: string, pre: string)
  {
    OccursAt(s, pre, 0)
  }

  predicate EndsWith(s: string, suf: string)
  {
    |suf| <= |s| && s[|s| - |suf|..] == suf
  }

  predicate Contains(s: string, pat: string)
  {
    exists i :: 0 <= i <= |s| && OccursAt(s, pat, i)
  }

  /** Python `s.find(pat, from)`: the lowest index `>= from` at which `pat`
      occurs, or -1. */
  function Find(s: string, pat: string, from: nat): (r: int)
    ensures r == -1 || (from <= r <= |s| && OccursAt(s, pat, r))
    ensures forall k :: from <= k && (r == -1 || k < r) ==> !OccursAt(s, pat, k)
    decreases |s| + 1 - from
  {
    if from > |s| then -1
    else if OccursAt(s, pat, from) then from
    else Find(s, pat, from + 1)
  }

  lemma {:induction false} FindFoundIff(s: string, pat: string, from: nat)
    ensures Find(s, pat, from) != -1 <==> exists k :: from <= k <= |s| && OccursAt(s, pat, k)
  {
  }

  /** `find` returns `j` when `pat` occurs at `j` and nowhere in between. */
  lemma {:induction false} FindAt(s: string, pat: string, from: nat, j: nat)
    requires from <= j && OccursAt(s, pat, j)
    requires forall k :: from <= k < j ==> !OccursAt(s, pat, k)
    ensures Find(s, pat, from) == j
  {
  }

  /** A pattern is not found from `from` on when one of its characters
      does not appear there at all. */
  lemma {:induction false} MissingCharNotFound(s: string, pat: string, from: nat, i: nat)
    requires i < |pat| && from <= |s| && pat[i] !in s[from..]
    ensures Find(s, pat, from) == -1
  {
    forall k | from <= k && k + |pat| <= |s|
      ensures !OccursAt(s, pat, k)
    {
      assert s[k..k + |pat|][i] == s[k + i] == s[from..][k + i - from];
    }
  }

  /** A pattern does not occur where its first character is missing. */
  lemma {:induction false} FirstCharMismatch(s: string, pat: string, i: nat)
    requires pat != [] && i < |s| && s[i] != pat[0]
    ensures !OccursAt(s, pat, i)
  {
    if i + |pat| <= |s| {
      assert s[i..i + |pat|][0] == s[i];
    }
  }

  /** Three patterns occurring one after another make their concatenation
      occur. */
  lemma {:induction false} OccursConcat(s: string, p: string, q: string, r: string, i: nat)
    requires OccursAt(s, p, i) && OccursAt(s, q, i + |p|) && OccursAt(s, r, i + |p| + |q|)
    ensures OccursAt(s, p + q + r, i)
  {
    SliceSplit(s, i, i + |p|, i + |p| + |q|);
    SliceSplit(s, i, i + |p| + |q|, i + |p| + |q| + |r|);
  }

  /** A slice of a slice is a slice of the whole. */
  lemma {:induction false} SliceOfSlice<T>(s: seq<T>, a: nat, b: nat, c: nat, d: nat)
    requires a <= b <= |s| && c <= d <= b - a
    ensures s[a..b][c..d] == s[a + c..a + d]
  {
    var x := s[a..b];
    forall i | 0 <= i < d - c ensures x[c..d][i] == s[a + c + i] {
      assert x[c..d][i] == x[c + i];
    }
  }

  /** A slice is the two slices it is cut into. */
  lemma {:induction false} SliceSplit<T>(s: seq<T>, a: nat, b: nat, c: nat)
    requires a <= b <= c <= |s|
    ensures s[a..c] == s[a..b] + s[b..c]
  {
  }

  lemma {:induction false} SuffixSplit<T>(s: seq<T>, a: nat, b: nat)
    requires a <= b <= |s|
    ensures s[a..] == s[a..b] + s[b..]
  {
  }

  lemma {:induction false} ConcatAssoc<T>(a: seq<T>, b: seq<T>, c: seq<T>)
    ensures (a + b) + c == a + (b + c)
  {
  }

  lemma {:induction false} OccursAtByChars(s: string, pat: string, i: nat)
    requires i + |pat| <= |s|
    requires forall k :: 0 <= k < |pat| ==> s[i + k] == pat[k]
    ensures OccursAt(s, pat, i)
  {
    assert s[i..i + |pat|] == pat;
  }

  /** Python `str.isspace` on one character (ASCII and the C0 separators). */
  predicate IsSpace(c: char)
  {
    var n := c as int;
    n == 32 || 9 <= n <= 13 || 28 <= n <= 31
  }

  /** Python `str.isalpha` on one character (ASCII letters). */
  predicate IsAlpha(c: char)
  {
    'a' <= c <= 'z' || 'A' <= c <= 'Z'
  }

  predicate IsLower(c: char) { 'a' <= c <= 'z' }

  predicate IsUpper(c: char) { 'A' <= c <= 'Z' }

  /** Python `str.isdigit` on one character (ASCII digits). */
  predicate IsDigit(c: char)
  {
    '0' <= c <= '9'
  }

  predicate AllDigits(s: string)
  {
    forall i :: 0 <= i < |s| ==> IsDigit(s[i])
  }

  /** `s.strip() == ""`. */
  predicate IsBlank(s: string)
  {
    forall i :: 0 <= i < |s| ==> IsSpace(s[i])
  }

  function StripLeft(s: string): (r: string)
    ensures |r| <= |s| && r == s[|s| - |r|..]
    ensures r == [] || !IsSpace(r[0])
    ensures IsBlank(s[..|s| - |r|])
  {
    if s == [] || !IsSpace(s[0]) then s
    else
      var r := StripLeft(s[1..]);
      assert s[1..][..|s| - 1 - |r|] == s[1..|s| - |r|];
      r
  }

  function StripRight(s: string): (r: string)
    ensures |r| <= |s| && r == s[..|r|]
    ensures r == [] || !IsSpace(r[|r| - 1])
    ensures IsBlank(s[|r|..])
  {
    if s == [] || !IsSpace(s[|s| - 1]) then s
    else
      var r := StripRight(s[..|s| - 1]);
      assert s[..|s| - 1][|r|..] == s[|r|..|s| - 1];
      r
  }

  /** Python `s.strip()`. */
  function Strip(s: string): (r: string)
  {
    StripRight(StripLeft(s))
  }

  lemma {:induction false} StripEmptyIffBlank(s: string)
    ensures Strip(s) == [] <==> IsBlank(s)
  {
    var l := StripLeft(s);
    if l != [] {
      assert !IsSpace(l[0]);
      assert s[|s| - |l|] == l[0];
    } else {
      assert s[..|s| - |l|] == s;
    }
  }

  lemma {:induction false} StripHasNoOuterSpace(s: string)
    ensures var r := Strip(s); r == [] || (!IsSpace(r[0]) && !IsSpace(r[|r| - 1]))
  {
    var l := StripLeft(s);
    var r := StripRight(l);
    if r != [] {
      assert r[0] == l[0];
    }
  }

  /** `"".join`-style concatenation with a separator. */
  function Join(parts: seq<string>, sep: string): (r: string)
    ensures parts == [] ==> r == []
    ensures |parts| == 1 ==> r == parts[0]
  {
    if parts == [] then []
    else if |parts| == 1 then parts[0]
    else parts[0] + sep + Join(parts[1..], sep)
  }

  lemma {:induction false} JoinSnoc(parts: seq<string>, p: string, sep: string)
    requires parts != []
    ensures Join(parts + [p], sep) == Join(parts, sep) + sep + p
  {
    if |parts| > 1 {
      assert (parts + [p])[1..] == parts[1..] + [p];
      JoinSnoc(parts[1..], p, sep);
    }
  }

  /** Joining splits at any inner index. */
  lemma {:induction false} JoinSplit(parts: seq<string>, j: nat, sep: string)
    requires 0 < j < |parts|
    ensures Join(parts, sep) == Join(parts[..j], sep) + sep + Join(parts[j..], sep)
  {
    if j > 1 {
      JoinSplit(parts[1..], j - 1, sep);
      assert parts[1..][..j - 1] == parts[..j][1..];
      assert parts[1..][j - 1..] == parts[j..];
    }
  }

  function Concat(parts: seq<string>): (r: string)
    ensures |r| == SumLengths(parts)
  {
    if parts == [] then [] else parts[0] + Concat(parts[1..])
  }

  function SumLengths(parts: seq<string>): nat
  {
    if parts == [] then 0 else |parts[0]| + SumLengths(parts[1..])
  }

  lemma {:induction false} ConcatAppend(parts: seq<string>, p: string)
    ensures Concat(parts + [p]) == Concat(parts) + p
  {
    if parts != [] {
      assert (parts + [p])[1..] == parts[1..] + [p];
      ConcatAppend(parts[1..], p);
    }
  }

  /** Python `s.split(sep)` for a non-empty separator. */
  function Split(s: string, sep: string): (r: seq<string>)
    requires |sep| > 0
    ensures |r| >= 1
    ensures Join(r, sep) == s
    decreases |s|
  {
    var k := Find(s, sep, 0);
    if k == -1 then [s]
    else
      var rest := Split(s[k + |sep|..], sep);
      assert s == s[..k] + sep + s[k + |sep|..];
      [s[..k]] + rest
  }

  /** Python `s.replace(pat, rep)` for a non-empty pattern. */
  function ReplaceAll(s: string, pat: string, rep: string): (r: string)
    requires |pat| > 0
    ensures Find(s, pat, 0) == -1 ==> r == s
    decreases |s|
  {
    var k := Find(s, pat, 0);
    if k == -1 then s
    else s[..k] + rep + ReplaceAll(s[k + |pat|..], pat, rep)
  }

  /** A one-character pattern occurs at `i` exactly where that character is. */
  lemma {:induction false} OccursChar(s: string, pat: string, i: nat)
    requires |pat| == 1 && i < |s|
    ensures OccursAt(s, pat, i) <==> s[i] == pat[0]
  {
    assert s[i..i + 1][0] == s[i];
    if s[i] == pat[0] {
      assert s[i..i + 1] == pat;
    }
  }

  /** `find` of a one-character pattern fails exactly when the character is
      absent. */
  lemma {:induction false} FindCharNone(s: string, pat: string)
    requires |pat| == 1
    ensures Find(s, pat, 0) == -1 <==> forall i :: 0 <= i < |s| ==> s[i] != pat[0]
  {
    forall i | 0 <= i < |s| ensures OccursAt(s, pat, i) <==> s[i] == pat[0] {
      OccursChar(s, pat, i);
    }
  }

  /** `c` appears nowhere in `s`. */
  predicate Lacks(s: string, c: char)
  {
    forall i :: 0 <= i < |s| ==> s[i] != c
  }

  lemma {:induction false} LacksConcat(a: string, b: string, d: string, c: char)
    requires Lacks(a, c) && Lacks(b, c) && Lacks(d, c)
    ensures Lacks(a + b + d, c)
  {
    var r := a + b + d;
    forall i | 0 <= i < |r| ensures r[i] != c {
      if i < |a| {
        assert r[i] == a[i];
      } else if i < |a| + |b| {
        assert r[i] == b[i - |a|];
      } else {
        assert r[i] == d[i - |a| - |b|];
      }
    }
  }

  lemma {:induction false} ReplaceAllLacks(s: string, pat: string, rep: string)
    requires |pat| == 1 && Lacks(rep, pat[0])
    ensures Lacks(ReplaceAll(s, pat, rep), pat[0])
    decreases |s|
  {
    var k := Find(s, pat, 0);
    if k == -1 {
      FindCharNone(s, pat);
    } else {
      var tail := ReplaceAll(s[k + 1..], pat, rep);
      assert ReplaceAll(s, pat, rep) == s[..k] + rep + tail;
      ReplaceAllLacks(s[k + 1..], pat, rep);
      forall i | 0 <= i < k ensures s[..k][i] != pat[0] {
        OccursChar(s, pat, i);
      }
      LacksConcat(s[..k], rep, tail, pat[0]);
    }
  }

  /** Replacing every occurrence of a character by a text without it
      leaves none. */
  lemma {:induction false} ReplaceAllRemoves(s: string, pat: string, rep: string)
    requires |pat| == 1 && Find(rep, pat, 0) == -1
    ensures Find(ReplaceAll(s, pat, rep), pat, 0) == -1
  {
    FindCharNone(rep, pat);
    ReplaceAllLacks(s, pat, rep);
    FindCharNone(ReplaceAll(s, pat, rep), pat);
  }

  function LowerChar(c: char): char
  {
    if IsUpper(c) then (c as int + 32) as char else c
  }

  function UpperChar(c: char): char
  {
    if IsLower(c) then (c as int - 32) as char else c
  }

  /** Python `s.lower()` restricted to ASCII letters. */
  function Lower(s: string): (r: string)
    ensures |r| == |s|
    ensures forall i :: 0 <= i < |s| ==> r[i] == LowerChar(s[i])
  {
    if s == [] then [] else [LowerChar(s[0])] + Lower(s[1..])
  }

  function DigitChar(d: nat): char
    requires d < 10
  {
    ('0' as int + d) as char
  }

  /** Python `str(n)` for a non-negative integer. */
  function NatToString(n: nat): (r: string)
    ensures |r| >= 1 && AllDigits(r)
    ensures n >= 10 ==> r[0] != '0'
    decreases n
  {
    if n < 10 then [DigitChar(n)] else NatToString(n / 10) + [DigitChar(n % 10)]
  }

  function DigitsValue(s: string): nat
    requires AllDigits(s)
  {
    if s == [] then 0 else DigitsValue(s[..|s| - 1]) * 10 + (s[|s| - 1] as int - '0' as int)
  }

  lemma {:induction false} NatToStringValue(n: nat)
    ensures DigitsValue(NatToString(n)) == n
    decreases n
  {
    if n >= 10 {
      NatToStringValue(n / 10);
      var r := NatToString(n);
      assert r[..|r| - 1] == NatToString(n / 10);
    }
  }

  /** Decimal formatting is injective: distinct counters give distinct ids. */
  lemma {:induction false} NatToStringInjective(a: nat, b: nat)
    requires NatToString(a) == NatToString(b)
    ensures a == b
  {
    NatToStringValue(a);
    NatToStringValue(b);
  }

  /** Splitting a join on a one-character separator the words lack gives
      the words back. */
  lemma {:induction false} SplitJoin(ws: seq<string>, sep: string)
    requires |sep| == 1 && ws != []
    requires forall i :: 0 <= i < |ws| ==> Lacks(ws[i], sep[0])
    ensures Split(Join(ws, sep), sep) == ws
    decreases |ws|
  {
    var s := Join(ws, sep);
    if |ws| == 1 {
      FindCharNone(s, sep);
    } else {
      var w := ws[0];
      assert s == w + sep + Join(ws[1..], sep);
      forall k | 0 <= k < |w| ensures !OccursAt(s, sep, k) {
        OccursChar(s, sep, k);
      }
      assert OccursAt(s, sep, |w|) by {
        assert s[|w|..|w| + 1] == sep;
      }
      FindAt(s, sep, 0, |w|);
      assert s[..|w|] == w;
      assert s[|w| + 1..] == Join(ws[1..], sep);
      SplitJoin(ws[1..], sep);
    }
  }

  /** No piece of a split on a one-character separator holds the separator. */
  lemma {:induction false} SplitPiecesLack(s: string, sep: string)
    requires |sep| == 1
    ensures forall i :: 0 <= i < |Split(s, sep)| ==> Lacks(Split(s, sep)[i], sep[0])
    decreases |s|
  {
    var k := Find(s, sep, 0);
    var r := Split(s, sep);
    if k == -1 {
      FindCharNone(s, sep);
    } else {
      SplitPiecesLack(s[k + 1..], sep);
      forall m | 0 <= m < k ensures s[m] != sep[0] {
        OccursChar(s, sep, m);
      }
      assert r == [s[..k]] + Split(s[k + 1..], sep);
      forall i | 0 < i < |r| ensures Lacks(r[i], sep[0]) {
        assert r[i] == Split(s[k + 1..], sep)[i - 1];
      }
    }
  }

  /** A pattern does not occur where any of its characters is missing. */
  lemma {:induction false} MismatchAt(s: string, pat: string, i: nat, k: nat)
    requires k < |pat| && i + k < |s| && s[i + k] != pat[k]
    ensures !OccursAt(s, pat, i)
  {
    if i + |pat| <= |s| {
      assert s[i..i + |pat|][k] == s[i + k];
    }
  }

  /** Text with no space at either end is its own strip. */
  lemma {:induction false} StripUnchanged(s: string)
    requires s == [] || (!IsSpace(s[0]) && !IsSpace(s[|s| - 1]))
    ensures Strip(s) == s
  {
  }

  /** Replacing one character by one character works position by
      position. */
  lemma {:induction false} ReplaceCharPointwise(s: string, pat: string, rep: string)
    requires |pat| == 1 && |rep| == 1
    ensures |ReplaceAll(s, pat, rep)| == |s|
    ensures forall i :: 0 <= i < |s| ==>
      ReplaceAll(s, pat, rep)[i] == (if s[i] == pat[0] then rep[0] else s[i])
    decreases |s|
  {
    var k := Find(s, pat, 0);
    var r := ReplaceAll(s, pat, rep);
    if k == -1 {
      FindCharNone(s, pat);
    } else {
      var tail := ReplaceAll(s[k + 1..], pat, rep);
      ReplaceCharPointwise(s[k + 1..], pat, rep);
      assert r == s[..k] + rep + tail;
      OccursChar(s, pat, k);
      forall i | 0 <= i < |s|
        ensures r[i] == (if s[i] == pat[0] then rep[0] else s[i])
      {
        if i < k {
          OccursChar(s, pat, i);
        } else if i > k {
          assert r[i] == tail[i - k - 1];
          assert s[i] == s[k + 1..][i - k - 1];
        }
      }
    }
  }
}
